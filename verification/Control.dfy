/** CPU control requests as interleaved atomic operations of any number of requesting and polling
    threads: no invalidation is lost, each is consumed once, and a snapshot carries an epoch at
    least as new as every invalidation it consumed. */
module Control {
  import opened Canonical

  datatype ControlRequest = Preempt | CodeInvalidation

  datatype ControlSnapshot = ControlSnapshot(requests: set<ControlRequest>, epoch: nat)

  /** How far an invalidation request has come. A poll is named by the number of its call. */
  datatype Place = Announced | Flagged | Swapped(poll: nat) | Taken(poll: nat) | Settled

  datatype Invalidation = Invalidation(epoch: nat, place: Place)

  /** The three shared words, with the invalidations ever requested, the words swapped out by polls
      that have yet to read the epoch, and the snapshots ever taken. */
  datatype State = State(
    requests: set<ControlRequest>, epoch: nat, acknowledged: nat,
    calls: map<nat, Invalidation>, swapped: map<nat, set<ControlRequest>>, taken: map<nat, ControlSnapshot>)

  const Idle := State({}, 0, 0, map[], map[], map[])

  // ----- atomic operations -----

  function Moved(calls: map<nat, Invalidation>, here: Place, there: Place): map<nat, Invalidation> {
    map c | c in calls :: if calls[c].place == here then calls[c].(place := there) else calls[c]
  }

  datatype Action =
    | Announce(call: nat, epoch: nat)
    | Flag(call: nat)
    | Raise(request: ControlRequest)
    | Swap(poll: nat)
    | Load(poll: nat)
    | Acknowledge(poll: nat)
    | AcknowledgeEpoch(epoch: nat)

  ghost predicate Enabled(s: State, a: Action) {
    match a
    case Announce(call, _) => call !in s.calls
    case Flag(call) => call in s.calls && s.calls[call].place == Announced
    case Swap(poll) => poll !in s.swapped && poll !in s.taken
    case Load(poll) => poll in s.swapped && poll !in s.taken
    case Acknowledge(poll) => poll in s.taken
    case _ => true
  }

  ghost function Step(s: State, a: Action): State
    requires Enabled(s, a)
  {
    match a
    case Announce(call, epoch) =>
      s.(epoch := Max(s.epoch, epoch), calls := s.calls[call := Invalidation(epoch, Announced)])
    case Flag(call) =>
      s.(requests := s.requests + {CodeInvalidation}, calls := s.calls[call := s.calls[call].(place := Flagged)])
    case Raise(request) => s.(requests := s.requests + {request})
    case Swap(poll) =>
      if s.requests == {} then s
      else s.(requests := {}, swapped := s.swapped[poll := s.requests], calls := Moved(s.calls, Flagged, Swapped(poll)))
    case Load(poll) =>
      s.(swapped := s.swapped - {poll}, taken := s.taken[poll := ControlSnapshot(s.swapped[poll], s.epoch)],
         calls := Moved(s.calls, Swapped(poll), Taken(poll)))
    case Acknowledge(poll) =>
      if CodeInvalidation in s.taken[poll].requests then
        s.(acknowledged := Max(s.acknowledged, s.taken[poll].epoch), calls := Moved(s.calls, Taken(poll), Settled))
      else s
    case AcknowledgeEpoch(epoch) => s.(acknowledged := Max(s.acknowledged, epoch))
  }

  // ----- what every operation keeps -----

  /** An invalidation announced an epoch, and is then visible wherever it has come to. */
  ghost predicate Tracked(s: State, i: Invalidation) {
    && i.epoch <= s.epoch
    && match i.place
       case Announced => true
       case Flagged => CodeInvalidation in s.requests
       case Swapped(poll) => poll in s.swapped && CodeInvalidation in s.swapped[poll]
       case Taken(poll) =>
         poll in s.taken && CodeInvalidation in s.taken[poll].requests && i.epoch <= s.taken[poll].epoch
       case Settled => i.epoch <= s.acknowledged
  }

  ghost predicate Ordered(s: State) {
    forall c :: c in s.calls ==> Tracked(s, s.calls[c])
  }

  lemma TrackedStep(s: State, a: Action, c: nat)
    requires Ordered(s) && Enabled(s, a) && c in Step(s, a).calls
    ensures Tracked(Step(s, a), Step(s, a).calls[c])
  {
    if c in s.calls { assert Tracked(s, s.calls[c]); }
  }

  lemma OrderedStep(s: State, a: Action)
    requires Ordered(s) && Enabled(s, a)
    ensures Ordered(Step(s, a))
    ensures s.epoch <= Step(s, a).epoch && s.acknowledged <= Step(s, a).acknowledged
  {
    forall c | c in Step(s, a).calls ensures Tracked(Step(s, a), Step(s, a).calls[c]) {
      TrackedStep(s, a, c);
    }
  }

  /** The poll that consumed an invalidation is the only one that ever has it. */
  ghost predicate Follows(i: Invalidation, j: Invalidation) {
    && i.epoch == j.epoch
    && match i.place
       case Announced => true
       case Flagged => !j.place.Announced?
       case Swapped(poll) => j.place in {Swapped(poll), Taken(poll), Settled}
       case Taken(poll) => j.place in {Taken(poll), Settled}
       case Settled => j.place == Settled
  }

  lemma FollowsStep(s: State, a: Action, c: nat)
    requires Enabled(s, a) && c in s.calls
    ensures c in Step(s, a).calls && Follows(s.calls[c], Step(s, a).calls[c])
  {
  }

  // ----- runs -----

  /** Actions that can follow one another from `s`. */
  ghost predicate Interleaving(s: State, run: seq<Action>)
    decreases |run|
  {
    run == [] || (Enabled(s, run[0]) && Interleaving(Step(s, run[0]), run[1..]))
  }

  ghost function After(s: State, run: seq<Action>): State
    requires Interleaving(s, run)
    decreases |run|
  {
    if run == [] then s else After(Step(s, run[0]), run[1..])
  }

  lemma {:induction false} OrderedRun(s: State, run: seq<Action>)
    requires Ordered(s) && Interleaving(s, run)
    ensures Ordered(After(s, run)) && s.acknowledged <= After(s, run).acknowledged
    decreases |run|
  {
    if run != [] {
      OrderedStep(s, run[0]);
      OrderedRun(Step(s, run[0]), run[1..]);
    }
  }

  /** In every interleaving a requested invalidation is acknowledged, or a requester is still about
      to flag it, or its flag is set, or the one poll that took the flag has it and will cover it. */
  lemma NothingIsLost(run: seq<Action>, call: nat)
    requires Interleaving(Idle, run) && call in After(Idle, run).calls
    ensures var s := After(Idle, run); var i := s.calls[call];
      || i.epoch <= s.acknowledged
      || i.place == Announced
      || (i.place == Flagged && CodeInvalidation in s.requests)
      || (exists poll :: poll in s.swapped && i.place == Swapped(poll) && CodeInvalidation in s.swapped[poll])
      || (exists poll :: poll in s.taken && i.place == Taken(poll) && CodeInvalidation in s.taken[poll].requests &&
                         i.epoch <= s.taken[poll].epoch)
  {
    OrderedRun(Idle, run);
    var s := After(Idle, run);
    assert Tracked(s, s.calls[call]);
    match s.calls[call].place
    case Swapped(poll) => assert poll in s.swapped;
    case Taken(poll) => assert poll in s.taken;
    case _ =>
  }

  /** A snapshot that consumed an invalidation says so and carries an epoch that covers it, so that
      acknowledging the snapshot acknowledges everything it consumed. */
  lemma SnapshotCoversRequests(run: seq<Action>, call: nat, poll: nat)
    requires Interleaving(Idle, run) && call in After(Idle, run).calls
    requires After(Idle, run).calls[call].place == Taken(poll)
    ensures var s := After(Idle, run);
      && Enabled(s, Acknowledge(poll))
      && CodeInvalidation in s.taken[poll].requests
      && s.calls[call].epoch <= s.taken[poll].epoch
      && s.calls[call].epoch <= Step(s, Acknowledge(poll)).acknowledged
  {
    OrderedRun(Idle, run);
    assert Tracked(After(Idle, run), After(Idle, run).calls[call]);
  }

  /** A request that no poll has consumed is still pending. */
  lemma UnconsumedStaysPending(run: seq<Action>, call: nat)
    requires Interleaving(Idle, run) && call in After(Idle, run).calls
    ensures After(Idle, run).calls[call].place == Flagged ==> CodeInvalidation in After(Idle, run).requests
  {
    OrderedRun(Idle, run);
    assert Tracked(After(Idle, run), After(Idle, run).calls[call]);
  }

  /** What one poll has consumed no other poll ever consumes. */
  lemma {:induction false} ConsumedOnce(s: State, run: seq<Action>, call: nat)
    requires Interleaving(s, run) && call in s.calls
    ensures call in After(s, run).calls && Follows(s.calls[call], After(s, run).calls[call])
    decreases |run|
  {
    if run != [] {
      FollowsStep(s, run[0], call);
      ConsumedOnce(Step(s, run[0]), run[1..], call);
    }
  }

  // ----- the control block -----

  class CpuControl {
    var requests: set<ControlRequest>
    var invalidationEpoch: nat
    var acknowledgedEpoch: nat
    ghost var calls: map<nat, Invalidation>
    ghost var swapped: map<nat, set<ControlRequest>>
    ghost var taken: map<nat, ControlSnapshot>

    ghost function View(): State
      reads this
    {
      State(requests, invalidationEpoch, acknowledgedEpoch, calls, swapped, taken)
    }

    ghost predicate Valid()
      reads this
    {
      Ordered(View())
    }

    constructor ()
      ensures Valid() && View() == Idle
    {
      requests, invalidationEpoch, acknowledgedEpoch := {}, 0, 0;
      calls, swapped, taken := map[], map[], map[];
    }

    /** Sets the flag of a request, for an invalidation possibly on behalf of an announced call. */
    method Request(request: ControlRequest, ghost a: Action)
      requires Valid() && Enabled(View(), a) && (a == Raise(request) || (request.CodeInvalidation? && a.Flag?))
      modifies this`requests, this`calls
      ensures Valid() && View() == Step(old(View()), a) && request in requests
    {
      OrderedStep(View(), a);
      calls := Step(View(), a).calls;
      requests := requests + {request};
    }

    /** Announces the epoch and then sets the flag. */
    method RequestInvalidation(epoch: nat, ghost call: nat)
      requires Valid() && call !in calls
      modifies this`requests, this`invalidationEpoch, this`calls
      ensures Valid() && Enabled(old(View()), Announce(call, epoch))
      ensures var announced := Step(old(View()), Announce(call, epoch));
        Enabled(announced, Flag(call)) && View() == Step(announced, Flag(call))
      ensures CodeInvalidation in requests && calls[call] == Invalidation(epoch, Flagged)
      ensures forall c :: c in old(calls) ==> c in calls && calls[c] == old(calls)[c]
    {
      OrderedStep(View(), Announce(call, epoch));
      invalidationEpoch := Max(invalidationEpoch, epoch);
      calls := calls[call := Invalidation(epoch, Announced)];
      Request(CodeInvalidation, Flag(call));
    }

    /** Swaps the flags out and then reads the epoch. The snapshot covers every invalidation whose
        flag was set. */
    method TakePending(ghost poll: nat) returns (snapshot: Option<ControlSnapshot>)
      requires Valid() && poll !in swapped && poll !in taken
      modifies this`requests, this`calls, this`swapped, this`taken
      ensures Valid() && requests == {}
      ensures snapshot.None? ==> View() == Step(old(View()), Swap(poll)) == old(View())
      ensures snapshot.Some? ==>
        && Enabled(Step(old(View()), Swap(poll)), Load(poll))
        && View() == Step(Step(old(View()), Swap(poll)), Load(poll))
        && poll in taken
        && taken[poll] == snapshot.value
      ensures forall c :: c in old(calls) && old(calls)[c].place == Flagged ==>
        && snapshot.Some?
        && CodeInvalidation in snapshot.value.requests
        && old(calls)[c].epoch <= snapshot.value.epoch
        && c in calls
        && calls[c].place == Taken(poll)
    {
      ghost var was := View();
      OrderedStep(was, Swap(poll));
      var pending := requests;
      requests := {};
      if pending == {} {
        return None;
      }
      ghost var between := Step(was, Swap(poll));
      OrderedStep(between, Load(poll));
      ghost var now := Step(between, Load(poll));
      snapshot := Some(ControlSnapshot(pending, invalidationEpoch));
      calls, swapped, taken := now.calls, now.swapped, now.taken;
      forall c | c in was.calls && was.calls[c].place == Flagged
        ensures CodeInvalidation in pending && was.calls[c].epoch <= invalidationEpoch
        ensures c in calls && calls[c].place == Taken(poll)
      {
        assert Tracked(was, was.calls[c]);
        assert between.calls[c].place == Swapped(poll);
      }
    }

    /** Acknowledges a snapshot. All that it consumed is acknowledged from then on. */
    method AcknowledgeSnapshot(snapshot: ControlSnapshot, ghost poll: nat)
      requires Valid() && poll in taken && taken[poll] == snapshot
      modifies this`acknowledgedEpoch, this`calls
      ensures Valid() && View() == Step(old(View()), Acknowledge(poll))
      ensures forall c :: c in old(calls) && old(calls)[c].place == Taken(poll) ==> Acknowledged(old(calls)[c].epoch)
      ensures forall e: nat :: Acknowledged(e) <==>
        old(Acknowledged(e)) || (CodeInvalidation in snapshot.requests && e <= snapshot.epoch)
    {
      ghost var was := View();
      OrderedStep(was, Acknowledge(poll));
      if CodeInvalidation in snapshot.requests {
        acknowledgedEpoch := Max(acknowledgedEpoch, snapshot.epoch);
        calls := Moved(calls, Taken(poll), Settled);
      }
      forall c | c in was.calls && was.calls[c].place == Taken(poll) ensures Acknowledged(was.calls[c].epoch) {
        assert Tracked(was, was.calls[c]);
      }
    }

    /** Acknowledges an epoch and everything before it. */
    method AcknowledgeInvalidation(epoch: nat)
      requires Valid()
      modifies this`acknowledgedEpoch
      ensures Valid() && View() == Step(old(View()), AcknowledgeEpoch(epoch))
      ensures forall e: nat :: Acknowledged(e) <==> old(Acknowledged(e)) || e <= epoch
    {
      OrderedStep(View(), AcknowledgeEpoch(epoch));
      acknowledgedEpoch := Max(acknowledgedEpoch, epoch);
    }

    predicate Acknowledged(epoch: nat)
      reads this
    {
      epoch <= acknowledgedEpoch
    }
  }
}
