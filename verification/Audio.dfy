/** The PCM playback queue that a device callback drains and a service fills. */
module Audio {
  import opened Canonical

  type Sample = n: int | -0x8000 <= n < 0x8000

  datatype Layout = Stereo | Surround51

  predicate Whole(layout: Layout, n: nat) {
    if layout.Stereo? then n % 2 == 0 else n % 6 == 0
  }

  function Frames(layout: Layout, n: nat): nat {
    if layout.Stereo? then n / 2 else n / 6
  }

  lemma WholePairs(n: nat)
    ensures 0 <= n / 2 * 2 <= n && n / 2 * 2 % 2 == 0 && n / 2 * 2 / 2 == n / 2
  {
  }

  lemma WholeSextets(n: nat)
    ensures 0 <= n / 6 * 6 <= n && n / 6 * 6 % 6 == 0 && n / 6 * 6 / 6 == n / 6
  {
    var q := n / 6;
    assert q * 6 % 6 == 0;
    assert q * 6 / 6 == q;
  }

  /** The samples of the whole frames that fit. */
  function WholeSamples(layout: Layout, n: nat): (m: nat)
    ensures m <= n && Whole(layout, m) && Frames(layout, m) == Frames(layout, n)
  {
    WholePairs(n);
    WholeSextets(n);
    if layout.Stereo? then n / 2 * 2 else n / 6 * 6
  }

  datatype Buffer = Buffer(tag: U64, samples: seq<Sample>, cursor: nat) {
    predicate Valid(layout: Layout) {
      cursor <= |samples| && Whole(layout, |samples|) && Whole(layout, cursor)
    }

    function Rest(): seq<Sample>
      requires cursor <= |samples|
    {
      samples[cursor..]
    }
  }

  ghost predicate AllValid(layout: Layout, buffers: seq<Buffer>) {
    forall i :: 0 <= i < |buffers| ==> buffers[i].Valid(layout)
  }

  predicate InBounds(buffers: seq<Buffer>) {
    forall i :: 0 <= i < |buffers| ==> buffers[i].cursor <= |buffers[i].samples|
  }

  function Tags(buffers: seq<Buffer>): (tags: seq<U64>)
    ensures |tags| == |buffers|
  {
    seq(|buffers|, i requires 0 <= i < |buffers| => buffers[i].tag)
  }

  /** Every sample still to be played, in order. */
  function Pending(queued: seq<Buffer>): seq<Sample>
    requires InBounds(queued)
  {
    if queued == [] then [] else queued[0].Rest() + Pending(queued[1..])
  }

  function Saturate(n: nat): U64 {
    if n < U64_LIMIT then n else U64_LIMIT - 1
  }

  // ----- draining the queue -----

  datatype Drained = Drained(queued: seq<Buffer>, released: seq<Buffer>, output: seq<Sample>)

  /** Plays up to `n` samples: buffers are released as they run out. */
  function Drain(queued: seq<Buffer>, n: nat): (d: Drained)
    requires InBounds(queued)
    ensures InBounds(d.queued)
    decreases |queued|
  {
    if n == 0 || queued == [] then Drained(queued, [], [])
    else
      var b := queued[0];
      var count := Min(|b.samples| - b.cursor, n);
      var played := b.(cursor := b.cursor + count);
      var part := b.samples[b.cursor..b.cursor + count];
      if played.cursor == |played.samples| then
        var rest := Drain(queued[1..], n - count);
        Drained(rest.queued, [played] + rest.released, part + rest.output)
      else Drained([played] + queued[1..], [], part)
  }

  lemma DrainNone(queued: seq<Buffer>, n: nat)
    requires InBounds(queued) && (n == 0 || queued == [])
    ensures Drain(queued, n) == Drained(queued, [], [])
  {
  }

  /** A buffer that runs out is released. */
  lemma DrainFirst(queued: seq<Buffer>, n: nat, left: nat, rest: Drained)
    requires InBounds(queued) && n > 0 && queued != [] && left == |queued[0].Rest()| <= n
    requires rest == Drain(queued[1..], n - left)
    ensures Drain(queued, n) ==
            Drained(rest.queued, [queued[0].(cursor := |queued[0].samples|)] + rest.released,
                    queued[0].Rest() + rest.output)
  {
    var b := queued[0];
    assert b.samples[b.cursor..b.cursor + left] == b.Rest();
  }

  /** A buffer that does not run out stays in front. */
  lemma DrainPart(queued: seq<Buffer>, n: nat)
    requires InBounds(queued) && n > 0 && queued != [] && n < |queued[0].Rest()|
    ensures Drain(queued, n) ==
            Drained([queued[0].(cursor := queued[0].cursor + n)] + queued[1..], [], queued[0].Rest()[..n])
  {
    var b := queued[0];
    assert b.samples[b.cursor..b.cursor + n] == b.Rest()[..n];
  }

  lemma TagsCons(b: Buffer, rest: seq<Buffer>)
    ensures Tags([b] + rest) == [b.tag] + Tags(rest)
  {
  }

  lemma TagsAppend(x: seq<Buffer>, y: seq<Buffer>)
    ensures Tags(x + y) == Tags(x) + Tags(y)
  {
  }

  /** Released buffers are played to the end, and together with the queue they are the old queue. */
  lemma {:induction false} DrainConserves(queued: seq<Buffer>, n: nat)
    requires InBounds(queued)
    ensures var d := Drain(queued, n);
      && Tags(d.released) + Tags(d.queued) == Tags(queued)
      && forall i :: 0 <= i < |d.released| ==> d.released[i].cursor == |d.released[i].samples|
    decreases |queued|
  {
    hide Drain, Tags;
    if n == 0 || queued == [] {
      DrainNone(queued, n);
      TagsAppend([], queued);
      assert [] + queued == queued;
    } else {
      var b, tail := queued[0], queued[1..];
      assert queued == [b] + tail;
      TagsCons(b, tail);
      var left := |b.Rest()|;
      if left <= n {
        var rest := Drain(tail, n - left);
        DrainFirst(queued, n, left, rest);
        DrainConserves(tail, n - left);
        TagsCons(b.(cursor := |b.samples|), rest.released);
        assert [b.tag] + Tags(rest.released) + Tags(rest.queued) == [b.tag] + (Tags(rest.released) + Tags(rest.queued));
      } else {
        DrainPart(queued, n);
        TagsCons(b.(cursor := b.cursor + n), tail);
        TagsAppend([], [b.(cursor := b.cursor + n)] + tail);
        assert [] + ([b.(cursor := b.cursor + n)] + tail) == [b.(cursor := b.cursor + n)] + tail;
      }
    }
  }

  lemma CutJoin<T>(x: seq<T>, y: seq<T>, k: nat, n: nat)
    requires k <= |y| && n == |x| + k
    ensures (x + y)[..n] == x + y[..k] && (x + y)[n..] == y[k..]
  {
  }

  lemma CutHead<T>(x: seq<T>, y: seq<T>, n: nat)
    requires n <= |x|
    ensures (x + y)[..n] == x[..n] && (x + y)[n..] == x[n..] + y
  {
  }

  /** Draining plays the pending samples in order and leaves the rest pending. */
  lemma {:induction false} DrainPlaysPending(queued: seq<Buffer>, n: nat)
    requires InBounds(queued)
    ensures var d, k := Drain(queued, n), Min(n, |Pending(queued)|);
      d.output == Pending(queued)[..k] && Pending(d.queued) == Pending(queued)[k..]
    decreases |queued|
  {
    hide Drain;
    if n == 0 || queued == [] {
      DrainNone(queued, n);
    } else {
      var b, tail := queued[0], queued[1..];
      var left := |b.Rest()|;
      assert Pending(queued) == b.Rest() + Pending(tail);
      if left <= n {
        var rest := Drain(tail, n - left);
        DrainFirst(queued, n, left, rest);
        DrainPlaysPending(tail, n - left);
        var k := Min(n - left, |Pending(tail)|);
        CutJoin(b.Rest(), Pending(tail), k, left + k);
      } else {
        DrainPart(queued, n);
        CutHead(b.Rest(), Pending(tail), n);
        var played := b.(cursor := b.cursor + n);
        assert ([played] + tail)[1..] == tail && played.Rest() == b.Rest()[n..];
        assert Pending([played] + tail) == played.Rest() + Pending(tail);
      }
    }
  }

  /** Draining `n` and then `m` samples is draining `n + m`. */
  lemma {:induction false} DrainInChunks(queued: seq<Buffer>, n: nat, m: nat)
    requires InBounds(queued)
    ensures var first, whole := Drain(queued, n), Drain(queued, n + m);
      var second := Drain(first.queued, m);
      && whole.queued == second.queued
      && whole.released == first.released + second.released
      && whole.output == first.output + second.output
    decreases |queued|
  {
    hide Drain;
    if n == 0 || queued == [] {
      DrainNone(queued, n);
      if queued == [] {
        DrainNone(queued, m);
        DrainNone(queued, n + m);
      }
    } else {
      var b, tail := queued[0], queued[1..];
      var left := |b.Rest()|;
      if left <= n {
        DrainInChunks(tail, n - left, m);
        DrainFirst(queued, n, left, Drain(tail, n - left));
        DrainFirst(queued, n + m, left, Drain(tail, n - left + m));
      } else {
        ChunkWithin(queued, n, m, left);
      }
    }
  }

  lemma ChunkWithin(queued: seq<Buffer>, n: nat, m: nat, left: nat)
    requires InBounds(queued) && n > 0 && queued != [] && n < left == |queued[0].Rest()|
    ensures var first, whole := Drain(queued, n), Drain(queued, n + m);
      var second := Drain(first.queued, m);
      && whole.queued == second.queued
      && whole.released == first.released + second.released
      && whole.output == first.output + second.output
  {
    hide Drain;
    var b, tail := queued[0], queued[1..];
    var played := b.(cursor := b.cursor + n);
    var q := [played] + tail;
    DrainPart(queued, n);
    assert q[1..] == tail && played.Rest() == b.Rest()[n..];
    if m == 0 {
      DrainNone(q, m);
    } else if n + m < left {
      DrainPart(queued, n + m);
      DrainPart(q, m);
      assert b.Rest()[..n] + b.Rest()[n..][..m] == b.Rest()[..n + m];
      assert played.(cursor := played.cursor + m) == b.(cursor := b.cursor + (n + m));
    } else {
      DrainFirst(queued, n + m, left, Drain(tail, n + m - left));
      DrainFirst(q, m, left - n, Drain(tail, m - (left - n)));
      assert b.Rest()[..n] + b.Rest()[n..] == b.Rest();
    }
  }

  lemma WholeParts(layout: Layout, x: nat, y: nat)
    requires Whole(layout, x) && Whole(layout, y)
    ensures Whole(layout, x + y) && Frames(layout, x + y) == Frames(layout, x) + Frames(layout, y)
    ensures y <= x ==> Whole(layout, x - y)
  {
    if layout.Stereo? { PairParts(x, y); } else { SixParts(x, y); }
  }

  lemma PairParts(x: nat, y: nat)
    requires x % 2 == 0 && y % 2 == 0
    ensures (x + y) % 2 == 0 && (x + y) / 2 == x / 2 + y / 2 && (y <= x ==> (x - y) % 2 == 0)
  {
  }

  lemma SixParts(x: nat, y: nat)
    requires x % 6 == 0 && y % 6 == 0
    ensures (x + y) % 6 == 0 && (x + y) / 6 == x / 6 + y / 6 && (y <= x ==> (x - y) % 6 == 0)
  {
    var a, b := x / 6, y / 6;
    assert x == 6 * a && y == 6 * b;
    assert x + y == 6 * (a + b) && x - y == 6 * (a - b);
  }

  lemma {:induction false} DrainKeepsFrames(layout: Layout, queued: seq<Buffer>, n: nat)
    requires InBounds(queued) && AllValid(layout, queued) && Whole(layout, n)
    ensures var d := Drain(queued, n);
      AllValid(layout, d.queued) && AllValid(layout, d.released) && Whole(layout, |d.output|)
    decreases |queued|
  {
    hide Drain, Whole;
    if n == 0 || queued == [] {
      DrainNone(queued, n);
      ZeroIsWhole(layout);
    } else {
      var b, tail := queued[0], queued[1..];
      assert b.Valid(layout);
      var left := |b.Rest()|;
      WholeParts(layout, |b.samples|, b.cursor);
      if left <= n {
        var rest := Drain(tail, n - left);
        WholeParts(layout, n, left);
        DrainKeepsFrames(layout, tail, n - left);
        DrainFirst(queued, n, left, rest);
        WholeParts(layout, left, |rest.output|);
      } else {
        DrainPart(queued, n);
        WholeParts(layout, b.cursor, n);
      }
    }
  }

  lemma ZeroIsWhole(layout: Layout)
    ensures Whole(layout, 0)
  {
  }

  // ----- the queue -----

  function Silence(n: nat): seq<Sample> {
    seq(n, _ => 0)
  }

  /** One quantum of output: what is drained, then silence. */
  function Rendered(drained: seq<Sample>, n: nat): seq<Sample>
    requires |drained| <= n
  {
    drained + Silence(n - |drained|)
  }

  /** Rendering in two quanta of whole frames gives the samples of one quantum, and leaves the
      same buffers. */
  lemma RenderInChunks(layout: Layout, queued: seq<Buffer>, n: nat, m: nat)
    requires InBounds(queued) && AllValid(layout, queued) && Whole(layout, n) && Whole(layout, m)
    ensures var first, whole := Drain(queued, n), Drain(queued, n + m);
      var second := Drain(first.queued, m);
      && |first.output| <= n && |second.output| <= m && |whole.output| <= n + m
      && Rendered(whole.output, n + m) == Rendered(first.output, n) + Rendered(second.output, m)
      && whole.queued == second.queued
      && whole.released == first.released + second.released
      && Frames(layout, |whole.output|) == Frames(layout, |first.output|) + Frames(layout, |second.output|)
  {
    hide Drain, Rendered, Frames, Whole;
    DrainInChunks(queued, n, m);
    DrainLength(queued, n);
    DrainLength(queued, n + m);
    var first := Drain(queued, n);
    DrainLength(first.queued, m);
    var second := Drain(first.queued, m);
    DrainKeepsFrames(layout, queued, n);
    DrainKeepsFrames(layout, first.queued, m);
    WholeParts(layout, |first.output|, |second.output|);
    RenderedJoin(first.output, second.output, n, m);
  }

  lemma DrainLength(queued: seq<Buffer>, n: nat)
    requires InBounds(queued)
    ensures |Drain(queued, n).output| <= n && |Drain(queued, n).output| <= |Pending(queued)|
    ensures |Drain(queued, n).output| < n ==> Pending(Drain(queued, n).queued) == []
  {
    DrainPlaysPending(queued, n);
  }

  lemma RenderedJoin(a: seq<Sample>, b: seq<Sample>, n: nat, m: nat)
    requires |a| <= n && |b| <= m && (|a| < n ==> b == [])
    ensures Rendered(a + b, n + m) == Rendered(a, n) + Rendered(b, m)
  {
  }

  datatype AudioError = IncompleteFrames | DeviceFailed(message: string)

  class AudioQueue {
    const layout: Layout
    var started: bool
    var queued: seq<Buffer>
    var released: seq<Buffer>
    var playedFrames: U64
    var failure: Option<AudioError>
    var ready: bool
    ghost var appended: seq<U64>
    ghost var collected: seq<U64>
    ghost var delivered: nat

    /** Appended tags are the collected, the released and the queued ones, in order; the frame
        count is exact until it saturates; and the ready flag says whether buffers wait to be
        collected, until a failure. */
    ghost predicate Valid()
      reads this
    {
      && InBounds(queued)
      && AllValid(layout, queued)
      && appended == collected + Tags(released) + Tags(queued)
      && playedFrames == Saturate(delivered)
      && (failure.None? ==> (ready <==> released != []))
    }

    constructor (layout: Layout)
      ensures Valid() && this.layout == layout && !started && failure.None?
      ensures queued == [] && released == [] && appended == [] && collected == [] && delivered == 0
    {
      this.layout := layout;
      started, queued, released, playedFrames, failure, ready := false, [], [], 0, None, false;
      appended, collected, delivered := [], [], 0;
    }

    /** Fills one quantum. Nothing is consumed while the queue is stopped or has failed. */
    method Render(output: array<Sample>)
      requires Valid()
      modifies this, output
      ensures Valid() && appended == old(appended) && collected == old(collected)
      ensures failure == old(failure) && started == old(started)
      ensures !started || failure.Some? ==>
        && queued == old(queued) && released == old(released) && playedFrames == old(playedFrames)
        && delivered == old(delivered)
        && output[..] == Silence(output.Length)
      ensures started && failure.None? ==>
        var d := Drain(old(queued), WholeSamples(layout, output.Length));
        && |d.output| <= output.Length
        && output[..] == Rendered(d.output, output.Length)
        && queued == d.queued
        && released == old(released) + d.released
        && delivered == old(delivered) + Frames(layout, |d.output|)
    {
      hide Drain, Tags, Rendered;
      FillSilence(output);
      if !started || failure.Some? { return; }
      var capacity, waiting := WholeSamples(layout, output.Length), |released|;
      var written := Fill(output, capacity);
      playedFrames := Saturate(playedFrames + Frames(layout, written));
      delivered := delivered + Frames(layout, written);
      if waiting < |released| { ready := true; }
      DrainConserves(old(queued), capacity);
      DrainKeepsFrames(layout, old(queued), capacity);
      ReleasedTags(old(collected), old(released), Drain(old(queued), capacity), Tags(old(queued)));
    }

    /** Moves samples to the front of a silent output, releasing buffers as they run out. */
    method Fill(output: array<Sample>, capacity: nat) returns (written: nat)
      requires InBounds(queued) && capacity <= output.Length && output[..] == Silence(output.Length)
      modifies this`queued, this`released, output
      ensures var d := Drain(old(queued), capacity);
        && written == |d.output| <= output.Length
        && output[..] == Rendered(d.output, output.Length)
        && queued == d.queued
        && released == old(released) + d.released
    {
      hide Drain, Silence;
      written := 0;
      ghost var goal := Drain(queued, capacity);
      FillStart(queued, released, output[..], capacity);
      while written < capacity && queued != []
        invariant InBounds(queued) && written <= capacity
        invariant Filling(goal, old(released), queued, released, output[..], written, capacity)
        decreases |queued|, capacity - written
      {
        var b := queued[0];
        var count := Min(|b.samples| - b.cursor, capacity - written);
        ghost var before, q, rel, at := output[..], queued, released, written;
        CopySamples(output, written, b.samples[b.cursor..b.cursor + count]);
        b := b.(cursor := b.cursor + count);
        written := written + count;
        if b.cursor == |b.samples| {
          queued := queued[1..];
          released := released + [b];
        } else {
          queued := [b] + queued[1..];
        }
        FillStep(goal, old(released), q, rel, before, at, capacity, count, b, queued, released, output[..], written);
      }
      FillDone(goal, old(released), queued, released, output[..], written, capacity);
    }

    /** The second locked region of `start`, whatever happened since the first. */
    method StartRegion() returns (r: Result<(), AudioError>)
      requires Valid()
      modifies this`started
      ensures Valid()
      ensures r == if failure.Some? then Err(failure.value) else Ok(())
      ensures started == (old(started) || failure.None?)
    {
      if failure.Some? { return Err(failure.value); }
      started := true;
      r := Ok(());
    }

    method Start() returns (r: Result<(), AudioError>)
      requires Valid()
      modifies this`started
      ensures Valid()
      ensures r == if failure.Some? then Err(failure.value) else Ok(())
      ensures r.Ok? ==> started
      ensures r.Err? ==> started == old(started)
    {
      if failure.Some? { return Err(failure.value); }
      if started { return Ok(()); }
      r := StartRegion();
    }

    /** The second locked region of `stop`, whatever happened since the first: every queued
        buffer is released unplayed. */
    method StopRegion() returns (r: Result<(), AudioError>)
      requires Valid()
      modifies this
      ensures Valid() && appended == old(appended) && collected == old(collected) && delivered == old(delivered)
      ensures failure == old(failure)
      ensures r == if failure.Some? then Err(failure.value) else Ok(())
      ensures r.Ok? ==> !started && queued == [] && released == old(released) + old(queued)
      ensures r.Err? ==> started == old(started) && queued == old(queued) && released == old(released)
    {
      if failure.Some? { return Err(failure.value); }
      hide Tags;
      started := false;
      TagsAppend(released, queued);
      ReleaseAll();
      assert collected + (Tags(old(released)) + Tags(old(queued))) == appended;
      NoTags(collected, released);
      ready := released != [];
      r := Ok(());
    }

    method ReleaseAll()
      modifies this`queued, this`released
      ensures queued == [] && released == old(released) + old(queued)
    {
      while queued != []
        invariant released + queued == old(released) + old(queued)
        decreases |queued|
      {
        assert queued == [queued[0]] + queued[1..];
        released, queued := released + [queued[0]], queued[1..];
      }
    }

    method Stop() returns (r: Result<(), AudioError>)
      requires Valid()
      modifies this
      ensures Valid() && appended == old(appended) && collected == old(collected) && delivered == old(delivered)
      ensures r == if old(failure).Some? then Err(old(failure).value) else Ok(())
      ensures r.Ok? ==> !started && released == old(released) + if old(started) then old(queued) else []
      ensures r.Ok? ==> queued == if old(started) then [] else old(queued)
    {
      if failure.Some? { return Err(failure.value); }
      if !started { return Ok(()); }
      r := StopRegion();
    }

    /** Queues a buffer of complete frames. */
    method Append(tag: U64, samples: seq<Sample>) returns (r: Result<(), AudioError>)
      requires Valid()
      modifies this`queued, this`appended
      ensures Valid()
      ensures r.Ok? <==> Whole(layout, |samples|) && failure.None?
      ensures r.Ok? ==> queued == old(queued) + [Buffer(tag, samples, 0)] && appended == old(appended) + [tag]
      ensures r.Err? ==> queued == old(queued) && appended == old(appended)
    {
      if !Whole(layout, |samples|) { return Err(IncompleteFrames); }
      if failure.Some? { return Err(failure.value); }
      var b := Buffer(tag, samples, 0);
      TagsAppend(queued, [b]);
      ZeroIsWhole(layout);
      queued := queued + [b];
      appended := appended + [tag];
      r := Ok(());
    }

    /** Collects the tags of released buffers, oldest first. */
    method Released(max: nat) returns (r: Result<seq<U64>, AudioError>)
      requires Valid()
      modifies this`released, this`ready, this`collected
      ensures Valid() && r.Ok? == failure.None?
      ensures r.Ok? ==> collected == old(collected) + r.value && r.value == Tags(old(released))[..Min(max, |old(released)|)]
      ensures r.Ok? ==> released == old(released)[|r.value|..]
      ensures r.Err? ==> released == old(released) && collected == old(collected)
    {
      if failure.Some? { return Err(failure.value); }
      var count := Min(max, |released|);
      var tags := Tags(released[..count]);
      TakeTags(collected, released, count, Tags(queued));
      released := released[count..];
      collected := collected + tags;
      ready := released != [];
      r := Ok(tags);
    }

    /** Takes back the storage of the oldest released buffer. */
    method RecycleBuffer() returns (r: Result<Option<seq<Sample>>, AudioError>)
      requires Valid()
      modifies this`released, this`ready, this`collected
      ensures Valid() && r.Ok? == failure.None?
      ensures r.Ok? ==> (r.value.None? <==> old(released) == [])
      ensures r.Ok? && r.value.Some? ==>
        && r.value.value == old(released)[0].samples
        && released == old(released)[1..]
        && collected == old(collected) + [old(released)[0].tag]
      ensures r.Err? || r.value.None? ==> released == old(released) && collected == old(collected)
    {
      if failure.Some? { return Err(failure.value); }
      if released == [] {
        ready := false;
        return Ok(None);
      }
      var b := released[0];
      TakeTags(collected, released, 1, Tags(queued));
      released := released[1..];
      collected := collected + [b.tag];
      ready := released != [];
      r := Ok(Some(b.samples));
    }

    /** A device failure wakes the consumer and is kept. */
    method Fail(error: AudioError)
      requires Valid()
      modifies this`failure, this`ready
      ensures Valid() && failure == Some(error) && ready
    {
      failure := Some(error);
      ready := true;
    }
  }

  lemma ReleasedTags(collected: seq<U64>, released: seq<Buffer>, d: Drained, queued: seq<U64>)
    requires Tags(d.released) + Tags(d.queued) == queued
    ensures collected + Tags(released + d.released) + Tags(d.queued) == collected + Tags(released) + queued
  {
    TagsAppend(released, d.released);
    var x, y, z := Tags(released), Tags(d.released), Tags(d.queued);
    assert collected + (x + y) + z == collected + x + (y + z);
  }

  lemma TakeTags(collected: seq<U64>, released: seq<Buffer>, count: nat, queued: seq<U64>)
    requires count <= |released|
    ensures Tags(released[..count]) == Tags(released)[..count]
    ensures collected + Tags(released[..count]) + Tags(released[count..]) + queued == collected + Tags(released) + queued
  {
    assert released == released[..count] + released[count..];
    TagsAppend(released[..count], released[count..]);
    var x, y := Tags(released[..count]), Tags(released[count..]);
    assert collected + x + y == collected + (x + y);
  }

  lemma NoTags(collected: seq<U64>, released: seq<Buffer>)
    ensures collected + Tags(released) + Tags([]) == collected + Tags(released)
  {
  }

  method FillSilence(output: array<Sample>)
    modifies output
    ensures output[..] == Silence(output.Length)
  {
    for i := 0 to output.Length
      invariant forall j :: 0 <= j < i ==> output[j] == 0
    {
      output[i] := 0;
    }
  }

  method CopySamples(output: array<Sample>, at: nat, samples: seq<Sample>)
    requires at + |samples| <= output.Length
    modifies output
    ensures output[..] == old(output[..at]) + samples + old(output[at + |samples|..])
  {
    for i := 0 to |samples|
      invariant output[..] == old(output[..at]) + samples[..i] + old(output[at + i..])
    {
      output[at + i] := samples[i];
    }
  }

  /** What remains to be drained continues what has been written. */
  ghost predicate Filling(
    goal: Drained, kept: seq<Buffer>, queued: seq<Buffer>, released: seq<Buffer>, output: seq<Sample>,
    written: nat, capacity: nat)
  {
    && InBounds(queued)
    && written <= capacity <= |output|
    && kept <= released
    && (forall i :: written <= i < |output| ==> output[i] == 0)
    && var rest := Drain(queued, capacity - written);
      && goal.queued == rest.queued
      && kept + goal.released == released + rest.released
      && goal.output == output[..written] + rest.output
  }

  lemma FillStart(queued: seq<Buffer>, released: seq<Buffer>, output: seq<Sample>, capacity: nat)
    requires InBounds(queued) && capacity <= |output| && output == Silence(|output|)
    ensures Filling(Drain(queued, capacity), released, queued, released, output, 0, capacity)
  {
  }

  lemma FillDone(
    goal: Drained, kept: seq<Buffer>, queued: seq<Buffer>, released: seq<Buffer>, output: seq<Sample>,
    written: nat, capacity: nat)
    requires Filling(goal, kept, queued, released, output, written, capacity)
    requires written == capacity || queued == []
    ensures written == |goal.output| && output == Rendered(goal.output, |output|)
    ensures queued == goal.queued && released == kept + goal.released
  {
    DrainNone(queued, capacity - written);
  }

  lemma FillStep(
    goal: Drained, kept: seq<Buffer>, q: seq<Buffer>, rel: seq<Buffer>, before: seq<Sample>, at: nat, capacity: nat,
    count: nat, b: Buffer, queued: seq<Buffer>, released: seq<Buffer>, output: seq<Sample>, written: nat)
    requires Filling(goal, kept, q, rel, before, at, capacity) && at < capacity && q != []
    requires count == Min(|q[0].Rest()|, capacity - at) && b == q[0].(cursor := q[0].cursor + count)
    requires written == at + count && output == before[..at] + q[0].Rest()[..count] + before[written..]
    requires if b.cursor == |b.samples| then queued == q[1..] && released == rel + [b]
             else queued == [b] + q[1..] && released == rel
    ensures Filling(goal, kept, queued, released, output, written, capacity)
  {
    hide Drain;
    var n := capacity - at;
    assert output[..written] == before[..at] + q[0].Rest()[..count];
    if b.cursor == |b.samples| {
      var rest := Drain(q[1..], n - count);
      DrainFirst(q, n, count, rest);
      assert q[0].Rest()[..count] == q[0].Rest();
      assert rel + ([b] + rest.released) == rel + [b] + rest.released;
    } else {
      DrainPart(q, n);
      DrainNone(queued, capacity - written);
    }
  }
}
