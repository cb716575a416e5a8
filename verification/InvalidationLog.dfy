/** The bounded log of memory changes that cached code must follow. */
module InvalidationLog {
  import opened Canonical

  const CAPACITY: nat := 1024

  datatype Kind =
    | MappingChange(space: nat, start: nat, size: nat)
    | ExecutableContent(first: nat, second: Option<nat>)
    | InstructionCache(space: nat)

  datatype Record = Record(cursor: nat, kind: Kind)

  datatype LogError =
    | CursorAhead(requested: nat, latest: nat)
    | HistoryLost(requested: nat, oldest: nat, latest: nat)
    | CursorExhausted

  function Slot(cursor: nat): (i: nat)
    requires cursor > 0
    ensures i < CAPACITY
  {
    (cursor - 1) % 1024
  }

  lemma SlotsDiffer(v: nat, w: nat)
    requires 0 < v < w && w - v < CAPACITY
    ensures Slot(v) != Slot(w)
  {
  }

  class MemoryInvalidationLog {
    var latest: U64
    var count: nat
    const records: array<Option<Record>>
    ghost var published: seq<Kind>

    /** The ring holds the most recent records, each in its slot. */
    ghost predicate Valid()
      reads this, records
    {
      && records.Length == CAPACITY
      && latest == |published|
      && count == (if latest < CAPACITY then latest else CAPACITY)
      && forall v :: 0 < v <= latest && latest - count < v ==> records[Slot(v)] == Some(Record(v, published[v - 1]))
    }

    constructor ()
      ensures Valid() && published == [] && fresh(records)
    {
      latest, count, published := 0, 0, [];
      records := new Option<Record>[1024](_ => None);
    }

    /** Publishes one change. */
    method Publish(kind: Kind) returns (r: Result<nat, LogError>)
      requires Valid()
      modifies this, records
      ensures Valid()
      ensures r.Ok? <==> old(latest) < U64_LIMIT - 1
      ensures r.Ok? ==> r.value == latest && published == old(published) + [kind]
      ensures r.Err? ==> published == old(published)
    {
      if latest == U64_LIMIT - 1 { return Err(CursorExhausted); }
      var cursor := latest + 1;
      forall v | 0 < v < cursor && cursor - v < CAPACITY ensures Slot(v) != Slot(cursor) {
        SlotsDiffer(v, cursor);
      }
      records[Slot(cursor)] := Some(Record(cursor, kind));
      count := if count < CAPACITY then count + 1 else CAPACITY;
      latest := cursor;
      published := published + [kind];
      r := Ok(cursor);
    }

    /** Publishes the changes of one atomic mutation with consecutive cursors. */
    method PublishMany(kinds: seq<Kind>) returns (r: Result<nat, LogError>)
      requires Valid()
      modifies this, records
      ensures Valid()
      ensures r.Ok? <==> old(latest) < U64_LIMIT - 1 && old(latest) + |kinds| < U64_LIMIT
      ensures r.Ok? ==> r.value == latest && published == old(published) + kinds
      ensures r.Err? ==> published == old(published)
    {
      if latest == U64_LIMIT - 1 || U64_LIMIT <= latest + |kinds| { return Err(CursorExhausted); }
      var i := 0;
      while i < |kinds|
        invariant Valid() && i <= |kinds| && published == old(published) + kinds[..i]
      {
        var one := Publish(kinds[i]);
        i := i + 1;
      }
      r := Ok(latest);
    }

    /** Every record after a cursor, or the news that some are gone. */
    method ReadSince(after: U64) returns (r: Result<seq<Kind>, LogError>)
      requires Valid()
      ensures after > latest <==> r.Err? && r.error.CursorAhead?
      ensures after <= latest && latest - after > CAPACITY <==> r.Err? && r.error.HistoryLost?
      ensures r.Ok? <==> after <= latest && latest - after <= CAPACITY
      ensures r.Ok? ==> r.value == published[after..]
    {
      if latest < after { return Err(CursorAhead(after, latest)); }
      if after == latest { return Ok([]); }
      var oldest := latest - (count - 1);
      if after + 1 < oldest { return Err(HistoryLost(after, oldest, latest)); }
      var output: seq<Kind> := [];
      for value := after + 1 to latest + 1
        invariant output == published[after..value - 1]
      {
        output := output + [records[Slot(value)].value.kind];
      }
      r := Ok(output);
    }
  }
}
