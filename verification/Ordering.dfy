/** Key order of the ordered maps that the GPU address space keeps. */
module Ordering {

  lemma Inhabited<T>(s: set<T>) returns (x: T)
    requires s != {}
    ensures x in s
  {
    x :| x in s;
  }

  lemma {:induction false} Least(keys: set<int>) returns (least: int)
    requires keys != {}
    ensures least in keys && forall j :: j in keys ==> least <= j
  {
    var k := Inhabited(keys);
    var rest := keys - {k};
    forall j | j in keys ensures j == k || j in rest {
    }
    if rest == {} {
      least := k;
    } else {
      least := Least(rest);
      if k < least { least := k; }
    }
  }

  lemma {:induction false} Greatest(keys: set<int>) returns (greatest: int)
    requires keys != {}
    ensures greatest in keys && forall j :: j in keys ==> j <= greatest
  {
    var k := Inhabited(keys);
    var rest := keys - {k};
    forall j | j in keys ensures j == k || j in rest {
    }
    if rest == {} {
      greatest := k;
    } else {
      greatest := Greatest(rest);
      if greatest < k { greatest := k; }
    }
  }

  ghost predicate Sorted(ks: seq<int>) {
    forall i, j :: 0 <= i < j < |ks| ==> ks[i] < ks[j]
  }

  /** `ks` lists exactly `keys` in ascending order. */
  ghost predicate Lists(ks: seq<int>, keys: set<int>) {
    && Sorted(ks)
    && (forall i :: 0 <= i < |ks| ==> ks[i] in keys)
    && (forall k :: k in keys ==> k in ks)
  }

  lemma LeastExists(keys: set<int>)
    requires keys != {}
    ensures exists k :: k in keys && forall j :: j in keys ==> k <= j
  {
    var k := Least(keys);
  }

  ghost function SortedList(keys: set<int>): (ks: seq<int>)
    ensures Lists(ks, keys)
  {
    if keys == {} then []
    else
      LeastExists(keys);
      var k :| k in keys && forall j :: j in keys ==> k <= j;
      [k] + SortedList(keys - {k})
  }

  lemma ListsMember(ks: seq<int>, keys: set<int>, k: int)
    requires Lists(ks, keys) && k in keys
    ensures k in ks
  {
  }

  lemma ListsTail(ks: seq<int>, keys: set<int>)
    requires Lists(ks, keys) && ks != []
    ensures Lists(ks[1..], keys - {ks[0]})
  {
    forall k | k in keys - {ks[0]} ensures k in ks[1..] {
      var i :| 0 <= i < |ks| && ks[i] == k;
      assert ks[1..][i - 1] == k;
    }
  }

  /** There is one ascending order. */
  lemma {:induction false} ListIsUnique(ks: seq<int>, js: seq<int>, keys: set<int>)
    requires Lists(ks, keys) && Lists(js, keys)
    ensures ks == js
    decreases |ks|
  {
    if ks != [] {
      ListsMember(js, keys, ks[0]);
      ListsMember(ks, keys, js[0]);
      ListsTail(ks, keys);
      ListsTail(js, keys);
      ListIsUnique(ks[1..], js[1..], keys - {ks[0]});
    }
  }

  /** The order in which a BTreeMap visits its keys. */
  method Ascending(keys: set<int>) returns (ks: seq<int>)
    ensures Lists(ks, keys)
    ensures forall i :: 0 <= i < |ks| ==> ks[i] in keys
    ensures forall k :: k in keys ==> k in ks
    ensures forall i, j :: 0 <= i < j < |ks| ==> ks[i] < ks[j]
  {
    ks := [];
    var rest := keys;
    while rest != {}
      invariant rest <= keys
      invariant forall i :: 0 <= i < |ks| ==> ks[i] in keys
      invariant forall k :: k in keys ==> k in rest || k in ks
      invariant forall i, j :: 0 <= i < j < |ks| ==> ks[i] < ks[j]
      invariant forall i, k :: 0 <= i < |ks| && k in rest ==> ks[i] < k
      decreases rest
    {
      ghost var least := Least(rest);
      var k :| k in rest && forall j :: j in rest ==> k <= j;
      ks := ks + [k];
      rest := rest - {k};
    }
  }
}
