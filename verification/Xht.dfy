/**
 The string hash table of src/lib/xht.c: a fixed number of chains, each with a built-in
 first node; clearing a key leaves its node behind for any other key of the chain.
 */
module Xht {
  import opened Common

  type Key = string

  datatype Node<V> = Node(key: Option<Key>, val: Option<V>)

  // ----- one chain -----

  /** Where the key is, or the length of the chain. */
  function FindKey<V>(chain: seq<Node<V>>, k: Key): (i: nat)
    ensures i <= |chain| && (i < |chain| ==> chain[i].key == Some(k))
    ensures forall j :: 0 <= j < i ==> chain[j].key != Some(k)
  {
    if chain == [] || chain[0].key == Some(k) then 0
    else
      var i := 1 + FindKey(chain[1..], k);
      assert forall j :: 1 <= j < i ==> chain[j] == chain[1..][j - 1];
      i
  }

  function FindFree<V>(chain: seq<Node<V>>): (i: nat)
    ensures i <= |chain| && (i < |chain| ==> chain[i].val.None?)
    ensures forall j :: 0 <= j < i ==> chain[j].val.Some?
  {
    if chain == [] || chain[0].val.None? then 0
    else
      var i := 1 + FindFree(chain[1..]);
      assert forall j :: 1 <= j < i ==> chain[j] == chain[1..][j - 1];
      i
  }

  function Value<V>(chain: seq<Node<V>>, k: Key): Option<V> {
    var i := FindKey(chain, k);
    if i < |chain| then chain[i].val else None
  }

  /** The key's own node, else a node without a value, else a new one behind the first. */
  function Stored<V>(chain: seq<Node<V>>, k: Key, v: Option<V>): seq<Node<V>>
    requires chain != []
  {
    var i := FindKey(chain, k);
    var j := FindFree(chain);
    var node := Node(Some(k), v);
    if i < |chain| then chain[i := node]
    else if j < |chain| then chain[j := node]
    else [chain[0], node] + chain[1..]
  }

  ghost predicate Distinct<V>(chain: seq<Node<V>>) {
    forall i, j :: 0 <= i < j < |chain| && chain[i].key.Some? ==> chain[i].key != chain[j].key
  }

  lemma ValueAt<V>(chain: seq<Node<V>>, i: nat)
    requires Distinct(chain) && i < |chain| && chain[i].key.Some?
    ensures Value(chain, chain[i].key.value) == chain[i].val
  {
    var k := chain[i].key.value;
    var j := FindKey(chain, k);
    assert j <= i;
  }

  lemma ValueAbsent<V>(chain: seq<Node<V>>, k: Key)
    requires forall i :: 0 <= i < |chain| ==> chain[i].key != Some(k)
    ensures Value(chain, k) == None
  {
  }

  lemma StoredDistinct<V>(chain: seq<Node<V>>, k: Key, v: Option<V>)
    requires chain != [] && Distinct(chain)
    ensures Stored(chain, k, v) != [] && Distinct(Stored(chain, k, v))
    ensures exists i :: 0 <= i < |Stored(chain, k, v)| && Stored(chain, k, v)[i] == Node(Some(k), v)
  {
    var s := Stored(chain, k, v);
    var i, j := FindKey(chain, k), FindFree(chain);
    if i < |chain| {
      assert s[i] == Node(Some(k), v);
    } else if j < |chain| {
      assert s[j] == Node(Some(k), v);
    } else {
      assert s[1] == Node(Some(k), v);
      assert s[0] == chain[0] && forall m :: 2 <= m < |s| ==> s[m] == chain[m - 1];
    }
  }

  /** Storing changes the value of the one key only, whatever node it takes. */
  lemma StoredValue<V>(chain: seq<Node<V>>, k: Key, v: Option<V>, other: Key)
    requires chain != [] && Distinct(chain)
    ensures Value(Stored(chain, k, v), other) == if other == k then v else Value(chain, other)
  {
    var s := Stored(chain, k, v);
    StoredDistinct(chain, k, v);
    if other == k {
      var i :| 0 <= i < |s| && s[i] == Node(Some(k), v);
      ValueAt(s, i);
    } else {
      StoredOther(chain, k, v, other);
    }
  }

  lemma StoredOther<V>(chain: seq<Node<V>>, k: Key, v: Option<V>, other: Key)
    requires chain != [] && Distinct(chain) && other != k && Distinct(Stored(chain, k, v))
    ensures Value(Stored(chain, k, v), other) == Value(chain, other)
  {
    var s := Stored(chain, k, v);
    var i, j, m := FindKey(chain, k), FindFree(chain), FindKey(chain, other);
    if m == |chain| {
      assert forall n :: 0 <= n < |s| ==> s[n].key == Some(k) || s[n] in chain;
      ValueAbsent(s, other);
    } else if i == |chain| && j == |chain| {
      var n := if m == 0 then 0 else m + 1;
      assert s[n] == chain[m];
      ValueAt(s, n);
    } else if i == |chain| && m == j {
      assert forall n :: 0 <= n < |s| && n != j ==> s[n] == chain[n] && chain[n].key != chain[j].key;
      ValueAbsent(s, other);
    } else {
      assert s[m] == chain[m];
      ValueAt(s, m);
    }
  }

  // ----- walking -----

  type Visit<V> = (Key, V)

  function Visits<V>(chain: seq<Node<V>>): seq<Visit<V>> {
    if chain == [] then []
    else
      var n := |chain| - 1;
      var node := chain[n];
      Visits(chain[..n]) + if node.key.Some? && node.val.Some? then [(node.key.value, node.val.value)] else []
  }

  predicate NoRepeats<V>(vs: seq<Visit<V>>) {
    forall i, j :: 0 <= i < j < |vs| ==> vs[i].0 != vs[j].0
  }

  lemma {:induction false} VisitsAreNodes<V>(chain: seq<Node<V>>, x: Visit<V>)
    ensures x in Visits(chain) <==> Node(Some(x.0), Some(x.1)) in chain
  {
    if chain != [] {
      var n := |chain| - 1;
      VisitsAreNodes(chain[..n], x);
      assert chain == chain[..n] + [chain[n]];
    }
  }

  lemma {:induction false} VisitsOnce<V>(chain: seq<Node<V>>)
    requires Distinct(chain)
    ensures NoRepeats(Visits(chain))
  {
    if chain != [] {
      var n := |chain| - 1;
      VisitsOnce(chain[..n]);
      var before := Visits(chain[..n]);
      forall i | 0 <= i < |before| ensures Some(before[i].0) != chain[n].key {
        VisitsAreNodes(chain[..n], before[i]);
        var m :| 0 <= m < n && chain[..n][m] == Node(Some(before[i].0), Some(before[i].1));
        assert chain[m].key != chain[n].key;
      }
    }
  }

  // ----- the table -----

  /** In which chain a key belongs. */
  function Slot(hash: Key -> nat, prime: nat, k: Key): (i: nat)
    requires prime > 0
    ensures i < prime
  {
    hash(k) % prime
  }

  /** Every chain holds keys of its own, each once. */
  ghost predicate ChainsOk<V>(hash: Key -> nat, zen: seq<seq<Node<V>>>) {
    forall i :: 0 <= i < |zen| ==> ChainOk(hash, |zen|, zen[i], i)
  }

  ghost predicate ChainOk<V>(hash: Key -> nat, prime: nat, chain: seq<Node<V>>, i: nat) {
    && prime > 0 && chain != [] && Distinct(chain)
    && forall n :: 0 <= n < |chain| && chain[n].key.Some? ==> Slot(hash, prime, chain[n].key.value) == i
  }

  /** The table is this map. */
  ghost predicate Represents<V>(hash: Key -> nat, zen: seq<seq<Node<V>>>, bound: map<Key, V>) {
    |zen| > 0 && forall k :: Value(zen[Slot(hash, |zen|, k)], k) == if k in bound then Some(bound[k]) else None
  }

  lemma StoredOk<V>(hash: Key -> nat, prime: nat, chain: seq<Node<V>>, i: nat, k: Key, v: Option<V>)
    requires ChainOk(hash, prime, chain, i) && Slot(hash, prime, k) == i
    ensures ChainOk(hash, prime, Stored(chain, k, v), i)
  {
    hide Slot, Distinct;
    StoredDistinct(chain, k, v);
    var s := Stored(chain, k, v);
    assert forall n :: 0 <= n < |s| ==> s[n].key == Some(k) || s[n] in chain;
  }

  lemma StoredRepresents<V>(hash: Key -> nat, zen: seq<seq<Node<V>>>, bound: map<Key, V>, k: Key, v: Option<V>)
    requires ChainsOk(hash, zen) && Represents(hash, zen, bound)
    ensures var i := Slot(hash, |zen|, k);
            && ChainOk(hash, |zen|, zen[i], i)
            && ChainsOk(hash, zen[i := Stored(zen[i], k, v)])
            && Represents(hash, zen[i := Stored(zen[i], k, v)], if v.Some? then bound[k := v.value] else bound - {k})
  {
    hide Slot, Stored, Value, Distinct;
    var i := Slot(hash, |zen|, k);
    var zen' := zen[i := Stored(zen[i], k, v)];
    var bound' := if v.Some? then bound[k := v.value] else bound - {k};
    StoredOk(hash, |zen|, zen[i], i, k, v);
    forall other
      ensures Value(zen'[Slot(hash, |zen|, other)], other) == if other in bound' then Some(bound'[other]) else None
    {
      StoredValue(zen[i], k, v, other);
    }
  }

  class Table<V> {
    const hash: Key -> nat
    const zen: array<seq<Node<V>>>
    ghost var bound: map<Key, V>

    ghost predicate Valid()
      reads this, zen
    {
      zen.Length > 0 && ChainsOk(hash, zen[..]) && Represents(hash, zen[..], bound)
    }

    constructor (hash: Key -> nat, prime: nat)
      requires prime > 0
      ensures Valid() && bound == map[] && fresh(zen)
    {
      this.hash := hash;
      zen := new seq<Node<V>>[prime](_ => [Node(None, None)]);
      bound := map[];
    }

    method NodeFind(chain: seq<Node<V>>, k: Key) returns (n: nat)
      ensures n == FindKey(chain, k)
    {
      n := 0;
      while n < |chain| && chain[n].key != Some(k)
        invariant n <= |chain| && FindKey(chain, k) == n + FindKey(chain[n..], k)
      {
        assert chain[n..][1..] == chain[n + 1..];
        n := n + 1;
      }
    }

    method Set(k: Key, v: Option<V>)
      requires Valid()
      modifies this, zen
      ensures Valid() && bound == if v.Some? then old(bound)[k := v.value] else old(bound) - {k}
    {
      hide ChainsOk, Represents, ChainOk, Slot;
      var i := Slot(hash, zen.Length, k);
      StoredRepresents(hash, zen[..], bound, k, v);
      ChainNonempty(hash, zen.Length, zen[i], i);
      var chain := zen[i];
      var n := NodeFind(chain, k);
      if n == |chain| {
        n := 0;
        while n < |chain| && chain[n].val.Some?
          invariant n <= |chain| && FindFree(chain) == n + FindFree(chain[n..])
        {
          assert chain[n..][1..] == chain[n + 1..];
          n := n + 1;
        }
      }
      if n == |chain| {
        zen[i] := [chain[0], Node(None, None)] + chain[1..];
        n := 1;
      }
      zen[i] := zen[i][n := Node(Some(k), v)];
      assert zen[i] == Stored(chain, k, v);
      assert zen[..] == old(zen[..])[i := Stored(chain, k, v)];
      bound := if v.Some? then bound[k := v.value] else bound - {k};
    }

    method Get(k: Key) returns (v: Option<V>)
      requires Valid()
      ensures v == if k in bound then Some(bound[k]) else None
    {
      var chain := zen[Slot(hash, zen.Length, k)];
      var n := NodeFind(chain, k);
      assert Value(zen[..][Slot(hash, zen.Length, k)], k) == if k in bound then Some(bound[k]) else None;
      v := if n < |chain| then chain[n].val else None;
    }

    /** The calls the walker gets: every bound key with its value, and no key twice. */
    method Walk() returns (visits: seq<Visit<V>>)
      requires Valid()
      ensures NoRepeats(visits) && forall x :: x in visits <==> x.0 in bound && bound[x.0] == x.1
    {
      hide ChainsOk, Represents;
      visits := [];
      var i := 0;
      NothingVisited(zen[..]);
      while i < zen.Length
        invariant i <= zen.Length && visits == AllVisits(zen[..i])
      {
        var chain := zen[i];
        var n := 0;
        ghost var before := visits;
        assert chain[..0] == [];
        while n < |chain|
          invariant n <= |chain| && visits == before + Visits(chain[..n])
        {
          assert chain[..n + 1][..n] == chain[..n];
          if chain[n].key.Some? && chain[n].val.Some? {
            visits := visits + [(chain[n].key.value, chain[n].val.value)];
          }
          n := n + 1;
        }
        assert chain[..n] == chain;
        assert zen[..i + 1][..i] == zen[..i];
        i := i + 1;
      }
      assert zen[..i] == zen[..];
      WalkIsMap(hash, zen[..], bound);
    }
  }

  lemma ChainNonempty<V>(hash: Key -> nat, prime: nat, chain: seq<Node<V>>, i: nat)
    requires ChainOk(hash, prime, chain, i)
    ensures chain != []
  {
  }

  function AllVisits<V>(zen: seq<seq<Node<V>>>): seq<Visit<V>> {
    if zen == [] then [] else AllVisits(zen[..|zen| - 1]) + Visits(zen[|zen| - 1])
  }

  lemma NothingVisited<V>(zen: seq<seq<Node<V>>>)
    ensures AllVisits(zen[..0]) == []
  {
  }

  lemma {:induction false} AllVisitsAreNodes<V>(zen: seq<seq<Node<V>>>, x: Visit<V>)
    ensures x in AllVisits(zen) <==> exists i :: 0 <= i < |zen| && Node(Some(x.0), Some(x.1)) in zen[i]
  {
    if zen != [] {
      var n := |zen| - 1;
      AllVisitsAreNodes(zen[..n], x);
      VisitsAreNodes(zen[n], x);
    }
  }

  /** The chains from different slots share no key. */
  lemma {:induction false} AllVisitsOnce<V>(hash: Key -> nat, prime: nat, zen: seq<seq<Node<V>>>)
    requires forall i :: 0 <= i < |zen| ==> ChainOk(hash, prime, zen[i], i)
    ensures NoRepeats(AllVisits(zen))
  {
    hide Slot;
    if zen != [] {
      var n := |zen| - 1;
      var xs, ys := AllVisits(zen[..n]), Visits(zen[n]);
      AllVisitsOnce(hash, prime, zen[..n]);
      VisitsOnce(zen[n]);
      forall i, j | 0 <= i < |xs| && 0 <= j < |ys| ensures xs[i].0 != ys[j].0 {
        SlotsDiffer(hash, prime, zen, xs[i], ys[j]);
      }
    }
  }

  lemma SlotsDiffer<V>(hash: Key -> nat, prime: nat, zen: seq<seq<Node<V>>>, x: Visit<V>, y: Visit<V>)
    requires zen != [] && forall i :: 0 <= i < |zen| ==> ChainOk(hash, prime, zen[i], i)
    requires x in AllVisits(zen[..|zen| - 1]) && y in Visits(zen[|zen| - 1])
    ensures x.0 != y.0
  {
    hide Slot, Distinct, AllVisits, Visits;
    var n := |zen| - 1;
    AllVisitsAreNodes(zen[..n], x);
    VisitsAreNodes(zen[n], y);
    var m :| 0 <= m < n && Node(Some(x.0), Some(x.1)) in zen[..n][m];
    KeySlot(hash, prime, zen[m], m, x);
    KeySlot(hash, prime, zen[n], n, y);
  }

  lemma KeySlot<V>(hash: Key -> nat, prime: nat, chain: seq<Node<V>>, i: nat, x: Visit<V>)
    requires ChainOk(hash, prime, chain, i) && Node(Some(x.0), Some(x.1)) in chain
    ensures Slot(hash, prime, x.0) == i
  {
    var n :| 0 <= n < |chain| && chain[n] == Node(Some(x.0), Some(x.1));
  }

  lemma WalkIsMap<V>(hash: Key -> nat, zen: seq<seq<Node<V>>>, bound: map<Key, V>)
    requires ChainsOk(hash, zen) && Represents(hash, zen, bound)
    ensures NoRepeats(AllVisits(zen))
    ensures forall x :: x in AllVisits(zen) <==> x.0 in bound && bound[x.0] == x.1
  {
    hide AllVisits, Slot;
    AllVisitsOnce(hash, |zen|, zen);
    forall x ensures x in AllVisits(zen) <==> x.0 in bound && bound[x.0] == x.1 { VisitIsBound(hash, zen, bound, x); }
  }

  lemma VisitIsBound<V>(hash: Key -> nat, zen: seq<seq<Node<V>>>, bound: map<Key, V>, x: Visit<V>)
    requires ChainsOk(hash, zen) && Represents(hash, zen, bound)
    ensures x in AllVisits(zen) <==> x.0 in bound && bound[x.0] == x.1
  {
    hide AllVisits, Slot, Distinct, Value;
    AllVisitsAreNodes(zen, x);
    var s := Slot(hash, |zen|, x.0);
    assert ChainOk(hash, |zen|, zen[s], s);
    ValueIsNode(zen[s], x);
    if x in AllVisits(zen) {
      var i :| 0 <= i < |zen| && Node(Some(x.0), Some(x.1)) in zen[i];
      KeySlot(hash, |zen|, zen[i], i, x);
    }
  }

  lemma ValueIsNode<V>(chain: seq<Node<V>>, x: Visit<V>)
    requires Distinct(chain)
    ensures Value(chain, x.0) == Some(x.1) <==> Node(Some(x.0), Some(x.1)) in chain
  {
    if Node(Some(x.0), Some(x.1)) in chain {
      var i :| 0 <= i < |chain| && chain[i] == Node(Some(x.0), Some(x.1));
      ValueAt(chain, i);
    }
  }
}
