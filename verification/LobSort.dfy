/** Putting a packet's keys in order: lob_sort of src/lib/lob.c on the sort of src/util/util.c. */
module LobSort {
  import opened Js0n
  import opened JsonText
  import opened JsonHead
  import opened Lobs
  import opened Sorting

  // ----- members in the order of their keys -----

  predicate InOrder(ms: seq<Member>) {
    forall i, j :: 0 <= i < j < |ms| ==> Le(ms[i].key, ms[j].key)
  }

  function Insert(m: Member, ms: seq<Member>): seq<Member> {
    if ms == [] || Le(m.key, ms[0].key) then [m] + ms else [ms[0]] + Insert(m, ms[1..])
  }

  function Arrange(ms: seq<Member>): seq<Member> {
    if ms == [] then [] else Insert(ms[0], Arrange(ms[1..]))
  }

  ghost predicate SameMembers(xs: seq<Member>, ys: seq<Member>) {
    forall m :: m in xs <==> m in ys
  }

  lemma {:induction false} InsertMembers(m: Member, ms: seq<Member>)
    ensures |Insert(m, ms)| == |ms| + 1 && forall x :: x in Insert(m, ms) <==> x == m || x in ms
  {
    hide Le;
    if ms != [] && !Le(m.key, ms[0].key) {
      InsertMembers(m, ms[1..]);
      assert forall x :: x in ms <==> x == ms[0] || x in ms[1..];
    }
  }

  lemma {:induction false} InsertInOrder(m: Member, ms: seq<Member>)
    requires InOrder(ms)
    ensures InOrder(Insert(m, ms))
  {
    hide Le;
    if ms == [] {
    } else if Le(m.key, ms[0].key) {
      forall i | 0 <= i < |ms| ensures Le(m.key, ms[i].key) {
        if i > 0 { LeTransitive(m.key, ms[0].key, ms[i].key); }
      }
    } else {
      LeTotal(m.key, ms[0].key);
      InsertInOrder(m, ms[1..]);
      InsertMembers(m, ms[1..]);
      var rest := Insert(m, ms[1..]);
      forall i | 0 <= i < |rest| ensures Le(ms[0].key, rest[i].key) { assert rest[i] in rest; }
    }
  }

  lemma {:induction false} InsertDistinct(m: Member, ms: seq<Member>)
    requires DistinctKeys(ms) && forall i :: 0 <= i < |ms| ==> ms[i].key != m.key
    ensures DistinctKeys(Insert(m, ms))
  {
    hide Le;
    if ms != [] && !Le(m.key, ms[0].key) {
      InsertDistinct(m, ms[1..]);
      InsertMembers(m, ms[1..]);
      var rest := Insert(m, ms[1..]);
      forall i | 0 <= i < |rest| ensures ms[0].key != rest[i].key { assert rest[i] in rest; }
    }
  }

  lemma {:induction false} ArrangeSorts(ms: seq<Member>)
    requires DistinctKeys(ms)
    ensures InOrder(Arrange(ms)) && DistinctKeys(Arrange(ms)) && SameMembers(Arrange(ms), ms) && |Arrange(ms)| == |ms|
  {
    hide Le, Insert;
    if ms != [] {
      var rest := Arrange(ms[1..]);
      ArrangeSorts(ms[1..]);
      InsertMembers(ms[0], rest);
      InsertInOrder(ms[0], rest);
      forall i | 0 <= i < |rest| ensures rest[i].key != ms[0].key {
        assert rest[i] in ms[1..];
      }
      InsertDistinct(ms[0], rest);
    }
  }

  /** Each key of the arrangement is below the next: a proper prefix of it, or lesser where they first differ. */
  lemma ArrangedKeysAscend(ms: seq<Member>, j: nat)
    requires DistinctKeys(ms) && j + 1 < |Arrange(ms)|
    ensures var x, y := Arrange(ms)[j].key, Arrange(ms)[j + 1].key;
            x < y || exists i :: 0 <= i < |x| && i < |y| && x[..i] == y[..i] && x[i] < y[i]
  {
    hide Le, Arrange;
    ArrangeSorts(ms);
    LeIsByFirstDifference(Arrange(ms)[j].key, Arrange(ms)[j + 1].key);
  }

  /** There is one arrangement only. */
  lemma {:induction false} ArrangementUnique(xs: seq<Member>, ys: seq<Member>)
    requires InOrder(xs) && InOrder(ys) && DistinctKeys(xs) && DistinctKeys(ys) && SameMembers(xs, ys)
    ensures xs == ys
  {
    hide Le, InOrder;
    assert ys != [] ==> ys[0] in ys && ys[0] in xs;
    if xs != [] {
      assert xs[0] in xs;
      SameFirst(xs, ys);
      OrderOfRest(xs);
      OrderOfRest(ys);
      SameRest(xs, ys);
      SameRest(ys, xs);
      ArrangementUnique(xs[1..], ys[1..]);
      assert xs == [xs[0]] + xs[1..] && ys == [ys[0]] + ys[1..];
    }
  }

  lemma OrderOfRest(xs: seq<Member>)
    requires InOrder(xs) && xs != []
    ensures InOrder(xs[1..])
  {
    hide Le;
  }

  lemma SameFirst(xs: seq<Member>, ys: seq<Member>)
    requires InOrder(xs) && InOrder(ys) && DistinctKeys(ys) && xs != [] && ys != []
    requires xs[0] in ys && ys[0] in xs
    ensures xs[0] == ys[0]
  {
    hide Le;
    var i :| 0 <= i < |ys| && ys[i] == xs[0];
    var j :| 0 <= j < |xs| && xs[j] == ys[0];
    if i > 0 {
      assert Le(ys[0].key, xs[0].key);
      if j > 0 {
        assert Le(xs[0].key, ys[0].key);
        LeAntisymmetric(xs[0].key, ys[0].key);
      }
    }
  }

  lemma SameRest(xs: seq<Member>, ys: seq<Member>)
    requires DistinctKeys(xs) && xs != [] && ys != [] && xs[0] == ys[0] && SameMembers(xs, ys)
    ensures forall m :: m in xs[1..] ==> m in ys[1..]
  {
    forall m | m in xs[1..] ensures m in ys[1..] {
      var i :| 0 <= i < |xs| - 1 && xs[1..][i] == m;
      assert xs[i + 1] == m && m in xs;
      assert m in ys && m != ys[0];
    }
  }

  // ----- the packet -----

  function KeysOf(ms: seq<Member>): (ks: seq<Bytes>)
    ensures |ks| == |ms| && forall i :: 0 <= i < |ks| ==> ks[i] == ms[i].key
  {
    seq(|ms|, i requires 0 <= i < |ms| => ms[i].key)
  }

  /** The members with these keys, in this order. */
  ghost function Pick(ks: seq<Bytes>, m: map<Bytes, Json>): (ms: seq<Member>)
    requires forall i :: 0 <= i < |ks| ==> ks[i] in m
    ensures |ms| == |ks| && forall i :: 0 <= i < |ks| ==> ms[i] == Member(ks[i], m[ks[i]])
  {
    seq(|ks|, i requires 0 <= i < |ks| => Member(ks[i], m[ks[i]]))
  }

  ghost predicate DistinctSeq(ks: seq<Bytes>) {
    forall i, j :: 0 <= i < j < |ks| ==> ks[i] != ks[j]
  }

  lemma {:induction false} CountOnce(ks: seq<Bytes>, k: Bytes)
    requires DistinctSeq(ks)
    ensures multiset(ks)[k] <= 1
  {
    if ks != [] {
      assert ks == [ks[0]] + ks[1..];
      CountOnce(ks[1..], k);
      assert ks[0] !in ks[1..];
    }
  }

  lemma CountTwice(ks: seq<Bytes>, i: nat, j: nat)
    requires i < j < |ks| && ks[i] == ks[j]
    ensures multiset(ks)[ks[i]] >= 2
  {
    assert ks == ks[..j] + [ks[j]] + ks[j + 1..];
    assert ks[..j][i] == ks[i];
  }

  lemma PermutationDistinct(xs: seq<Bytes>, ys: seq<Bytes>)
    requires DistinctSeq(xs) && multiset(xs) == multiset(ys)
    ensures DistinctSeq(ys) && forall k :: k in xs <==> k in ys
  {
    forall i, j | 0 <= i < j < |ys| ensures ys[i] != ys[j] {
      CountOnce(xs, ys[i]);
      if ys[i] == ys[j] { CountTwice(ys, i, j); }
    }
    forall k ensures k in xs <==> k in ys { assert k in xs <==> k in multiset(xs); }
  }

  lemma {:induction false} MapMember(ms: seq<Member>, k: Bytes, v: Json)
    requires DistinctKeys(ms)
    ensures Member(k, v) in ms <==> k in MapOf(ms) && MapOf(ms)[k] == v
  {
    hide MapOf;
    MapOfFirst(ms, k);
    var f := FirstWith(ms, k);
    if Member(k, v) in ms {
      var i :| 0 <= i < |ms| && ms[i] == Member(k, v);
      assert f <= i;
    }
  }

  /** Members picked in sorted key order are the arrangement. */
  lemma PickedIsArranged(ms: seq<Member>, ks: seq<Bytes>)
    requires DistinctKeys(ms) && Sorted(ks) && DistinctSeq(ks) && forall k :: k in ks <==> k in KeysOf(ms)
    ensures (forall i :: 0 <= i < |ks| ==> ks[i] in MapOf(ms)) && Pick(ks, MapOf(ms)) == Arrange(ms)
  {
    hide MapOf, Arrange, Le;
    KeysInMap(ms);
    var m := MapOf(ms);
    forall i | 0 <= i < |ks| ensures ks[i] in m { assert ks[i] in ks; }
    var ps := Pick(ks, m);
    ArrangeSorts(ms);
    forall x ensures x in ps <==> x in ms {
      MapMember(ms, x.key, x.value);
      if x in ms { InKeys(ms, x); }
      if x.key in ks && x.key in m && m[x.key] == x.value { InPick(ks, m, x); }
    }
    ArrangementUnique(ps, Arrange(ms));
  }

  lemma InKeys(ms: seq<Member>, x: Member)
    requires x in ms
    ensures x.key in KeysOf(ms)
  {
    var i :| 0 <= i < |ms| && ms[i] == x;
    assert KeysOf(ms)[i] == x.key;
  }

  lemma InPick(ks: seq<Bytes>, m: map<Bytes, Json>, x: Member)
    requires (forall i :: 0 <= i < |ks| ==> ks[i] in m) && x.key in ks && m[x.key] == x.value
    ensures x in Pick(ks, m)
  {
    var i :| 0 <= i < |ks| && ks[i] == x.key;
    assert Pick(ks, m)[i] == x;
  }

  lemma KeysInMap(ms: seq<Member>)
    ensures forall k :: k in KeysOf(ms) ==> k in MapOf(ms)
  {
    hide MapOf;
    forall k | k in KeysOf(ms) ensures k in MapOf(ms) {
      var i :| 0 <= i < |ms| && KeysOf(ms)[i] == k;
      MapOfFirst(ms, k);
    }
  }

  /** lob_sort: collect the keys, sort them, and set every raw value again in that order. */
  method Sort(p: Lob)
    requires p.Valid()
    modifies p
    ensures p.Valid() && p.members == Arrange(old(p.members)) && p.body == old(p.body)
  {
    hide MapOf, Arrange, Render, Head, ValidJson, Put, PlainKey, FirstWith, Le;
    ghost var ms := p.members;
    NothingToArrange();
    var n := p.Keys();
    if n == 0 { return; }
    var keys := SortedKeys(p, n);
    PickedIsArranged(ms, keys);
    var tmp := new Lob();
    var i := 0;
    ghost var m := MapOf(ms);
    while i < n
      invariant 0 <= i <= n && p.Valid() && p.members == ms && p.head == old(p.head) && p.body == old(p.body)
      invariant fresh(tmp) && tmp.Valid() && tmp.members == Pick(keys[..i], m)
    {
      var key := keys[i];
      PlainMember(ms, key);
      var at := p.GetRaw(key);
      var len := p.GetLen(key);
      tmp.SetRaw(key, p.head[at.value..at.value + len], m[key]);
      NextPick(keys, i, m);
      i := i + 1;
    }
    assert keys[..n] == keys;
    p.head := tmp.head;
    p.members := tmp.members;
  }

  lemma NothingToArrange()
    ensures Arrange([]) == []
  {
  }

  method SortedKeys(p: Lob, n: nat) returns (ks: seq<Bytes>)
    requires p.Valid() && n == |p.members|
    ensures |ks| == n && Sorted(ks) && DistinctSeq(ks) && forall k :: k in ks <==> k in KeysOf(p.members)
  {
    hide Head, ValidJson, PlainKey, Le;
    var keys := new Bytes[n];
    var i := 0;
    while i < n
      invariant 0 <= i <= n && forall j :: 0 <= j < i ==> keys[j] == p.members[j].key
    {
      var k := p.KeyAt(2 * i);
      keys[i] := k.value;
      i := i + 1;
    }
    assert keys[..] == KeysOf(p.members);
    ShellSort(keys);
    ks := keys[..];
    PermutationDistinct(KeysOf(p.members), ks);
  }

  lemma PlainMember(ms: seq<Member>, k: Bytes)
    requires ValidMembers(ms) && k in MapOf(ms)
    ensures k != [] && PlainKey(k) && ValidJson(MapOf(ms)[k])
  {
    hide MapOf, ValidJson;
    MapOfFirst(ms, k);
    var f := FirstWith(ms, k);
    assert ValidMember(ms[f]);
  }

  lemma NextPick(ks: seq<Bytes>, i: nat, m: map<Bytes, Json>)
    requires i < |ks| && DistinctSeq(ks) && forall j :: 0 <= j < |ks| ==> ks[j] in m
    ensures Put(Pick(ks[..i], m), ks[i], m[ks[i]]) == Pick(ks[..i + 1], m)
  {
    var ms := Pick(ks[..i], m);
    assert forall j :: 0 <= j < i ==> ms[j].key == ks[j] != ks[i];
    assert FirstWith(ms, ks[i]) == |ms|;
  }
}
