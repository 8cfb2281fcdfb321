/**
 The name of an endpoint as a fold over its keys in ascending order: every key takes the sum so
 far to h(h(sum, id), h(key)), beginning with nothing.
 */
module HashnameFold {
  import opened Common
  import opened Js0n
  import opened JsonText
  import opened JsonHead
  import opened Lobs
  import opened LobSort
  import opened Hashname
  import Base32
  import Sorting

  // ----- ids -----

  function Nibble(c: nat): nat {
    if 48 <= c <= 57 then c - 48 else if 65 <= c <= 70 then c - 55 else if 97 <= c <= 102 then c - 87 else 0
  }

  predicate IsId(k: Bytes) {
    |k| == 2 && forall i :: 0 <= i < 2 ==> 48 <= k[i] <= 57 || 65 <= k[i] <= 70 || 97 <= k[i] <= 102
  }

  function IdOf(k: Bytes): nat
    requires IsId(k)
  {
    16 * Nibble(k[0]) + Nibble(k[1])
  }

  /** The hex characters of an id, as util_hex has them and as util_unhex reads them. */
  lemma HexIsLiteral(id: nat, k: Bytes)
    requires id < 256
    ensures Hex(id) == ["0123456789abcdef"[id / 16] as nat, "0123456789abcdef"[id % 16] as nat]
    ensures IsHexId(k) <==> IsId(k)
    ensures IsId(k) ==> UnHex(k) == IdOf(k) < 256
  {
    HexCharIsLiteral(id / 16);
    HexCharIsLiteral(id % 16);
    assert (id / 16) % 16 == id / 16;
  }

  lemma HexCharIsLiteral(d: nat)
    requires d < 16
    ensures HexChar(d) == "0123456789abcdef"[d] as nat
  {
  }

  // ----- the fold -----

  /** A member that takes part in the name: an id other than 00, and a key of at least one byte. */
  predicate IsNamed(m: Member) {
    && IsId(m.key) && m.key != [48, 48]
    && ValueText(m.value) != [] && Decodes(ValueText(m.value)) && Decoded(ValueText(m.value)) != []
  }

  predicate AreNamed(ms: seq<Member>) {
    forall i :: 0 <= i < |ms| ==> IsNamed(ms[i])
  }

  /** Ascending, first character before second. */
  predicate Ascend(ms: seq<Member>)
    requires AreNamed(ms)
  {
    forall i, j :: 0 <= i < j < |ms| ==> 256 * ms[i].key[0] + ms[i].key[1] < 256 * ms[j].key[0] + ms[j].key[1]
  }

  function OneKey(h: Hash, sum: Bytes, m: Member): Bytes
    requires IsNamed(m)
  {
    h(h(sum + [IdOf(m.key)]) + h(Decoded(ValueText(m.value))))
  }

  function Fold(h: Hash, sum: Bytes, ms: seq<Member>): Bytes
    requires AreNamed(ms)
    decreases |ms|
  {
    if ms == [] then sum else Fold(h, OneKey(h, sum, ms[0]), ms[1..])
  }

  lemma {:induction false} FoldSnoc(h: Hash, sum: Bytes, ms: seq<Member>, m: Member)
    requires AreNamed(ms + [m]) && AreNamed(ms) && IsNamed(m)
    ensures Fold(h, sum, ms + [m]) == OneKey(h, Fold(h, sum, ms), m)
    decreases |ms|
  {
    hide IsNamed, OneKey;
    if ms == [] {
      assert ms + [m] == [m] && [m][1..] == [];
    } else {
      var rest := ms[1..];
      assert (ms + [m])[0] == ms[0] && (ms + [m])[1..] == rest + [m];
      FoldSnoc(h, OneKey(h, sum, ms[0]), rest, m);
    }
  }

  // ----- the intermediates -----

  /** The intermediate member of a key. */
  function Im(h: Hash, m: Member): Member {
    Member(m.key, KeyText(HashText(h, ValueText(m.value))))
  }

  function Ims(h: Hash, ms: seq<Member>): (xs: seq<Member>)
    ensures |xs| == |ms| && forall i :: 0 <= i < |ms| ==> xs[i] == Im(h, ms[i])
  {
    seq(|ms|, i requires 0 <= i < |ms| => Im(h, ms[i]))
  }

  lemma NamedIsUsable(h: Hash, m: Member)
    requires IsNamed(m)
    ensures Usable(m) && !TooShort(m) && Shown(h, 0, m) == [Im(h, m)] && m.key != Hex(0)
  {
    hide ValueText, Decoded, HashText, KeyText, Base32.Floor;
    UsableIsShown(h, m);
  }

  lemma {:induction false} AllAreShown(h: Hash, ms: seq<Member>)
    requires AreNamed(ms)
    ensures AllShown(h, 0, ms) == Ims(h, ms)
  {
    hide IsNamed, Shown, Ims;
    if ms == [] {
      ImsSnoc(h, [], Member([], Text([])));
    } else {
      var n := |ms| - 1;
      AllAreShown(h, ms[..n]);
      NamedIsUsable(h, ms[n]);
      ImsSnoc(h, ms[..n], ms[n]);
      assert ms == ms[..n] + [ms[n]];
    }
  }

  lemma ImsSnoc(h: Hash, ms: seq<Member>, m: Member)
    ensures Ims(h, ms + [m]) == Ims(h, ms) + [Im(h, m)] && Ims(h, []) == []
  {
    hide Im;
  }

  lemma NotBlocked(h: Hash, ms: seq<Member>)
    requires AreNamed(ms)
    ensures !Blocked(0, ms)
  {
    hide IsNamed, TooShort;
    forall m | m in ms ensures !TooShort(m) {
      var i :| 0 <= i < |ms| && ms[i] == m;
      NamedIsUsable(h, ms[i]);
    }
  }

  /** What ascends is already arranged. */
  lemma AlreadyArranged(h: Hash, ms: seq<Member>)
    requires AreNamed(ms) && Ascend(ms)
    ensures DistinctKeys(ms) && Arrange(Ims(h, ms)) == Ims(h, ms)
  {
    hide Arrange, Im, KeyText, HashText, ValueText, Decodes, Decoded;
    var xs := Ims(h, ms);
    forall i, j | 0 <= i < j < |xs|
      ensures Sorting.Le(xs[i].key, xs[j].key) && xs[i].key != xs[j].key && ms[i].key != ms[j].key
    {
      ImKey(h, ms[i]);
      ImKey(h, ms[j]);
      assert IsNamed(ms[i]) && IsNamed(ms[j]);
      PairOrder(ms[i].key, ms[j].key);
    }
    ArrangeSorts(xs);
    ArrangementUnique(Arrange(xs), xs);
  }

  lemma ImKey(h: Hash, m: Member)
    ensures Im(h, m).key == m.key
  {
  }

  lemma PairOrder(a: Bytes, b: Bytes)
    requires IsId(a) && IsId(b) && 256 * a[0] + a[1] < 256 * b[0] + b[1]
    ensures Sorting.Le(a, b) && a != b
  {
    assert a[1..][0] == a[1] && b[1..][0] == b[1] && a[1..][1..] == [];
  }

  // ----- rolling up -----

  lemma RollOne(h: Hash, first: bool, r: Rolling, m: Member)
    requires IsHash(h) && IsNamed(m)
    ensures RollStep(h, 0, [], first, r, Im(h, m))
         == Some(Rolling(OneKey(h, if first then [] else r.sum, m), r.keys + 1))
  {
    hide ValueText, Decoded, Decodes, Base32.Decode32, Base32.Encode32, KeyText, IsId, IsHexId, IdOf, UnHex, Hex;
    HexIsLiteral(0, m.key);
    NamedIsUsable(h, m);
    HashTextReads(h, Decoded(ValueText(m.value)));
  }

  lemma {:induction false} RollIsFold(h: Hash, ms: seq<Member>)
    requires IsHash(h) && AreNamed(ms)
    ensures var r := RollUp(h, 0, [], Ims(h, ms));
            r.Some? && r.value.keys == |ms| && (ms != [] ==> r.value.sum == Fold(h, [], ms))
  {
    hide RollStep, IsNamed, Im, OneKey;
    if ms != [] {
      var n := |ms| - 1;
      var before, xs := ms[..n], Ims(h, ms);
      RollIsFold(h, before);
      assert xs[..n] == Ims(h, before);
      RollOne(h, n == 0, RollUp(h, 0, [], xs[..n]).value, ms[n]);
      FoldSnoc(h, [], before, ms[n]);
      assert ms == before + [ms[n]];
    }
  }

  /** The name made from keys set in any order is the fold over them in ascending order. */
  lemma NameIsFold(h: Hash, ms: seq<Member>, sorted: seq<Member>)
    requires IsHash(h) && DistinctKeys(ms) && SameMembers(ms, sorted)
    requires AreNamed(sorted) && Ascend(sorted) && |sorted| % 256 != 0
    ensures VKeys(h, ms) == Some(Fold(h, [], sorted))
  {
    hide ImOf, RollUp, AllShown, Arrange, IsNamed, Blocked, Fold, Ims;
    AlreadyArranged(h, sorted);
    OrderIndependent(h, ms, sorted);
    ImClosed(h, 0, sorted);
    NotBlocked(h, sorted);
    NoBody(sorted);
    AllAreShown(h, sorted);
    RollIsFold(h, sorted);
  }
}
