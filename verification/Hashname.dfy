/**
 Hashnames (src/lib/hashname.c): the name of an endpoint rolls up the hashes of its keys.
 Anyone may know one key whole and the others by their hashes only, and must come to the
 same name.
 */
module Hashname {
  import opened Common
  import opened Js0n
  import opened JsonText
  import opened JsonHead
  import opened Lobs
  import opened LobSort
  import opened Bits
  import Base32

  type Hash = Bytes -> Bytes

  ghost predicate IsHash(h: Hash) {
    forall x :: |h(x)| == 32 && AreBytes(h(x))
  }

  // ----- hex ids -----

  function HexChar(d: nat): nat {
    if d < 10 then 48 + d else 87 + d
  }

  /** util_hex of one byte. */
  function Hex(id: nat): Bytes {
    [HexChar((id / 16) % 16), HexChar(id % 16)]
  }

  predicate IsHexChar(c: nat) {
    48 <= c <= 57 || 65 <= c <= 70 || 97 <= c <= 102
  }

  function HexCode(c: nat): nat {
    if 48 <= c <= 57 then c - 48 else if 65 <= c <= 70 then c - 55 else if 97 <= c <= 102 then c - 87 else c
  }

  predicate IsHexId(k: Bytes) {
    |k| == 2 && IsHexChar(k[0]) && IsHexChar(k[1])
  }

  /** util_unhex of two characters. */
  function UnHex(k: Bytes): nat
    requires |k| == 2
  {
    (HexCode(k[0]) * 16) % 256 + HexCode(k[1]) % 16
  }

  lemma HexDigit(d: nat)
    requires d < 16
    ensures IsHexChar(HexChar(d)) && HexCode(HexChar(d)) == d && (HexChar(d) == 48 ==> d == 0)
  {
  }

  lemma HexIsId(id: nat)
    requires id < 256
    ensures IsHexId(Hex(id)) && UnHex(Hex(id)) == id && (Hex(id) == Hex(0) ==> id == 0)
  {
    HexDigit((id / 16) % 16);
    HexDigit(id % 16);
    assert (id / 16) % 16 == id / 16 && id == 16 * (id / 16) + id % 16;
  }

  // ----- intermediates -----

  datatype Intermediate = Intermediate(members: seq<Member>, body: Bytes)

  const True: Json := Word(116, [114, 117, 101])

  function Decoded(text: Bytes): Bytes {
    Base32.Decode32(text, Base32.Floor(|text|))
  }

  /** What the body holds after decoding into it: as much as was decoded, in front of zeros. */
  function Buffer(text: Bytes): (body: Bytes)
    ensures |body| == Base32.Floor(|text|)
  {
    var len := Base32.Floor(|text|);
    var stored := Base32.Stored32(text, len);
    stored + seq(len - |stored|, _ => 0)
  }

  lemma BufferIsDecoded(text: Bytes)
    requires Decodes(text)
    ensures Buffer(text) == Decoded(text)
  {
    hide Base32.Stored32, Base32.Read;
    assert Base32.Floor(|text|) == 0 ==> Base32.Stored32(text, 0) == [];
  }

  predicate Decodes(text: Bytes) {
    |Decoded(text)| == Base32.Floor(|text|)
  }

  function HashText(h: Hash, text: Bytes): Bytes {
    Base32.Encode32(h(Decoded(text)))
  }

  /** One key of the source packet: its hash in base32, or itself as the body if it is the one asked for. */
  function ImStep(h: Hash, id: nat, im: Intermediate, m: Member): Option<Intermediate> {
    var text := ValueText(m.value);
    if |m.key| != 2 || text == [] then Some(im)
    else if id != 0 && Hex(id) == m.key then
      Some(Intermediate(if Decodes(text) then Put(im.members, m.key, True) else im.members, Buffer(text)))
    else if Base32.Floor(|text|) == 0 then None
    else if !Decodes(text) then Some(im)
    else Some(im.(members := Put(im.members, m.key, KeyText(HashText(h, text)))))
  }

  function ImOf(h: Hash, id: nat, ms: seq<Member>): Option<Intermediate> {
    if ms == [] then Some(Intermediate([], []))
    else
      var im := ImOf(h, id, ms[..|ms| - 1]);
      if im.None? then None else ImStep(h, id, im.value, ms[|ms| - 1])
  }

  // ----- rolling up -----

  datatype Rolling = Rolling(sum: Bytes, keys: nat)

  /** What stands for the key in the roll-up: the hash of the body, or the hash given in base32. */
  function KeyHash(h: Hash, csid: nat, body: Bytes, key: Bytes, text: Bytes): Option<Bytes> {
    if key == Hex(csid) then (if body == [] then None else Some(h(body)))
    else if |text| != 52 || |Base32.Decode32(text, 32)| != 32 then None
    else Some(Base32.Decode32(text, 32))
  }

  function RollStep(h: Hash, csid: nat, body: Bytes, first: bool, r: Rolling, m: Member): Option<Rolling> {
    var text := ValueText(m.value);
    if !IsHexId(m.key) || text == [] then Some(r)
    else
      var idHash := h((if first then [] else r.sum) + [UnHex(m.key)]);
      var keyHash := KeyHash(h, csid, body, m.key, text);
      if keyHash.None? then None else Some(Rolling(h(idHash + keyHash.value), r.keys + 1))
  }

  function RollUp(h: Hash, csid: nat, body: Bytes, ms: seq<Member>): Option<Rolling> {
    if ms == [] then Some(Rolling(seq(32, _ => 0), 0))
    else
      var n := |ms| - 1;
      var r := RollUp(h, csid, body, ms[..n]);
      if r.None? then None else RollStep(h, csid, body, n == 0, r.value, ms[n])
  }

  /** The name, if all keys roll up; the count of keys is a byte. */
  function NameOf(r: Option<Rolling>): Option<Bytes> {
    if r.None? || r.value.keys % 256 == 0 then None else Some(r.value.sum)
  }

  function VKey(h: Hash, im: Option<Intermediate>, csid: nat): Option<Bytes> {
    if im.None? then None else NameOf(RollUp(h, csid, im.value.body, Arrange(im.value.members)))
  }

  function VKeys(h: Hash, ms: seq<Member>): Option<Bytes> {
    VKey(h, ImOf(h, 0, ms), 0)
  }

  // ----- intermediates in closed form -----

  predicate Asked(id: nat, m: Member) {
    id != 0 && Hex(id) == m.key
  }

  /** Two characters and a value: what is taken for a key. */
  predicate IsKey(m: Member) {
    |m.key| == 2 && ValueText(m.value) != []
  }

  /** A value too short for a single byte. */
  predicate TooShort(m: Member) {
    IsKey(m) && Base32.Floor(|ValueText(m.value)|) == 0
  }

  /** A key of at least one byte. */
  predicate Usable(m: Member) {
    IsKey(m) && Base32.Floor(|ValueText(m.value)|) > 0 && Decodes(ValueText(m.value))
  }

  /** The intermediate members made from one member: one or none. */
  function Shown(h: Hash, id: nat, m: Member): (s: seq<Member>)
    ensures |s| <= 1 && (s != [] ==> s[0].key == m.key)
  {
    if !IsKey(m) then []
    else if Asked(id, m) then (if Decodes(ValueText(m.value)) then [Member(m.key, True)] else [])
    else if Usable(m) then [Member(m.key, KeyText(HashText(h, ValueText(m.value))))]
    else []
  }

  function AllShown(h: Hash, id: nat, ms: seq<Member>): seq<Member> {
    if ms == [] then [] else AllShown(h, id, ms[..|ms| - 1]) + Shown(h, id, ms[|ms| - 1])
  }

  function BodyOf(id: nat, ms: seq<Member>): Bytes {
    if ms == [] then []
    else
      var m := ms[|ms| - 1];
      BodyStep(id, BodyOf(id, ms[..|ms| - 1]), m)
  }

  function BodyStep(id: nat, body: Bytes, m: Member): Bytes {
    var text := ValueText(m.value);
    if !IsKey(m) || !Asked(id, m) then body
    else Buffer(text)
  }

  /** A key that is not the one asked for ends the attempt if it is too short. */
  ghost predicate Blocked(id: nat, ms: seq<Member>) {
    exists m :: m in ms && TooShort(m) && !Asked(id, m)
  }

  lemma {:induction false} ShownKeys(h: Hash, id: nat, ms: seq<Member>)
    ensures forall y :: y in AllShown(h, id, ms) <==> exists m :: m in ms && Shown(h, id, m) == [y]
  {
    hide Shown;
    if ms != [] {
      var n := |ms| - 1;
      ShownKeys(h, id, ms[..n]);
      assert ms == ms[..n] + [ms[n]];
      var last := Shown(h, id, ms[n]);
      forall y ensures y in AllShown(h, id, ms) <==> exists m :: m in ms && Shown(h, id, m) == [y] {
        assert y in last <==> last == [y];
      }
    }
  }

  lemma {:induction false} ShownDistinct(h: Hash, id: nat, ms: seq<Member>)
    requires DistinctKeys(ms)
    ensures DistinctKeys(AllShown(h, id, ms))
  {
    hide Shown;
    if ms != [] {
      var n := |ms| - 1;
      ShownDistinct(h, id, ms[..n]);
      NewKey(h, id, ms);
    }
  }

  /** The key of the last member is not among those shown before it. */
  lemma NewKey(h: Hash, id: nat, ms: seq<Member>)
    requires DistinctKeys(ms) && ms != []
    ensures var before := AllShown(h, id, ms[..|ms| - 1]);
            forall i :: 0 <= i < |before| ==> before[i].key != ms[|ms| - 1].key
  {
    hide Shown, AllShown;
    var n := |ms| - 1;
    var before := AllShown(h, id, ms[..n]);
    ShownKeys(h, id, ms[..n]);
    forall i | 0 <= i < |before| ensures before[i].key != ms[n].key {
      assert before[i] in before;
      var m :| m in ms[..n] && Shown(h, id, m) == [before[i]];
      assert m.key == before[i].key;
    }
  }

  lemma PutNew(ms: seq<Member>, key: Bytes, v: Json)
    requires forall i :: 0 <= i < |ms| ==> ms[i].key != key
    ensures Put(ms, key, v) == ms + [Member(key, v)]
  {
    assert FirstWith(ms, key) == |ms|;
  }

  lemma ImStepClosed(h: Hash, id: nat, before: seq<Member>, body: Bytes, m: Member)
    requires forall i :: 0 <= i < |before| ==> before[i].key != m.key
    ensures ImStep(h, id, Intermediate(before, body), m)
         == if TooShort(m) && !Asked(id, m) then None
             else Some(Intermediate(before + Shown(h, id, m), BodyStep(id, body, m)))
  {
    hide Decodes, Decoded, HashText, ValueText, Put, Hex, Base32.Floor, KeyText;
    PutNew(before, m.key, True);
    PutNew(before, m.key, KeyText(HashText(h, ValueText(m.value))));
    assert before + [] == before;
  }

  lemma {:induction false} ImClosed(h: Hash, id: nat, ms: seq<Member>)
    requires DistinctKeys(ms)
    ensures ImOf(h, id, ms) == if Blocked(id, ms) then None else Some(Intermediate(AllShown(h, id, ms), BodyOf(id, ms)))
  {
    hide ImStep, Shown, BodyStep, TooShort, Asked;
    if ms != [] {
      var n := |ms| - 1;
      var m := ms[n];
      ImClosed(h, id, ms[..n]);
      NewKey(h, id, ms);
      ImStepClosed(h, id, AllShown(h, id, ms[..n]), BodyOf(id, ms[..n]), m);
      assert ms == ms[..n] + [m];
      assert Blocked(id, ms) <==> Blocked(id, ms[..n]) || (TooShort(m) && !Asked(id, m));
    }
  }

  // ----- arrangement does not look at values -----

  /** The same members, except that one value is `true` where the other is the hash of the body. */
  ghost predicate Alike(h: Hash, id: nat, body: Bytes, x: Member, y: Member) {
    && x.key == y.key
    && if x.key == Hex(id)
       then body != [] && y.value == True && x.value == KeyText(Base32.Encode32(h(body)))
       else x == y
  }

  ghost predicate AllAlike(h: Hash, id: nat, body: Bytes, xs: seq<Member>, ys: seq<Member>) {
    |xs| == |ys| && forall i :: 0 <= i < |xs| ==> Alike(h, id, body, xs[i], ys[i])
  }

  lemma {:induction false} InsertAlike(h: Hash, id: nat, body: Bytes, x: Member, y: Member, xs: seq<Member>,
      ys: seq<Member>)
    requires Alike(h, id, body, x, y) && AllAlike(h, id, body, xs, ys)
    ensures AllAlike(h, id, body, Insert(x, xs), Insert(y, ys))
  {
    hide Sorting.Le, Alike;
    AlikeKeys(h, id, body, x, y);
    if xs != [] {
      AlikeKeys(h, id, body, xs[0], ys[0]);
      if !Sorting.Le(x.key, xs[0].key) { InsertAlike(h, id, body, x, y, xs[1..], ys[1..]); }
    }
  }

  lemma AlikeKeys(h: Hash, id: nat, body: Bytes, x: Member, y: Member)
    requires Alike(h, id, body, x, y)
    ensures x.key == y.key
  {
  }

  lemma {:induction false} ArrangeAlike(h: Hash, id: nat, body: Bytes, xs: seq<Member>, ys: seq<Member>)
    requires AllAlike(h, id, body, xs, ys)
    ensures AllAlike(h, id, body, Arrange(xs), Arrange(ys))
  {
    hide Alike, Insert;
    if xs != [] {
      ArrangeAlike(h, id, body, xs[1..], ys[1..]);
      InsertAlike(h, id, body, xs[0], ys[0], Arrange(xs[1..]), Arrange(ys[1..]));
    }
  }

  // ----- rolling up alike members -----

  lemma HashTextReads(h: Hash, x: Bytes)
    requires IsHash(h)
    ensures var t := Base32.Encode32(h(x));
            && |t| == 52 && PlainKey(t) && BACKSLASH !in t && ValueText(KeyText(t)) == t
            && Base32.Decode32(t, 32) == h(x)
  {
    hide Base32.Decode32, Base32.Digits;
    Base32.RoundTrip(h(x));
    var t := Base32.Encode32(h(x));
    assert Base32.EncodedLength(32) == 52;
    KeyTextBytes(t);
    Base32.EncodedBits(h(x));
    PlainHasNoEscape(t);
    assert RawText(KeyText(t)) == t;
  }

  lemma TrueText()
    ensures Render(True) == ValueText(True) == [116, 114, 117, 101] && ValidJson(True)
  {
    PlainHasNoEscape([116, 114, 117, 101]);
  }

  lemma RollAlike(h: Hash, id: nat, body: Bytes, first: bool, r: Rolling, x: Member, y: Member)
    requires IsHash(h) && 0 < id < 256 && Alike(h, id, body, x, y) && x.key != Hex(0)
    ensures RollStep(h, 0, [], first, r, x) == RollStep(h, id, body, first, r, y)
  {
    hide Hex, ValueText, Base32.Decode32, Base32.Encode32, KeyText, IsHexId, UnHex;
    if x.key == Hex(id) {
      HashTextReads(h, body);
      TrueText();
    }
  }

  lemma {:induction false} RollUpAlike(h: Hash, id: nat, body: Bytes, xs: seq<Member>, ys: seq<Member>)
    requires IsHash(h) && 0 < id < 256 && AllAlike(h, id, body, xs, ys)
    requires forall i :: 0 <= i < |xs| ==> xs[i].key != Hex(0)
    ensures RollUp(h, 0, [], xs) == RollUp(h, id, body, ys)
  {
    hide RollStep, Alike, Hex;
    if xs != [] {
      var n := |xs| - 1;
      RollUpAlike(h, id, body, xs[..n], ys[..n]);
      var r := RollUp(h, 0, [], xs[..n]);
      if r.Some? { RollAlike(h, id, body, n == 0, r.value, xs[n], ys[n]); }
    }
  }

  /** The key asked for, without a body, fails the roll-up. */
  lemma {:induction false} RollUpFails(h: Hash, csid: nat, ms: seq<Member>, m: Member)
    requires m in ms && m.key == Hex(csid) && csid < 256 && ValueText(m.value) != []
    ensures RollUp(h, csid, [], ms) == None
  {
    hide Hex, ValueText, IsHexId, UnHex;
    var n := |ms| - 1;
    if ms[n] == m {
      HexIsId(csid);
    } else {
      assert m in ms[..n];
      RollUpFails(h, csid, ms[..n], m);
    }
  }

  // ----- the two views -----

  lemma AlikeElsewhere(h: Hash, id: nat, b1: Bytes, b2: Bytes, xs: seq<Member>, ys: seq<Member>)
    requires AllAlike(h, id, b1, xs, ys) && forall i :: 0 <= i < |xs| ==> xs[i].key != Hex(id)
    ensures AllAlike(h, id, b2, xs, ys)
  {
    hide Hex;
  }

  lemma ShownStepAlike(h: Hash, id: nat, body: Bytes, m: Member)
    requires 0 < id < 256 && !TooShort(m)
    ensures AllAlike(h, id, BodyStep(id, body, m), Shown(h, 0, m), Shown(h, id, m))
  {
    hide Hex, ValueText, Decoded, Base32.Floor, Base32.Encode32, KeyText;
    if Decodes(ValueText(m.value)) { BufferIsDecoded(ValueText(m.value)); }
    HexIsId(id);
  }

  lemma AppendAlike(h: Hash, id: nat, body: Bytes, xs: seq<Member>, ys: seq<Member>, xs': seq<Member>, ys': seq<Member>)
    requires AllAlike(h, id, body, xs, ys) && AllAlike(h, id, body, xs', ys')
    ensures AllAlike(h, id, body, xs + xs', ys + ys')
  {
    hide Alike;
  }

  lemma {:induction false} ShownAlike(h: Hash, id: nat, ms: seq<Member>)
    requires DistinctKeys(ms) && 0 < id < 256 && forall m :: m in ms ==> !TooShort(m)
    ensures AllAlike(h, id, BodyOf(id, ms), AllShown(h, 0, ms), AllShown(h, id, ms))
  {
    hide AllAlike, Shown, BodyStep, TooShort, Hex, Asked;
    if ms == [] {
      NoneAlike(h, id);
    } else {
      var n := |ms| - 1;
      var before, m := ms[..n], ms[n];
      ShownAlike(h, id, before);
      ShownStepAlike(h, id, BodyOf(id, before), m);
      NewKey(h, 0, ms);
      if m.key == Hex(id) {
        AlikeElsewhere(h, id, BodyOf(id, before), BodyOf(id, ms), AllShown(h, 0, before), AllShown(h, id, before));
      } else {
        BodyKept(id, BodyOf(id, before), m);
      }
      AppendAlike(h, id, BodyOf(id, ms), AllShown(h, 0, before), AllShown(h, id, before), Shown(h, 0, m),
          Shown(h, id, m));
    }
  }

  lemma NoneAlike(h: Hash, id: nat)
    ensures AllAlike(h, id, [], [], [])
  {
  }

  lemma BodyKept(id: nat, body: Bytes, m: Member)
    requires m.key != Hex(id) || id == 0
    ensures BodyStep(id, body, m) == body
  {
  }

  lemma {:induction false} NoBody(ms: seq<Member>)
    ensures BodyOf(0, ms) == []
  {
    hide BodyStep;
    if ms != [] {
      NoBody(ms[..|ms| - 1]);
      BodyKept(0, [], ms[|ms| - 1]);
    }
  }

  lemma {:induction false} BodyOfAsked(id: nat, ms: seq<Member>, m: Member)
    requires DistinctKeys(ms) && m in ms && m.key == Hex(id) && id > 0 && IsKey(m)
    ensures BodyOf(id, ms) == BodyStep(id, [], m)
  {
    hide BodyStep, Hex;
    var n := |ms| - 1;
    if ms[n] == m {
      BodySet(id, BodyOf(id, ms[..n]), m);
    } else {
      assert m in ms[..n];
      BodyOfAsked(id, ms[..n], m);
      BodyKept(id, BodyOf(id, ms[..n]), ms[n]);
    }
  }

  lemma BodySet(id: nat, body: Bytes, m: Member)
    requires m.key == Hex(id) && id > 0 && IsKey(m)
    ensures BodyStep(id, body, m) == BodyStep(id, [], m)
  {
  }

  /** A key of no bytes: nobody gets a name. */
  lemma TooShortFails(h: Hash, id: nat, ms: seq<Member>, m: Member)
    requires DistinctKeys(ms) && id < 256 && m in ms && TooShort(m)
    ensures VKey(h, ImOf(h, id, ms), id) == None
  {
    hide Hex, ImOf, RollUp, ValueText, AllShown, Arrange, BodyOf, KeyText, HashText, Base32.Decode32;
    ImClosed(h, id, ms);
    if Asked(id, m) {
      EmptyKey(ValueText(m.value));
      BodyOfAsked(id, ms, m);
      var y := Member(m.key, True);
      assert Shown(h, id, m) == [y];
      ShownKeys(h, id, ms);
      ShownDistinct(h, id, ms);
      ArrangeSorts(AllShown(h, id, ms));
      TrueText();
      RollUpFails(h, id, Arrange(AllShown(h, id, ms)), y);
    } else {
      assert Blocked(id, ms);
    }
  }

  lemma EmptyKey(text: Bytes)
    requires Base32.Floor(|text|) == 0
    ensures Decoded(text) == [] && Decodes(text)
  {
    hide Base32.Read;
  }

  ghost predicate HasZero(ms: seq<Member>) {
    exists m :: m in ms && m.key == Hex(0) && Usable(m)
  }

  /** A usable key 00 has no place in the roll-up of all keys. */
  lemma ZeroIsRefused(h: Hash, ms: seq<Member>)
    requires IsHash(h) && DistinctKeys(ms) && HasZero(ms)
    ensures VKeys(h, ms) == None
  {
    hide Hex, ImOf, RollUp, ValueText, AllShown, Arrange, KeyText, HashText, Usable, TooShort, BodyOf;
    var m :| m in ms && m.key == Hex(0) && Usable(m);
    ImClosed(h, 0, ms);
    NoBody(ms);
    var y := Member(m.key, KeyText(HashText(h, ValueText(m.value))));
    UsableIsShown(h, m);
    ShownKeys(h, 0, ms);
    ShownDistinct(h, 0, ms);
    ArrangeSorts(AllShown(h, 0, ms));
    HashTextReads(h, Decoded(ValueText(m.value)));
    HashTextIs(h, ValueText(m.value));
    RollUpFails(h, 0, Arrange(AllShown(h, 0, ms)), y);
  }

  lemma HashTextIs(h: Hash, text: Bytes)
    ensures HashText(h, text) == Base32.Encode32(h(Decoded(text)))
  {
  }

  lemma UsableIsShown(h: Hash, m: Member)
    ensures Shown(h, 0, m) == if Usable(m) then [Member(m.key, KeyText(HashText(h, ValueText(m.value))))] else []
  {
  }

  /** Whoever holds one of the keys whole comes to the name made from all of them. */
  lemma ViewsAgree(h: Hash, ms: seq<Member>, id: nat)
    requires IsHash(h) && DistinctKeys(ms) && 0 < id < 256 && !HasZero(ms)
    ensures VKey(h, ImOf(h, id, ms), id) == VKeys(h, ms)
  {
    hide Hex, ImOf, RollUp, ValueText, AllShown, Arrange, Usable, TooShort, BodyOf, AllAlike, Shown, Asked;
    if m :| m in ms && TooShort(m) {
      TooShortFails(h, id, ms, m);
      TooShortFails(h, 0, ms, m);
    } else {
      ImClosed(h, id, ms);
      ImClosed(h, 0, ms);
      NoBody(ms);
      ShownAlike(h, id, ms);
      var xs, ys := AllShown(h, 0, ms), AllShown(h, id, ms);
      ArrangeAlike(h, id, BodyOf(id, ms), xs, ys);
      NoZeroKey(h, ms);
      RollUpAlike(h, id, BodyOf(id, ms), Arrange(xs), Arrange(ys));
    }
  }

  lemma NoZeroKey(h: Hash, ms: seq<Member>)
    requires DistinctKeys(ms) && !HasZero(ms)
    ensures var s := Arrange(AllShown(h, 0, ms)); forall i :: 0 <= i < |s| ==> s[i].key != Hex(0)
  {
    hide Hex, AllShown, Arrange, Usable, KeyText, HashText, ValueText, Shown;
    var s := Arrange(AllShown(h, 0, ms));
    ShownKeys(h, 0, ms);
    ShownDistinct(h, 0, ms);
    ArrangeSorts(AllShown(h, 0, ms));
    forall i | 0 <= i < |s| ensures s[i].key != Hex(0) {
      assert s[i] in s;
      var m :| m in ms && Shown(h, 0, m) == [s[i]];
      UsableIsShown(h, m);
    }
  }

  /** The order in which the keys were set does not matter. */
  lemma OrderIndependent(h: Hash, ms: seq<Member>, ns: seq<Member>)
    requires DistinctKeys(ms) && DistinctKeys(ns) && SameMembers(ms, ns)
    ensures VKeys(h, ms) == VKeys(h, ns)
  {
    hide ImOf, RollUp, AllShown, Arrange, TooShort, Shown, Asked;
    ImClosed(h, 0, ms);
    ImClosed(h, 0, ns);
    NoBody(ms);
    NoBody(ns);
    ShownKeys(h, 0, ms);
    ShownKeys(h, 0, ns);
    ShownDistinct(h, 0, ms);
    ShownDistinct(h, 0, ns);
    ArrangeSorts(AllShown(h, 0, ms));
    ArrangeSorts(AllShown(h, 0, ns));
    ArrangementUnique(Arrange(AllShown(h, 0, ms)), Arrange(AllShown(h, 0, ns)));
  }

  // ----- when there is a name -----

  function HexCount(ms: seq<Member>): nat {
    if ms == [] then 0 else HexCount(ms[..|ms| - 1]) + if IsHexId(ms[|ms| - 1].key) then 1 else 0
  }

  function KeyCount(ms: seq<Member>): nat {
    if ms == [] then 0
    else
      var m := ms[|ms| - 1];
      KeyCount(ms[..|ms| - 1]) + if IsHexId(m.key) && Usable(m) then 1 else 0
  }

  /** Some keys under hex ids, though not a multiple of 256 of them, and none too short. */
  ghost predicate Fit(ms: seq<Member>) {
    KeyCount(ms) % 256 != 0 && forall m :: m in ms ==> !TooShort(m)
  }

  /** A member of an intermediate that rolls up. */
  ghost predicate Ready(h: Hash, m: Member, x: Bytes) {
    m.value == KeyText(Base32.Encode32(h(x)))
  }

  ghost predicate IsReady(h: Hash, m: Member) {
    exists x :: Ready(h, m, x)
  }

  lemma {:induction false} RollUpCounts(h: Hash, id: nat, body: Bytes, xs: seq<Member>, ys: seq<Member>)
    requires IsHash(h) && 0 < id < 256 && AllAlike(h, id, body, xs, ys)
    requires forall i :: 0 <= i < |xs| ==> IsReady(h, xs[i])
    ensures RollUp(h, id, body, ys).Some? && RollUp(h, id, body, ys).value.keys == HexCount(ys)
  {
    hide RollStep, Alike, Ready, IsHexId;
    if xs != [] {
      var n := |xs| - 1;
      RollUpCounts(h, id, body, xs[..n], ys[..n]);
      assert IsReady(h, xs[n]);
      var x :| Ready(h, xs[n], x);
      RollReady(h, id, body, n == 0, RollUp(h, id, body, ys[..n]).value, xs[n], ys[n], x);
    }
  }

  lemma RollReady(h: Hash, id: nat, body: Bytes, first: bool, r: Rolling, m: Member, y: Member, x: Bytes)
    requires IsHash(h) && 0 < id < 256 && Alike(h, id, body, m, y) && Ready(h, m, x)
    ensures var t := RollStep(h, id, body, first, r, y);
            t.Some? && t.value.keys == r.keys + if IsHexId(y.key) then 1 else 0
  {
    hide Hex, ValueText, Base32.Decode32, Base32.Encode32, KeyText, IsHexId, UnHex;
    HashTextReads(h, x);
    TrueText();
  }

  lemma {:induction false} HexCountFront(m: Member, ms: seq<Member>)
    ensures HexCount([m] + ms) == HexCount(ms) + if IsHexId(m.key) then 1 else 0
  {
    hide IsHexId;
    if ms == [] {
      assert [m] + ms == [m] && [m][..0] == [];
    } else {
      var n := |ms| - 1;
      assert ([m] + ms)[..n + 1] == [m] + ms[..n];
      HexCountFront(m, ms[..n]);
    }
  }

  lemma {:induction false} InsertCount(m: Member, ms: seq<Member>)
    ensures HexCount(Insert(m, ms)) == HexCount(ms) + if IsHexId(m.key) then 1 else 0
  {
    hide IsHexId, HexCount, Sorting.Le;
    HexCountFront(m, ms);
    if ms != [] && !Sorting.Le(m.key, ms[0].key) {
      InsertCount(m, ms[1..]);
      HexCountFront(ms[0], Insert(m, ms[1..]));
      HexCountFront(ms[0], ms[1..]);
      assert ms == [ms[0]] + ms[1..];
    }
  }

  lemma {:induction false} ArrangeCount(ms: seq<Member>)
    ensures HexCount(Arrange(ms)) == HexCount(ms)
  {
    hide IsHexId, HexCount, Insert;
    if ms != [] {
      ArrangeCount(ms[1..]);
      InsertCount(ms[0], Arrange(ms[1..]));
      HexCountFront(ms[0], ms[1..]);
      assert ms == [ms[0]] + ms[1..];
    }
  }

  lemma {:induction false} ShownCount(h: Hash, ms: seq<Member>)
    ensures HexCount(AllShown(h, 0, ms)) == KeyCount(ms)
  {
    hide IsHexId, Usable, Shown;
    if ms != [] {
      var n := |ms| - 1;
      ShownCount(h, ms[..n]);
      UsableIsShown(h, ms[n]);
      var before, last := AllShown(h, 0, ms[..n]), Shown(h, 0, ms[n]);
      if last != [] { assert (before + last)[..|before|] == before; } else { assert before + last == before; }
    }
  }

  lemma {:induction false} AlikeCount(h: Hash, id: nat, body: Bytes, xs: seq<Member>, ys: seq<Member>)
    requires AllAlike(h, id, body, xs, ys)
    ensures HexCount(xs) == HexCount(ys)
  {
    hide IsHexId, Alike;
    if xs != [] {
      var n := |xs| - 1;
      AlikeCount(h, id, body, xs[..n], ys[..n]);
      AlikeKeys(h, id, body, xs[n], ys[n]);
    }
  }

  lemma ShownReady(h: Hash, ms: seq<Member>)
    requires DistinctKeys(ms)
    ensures var s := Arrange(AllShown(h, 0, ms)); forall i :: 0 <= i < |s| ==> IsReady(h, s[i])
  {
    hide AllShown, Arrange, Usable, KeyText, HashText, ValueText, Shown;
    var s := Arrange(AllShown(h, 0, ms));
    ShownKeys(h, 0, ms);
    ShownDistinct(h, 0, ms);
    ArrangeSorts(AllShown(h, 0, ms));
    forall i | 0 <= i < |s| ensures IsReady(h, s[i]) {
      assert s[i] in s;
      var m :| m in ms && Shown(h, 0, m) == [s[i]];
      UsableIsShown(h, m);
      HashTextIs(h, ValueText(m.value));
      assert Ready(h, s[i], Decoded(ValueText(m.value)));
    }
  }

  /** A view has a name exactly when the keys are fit for one. */
  lemma ViewIsNamed(h: Hash, ms: seq<Member>, id: nat)
    requires IsHash(h) && DistinctKeys(ms) && 0 < id < 256
    ensures VKey(h, ImOf(h, id, ms), id).Some? <==> Fit(ms)
  {
    hide Hex, ImOf, RollUp, AllShown, Arrange, TooShort, BodyOf, AllAlike, Asked, HexCount, KeyCount, IsReady;
    if m :| m in ms && TooShort(m) {
      TooShortFails(h, id, ms, m);
    } else {
      ImClosed(h, id, ms);
      ShownAlike(h, id, ms);
      var xs, ys, body := AllShown(h, 0, ms), AllShown(h, id, ms), BodyOf(id, ms);
      AlikeCount(h, id, body, xs, ys);
      ArrangeAlike(h, id, body, xs, ys);
      ShownReady(h, ms);
      RollUpCounts(h, id, body, Arrange(xs), Arrange(ys));
      ArrangeCount(ys);
      ShownCount(h, ms);
    }
  }

  /** The view with one whole key and the name made from all keys differ exactly for fit keys with 00 among them. */
  lemma ViewsAgreeExactlyWhen(h: Hash, ms: seq<Member>, id: nat)
    requires IsHash(h) && DistinctKeys(ms) && 0 < id < 256
    ensures VKey(h, ImOf(h, id, ms), id) == VKeys(h, ms) <==> !(Fit(ms) && HasZero(ms))
  {
    hide VKey, VKeys, ImOf, Fit, HasZero;
    ViewIsNamed(h, ms, id);
    if HasZero(ms) { ZeroIsRefused(h, ms); } else { ViewsAgree(h, ms, id); }
  }

  // ----- the code -----

  /** Overwrites 32 bytes of the rolling buffer. */
  method Write32(a: array<nat>, at: nat, bytes: Bytes)
    requires |bytes| == 32 && at + 32 <= a.Length
    modifies a
    ensures a[..] == old(a[..at]) + bytes + old(a[at + 32..])
  {
    forall i | 0 <= i < 32 { a[at + i] := bytes[i]; }
  }

  /** Hashes the id into the first half, then the key into both halves. */
  method RollIn(h: Hash, csid: nat, body: Bytes, hash: array<nat>, first: bool, key: Bytes, text: Bytes)
      returns (ok: bool)
    requires IsHash(h) && hash.Length == 64 && IsHexId(key)
    modifies hash
    ensures ok <==> KeyHash(h, csid, body, key, text).Some?
    ensures ok ==> var idHash := h((if first then [] else old(hash[..32])) + [UnHex(key)]);
                   hash[..32] == h(idHash + KeyHash(h, csid, body, key, text).value)
  {
    hide Hex, Base32.Decode32, UnHex;
    hash[32] := UnHex(key);
    var start := if first then 32 else 0;
    assert hash[start..33] == (if first then [] else old(hash[..32])) + [UnHex(key)];
    var idHash := h(hash[start..33]);
    Write32(hash, 0, idHash);
    assert hash[..32] == idHash;
    var keyHash;
    if key == Hex(csid) {
      if |body| == 0 { return false; }
      keyHash := h(body);
    } else {
      if |text| != 52 { return false; }
      assert text[..52] == text;
      var stored;
      keyHash, stored := Base32.Decode(text, 52, 32);
      if |keyHash| != 32 { return false; }
    }
    Write32(hash, 32, keyHash);
    assert hash[..] == idHash + keyHash;
    Write32(hash, 0, h(hash[..]));
    assert hash[..32] == h(idHash + keyHash);
    return true;
  }

  /** The buffer and the byte-sized count after the first i members. */
  ghost predicate Rolled(h: Hash, csid: nat, body: Bytes, ms: seq<Member>, i: nat, hash: seq<nat>, keys: nat) {
    && i <= |ms| && |hash| == 64
    && var r := RollUp(h, csid, body, ms[..i]);
       r.Some? && hash[..32] == r.value.sum && keys == r.value.keys % 256
  }

  /** One round of the loop: the member at i, if there is one. */
  method RollMember(h: Hash, csid: nat, p: Lob, hash: array<nat>, keys: nat, i: nat)
      returns (more: bool, ok: bool, count: nat)
    requires IsHash(h) && p.Valid() && hash.Length == 64 && Rolled(h, csid, p.body, p.members, i, hash[..], keys)
    modifies hash
    ensures more == (i < |p.members|)
    ensures !more ==> Rolled(h, csid, p.body, p.members, i, hash[..], count)
    ensures more && ok ==> Rolled(h, csid, p.body, p.members, i + 1, hash[..], count)
    ensures more && !ok ==> RollUp(h, csid, p.body, p.members[..i + 1]).None?
  {
    hide Head, ValidJson, ValueText, RollUp, RollStep, KeyHash, IsHexId, UnHex, Hex;
    count := keys;
    var id := p.KeyAt(2 * i);
    if id.None? { return false, true, count; }
    var value := p.ValueAt(2 * i + 1);
    assert (2 * i) / 2 == i && (2 * i + 1) / 2 == i;
    RollNext(h, csid, p.body, p.members, i);
    if !IsHexId(id.value) || value.None? { return true, true, count; }
    count := (keys + 1) % 256;
    assert hash[..][..32] == hash[..32];
    ok := RollIn(h, csid, p.body, hash, i == 0, id.value, value.value);
    assert hash[..][..32] == hash[..32];
    more := true;
  }

  /** hashname_vkey: sort the packet and roll up its keys. */
  method NameFromIm(h: Hash, p: Lob?, csid: nat) returns (name: Option<Bytes>)
    requires IsHash(h) && (p != null ==> p.Valid())
    modifies p
    ensures p == null ==> name == None
    ensures p != null ==> name == VKey(h, Some(Intermediate(old(p.members), old(p.body))), csid)
    ensures p != null ==> p.Valid() && p.members == Arrange(old(p.members)) && p.body == old(p.body)
  {
    hide Arrange, Head, ValidJson, RollUp, KeyHash, IsHexId, UnHex, Hex;
    if p == null { return None; }
    Sort(p);
    ghost var ms := p.members;
    var hash := new nat[64](_ => 0);
    var keys: nat := 0;
    var i := 0;
    RollStarts(h, csid, p.body, ms);
    while true
      invariant 0 <= i <= |ms| && p.Valid() && p.members == ms && p.body == old(p.body)
      invariant fresh(hash) && Rolled(h, csid, p.body, ms, i, hash[..], keys)
      decreases |ms| - i
    {
      var more, ok;
      more, ok, keys := RollMember(h, csid, p, hash, keys, i);
      if !more { break; }
      if !ok {
        RollFails(h, csid, p.body, ms, i + 1);
        return None;
      }
      i := i + 1;
    }
    assert ms[..i] == ms;
    if keys == 0 { return None; }
    name := Some(hash[..32]);
  }

  lemma RollStarts(h: Hash, csid: nat, body: Bytes, ms: seq<Member>)
    ensures RollUp(h, csid, body, ms[..0]) == Some(Rolling(seq(32, _ => 0), 0))
  {
  }

  lemma RollNext(h: Hash, csid: nat, body: Bytes, ms: seq<Member>, i: nat)
    requires i < |ms| && RollUp(h, csid, body, ms[..i]).Some?
    ensures RollUp(h, csid, body, ms[..i + 1])
            == RollStep(h, csid, body, i == 0, RollUp(h, csid, body, ms[..i]).value, ms[i])
    ensures var r, m := RollUp(h, csid, body, ms[..i]).value, ms[i];
            var text := ValueText(m.value);
            RollStep(h, csid, body, i == 0, r, m)
            == if !IsHexId(m.key) || text == [] then Some(r)
               else
                 var k := KeyHash(h, csid, body, m.key, text);
                 if k.None? then None
                 else Some(Rolling(h(h((if i == 0 then [] else r.sum) + [UnHex(m.key)]) + k.value), r.keys + 1))
  {
    hide ValueText, KeyHash, IsHexId, UnHex;
    assert ms[..i + 1][..i] == ms[..i];
  }

  lemma {:induction false} RollFails(h: Hash, csid: nat, body: Bytes, ms: seq<Member>, i: nat)
    requires i <= |ms| && RollUp(h, csid, body, ms[..i]).None?
    ensures RollUp(h, csid, body, ms).None?
    decreases |ms|
  {
    hide RollStep;
    if i == |ms| {
      assert ms[..i] == ms;
    } else {
      assert ms[..|ms| - 1][..i] == ms[..i];
      RollFails(h, csid, body, ms[..|ms| - 1], i);
    }
  }

  /** lob_set_base32 */
  method SetBase32(p: Lob, key: Bytes, bin: Bytes)
    requires p.Valid() && PlainKey(key) && AreBytes(bin) && bin != []
    modifies p
    ensures p.Valid() && p.members == Put(old(p.members), key, KeyText(Base32.Encode32(bin))) && p.body == old(p.body)
  {
    hide Base32.Encode32, Put, Head, ValidJson, KeyText, PlainChars, Render, SetText;
    var vlen := Base32.EncodedLength(|bin|);
    var value := Base32.Encode(bin, vlen + 1);
    assert value == Base32.Encode32(bin);
    EncodedIsPlain(bin);
    KeyTextBytes(value);
    p.SetRaw(key, [QUOTE] + value + [QUOTE], KeyText(value));
  }

  lemma EncodedIsPlain(bin: Bytes)
    ensures PlainChars(Base32.Encode32(bin))
  {
    hide Base32.Digits;
    Base32.EncodedBits(bin);
  }

  /** One key of hashname_im, set into the intermediate packet. */
  method AddKey(h: Hash, id: nat, im: Lob, key: Bytes, text: Bytes, ghost m: Member) returns (ok: bool)
    requires IsHash(h) && im.Valid() && m.key == key && PlainKey(key) && |key| == 2 && ValueText(m.value) == text != []
    modifies im
    ensures im.Valid()
    ensures var r := ImStep(h, id, Intermediate(old(im.members), old(im.body)), m);
            ok == r.Some? && (ok ==> Intermediate(im.members, im.body) == r.value)
  {
    hide Hex, Base32.Decode32, Base32.Encode32, Put, ValueText, Head, ValidJson, KeyText, PlainKey, Render, SetText;
    var len := Base32.Floor(|text|);
    assert text[..|text|] == text;
    if id != 0 && Hex(id) == key {
      im.body := seq(len, _ => 0);
      var bytes, stored := Base32.Decode(text, |text|, len);
      im.body := stored + im.body[|stored|..];
      assert im.body == Buffer(text);
      if |bytes| != len { return true; }
      TrueText();
      assert Render(True) == [116, 114, 117, 101];
      im.SetRaw(key, [116, 114, 117, 101], True);
    } else {
      if len == 0 { return false; }
      var bytes, _ := Base32.Decode(text, |text|, len);
      if |bytes| != len { return true; }
      SetBase32(im, key, h(bytes));
    }
    return true;
  }

  /** hashname_im: the hash of every key in base32, or the key itself as the body. */
  method MakeIm(h: Hash, keys: Lob, id: nat) returns (im: Lob?)
    requires IsHash(h) && keys.Valid()
    ensures im == null <==> ImOf(h, id, keys.members) == None
    ensures im != null ==>
              fresh(im) && im.Valid() && Some(Intermediate(im.members, im.body)) == ImOf(h, id, keys.members)
  {
    hide ImStep, Head, ValidJson, ValueText, PlainKey;
    im := new Lob();
    ghost var ms := keys.members;
    var i := 0;
    ImStarts(h, id, ms);
    while true
      invariant 0 <= i <= |ms| && keys.Valid() && keys.members == ms
      invariant im != null && fresh(im) && im.Valid() && Some(Intermediate(im.members, im.body)) == ImOf(h, id, ms[..i])
      decreases |ms| - i
    {
      var key := keys.KeyAt(2 * i);
      if key.None? { break; }
      var value := keys.ValueAt(2 * i + 1);
      assert (2 * i) / 2 == i && (2 * i + 1) / 2 == i;
      ImNext(h, id, ms, i);
      if |key.value| == 2 && value.Some? {
        assert ValidMember(ms[i]);
        var ok := AddKey(h, id, im, key.value, value.value, ms[i]);
        if !ok {
          ImFails(h, id, ms, i + 1);
          return null;
        }
      }
      i := i + 1;
    }
    assert ms[..i] == ms;
  }

  lemma ImStarts(h: Hash, id: nat, ms: seq<Member>)
    ensures ImOf(h, id, ms[..0]) == Some(Intermediate([], []))
  {
  }

  lemma ImNext(h: Hash, id: nat, ms: seq<Member>, i: nat)
    requires i < |ms| && ImOf(h, id, ms[..i]).Some?
    ensures ImOf(h, id, ms[..i + 1]) == ImStep(h, id, ImOf(h, id, ms[..i]).value, ms[i])
    ensures |ms[i].key| != 2 || ValueText(ms[i].value) == [] ==> ImOf(h, id, ms[..i + 1]) == ImOf(h, id, ms[..i])
  {
    assert ms[..i + 1][..i] == ms[..i];
  }

  lemma {:induction false} ImFails(h: Hash, id: nat, ms: seq<Member>, i: nat)
    requires i <= |ms| && ImOf(h, id, ms[..i]).None?
    ensures ImOf(h, id, ms).None?
    decreases |ms|
  {
    hide ImStep;
    if i == |ms| {
      assert ms[..i] == ms;
    } else {
      assert ms[..|ms| - 1][..i] == ms[..i];
      ImFails(h, id, ms[..|ms| - 1], i);
    }
  }

  /** hashname_vkeys */
  method NameFromKeys(h: Hash, keys: Lob) returns (name: Option<Bytes>)
    requires IsHash(h) && keys.Valid()
    ensures name == VKeys(h, keys.members)
  {
    hide ImOf, VKey;
    var im := MakeIm(h, keys, 0);
    name := NameFromIm(h, im, 0);
    NoIm(h);
  }

  lemma NoIm(h: Hash)
    ensures VKey(h, None, 0) == None
  {
  }
}
