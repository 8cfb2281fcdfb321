/**
 The packet of src/lib/lob.c as a map kept in the text of its JSON header: values are
 replaced in place or appended before the closing brace, and read back by scanning.
 */
module Lobs {
  import opened Common
  import opened Js0n
  import opened JsonText
  import opened JsonHead

  // ----- the header as an association list -----

  function Put(ms: seq<Member>, key: Bytes, v: Json): seq<Member> {
    var f := FirstWith(ms, key);
    if f < |ms| then ms[f := Member(key, v)] else ms + [Member(key, v)]
  }

  function MapOf(ms: seq<Member>): map<Bytes, Json> {
    if ms == [] then map[] else MapOf(ms[1..])[ms[0].key := ms[0].value]
  }

  predicate DistinctKeys(ms: seq<Member>) {
    forall i, j :: 0 <= i < j < |ms| ==> ms[i].key != ms[j].key
  }

  lemma {:induction false} MapOfFirst(ms: seq<Member>, key: Bytes)
    ensures var f := FirstWith(ms, key);
            if f < |ms| then key in MapOf(ms) && MapOf(ms)[key] == ms[f].value else key !in MapOf(ms)
  {
    if ms != [] && ms[0].key != key { MapOfFirst(ms[1..], key); }
  }

  lemma PutCons(ms: seq<Member>, key: Bytes, v: Json)
    requires ms != []
    ensures Put(ms, key, v) == if ms[0].key == key then [Member(key, v)] + ms[1..] else [ms[0]] + Put(ms[1..], key, v)
  {
  }

  lemma MapCons(m: Member, ms: seq<Member>)
    ensures MapOf([m] + ms) == MapOf(ms)[m.key := m.value]
  {
    assert ([m] + ms)[1..] == ms;
  }

  /** Setting a key changes that key and no other. */
  lemma {:induction false} PutUpdatesMap(ms: seq<Member>, key: Bytes, v: Json)
    ensures MapOf(Put(ms, key, v)) == MapOf(ms)[key := v]
  {
    hide Put, MapOf;
    if ms == [] {
      PutInEmpty(key, v);
      MapCons(Member(key, v), []);
      assert [Member(key, v)] + [] == [Member(key, v)];
    } else {
      PutCons(ms, key, v);
      MapCons(ms[0], ms[1..]);
      assert ms == [ms[0]] + ms[1..];
      if ms[0].key == key {
        MapCons(Member(key, v), ms[1..]);
      } else {
        PutUpdatesMap(ms[1..], key, v);
        MapCons(ms[0], Put(ms[1..], key, v));
      }
    }
  }

  lemma PutInEmpty(key: Bytes, v: Json)
    ensures Put([], key, v) == [Member(key, v)]
  {
  }

  lemma PutKeepsDistinct(ms: seq<Member>, key: Bytes, v: Json)
    requires DistinctKeys(ms)
    ensures DistinctKeys(Put(ms, key, v))
  {
  }

  // ----- the header text around one value -----

  function BeforeValue(ms: seq<Member>, f: nat): Bytes
    requires f < |ms|
  {
    if f == 0 then Render(KeyText(ms[0].key)) + [COLON]
    else MemberBytes(ms[0]) + [COMMA] + BeforeValue(ms[1..], f - 1)
  }

  lemma {:induction false} JoinSplits(ms: seq<Member>, f: nat)
    requires f < |ms|
    ensures JoinBytes(ms) == BeforeValue(ms, f) + Render(ms[f].value) + Suffix(ms[f + 1..])
    ensures |BeforeValue(ms, f)| == OffsetIn(ms, f)
  {
    hide Render, MemberBytes, JoinBytes, Suffix, KeyText;
    JoinUnfolds(ms);
    if f == 0 {
      KeyTextBytes(ms[0].key);
      MemberSplits(ms[0]);
    } else {
      JoinSplits(ms[1..], f - 1);
      assert ms[1..][f..] == ms[f + 1..];
      var m, b, v, r := MemberBytes(ms[0]), BeforeValue(ms[1..], f - 1), Render(ms[f].value), Suffix(ms[f + 1..]);
      assert m + ([COMMA] + (b + v + r)) == (m + [COMMA] + b) + v + r;
    }
  }

  lemma JoinUnfolds(ms: seq<Member>)
    requires ms != []
    ensures JoinBytes(ms) == MemberBytes(ms[0]) + Suffix(ms[1..])
    ensures |ms| > 1 ==> Suffix(ms[1..]) == [COMMA] + JoinBytes(ms[1..])
  {
    hide MemberBytes;
  }

  lemma MemberSplits(m: Member)
    ensures MemberBytes(m) == (Render(KeyText(m.key)) + [COLON]) + Render(m.value)
  {
  }

  /** The middle of three pieces of text. */
  lemma Middle(a: Bytes, v: Bytes, b: Bytes)
    ensures var h := a + v + b;
            && h[|a|..|a| + |v|] == v && h[..|a|] == a && h[|a| + |v|..] == b
            && (a != [] ==> h[|a| - 1] == a[|a| - 1]) && (v != [] ==> h[|a|] == v[0])
  {
  }

  lemma {:induction false} BeforeValueIgnoresValue(ms: seq<Member>, f: nat, v: Json)
    requires f < |ms|
    ensures BeforeValue(ms[f := Member(ms[f].key, v)], f) == BeforeValue(ms, f)
  {
    hide Render;
    if f > 0 {
      var ms' := ms[f := Member(ms[f].key, v)];
      BeforeValueIgnoresValue(ms[1..], f - 1, v);
      assert ms'[1..] == ms[1..][f - 1 := Member(ms[f].key, v)];
    }
  }

  /** The header is the text before the value, the value, and the text after it. */
  lemma HeadSplits(ms: seq<Member>, f: nat)
    requires f < |ms|
    ensures Head(ms) == ([OPEN_BRACE] + BeforeValue(ms, f)) + Render(ms[f].value)
            + (Suffix(ms[f + 1..]) + [CLOSE_BRACE])
    ensures |[OPEN_BRACE] + BeforeValue(ms, f)| == 1 + OffsetIn(ms, f)
  {
    hide Render, JoinBytes, BeforeValue, Suffix, OffsetIn;
    JoinSplits(ms, f);
    var a, v, b := BeforeValue(ms, f), Render(ms[f].value), Suffix(ms[f + 1..]);
    assert [OPEN_BRACE] + (a + v + b) + [CLOSE_BRACE] == ([OPEN_BRACE] + a) + v + (b + [CLOSE_BRACE]);
  }

  lemma ReplacedHead(ms: seq<Member>, f: nat, v: Json)
    requires f < |ms|
    ensures Head(ms[f := Member(ms[f].key, v)])
            == ([OPEN_BRACE] + BeforeValue(ms, f)) + Render(v) + (Suffix(ms[f + 1..]) + [CLOSE_BRACE])
  {
    hide Render, JoinBytes, BeforeValue, Suffix, OffsetIn, Head;
    var ms' := ms[f := Member(ms[f].key, v)];
    HeadSplits(ms', f);
    BeforeValueIgnoresValue(ms, f, v);
    assert ms'[f + 1..] == ms[f + 1..];
  }

  lemma {:induction false} SuffixAppends(ms: seq<Member>, m: Member)
    ensures Suffix(ms + [m]) == Suffix(ms) + [COMMA] + MemberBytes(m)
  {
    hide MemberBytes;
    if ms == [] {
      assert (ms + [m])[1..] == [] && ms + [m] == [m];
      assert Suffix([m]) == [COMMA] + MemberBytes(m) + Suffix([m][1..]);
    } else {
      SuffixAppends(ms[1..], m);
      assert (ms + [m])[1..] == ms[1..] + [m];
    }
  }

  lemma JoinAppends(ms: seq<Member>, m: Member)
    ensures JoinBytes(ms + [m]) == JoinBytes(ms) + (if ms == [] then [] else [COMMA]) + MemberBytes(m)
  {
    hide MemberBytes, JoinBytes, Suffix;
    if ms == [] {
      assert ms + [m] == [m];
      JoinIs([m]);
      SuffixOfNone();
      assert JoinBytes(ms) + [] + MemberBytes(m) == MemberBytes(m) + [];
    } else {
      var all, tail, b := ms + [m], Suffix(ms[1..]), MemberBytes(m);
      assert all[0] == ms[0] && all[1..] == ms[1..] + [m];
      JoinIs(ms);
      JoinIs(all);
      SuffixAppends(ms[1..], m);
      assert MemberBytes(ms[0]) + (tail + [COMMA] + b) == (MemberBytes(ms[0]) + tail) + [COMMA] + b;
    }
  }

  lemma JoinIs(ms: seq<Member>)
    requires ms != []
    ensures JoinBytes(ms) == MemberBytes(ms[0]) + Suffix(ms[1..])
  {
  }

  lemma SuffixOfNone()
    ensures Suffix([]) == [] && JoinBytes([]) == []
  {
  }

  /** The header with a member added before the closing brace. */
  lemma AppendedHead(ms: seq<Member>, m: Member)
    ensures Head(ms + [m]) == Head(ms)[..|Head(ms)| - 1] + (if ms == [] then [] else [COMMA]) + MemberBytes(m)
            + [CLOSE_BRACE]
  {
    hide MemberBytes, JoinBytes;
    assert Head(ms)[..|Head(ms)| - 1] == [OPEN_BRACE] + JoinBytes(ms);
    JoinAppends(ms, m);
  }

  lemma {:induction false} RenderNonempty(v: Json)
    ensures |Render(v)| >= 1
  {
  }

  /** Seven bytes tell an empty header from one with members, since no key or value is empty. */
  lemma HeadLength(ms: seq<Member>)
    requires ValidMembers(ms)
    ensures |Head(ms)| >= 7 <==> ms != []
    ensures ms == [] ==> Head(ms) == [OPEN_BRACE, CLOSE_BRACE]
  {
    if ms != [] {
      assert ValidMember(ms[0]);
      KeyTextBytes(ms[0].key);
      RenderNonempty(ms[0].value);
    }
  }

  // ----- where a value is -----

  lemma FoundValue(ms: seq<Member>, f: nat)
    requires f < |ms|
    ensures var h := Head(ms); var r := Answer(1, ms, f); var j := ms[f].value; var o := 1 + OffsetIn(ms, f);
            && 1 <= r.at <= |h| && o + |Render(j)| <= |h| && h[o..o + |Render(j)|] == Render(j)
            && (h[r.at - 1] == QUOTE <==> j.Text?)
            && r == if j.Text? then Found(o + 1, |Render(j)| - 2) else Found(o, |Render(j)|)
  {
    hide ValidJson, OffsetIn, BeforeValue, Suffix, Head, Render;
    HeadSplits(ms, f);
    var a, v, b := [OPEN_BRACE] + BeforeValue(ms, f), Render(ms[f].value), Suffix(ms[f + 1..]) + [CLOSE_BRACE];
    Middle(a, v, b);
    ColonBefore(ms, f);
    RenderNonempty(ms[f].value);
    if ms[f].value.Text? { TextIsQuoted(ms[f].value); }
  }

  lemma TextIsQuoted(j: Json)
    requires j.Text?
    ensures |Render(j)| >= 2 && Render(j)[0] == QUOTE
  {
  }

  lemma {:induction false} ColonBefore(ms: seq<Member>, f: nat)
    requires f < |ms|
    ensures var a := BeforeValue(ms, f); a != [] && a[|a| - 1] == COLON
  {
    hide Render, MemberBytes;
    if f > 0 { ColonBefore(ms[1..], f - 1); }
  }

  // ----- positions found are inside the text -----

  /** What the scanner keeps about its pointers. */
  predicate InBounds(done: Bytes, st: State) {
    && st.depth <= |done|
    && (st.val.Some? ==> 1 <= st.val.value <= |done|)
  }

  lemma StepInBounds(key: Bytes, done: Bytes, c: nat, st: State)
    requires InBounds(done, st)
    ensures match Step(key, done, c, st)
            case Go(st1) => InBounds(done + [c], st1)
            case Stop(r) => r.Found? ==> 1 <= r.at <= |done|
  {
  }

  lemma {:induction false} RunInBounds(key: Bytes, done: Bytes, rest: Bytes, st: State)
    requires InBounds(done, st)
    ensures var r := Run(key, done, rest, st); r.Found? ==> 1 <= r.at <= |done| + |rest|
    decreases |rest|
  {
    hide Step;
    if rest != [] {
      StepInBounds(key, done, rest[0], st);
      match Step(key, done, rest[0], st)
      case Go(st1) => RunInBounds(key, done + [rest[0]], rest[1..], st1);
      case Stop(_) =>
    }
  }

  /** In any text at all, a value found has a byte before it, so the quote test of the callers is in bounds. */
  lemma FoundHasByteBefore(key: Bytes, index: nat, json: Bytes)
    ensures var r := Scan(key, index, json); r.Found? ==> 1 <= r.at <= |json|
  {
    if json != [] { RunInBounds(key, [], json, InitialState(if key == [] then index else 1)); }
  }

  /** The value the getters are after: that of the key, and for the empty key that of the first member. */
  function Asked(ms: seq<Member>, key: Bytes): Option<Json> {
    if key == [] then (if ms == [] then None else Some(ms[0].value))
    else if key in MapOf(ms) then Some(MapOf(ms)[key])
    else None
  }

  lemma NothingAsked(key: Bytes)
    ensures Asked([], key) == None
  {
  }

  /** The scan for the key finds the text of this value, behind the quote if it is a string, or nothing. */
  predicate ReadsBack(h: Bytes, key: Bytes, v: Option<Json>) {
    var r := Scan(key, 1, h);
    match v
    case None => r.Missing?
    case Some(j) =>
      && r.Found? && 1 <= r.at <= |h| && (h[r.at - 1] == QUOTE <==> j.Text?)
      && var o := if j.Text? then r.at - 1 else r.at;
         o + |Render(j)| <= |h| && h[o..o + |Render(j)|] == Render(j) && r.len == |Render(j)| - if j.Text? then 2 else 0
  }

  lemma KeyReadsBack(ms: seq<Member>, key: Bytes)
    requires ReadableMembers(ms) && key != []
    ensures ReadsBack(Head(ms), key, Asked(ms, key))
  {
    hide Render, ValidJson, Head, OffsetIn, BeforeValue, Scan, MapOf;
    ScanByKey(key, 1, ms);
    MapOfFirst(ms, key);
    if FirstWith(ms, key) < |ms| { FoundValue(ms, FirstWith(ms, key)); }
  }

  lemma AskedReadsBack(ms: seq<Member>, key: Bytes)
    requires ValidMembers(ms)
    ensures ReadsBack(Head(ms), key, Asked(ms, key))
  {
    hide Render, ValidJson, Head, OffsetIn, BeforeValue, Scan, MapOf;
    if key == [] {
      ScanByIndex(1, ms);
      if ms != [] { FoundValue(ms, 0); }
    } else {
      ValidIsReadable(ms);
      KeyReadsBack(ms, key);
    }
  }

  // ----- setting a value in the text -----

  /** lob_set_raw on the text: over the value found, with its quotes, or before the closing brace. */
  function SetText(head: Bytes, key: Bytes, val: Bytes): Bytes {
    EditText(if |head| < 2 then [OPEN_BRACE, CLOSE_BRACE] else head, key, val)
  }

  function EditText(h: Bytes, key: Bytes, val: Bytes): Bytes
    requires |h| >= 2
  {
    match Scan(key, 1, h)
    case Found(at, len) =>
      var quoted := 1 <= at <= |h| && h[at - 1] == QUOTE;
      var from, to := if quoted then at - 1 else at, if quoted then at + len + 1 else at + len;
      if from <= to <= |h| then h[..from] + val + h[to..] else h
    case Missing(_) =>
      h[..|h| - 1] + (if |h| >= 7 then [COMMA] else []) + ([QUOTE] + key + [QUOTE] + [COLON] + val) + [CLOSE_BRACE]
  }

  /** With no members yet, or the comma in place, the text is that of the updated members. */
  lemma SetTextIsHead(ms: seq<Member>, key: Bytes, v: Json)
    requires ReadableMembers(ms) && key != [] && (ms == [] || |Head(ms)| >= 7)
    ensures |Head(ms)| >= 2 && EditText(Head(ms), key, Render(v)) == Head(Put(ms, key, v))
  {
    hide Render, ValidJson, Head, Scan, Put, FirstWith, EditText, Answer;
    ScanByKey(key, 1, ms);
    PutCases(ms, key, v);
    HeadBraces(ms);
    if FirstWith(ms, key) < |ms| { EditReplaces(ms, FirstWith(ms, key), key, v); } else { EditAppends(ms, key, v); }
  }

  lemma EditReplaces(ms: seq<Member>, f: nat, key: Bytes, v: Json)
    requires f < |ms| && Scan(key, 1, Head(ms)) == Answer(1, ms, f)
    ensures |Head(ms)| >= 2 && EditText(Head(ms), key, Render(v)) == Head(ms[f := Member(ms[f].key, v)])
  {
    hide Render, ValidJson, Head, OffsetIn, BeforeValue, Scan, Suffix, EditText;
    HeadBraces(ms);
    FoundValue(ms, f);
    HeadSplits(ms, f);
    ReplacedHead(ms, f, v);
    BeforeValueLength(ms, f);
    var a, j, b := [OPEN_BRACE] + BeforeValue(ms, f), ms[f].value, Suffix(ms[f + 1..]) + [CLOSE_BRACE];
    if j.Text? { TextIsQuoted(j); }
    EditCuts(Head(ms), key, Render(v), a, Render(j), b, if j.Text? then 1 else 0);
  }

  /** Where the scan points into the middle piece, one byte in from both sides if it is quoted, that piece goes. */
  lemma EditCuts(h: Bytes, key: Bytes, val: Bytes, a: Bytes, mid: Bytes, b: Bytes, quote: nat)
    requires h == a + mid + b && |h| >= 2 && a != [] && quote <= 1 && |mid| >= 2 * quote
    requires Scan(key, 1, h) == Found(|a| + quote, |mid| - 2 * quote)
    requires h[|a| + quote - 1] == QUOTE <==> quote == 1
    ensures EditText(h, key, val) == a + val + b
  {
    hide Scan;
    Middle(a, mid, b);
  }

  lemma EditAppends(ms: seq<Member>, key: Bytes, v: Json)
    requires Scan(key, 1, Head(ms)).Missing? && (ms == [] || |Head(ms)| >= 7)
    ensures |Head(ms)| >= 2 && EditText(Head(ms), key, Render(v)) == Head(ms + [Member(key, v)])
  {
    hide Render, ValidJson, Head, Scan, MemberBytes;
    HeadBraces(ms);
    AppendedHead(ms, Member(key, v));
    AppendedMember(key, Render(v), v);
  }

  lemma HeadBraces(ms: seq<Member>)
    ensures |Head(ms)| >= 2 && (ms == [] ==> Head(ms) == [OPEN_BRACE, CLOSE_BRACE])
  {
  }

  lemma BeforeValueLength(ms: seq<Member>, f: nat)
    requires f < |ms|
    ensures |BeforeValue(ms, f)| == OffsetIn(ms, f)
  {
    JoinSplits(ms, f);
  }

  predicate EditFits(h: Bytes, key: Bytes) {
    match Scan(key, 1, h)
    case Found(at, len) => 1 <= at <= |h| && len >= 0 && at + len <= |h| && (h[at - 1] == QUOTE ==> at + len < |h|)
    case Missing(_) => true
  }

  method Edit(h: Bytes, key: Bytes, val: Bytes) returns (json: Bytes)
    requires |h| >= 2 && EditFits(h, key)
    ensures json == EditText(h, key, val)
  {
    hide Scan;
    var r := Find(key, 1, h);
    match r {
      case Found(at, len) =>
        var eval, evlen := at, len;
        if h[eval - 1] == QUOTE {
          eval, evlen := eval - 1, evlen + 2;
        }
        json := h[..eval] + val + h[eval + evlen..];
      case Missing(_) =>
        json := h[..|h| - 1] + (if |h| >= 7 then [COMMA] else [])
            + ([QUOTE] + key + [QUOTE] + [COLON] + val) + [CLOSE_BRACE];
    }
  }

  /** In the text of valid members the value found can be cut out, with its quotes. */
  lemma EditInBounds(ms: seq<Member>, key: Bytes)
    requires ValidMembers(ms)
    ensures EditFits(Head(ms), key)
  {
    hide Head, Scan, Render, Asked;
    AskedReadsBack(ms, key);
    match Asked(ms, key)
    case None =>
    case Some(j) => if j.Text? { TextIsQuoted(j); }
  }

  lemma SetIsPut(ms: seq<Member>, key: Bytes, v: Json)
    requires ValidMembers(ms) && DistinctKeys(ms) && PlainKey(key) && ValidJson(v)
    ensures |Head(ms)| >= 2
    ensures var after := Put(ms, key, v);
            && ValidMembers(after) && DistinctKeys(after) && |Head(after)| >= 2
            && EditText(Head(ms), key, Render(v)) == Head(after) && MapOf(after) == MapOf(ms)[key := v]
  {
    hide Render, ValidJson, MapOf, Put, Head, PlainChars, Scan, DistinctKeys, EditText;
    ValidIsReadable(ms);
    HeadLength(ms);
    SetTextIsHead(ms, key, v);
    PutIsValid(ms, key, v);
    PutUpdatesMap(ms, key, v);
    PutKeepsDistinct(ms, key, v);
  }

  // ----- the packet -----

  class Lob {
    var head: Bytes
    var body: Bytes
    ghost var members: seq<Member>

    /** The header is the text of the members; a packet whose head is not JSON has none. */
    ghost predicate Valid()
      reads this
    {
      && ValidMembers(members) && DistinctKeys(members)
      && if |head| < 2 then members == [] else head == Head(members)
    }

    constructor ()
      ensures Valid() && members == [] && head == [] && body == []
    {
      head, body, members := [], [], [];
    }

    /**
     lob_set_raw: replace the value in the text, or append the member before the closing brace.  With a
     plain key and a complete value the packet is again that of its members.
     */
    method SetRaw(key: Bytes, val: Bytes, ghost v: Json)
      requires Valid()
      modifies `head, `members
      ensures head == SetText(old(head), key, val)
      ensures PlainKey(key) && ValidJson(v) && val == Render(v) ==>
                && Valid() && members == Put(old(members), key, v)
                && MapOf(members) == MapOf(old(members))[key := v]
    {
      hide Render, ValidJson, MapOf, Put, Head, PlainChars, ValidMembers, DistinctKeys, EditFits, EditText;
      ghost var ms := members;
      HeadBraces(ms);
      if |head| < 2 { head := [OPEN_BRACE, CLOSE_BRACE]; }
      EditInBounds(ms, key);
      head := Edit(head, key, val);
      if PlainKey(key) && ValidJson(v) && val == Render(v) {
        SetIsPut(ms, key, v);
        members := Put(ms, key, v);
      }
    }

    /** lob_get_raw: the offset of the value, quotes included. */
    method GetRaw(key: Bytes) returns (at: Option<nat>)
      requires Valid()
      ensures at.Some? <==> Asked(members, key).Some?
      ensures at.Some? ==> var v := Render(Asked(members, key).value);
                           at.value + |v| <= |head| && head[at.value..at.value + |v|] == v
    {
      hide Render, ValidJson, Head, OffsetIn, BeforeValue, Scan, Asked;
      HeadLength(members);
      if |head| < 5 {
        NothingAsked(key);
        return None;
      }
      AskedReadsBack(members, key);
      var r := Find(key, 1, head);
      match r {
        case Missing(_) => return None;
        case Found(val, _) => at := Some(if head[val - 1] == QUOTE then val - 1 else val);
      }
    }

    /** lob_get_len: the length of the value, quotes included; 0 when there is none. */
    method GetLen(key: Bytes) returns (len: int)
      requires Valid()
      ensures len == if Asked(members, key).Some? then |Render(Asked(members, key).value)| else 0
    {
      hide Render, ValidJson, Head, OffsetIn, BeforeValue, Scan, Asked;
      HeadLength(members);
      if |head| < 5 {
        NothingAsked(key);
        return 0;
      }
      AskedReadsBack(members, key);
      var r := Find(key, 1, head);
      match r {
        case Missing(_) => return 0;
        case Found(val, vlen) => len := if head[val - 1] == QUOTE then vlen + 2 else vlen;
      }
    }

    /** lob_keys: count keys and values until there are no more. */
    method Keys() returns (n: nat)
      requires Valid()
      ensures n == |members|
    {
      hide Scan, Head, ValidJson;
      var i := 0;
      while true
        invariant 0 <= i <= 2 * |members|
        decreases 2 * |members| - i
      {
        assert |head| >= 2 ==> head == Head(members);
        if |head| >= 2 { ScanByIndex(i, members); } else { ShortHead(i, head); }
        var r := Find([], i, head);
        if r.Missing? { break; }
        i := i + 1;
      }
      n := if i % 2 == 1 then 0 else i / 2;
    }

    /** lob_get_index: an even index is a key, which has nothing to unescape. */
    method KeyAt(i: nat) returns (key: Option<Bytes>)
      requires Valid() && i % 2 == 0
      ensures key == if i < 2 * |members| then Some(members[i / 2].key) else None
    {
      hide Scan, ValidJson, ItemAnswer, Head;
      if |head| >= 2 { ScanByIndex(i, members); } else { ShortHead(i, head); }
      if i < 2 * |members| {
        assert i == 2 * (i / 2);
        KeyInHead(members, i / 2);
        assert |head| >= 2;
      }
      var r := Find([], i, head);
      match r {
        case Missing(_) => return None;
        case Found(at, len) =>
          PlainHasNoEscape(members[i / 2].key);
          var text := Unescape(head[at..at + len]);
          key := Some(text);
      }
    }

    /** An odd index is a value, unescaped and without the quotes of a string; an empty string comes back as nothing. */
    method ValueAt(i: nat) returns (value: Option<Bytes>)
      requires Valid() && i % 2 == 1
      ensures value == if i < 2 * |members| && ValueText(members[i / 2].value) != []
              then Some(ValueText(members[i / 2].value)) else None
    {
      hide Scan, ValidJson, ItemAnswer, Head, RawText, Unescaped;
      if |head| >= 2 { ScanByIndex(i, members); } else { ShortHead(i, head); }
      if i < 2 * |members| {
        UnescapedIsNonempty(RawText(members[i / 2].value));
        ValueInHead(members, i);
        HeadLength(members);
        assert |head| >= 2;
      }
      var r := Find([], i, head);
      match r {
        case Missing(_) => return None;
        case Found(at, len) =>
          if len <= 0 { return None; }
          var text := Unescape(head[at..at + len]);
          value := Some(text);
      }
    }
  }

  /** The text of a value, inside the quotes if it is a string. */
  function RawText(j: Json): Bytes {
    var r := Render(j);
    if j.Text? && |r| >= 2 then r[1..|r| - 1] else r
  }

  /** unescape: an escaped n is a newline, an escaped quote a quote, everything else stays. */
  function Unescaped(t: Bytes): Bytes {
    if t == [] then []
    else if |t| > 1 && t[0] == BACKSLASH && (t[1] == 110 || t[1] == QUOTE) then
      [if t[1] == 110 then 10 else QUOTE] + Unescaped(t[2..])
    else [t[0]] + Unescaped(t[1..])
  }

  function ValueText(j: Json): Bytes {
    Unescaped(RawText(j))
  }

  lemma UnescapedIsNonempty(t: Bytes)
    ensures Unescaped(t) == [] <==> t == []
  {
  }

  lemma {:induction false} PlainHasNoEscape(t: Bytes)
    requires BACKSLASH !in t
    ensures Unescaped(t) == t
  {
    if t != [] {
      PlainHasNoEscape(t[1..]);
      assert t == [t[0]] + t[1..];
    }
  }

  lemma NothingToUnescape()
    ensures Unescaped([]) == []
  {
  }

  lemma UnescapedFrom(t: Bytes, i: nat)
    requires i < |t|
    ensures Unescaped(t[i..])
            == if i + 1 < |t| && t[i] == BACKSLASH && (t[i + 1] == 110 || t[i + 1] == QUOTE)
               then [if t[i + 1] == 110 then 10 else QUOTE] + Unescaped(t[i + 2..])
               else [t[i]] + Unescaped(t[i + 1..])
  {
    var rest := t[i..];
    assert |rest| > 1 ==> rest[2..] == t[i + 2..];
    assert rest[1..] == t[i + 1..];
  }

  method Unescape(t: Bytes) returns (s: Bytes)
    ensures s == Unescaped(t)
  {
    hide Unescaped;
    s := [];
    var cursor := 0;
    assert t[0..] == t;
    NothingToUnescape();
    while cursor < |t|
      invariant cursor <= |t| && Unescaped(t) == s + Unescaped(t[cursor..])
    {
      UnescapedFrom(t, cursor);
      ghost var before := s;
      if t[cursor] == BACKSLASH && cursor + 1 < |t| && t[cursor + 1] == 110 {
        s := s + [10];
        cursor := cursor + 1;
      } else if t[cursor] == BACKSLASH && cursor + 1 < |t| && t[cursor + 1] == QUOTE {
        s := s + [QUOTE];
        cursor := cursor + 1;
      } else {
        s := s + [t[cursor]];
      }
      cursor := cursor + 1;
      Regrouped(before, s[|before|], Unescaped(t[cursor..]));
    }
    assert t[cursor..] == [] && s + [] == s;
  }

  lemma Regrouped(x: Bytes, c: nat, y: Bytes)
    ensures x + ([c] + y) == (x + [c]) + y
  {
  }

  lemma Slices(s: Bytes, o: nat, n: nat, i: nat, j: nat)
    requires o + n <= |s| && i <= j <= n
    ensures s[o..o + n][i..j] == s[o + i..o + j]
  {
    var whole := s[o..o + n];
    var x, y := whole[i..j], s[o + i..o + j];
    forall k | 0 <= k < |x| ensures x[k] == y[k] {
      assert x[k] == whole[i + k] == s[o + (i + k)];
    }
  }

  lemma ValueInHead(ms: seq<Member>, i: nat)
    requires ValidMembers(ms) && i % 2 == 1 && i < 2 * |ms|
    ensures var r := ItemAnswer(1, ms, i); var h := Head(ms);
            && r.Found? && r.len == |RawText(ms[i / 2].value)|
            && r.at + r.len <= |h| && h[r.at..r.at + r.len] == RawText(ms[i / 2].value)
  {
    hide ValidJson, Render, Head, OffsetIn, Answer;
    var f := i / 2;
    FoundValue(ms, f);
    var j, h, o := ms[f].value, Head(ms), 1 + OffsetIn(ms, f);
    var v := Render(j);
    if j.Text? {
      TextIsQuoted(j);
      Slices(h, o, |v|, 1, |v| - 1);
    }
  }

  lemma PutCases(ms: seq<Member>, key: Bytes, v: Json)
    ensures var f := FirstWith(ms, key);
            Put(ms, key, v) == if f < |ms| then ms[f := Member(key, v)] else ms + [Member(key, v)]
  {
  }

  lemma PutIsValid(ms: seq<Member>, key: Bytes, v: Json)
    requires ValidMembers(ms) && PlainKey(key) && ValidJson(v)
    ensures ValidMembers(Put(ms, key, v)) && Put(ms, key, v) != [] && |Head(Put(ms, key, v))| >= 2
  {
  }

  lemma AppendedMember(key: Bytes, val: Bytes, v: Json)
    requires val == Render(v)
    ensures [QUOTE] + key + [QUOTE] + [COLON] + val == MemberBytes(Member(key, v))
  {
    hide Render;
    KeyTextBytes(key);
  }

  /** A head of fewer than two bytes holds no item. */
  lemma ShortHead(i: nat, head: Bytes)
    requires |head| < 2
    ensures Scan([], i, head).Missing?
  {
    if |head| == 1 {
      assert head == [head[0]] + [];
      Advance([], [], head[0], [], InitialState(i));
    }
  }

  lemma KeyInHead(ms: seq<Member>, f: nat)
    requires ValidMembers(ms) && f < |ms|
    ensures var r := ItemAnswer(1, ms, 2 * f); var h := Head(ms);
            r.Found? && r.len == |ms[f].key| && r.at + r.len <= |h| && h[r.at..r.at + r.len] == ms[f].key
  {
    hide ValidJson, Render, Head, BeforeValue, OffsetIn, Answer, Suffix;
    HeadSplits(ms, f);
    KeyBeforeValue(ms, f);
    var b, o, k := BeforeValue(ms, f), OffsetIn(ms, f), ms[f].key;
    var a := [OPEN_BRACE] + b;
    Middle(a, Render(ms[f].value), Suffix(ms[f + 1..]) + [CLOSE_BRACE]);
    assert (2 * f) / 2 == f && (2 * f) % 2 == 0;
    assert Head(ms)[o - |k| - 1..o - 1] == Head(ms)[..|a|][o - |k| - 1..o - 1];
    assert a[o - |k| - 1..o - 1] == b[o - |k| - 2..o - 2];
  }

  lemma {:induction false} KeyBeforeValue(ms: seq<Member>, f: nat)
    requires f < |ms|
    ensures var a, k := BeforeValue(ms, f), ms[f].key;
            |a| >= |k| + 3 && a[|a| - |k| - 2..|a| - 2] == k
  {
    hide Render, MemberBytes;
    if f == 0 {
      KeyTextBytes(ms[0].key);
    } else {
      KeyBeforeValue(ms[1..], f - 1);
      var a, b := MemberBytes(ms[0]) + [COMMA], BeforeValue(ms[1..], f - 1);
      var k := ms[f].key;
      assert (a + b)[|a| + |b| - |k| - 2..|a| + |b| - 2] == b[|b| - |k| - 2..|b| - 2];
    }
  }

  // ----- whole histories -----

  function PutAll(ms: seq<Member>, sets: seq<Member>): seq<Member>
    decreases |sets|
  {
    if sets == [] then ms else PutAll(Put(ms, sets[0].key, sets[0].value), sets[1..])
  }

  /** The last value set for a key. */
  function LastSet(sets: seq<Member>, key: Bytes): Option<Json> {
    if sets == [] then None
    else if sets[|sets| - 1].key == key then Some(sets[|sets| - 1].value)
    else LastSet(sets[..|sets| - 1], key)
  }

  lemma {:induction false} PutAllSnoc(ms: seq<Member>, sets: seq<Member>)
    requires sets != []
    ensures var s := sets[|sets| - 1]; PutAll(ms, sets) == Put(PutAll(ms, sets[..|sets| - 1]), s.key, s.value)
    decreases |sets|
  {
    hide Put;
    var init := sets[..|sets| - 1];
    if |sets| == 1 {
      assert sets[1..] == [] && init == [];
    } else {
      PutAllSnoc(Put(ms, sets[0].key, sets[0].value), sets[1..]);
      assert sets[1..][..|sets| - 2] == init[1..];
    }
  }

  lemma {:induction false} PutAllMap(sets: seq<Member>, key: Bytes)
    requires ValidMembers(sets)
    ensures var ms := PutAll([], sets);
            && ValidMembers(ms)
            && match LastSet(sets, key)
               case None => key !in MapOf(ms)
               case Some(v) => key in MapOf(ms) && MapOf(ms)[key] == v
    decreases |sets|
  {
    hide MapOf, Put, ValidMember;
    if sets == [] {
      NothingSet(key);
    } else {
      var init, s := sets[..|sets| - 1], sets[|sets| - 1];
      PutAllMap(init, key);
      PutAllSnoc([], sets);
      PutUpdatesMap(PutAll([], init), s.key, s.value);
      PutKeepsValid(PutAll([], init), s);
    }
  }

  lemma NothingSet(key: Bytes)
    ensures key !in MapOf([])
  {
  }

  lemma PutKeepsValid(ms: seq<Member>, s: Member)
    requires ValidMembers(ms) && ValidMember(s)
    ensures ValidMembers(Put(ms, s.key, s.value))
  {
  }

  /**
   Read after write: after any sequence of sets on an empty packet, scanning the header for a key
   finds the text of the last value set for it, or nothing when it was never set.
   */
  lemma ReadAfterWrite(sets: seq<Member>, key: Bytes)
    requires ValidMembers(sets) && key != []
    ensures var h := Head(PutAll([], sets)); var r := Scan(key, 1, h);
            match LastSet(sets, key)
            case None => r == Missing(0)
            case Some(v) =>
              && r.Found? && 1 <= r.at <= |h|
              && var o := if h[r.at - 1] == QUOTE then r.at - 1 else r.at;
                 o + |Render(v)| <= |h| && h[o..o + |Render(v)|] == Render(v)
                 && r.len == |Render(v)| - (if h[r.at - 1] == QUOTE then 2 else 0)
  {
    hide MapOf, Put, ValidMember, Render, Head, Scan, FirstWith, OffsetIn;
    var ms := PutAll([], sets);
    PutAllMap(sets, key);
    MapOfFirst(ms, key);
    ValidIsReadable(ms);
    ScanByKey(key, 1, ms);
    if FirstWith(ms, key) < |ms| { FoundValue(ms, FirstWith(ms, key)); }
  }
}
