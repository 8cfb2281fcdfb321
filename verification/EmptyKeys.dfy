/**
 Empty keys in packet headers (src/lib/lob.c): js0n takes an empty key for a request by index, and
 lob_set_raw leaves out the comma behind the shortest member there is.
 */
module EmptyKeys {
  import opened Common
  import opened Js0n
  import opened JsonText
  import opened JsonHead
  import opened Lobs

  /** Setting the empty key in a header that has members replaces the value of the first. */
  lemma EmptyKeySetsFirst(ms: seq<Member>, v: Json)
    requires ValidMembers(ms) && ms != []
    ensures SetText(Head(ms), [], Render(v)) == Head(ms[0 := Member(ms[0].key, v)])
  {
    hide Head, Scan, Render, EditText, Answer, ValidMembers;
    ScanByIndex(1, ms);
    HeadBraces(ms);
    EditReplaces(ms, 0, [], v);
  }

  // ----- when the comma is written -----

  /**
   A comma is written when the header has at least 7 bytes.  With members in it, whatever their keys,
   it has fewer exactly when there is one member, with an empty key and a value of one byte.
   */
  lemma ShortExactlyWhen(ms: seq<Member>)
    requires ms != []
    ensures |Head(ms)| < 7 <==> |ms| == 1 && ms[0].key == [] && |Render(ms[0].value)| == 1
  {
    hide Render, KeyText;
    MemberLength(ms[0]);
    if |ms| > 1 { MemberLength(ms[1]); }
  }

  lemma MemberLength(m: Member)
    ensures |MemberBytes(m)| == |m.key| + 3 + |Render(m.value)| && |Render(m.value)| >= 1
  {
    hide Render, KeyText;
    KeyTextBytes(m.key);
    RenderNonempty(m.value);
  }

  /**
   With the comma written, among members of plain or empty keys: the key set is found with its value,
   and every other nonempty key reads back as before.
   */
  lemma SetWithComma(ms: seq<Member>, key: Bytes, v: Json)
    requires ReadableMembers(ms) && PlainKey(key) && ValidJson(v) && (ms == [] || |Head(ms)| >= 7)
    ensures var t := SetText(Head(ms), key, Render(v));
            && t == Head(Put(ms, key, v)) && ReadableMembers(Put(ms, key, v))
            && forall k :: k != [] ==> ReadsBack(t, k, if k == key then Some(v) else Asked(ms, k))
  {
    hide Head, Scan, Render, EditText, Put, MapOf, ReadsBack, PlainChars, ValidJson;
    var after := Put(ms, key, v);
    HeadBraces(ms);
    SetTextIsHead(ms, key, v);
    PutIsReadable(ms, key, v);
    PutUpdatesMap(ms, key, v);
    forall k: Bytes | k != [] ensures ReadsBack(Head(after), k, if k == key then Some(v) else Asked(ms, k)) {
      KeyReadsBack(after, k);
    }
  }

  lemma PutIsReadable(ms: seq<Member>, key: Bytes, v: Json)
    requires ReadableMembers(ms) && PlainKey(key) && ValidJson(v)
    ensures ReadableMembers(Put(ms, key, v))
  {
    hide PlainChars, ValidJson;
  }

  // ----- what a missing comma does -----

  /** Nothing in the key ends a bare value. */
  predicate StaysBare(key: Bytes) {
    forall i :: 0 <= i < |key| ==> !IsBareEnd(key[i])
  }

  /**
   Behind a member with an empty key and a one-byte value, every plain key that stays bare is swallowed
   by that value: whatever value it is set to, it is not found.
   */
  lemma EmptyKeyLosesComma(w: Json, key: Bytes, v: Json)
    requires ValidJson(w) && |Render(w)| == 1 && PlainKey(key) && StaysBare(key) && ValidJson(v)
    ensures Scan(key, 1, SetText(Head([Member([], w)]), key, Render(v))).Missing?
  {
    hide Scan, Render, ValidJson, PlainChars, Reads, EditText, Head, KeyText, Run;
    var m := Member([], w);
    EmptyIsReadable(w);
    ShortHeader(m, key, v);
    OneByteWord(w);
    var d, q := MemberBytes(m), [QUOTE] + key + [QUOTE];
    var st0 := State(Struct, 1, 1, None, Some(0), 0);
    var st1 := OpenMember(key, m, st0);
    SwallowsKey(key, [OPEN_BRACE] + d, st1);
    var st2 := st1.(mode := Struct);
    var rest := Render(v) + [CLOSE_BRACE];
    ReadsMeans(key, [OPEN_BRACE], d, q + [COLON] + rest, st0, st1);
    ReadsMeans(key, [OPEN_BRACE] + d, q + [COLON], rest, st1, st2);
    assert d + (q + [COLON] + rest) == d + q + [COLON] + rest;
    NeverFound(key, [OPEN_BRACE] + d + (q + [COLON]), v, st2);
    OpensObject(key, d + q + [COLON] + rest);
  }

  /** The text: no comma between the two members. */
  lemma ShortHeader(m: Member, key: Bytes, v: Json)
    requires ReadableMember(m) && m.key == [] && |Render(m.value)| == 1 && key != []
    ensures SetText(Head([m]), key, Render(v))
            == [OPEN_BRACE] + (MemberBytes(m) + ([QUOTE] + key + [QUOTE]) + [COLON] + (Render(v) + [CLOSE_BRACE]))
  {
    hide Scan, Render, ValidJson, KeyText, MemberBytes;
    ShortExactlyWhen([m]);
    HeadBraces([m]);
    ScanByKey(key, 1, [m]);
    assert FirstWith([m], key) == 1;
    assert JoinBytes([m]) == MemberBytes(m) by { assert [m][1..] == []; }
  }

  lemma EmptyIsReadable(w: Json)
    requires ValidJson(w)
    ensures ReadableMember(Member([], w))
  {
  }

  lemma OneByteWord(w: Json)
    requires |Render(w)| == 1
    ensures w.Word?
  {
  }

  lemma OpensObject(key: Bytes, rest: Bytes)
    requires key != []
    ensures Scan(key, 1, [OPEN_BRACE] + rest) == Run(key, [OPEN_BRACE], rest, State(Struct, 1, 1, None, Some(0), 0))
  {
    hide Run;
    Advance(key, [], OPEN_BRACE, rest, InitialState(1));
    assert [] + [OPEN_BRACE] == [OPEN_BRACE];
  }

  /** Past a member whose value is a word, the word is still open. */
  lemma OpenMember(key: Bytes, m: Member, st: State) returns (st1: State)
    requires key != [] && ReadableMember(m) && m.key != key && m.value.Word? && AtMember(st)
    ensures Reads(key, [OPEN_BRACE], MemberBytes(m), st, st1) && PastMember(st1) && st1.mode == Bare
  {
    hide Reads, ValidJson, PlainChars;
    var t := Render(KeyText(m.key)) + [COLON];
    var mid := ReadsKey(key, [OPEN_BRACE], m.key, st);
    st1 := SkipsValue(key, [OPEN_BRACE] + t, m.value, mid);
    ReadsThen(key, [OPEN_BRACE], t, Render(m.value), st, mid, st1);
  }

  /** The quoted key is more of the open word; its colon ends the word. */
  lemma SwallowsKey(key: Bytes, done: Bytes, st: State)
    requires PlainKey(key) && StaysBare(key) && PastMember(st) && st.mode == Bare
    ensures Reads(key, done, [QUOTE] + key + [QUOTE] + [COLON], st, st.(mode := Struct))
  {
    hide Reads;
    var q := [QUOTE] + key + [QUOTE];
    ReadsBare(key, done, q, st);
    ReadsByte(key, done + q, COLON, st);
    ReadsThen(key, done, q, [COLON], st, st, st.(mode := Struct));
  }

  /** A value where a key is due, and the end of the object: nothing is found. */
  lemma NeverFound(key: Bytes, done: Bytes, v: Json, st: State)
    requires key != [] && ValidJson(v) && AtMember(st) && st.start.None?
    ensures Run(key, done, Render(v) + [CLOSE_BRACE], st).Missing?
  {
    match v
    case Text(_) => TextNeverFound(key, done, v, st);
    case Word(_, _) => WordNeverFound(key, done, v, st);
    case Nest(_, _, _) => NestNeverFound(key, done, v, st);
  }

  lemma TextNeverFound(key: Bytes, done: Bytes, v: Json, st: State)
    requires key != [] && ValidJson(v) && v.Text? && AtMember(st) && st.start.None?
    ensures Run(key, done, Render(v) + [CLOSE_BRACE], st).Missing?
  {
    hide Run, Reads, ValidJson;
    var out := TopText(key, done, v, st);
    var t := [QUOTE] + PiecesBytes(v.pieces);
    ReadsMeans(key, done, t, [QUOTE] + [CLOSE_BRACE], st, out);
    assert Render(v) + [CLOSE_BRACE] == t + ([QUOTE] + [CLOSE_BRACE]);
    Advance(key, done + t, QUOTE, [CLOSE_BRACE], out);
    EndsMissing(key, done + t + [QUOTE], Step(key, done + t, QUOTE, out).st);
  }

  lemma WordNeverFound(key: Bytes, done: Bytes, v: Json, st: State)
    requires key != [] && ValidJson(v) && v.Word? && AtMember(st) && st.start.None?
    ensures Run(key, done, Render(v) + [CLOSE_BRACE], st).Missing?
  {
    hide Run, Reads, ValidJson;
    TopWord(key, done, v, st);
    var out := Push(|key|, |done|, st).(mode := Bare);
    ReadsMeans(key, done, Render(v), [CLOSE_BRACE], st, out);
    EndsMissing(key, done + Render(v), out);
  }

  lemma NestNeverFound(key: Bytes, done: Bytes, v: Json, st: State)
    requires key != [] && ValidJson(v) && v.Nest? && AtMember(st) && st.start.None?
    ensures Run(key, done, Render(v) + [CLOSE_BRACE], st).Missing?
  {
    hide Run, Reads, ValidJson;
    var out := TopNest(key, done, v, st);
    var t := [v.open] + RenderItems(v.inner);
    ReadsMeans(key, done, t, [v.close] + [CLOSE_BRACE], st, out);
    assert Render(v) + [CLOSE_BRACE] == t + ([v.close] + [CLOSE_BRACE]);
    NestCloses(v);
    Advance(key, done + t, v.close, [CLOSE_BRACE], out);
    EndsMissing(key, done + t + [v.close], Step(key, done + t, v.close, out).st);
  }

  /** The closing brace ends the text without a value, matched key or not. */
  lemma EndsMissing(key: Bytes, done: Bytes, st: State)
    requires st.depth == 1 && st.mode in {Struct, Bare} && st.val.None?
    ensures Run(key, done, [CLOSE_BRACE], st).Missing?
  {
    hide Run;
    assert [CLOSE_BRACE] == [CLOSE_BRACE] + [];
    Advance(key, done, CLOSE_BRACE, [], st);
    EndOfText(key, done + [CLOSE_BRACE], Step(key, done, CLOSE_BRACE, st).st);
  }

  lemma EndOfText(key: Bytes, done: Bytes, st: State)
    ensures Run(key, done, [], st).Missing?
  {
  }

  // ----- a key that is found all the same -----

  /**
   Keys that end a bare value can be found: `:` set to "[x]" behind {"":1} gives {"":1":":"[x]"}, where
   the scanner takes the middle quotes for those of the key.
   */
  lemma ColonKeyIsFound()
    ensures var t := SetText(Head([Member([], Word(49, []))]), [COLON], Render(KeyText([91, 120, 93])));
            t == ColonText() && ReadsBack(t, [COLON], Some(KeyText([91, 120, 93])))
  {
    hide Scan, KeyText, Render, SetText, ColonText, MemberBytes, ReadsBack, ValidJson;
    ColonHeader();
    ColonScan();
    ColonReads(ColonText(), KeyText([91, 120, 93]));
  }

  lemma ColonHeader()
    ensures SetText(Head([Member([], Word(49, []))]), [COLON], Render(KeyText([91, 120, 93]))) == ColonText()
  {
    hide Scan, KeyText, Render, SetText;
    var m := Member([], Word(49, []));
    EmptyIsReadable(m.value);
    OneByte(49);
    ShortHeader(m, [COLON], KeyText([91, 120, 93]));
    KeyTextBytes([]);
    KeyTextBytes([91, 120, 93]);
  }

  lemma OneByte(c: nat)
    ensures Render(Word(c, [])) == [c]
  {
  }

  lemma ColonReads(t: Bytes, j: Json)
    requires t == ColonText() && j == KeyText([91, 120, 93]) && Scan([COLON], 1, t) == Found(10, 3)
    ensures ReadsBack(t, [COLON], Some(j))
  {
    hide Scan, KeyText, Render;
    KeyTextBytes([91, 120, 93]);
    IsText([91, 120, 93]);
    assert t[9..14] == [QUOTE, 91, 120, 93, QUOTE];
  }

  lemma IsText(key: Bytes)
    ensures KeyText(key).Text?
  {
  }

  function ColonText(): (t: Bytes)
    ensures |t| == 15
  {
    [OPEN_BRACE, QUOTE, QUOTE, COLON, 49, QUOTE, COLON, QUOTE, COLON, QUOTE, 91, 120, 93, QUOTE, CLOSE_BRACE]
  }

  lemma StepAt(t: Bytes, i: nat, st: State, st1: State)
    requires i < |t| && Step([COLON], t[..i], t[i], st) == Go(st1)
    ensures Run([COLON], t[..i], t[i..], st) == Run([COLON], t[..i + 1], t[i + 1..], st1)
  {
    assert t[i..] == [t[i]] + t[i + 1..] && t[..i + 1] == t[..i] + [t[i]];
    Advance([COLON], t[..i], t[i], t[i + 1..], st);
  }

  lemma ColonScan()
    ensures Scan([COLON], 1, ColonText()) == Found(10, 3)
  {
    hide Run;
    var t := ColonText();
    var st := State(Bare, 1, 1, None, None, 0);
    FirstBytes(t, st);
    MiddleBytes(t, st);
    LastBytes(t);
    assert t[..0] == [] && t[0..] == t;
  }

  lemma FirstBytes(t: Bytes, st: State)
    requires t == ColonText() && st == State(Bare, 1, 1, None, None, 0)
    ensures Run([COLON], t[..0], t[0..], InitialState(1)) == Run([COLON], t[..5], t[5..], st)
  {
    hide Run;
    var s1, s2 := State(Struct, 1, 1, None, Some(0), 0), State(Str, 1, 1, None, Some(2), 0);
    var s3 := State(Struct, 1, 2, None, None, 0);
    assert t[..2][2..] == [];
    StepAt(t, 0, InitialState(1), s1);
    StepAt(t, 1, s1, s2);
    StepAt(t, 2, s2, s3);
    StepAt(t, 3, s3, s3);
    StepAt(t, 4, s3, st);
  }

  lemma MiddleBytes(t: Bytes, st: State)
    requires t == ColonText() && st == State(Bare, 1, 1, None, None, 0)
    ensures Run([COLON], t[..5], t[5..], st) == Run([COLON], t[..10], t[10..], State(Struct, 1, 0, None, None, 0))
  {
    hide Run;
    var s7, s8 := State(Struct, 1, 1, None, None, 0), State(Str, 1, 1, None, Some(8), 0);
    assert t[..9][8..] == [COLON];
    StepAt(t, 5, st, st);
    StepAt(t, 6, st, s7);
    StepAt(t, 7, s7, s8);
    StepAt(t, 8, s8, s8);
    StepAt(t, 9, s8, State(Struct, 1, 0, None, None, 0));
  }

  lemma LastBytes(t: Bytes)
    requires t == ColonText()
    ensures Run([COLON], t[..10], t[10..], State(Struct, 1, 0, None, None, 0)) == Found(10, 3)
  {
    hide Run;
    var s10, s11 := State(Struct, 1, 0, None, None, 0), State(Struct, 2, 0, Some(10), None, 0);
    var s12 := s11.(mode := Bare);
    StepAt(t, 10, s10, s11);
    StepAt(t, 11, s11, s12);
    assert t[12..] == [t[12]] + t[13..];
    Advance([COLON], t[..12], t[12], t[13..], s12);
  }
}
