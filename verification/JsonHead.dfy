/**
 Packet headers as JSON objects: what js0n finds at depth 1 in a header made of plain keys
 and complete values, by key and by index.
 */
module JsonHead {
  import opened Common
  import opened Js0n
  import opened JsonText

  // ----- headers -----

  datatype Member = Member(key: Bytes, value: Json)

  /** Characters that need no escaping. */
  predicate PlainChars(key: Bytes) {
    forall i :: 0 <= i < |key| ==> 32 <= key[i] <= 126 && key[i] != QUOTE && key[i] != BACKSLASH
  }

  predicate PlainKey(key: Bytes) {
    key != [] && PlainChars(key)
  }

  /** Members as js0n reads them; the key may be empty. */
  predicate ReadableMember(m: Member) {
    PlainChars(m.key) && ValidJson(m.value)
  }

  predicate ReadableMembers(ms: seq<Member>) {
    forall i :: 0 <= i < |ms| ==> ReadableMember(ms[i])
  }

  predicate ValidMember(m: Member) {
    PlainKey(m.key) && ValidJson(m.value)
  }

  predicate ValidMembers(ms: seq<Member>) {
    forall i :: 0 <= i < |ms| ==> ValidMember(ms[i])
  }

  lemma ValidIsReadable(ms: seq<Member>)
    requires ValidMembers(ms)
    ensures ReadableMembers(ms)
  {
    hide ValidJson, PlainChars;
    assert forall i :: 0 <= i < |ms| ==> ValidMember(ms[i]);
  }

  /** A plain string as a value. */
  function KeyText(key: Bytes): Json {
    Text(seq(|key|, i requires 0 <= i < |key| => Plain(key[i])))
  }

  function MemberBytes(m: Member): Bytes {
    Render(KeyText(m.key)) + [COLON] + Render(m.value)
  }

  function JoinBytes(ms: seq<Member>): Bytes {
    if ms == [] then [] else MemberBytes(ms[0]) + Suffix(ms[1..])
  }

  /** What follows a member: the others, each after a comma. */
  function Suffix(ms: seq<Member>): Bytes {
    if ms == [] then [] else [COMMA] + MemberBytes(ms[0]) + Suffix(ms[1..])
  }

  function Head(ms: seq<Member>): Bytes {
    [OPEN_BRACE] + JoinBytes(ms) + [CLOSE_BRACE]
  }

  lemma {:induction false} PlainPieces(key: Bytes, n: nat)
    requires n <= |key|
    ensures PiecesBytes(KeyText(key).pieces[n..]) == key[n..]
    decreases |key| - n
  {
    var ps := KeyText(key).pieces;
    if n < |key| {
      PlainPieces(key, n + 1);
      assert ps[n..][1..] == ps[n + 1..] && key[n..] == [key[n]] + key[n + 1..];
    }
  }

  lemma KeyTextBytes(key: Bytes)
    ensures Render(KeyText(key)) == [QUOTE] + key + [QUOTE]
    ensures PlainChars(key) ==> ValidJson(KeyText(key))
  {
    PlainPieces(key, 0);
    assert KeyText(key).pieces[0..] == KeyText(key).pieces && key[0..] == key;
  }

  // ----- a value at depth 1 -----

  /** Where PUSH points for a value that starts at `done`: inside the quotes of a string. */
  function ValueStart(done: Bytes, j: Json): nat {
    |done| + if j.Text? then 1 else 0
  }

  function ValueLength(j: Json): int {
    |Render(j)| - if j.Text? then 2 else 0
  }

  /** CAP would do nothing. */
  predicate Uncapped(key: Bytes, st: State) {
    !(st.val.Some? && st.index == 0) && (key == [] || st.start.None?)
  }

  /** A value at depth 1, up to its last byte: `p` is the state after PUSH. */
  lemma TopText(key: Bytes, done: Bytes, j: Json, st: State) returns (out: State)
    requires ValidJson(j) && j.Text? && st.depth == 1 && st.mode == Struct
    ensures var p := Push(|key|, |done| + 1, st); SameButScratch(p.(mode := Str), out)
    ensures Reads(key, done, [QUOTE] + PiecesBytes(j.pieces), st, out)
  {
    hide Reads, ValidPiece;
    var in' := Push(|key|, |done| + 1, st).(mode := Str);
    out := AfterPieces(j.pieces, in');
    AfterPiecesIsScratch(j.pieces, in');
    ReadsByte(key, done, QUOTE, st);
    ReadsPieces(key, done + [QUOTE], j.pieces, in');
    ReadsThen(key, done, [QUOTE], PiecesBytes(j.pieces), st, in', out);
  }

  lemma TopWord(key: Bytes, done: Bytes, j: Json, st: State)
    requires ValidJson(j) && j.Word? && st.depth == 1 && st.mode == Struct
    ensures Reads(key, done, Render(j), st, Push(|key|, |done|, st).(mode := Bare))
  {
    hide Reads;
    var p := Push(|key|, |done|, st).(mode := Bare);
    ReadsByte(key, done, j.first, st);
    ReadsBare(key, done + [j.first], j.more, p);
    ReadsThen(key, done, [j.first], j.more, st, p, p);
  }

  lemma TopNest(key: Bytes, done: Bytes, j: Json, st: State) returns (out: State)
    requires ValidJson(j) && j.Nest? && st.depth == 1 && st.mode == Struct
    ensures var p := Push(|key|, |done|, st);
            out.mode in {Struct, Bare} && SameButScratch(p.(depth := 2, mode := out.mode), out)
    ensures Reads(key, done, [j.open] + RenderItems(j.inner), st, out)
  {
    hide Reads;
    var in' := Push(|key|, |done|, st).(depth := 2);
    ReadsByte(key, done, j.open, st);
    out := ReadsItems(key, done + [j.open], j.inner, in');
    ReadsThen(key, done, [j.open], RenderItems(j.inner), st, in', out);
  }

  /** A value that is not the one looked for is read past; a word stays open until its terminator. */
  lemma SkipsValue(key: Bytes, done: Bytes, j: Json, st: State) returns (st1: State)
    requires ValidJson(j) && st.depth == 1 && st.mode == Struct
    requires Uncapped(key, Push(|key|, ValueStart(done, j), st))
    ensures Reads(key, done, Render(j), st, st1)
    ensures SameButScratch(Push(|key|, ValueStart(done, j), st).(mode := if j.Word? then Bare else Struct), st1)
  {
    hide Reads, ValidJson;
    match j
    case Text(pieces) =>
      var out := TopText(key, done, j, st);
      var t := [QUOTE] + PiecesBytes(pieces);
      ReadsByte(key, done + t, QUOTE, out);
      st1 := Step(key, done + t, QUOTE, out).st;
      ReadsThen(key, done, t, [QUOTE], st, out, st1);
    case Word(_, _) =>
      TopWord(key, done, j, st);
      st1 := Push(|key|, |done|, st).(mode := Bare);
    case Nest(open, close, inner) =>
      var out := TopNest(key, done, j, st);
      var t := [open] + RenderItems(inner);
      NestCloses(j);
      ReadsByte(key, done + t, close, out);
      st1 := Step(key, done + t, close, out).st;
      ReadsThen(key, done, t, [close], st, out, st1);
  }

  lemma NestCloses(j: Json)
    requires ValidJson(j) && j.Nest?
    ensures IsClose(j.close)
  {
  }

  /** The value looked for ends the scan; a word needs a byte after it to end it. */
  lemma FindsValue(key: Bytes, done: Bytes, j: Json, rest: Bytes, st: State)
    requires ValidJson(j) && st.depth == 1 && st.mode == Struct && st.index == 0
    requires rest != [] && IsBareEnd(rest[0])
    ensures Run(key, done, Render(j) + rest, st) == Found(ValueStart(done, j), ValueLength(j))
  {
    match j
    case Text(_) => FindsText(key, done, j, rest, st);
    case Word(_, _) => FindsWord(key, done, j, rest, st);
    case Nest(_, _, _) => FindsNest(key, done, j, rest, st);
  }

  lemma FindsText(key: Bytes, done: Bytes, j: Json, rest: Bytes, st: State)
    requires ValidJson(j) && j.Text? && st.depth == 1 && st.mode == Struct && st.index == 0
    ensures Run(key, done, Render(j) + rest, st) == Found(ValueStart(done, j), ValueLength(j))
  {
    hide Run, Reads, ValidJson;
    var out := TopText(key, done, j, st);
    var t := [QUOTE] + PiecesBytes(j.pieces);
    ReadsMeans(key, done, t, [QUOTE] + rest, st, out);
    assert Render(j) + rest == t + ([QUOTE] + rest);
    Advance(key, done + t, QUOTE, rest, out);
  }

  lemma FindsWord(key: Bytes, done: Bytes, j: Json, rest: Bytes, st: State)
    requires ValidJson(j) && j.Word? && st.depth == 1 && st.mode == Struct && st.index == 0
    requires rest != [] && IsBareEnd(rest[0])
    ensures Run(key, done, Render(j) + rest, st) == Found(ValueStart(done, j), ValueLength(j))
  {
    hide Run, Reads, ValidJson;
    TopWord(key, done, j, st);
    var out := Push(|key|, |done|, st).(mode := Bare);
    ReadsMeans(key, done, Render(j), rest, st, out);
    assert rest == [rest[0]] + rest[1..];
    Advance(key, done + Render(j), rest[0], rest[1..], out);
  }

  lemma FindsNest(key: Bytes, done: Bytes, j: Json, rest: Bytes, st: State)
    requires ValidJson(j) && j.Nest? && st.depth == 1 && st.mode == Struct && st.index == 0
    ensures Run(key, done, Render(j) + rest, st) == Found(ValueStart(done, j), ValueLength(j))
  {
    hide Run, Reads, ValidJson;
    var out := TopNest(key, done, j, st);
    var t := [j.open] + RenderItems(j.inner);
    ReadsMeans(key, done, t, [j.close] + rest, st, out);
    assert Render(j) + rest == t + ([j.close] + rest);
    NestCloses(j);
    Advance(key, done + t, j.close, rest, out);
  }

  // ----- by key -----

  /** Ready for a member: nothing remembered, and the next thing at depth 1 is a key. */
  predicate AtMember(st: State) {
    st.depth == 1 && st.mode == Struct && st.index == 1 && st.val.None?
  }

  /** After a member that did not match: as AtMember, except that a bare value may still be open. */
  predicate PastMember(st: State) {
    st.depth == 1 && st.mode in {Struct, Bare} && st.index == 1 && st.val.None? && st.start.None?
  }

  /** The key and its colon: index says whether the key matched. */
  lemma ReadsKey(key: Bytes, done: Bytes, k: Bytes, st: State) returns (st1: State)
    requires key != [] && PlainChars(k) && AtMember(st)
    ensures Reads(key, done, Render(KeyText(k)) + [COLON], st, st1)
    ensures SameButScratch(State(Struct, 1, if k == key then 0 else 2, None, None, 0), st1.(remain := 0))
  {
    hide Reads, PlainChars;
    KeyTextBytes(k);
    var t := [QUOTE] + k;
    var out := TopText(key, done, KeyText(k), st);
    assert [QUOTE] + PiecesBytes(KeyText(k).pieces) == t by { KeyPieces(k); }
    assert (done + t)[|done| + 1..] == k;
    ReadsByte(key, done + t, QUOTE, out);
    var closed := Step(key, done + t, QUOTE, out).st;
    ReadsThen(key, done, t, [QUOTE], st, out, closed);
    ReadsByte(key, done + (t + [QUOTE]), COLON, closed);
    st1 := closed;
    ReadsThen(key, done, t + [QUOTE], [COLON], st, closed, st1);
  }

  lemma KeyPieces(k: Bytes)
    ensures PiecesBytes(KeyText(k).pieces) == k
  {
    PlainPieces(k, 0);
    assert KeyText(k).pieces[0..] == KeyText(k).pieces && k[0..] == k;
  }

  lemma SkipsMember(key: Bytes, done: Bytes, m: Member, st: State) returns (st1: State)
    requires key != [] && ReadableMember(m) && m.key != key && AtMember(st)
    ensures Reads(key, done, MemberBytes(m), st, st1) && PastMember(st1)
  {
    hide Reads, ValidJson, PlainChars;
    var t := Render(KeyText(m.key)) + [COLON];
    var mid := ReadsKey(key, done, m.key, st);
    st1 := SkipsValue(key, done + t, m.value, mid);
    ReadsThen(key, done, t, Render(m.value), st, mid, st1);
  }

  /** The offset of a member's value from the start of the member. */
  function ValueOffset(m: Member): nat {
    |m.key| + 3
  }

  lemma FindsMember(key: Bytes, done: Bytes, m: Member, rest: Bytes, st: State)
    requires key != [] && ReadableMember(m) && m.key == key && AtMember(st)
    requires rest != [] && IsBareEnd(rest[0])
    ensures Run(key, done, MemberBytes(m) + rest, st)
            == Found(|done| + ValueOffset(m) + (if m.value.Text? then 1 else 0), ValueLength(m.value))
  {
    hide Run, ValidJson, PlainChars, Render;
    var t := Render(KeyText(m.key)) + [COLON];
    var mid := ReadsKey(key, done, m.key, st);
    KeyTextBytes(m.key);
    assert MemberBytes(m) + rest == t + (Render(m.value) + rest);
    FindsValue(key, done + t, m.value, rest, mid);
  }

  function FirstWith(ms: seq<Member>, key: Bytes): (f: nat)
    ensures f <= |ms| && (f < |ms| ==> ms[f].key == key) && forall i :: 0 <= i < f ==> ms[i].key != key
  {
    if ms == [] || ms[0].key == key then 0 else 1 + FirstWith(ms[1..], key)
  }

  /** Where the value of member f starts, counted from the first member. */
  function OffsetIn(ms: seq<Member>, f: nat): (o: nat)
    requires f < |ms|
    ensures o >= ValueOffset(ms[f])
  {
    if f == 0 then ValueOffset(ms[0]) else |MemberBytes(ms[0])| + 1 + OffsetIn(ms[1..], f - 1)
  }

  function Answer(base: nat, ms: seq<Member>, f: nat): Lookup
    requires f < |ms|
  {
    Found(base + OffsetIn(ms, f) + (if ms[f].value.Text? then 1 else 0), ValueLength(ms[f].value))
  }

  lemma ClosesObject(key: Bytes, done: Bytes, st: State)
    requires st.depth == 1 && st.mode in {Struct, Bare} && Uncapped(key, st)
    ensures Run(key, done, [CLOSE_BRACE], st) == Missing(0)
  {
    assert [CLOSE_BRACE] == [CLOSE_BRACE] + [];
    Advance(key, done, CLOSE_BRACE, [], st);
  }

  lemma {:induction false} RunMembers(key: Bytes, done: Bytes, ms: seq<Member>, st: State)
    requires key != [] && ReadableMembers(ms) && ms != [] && AtMember(st)
    ensures Run(key, done, JoinBytes(ms) + [CLOSE_BRACE], st)
            == var f := FirstWith(ms, key); if f < |ms| then Answer(|done|, ms, f) else Missing(0)
    decreases |ms|
  {
    hide Run, MemberBytes, ReadableMember, Reads, Step, FirstWith, Answer, JoinBytes, Suffix;
    var m, after := ms[0], Suffix(ms[1..]) + [CLOSE_BRACE];
    JoinedMembers(ms);
    SuffixStarts(ms[1..]);
    FirstAnswer(|done|, ms, key);
    if m.key == key {
      FindsMember(key, done, m, after, st);
    } else {
      var st1 := SkipsMember(key, done, m, st);
      ReadsMeans(key, done, MemberBytes(m), after, st, st1);
      if |ms| == 1 {
        assert after == [CLOSE_BRACE];
        ClosesObject(key, done + MemberBytes(m), st1);
      } else {
        var st2 := ReadsComma(key, done + MemberBytes(m), st1);
        var rest := JoinBytes(ms[1..]) + [CLOSE_BRACE];
        ReadsMeans(key, done + MemberBytes(m), [COMMA], rest, st1, st2);
        RunMembers(key, done + MemberBytes(m) + [COMMA], ms[1..], st2);
      }
    }
  }

  lemma JoinedMembers(ms: seq<Member>)
    requires ms != []
    ensures JoinBytes(ms) + [CLOSE_BRACE] == MemberBytes(ms[0]) + (Suffix(ms[1..]) + [CLOSE_BRACE])
    ensures |ms| == 1 ==> Suffix(ms[1..]) + [CLOSE_BRACE] == [CLOSE_BRACE]
    ensures |ms| > 1 ==> Suffix(ms[1..]) + [CLOSE_BRACE] == [COMMA] + (JoinBytes(ms[1..]) + [CLOSE_BRACE])
  {
    hide MemberBytes;
  }

  /** The answer is at the first member, or it is that for the members after it. */
  lemma FirstAnswer(base: nat, ms: seq<Member>, key: Bytes)
    requires ms != []
    ensures var f := FirstWith(ms, key);
            if ms[0].key == key then
              f == 0 && Answer(base, ms, 0) == Found(base + ValueOffset(ms[0]) + (if ms[0].value.Text? then 1 else 0),
                  ValueLength(ms[0].value))
            else
              && f == 1 + FirstWith(ms[1..], key)
              && (f < |ms| ==> Answer(base, ms, f) == Answer(base + |MemberBytes(ms[0])| + 1, ms[1..], f - 1))
  {
    hide MemberBytes, ValueOffset, ValueLength;
  }

  lemma ReadsMeans(key: Bytes, done: Bytes, t: Bytes, rest: Bytes, st: State, st1: State)
    requires Reads(key, done, t, st, st1)
    ensures Run(key, done, t + rest, st) == Run(key, done + t, rest, st1)
  {
  }

  lemma SuffixStarts(ms: seq<Member>)
    ensures var s := Suffix(ms) + [CLOSE_BRACE]; s != [] && IsBareEnd(s[0])
  {
  }

  lemma ReadsComma(key: Bytes, done: Bytes, st: State) returns (st1: State)
    requires PastMember(st)
    ensures Reads(key, done, [COMMA], st, st1) && AtMember(st1)
  {
    ReadsByte(key, done, COMMA, st);
    st1 := Step(key, done, COMMA, st).st;
  }

  /** js0n on a header finds the first member with the key, and nothing when there is none. */
  lemma ScanByKey(key: Bytes, any: nat, ms: seq<Member>)
    requires key != [] && ReadableMembers(ms)
    ensures Scan(key, any, Head(ms)) == var f := FirstWith(ms, key); if f < |ms| then Answer(1, ms, f) else Missing(0)
  {
    hide Run, ReadableMember, JoinBytes, FirstWith, Answer;
    var st := State(Struct, 1, 1, None, Some(0), 0);
    assert Head(ms) == [OPEN_BRACE] + (JoinBytes(ms) + [CLOSE_BRACE]);
    Advance(key, [], OPEN_BRACE, JoinBytes(ms) + [CLOSE_BRACE], InitialState(1));
    assert [] + [OPEN_BRACE] == [OPEN_BRACE];
    if ms == [] {
      EmptyObject(key, st);
    } else {
      RunMembers(key, [OPEN_BRACE], ms, st);
    }
  }

  lemma EmptyObject(key: Bytes, st: State)
    requires st.depth == 1 && st.mode == Struct
    ensures JoinBytes([]) == [] && FirstWith([], key) == 0
    ensures Run(key, [OPEN_BRACE], JoinBytes([]) + [CLOSE_BRACE], st) == Missing(0)
  {
    assert JoinBytes([]) + [CLOSE_BRACE] == [CLOSE_BRACE] + [];
    Advance(key, [OPEN_BRACE], CLOSE_BRACE, [], st);
  }

  // ----- by index -----

  /** In index mode, at the start of a key or a value. */
  predicate AtItem(st: State, i: nat) {
    st.depth == 1 && st.mode == Struct && st.index == i && st.val.None?
  }

  predicate PastItem(st: State, i: nat) {
    st.depth == 1 && st.mode in {Struct, Bare} && st.index == i && st.val.None?
  }

  /** The i-th key or value of the members, keys and values counted together. */
  function ItemAnswer(base: nat, ms: seq<Member>, i: nat): Lookup
    requires i < 2 * |ms|
  {
    var f := i / 2;
    if i % 2 == 0 then Found(base + OffsetIn(ms, f) - |ms[f].key| - 2, |ms[f].key|)
    else Answer(base, ms, f)
  }

  lemma CountsKey(done: Bytes, k: Bytes, i: nat, st: State) returns (st1: State)
    requires PlainKey(k) && i > 0 && AtItem(st, i)
    ensures Reads([], done, Render(KeyText(k)) + [COLON], st, st1) && AtItem(st1, i - 1)
  {
    hide Reads, PlainChars, Render;
    KeyTextBytes(k);
    var t := Render(KeyText(k));
    var mid := SkipsValue([], done, KeyText(k), st);
    ReadsByte([], done + t, COLON, mid);
    st1 := mid;
    ReadsThen([], done, t, [COLON], st, mid, st1);
  }

  lemma CountsMember(done: Bytes, m: Member, i: nat, st: State) returns (st1: State)
    requires ValidMember(m) && i > 1 && AtItem(st, i)
    ensures Reads([], done, MemberBytes(m), st, st1) && PastItem(st1, i - 2)
  {
    hide Reads, ValidJson, PlainChars, Render;
    var t := Render(KeyText(m.key)) + [COLON];
    var mid := CountsKey(done, m.key, i, st);
    st1 := SkipsValue([], done + t, m.value, mid);
    ReadsThen([], done, t, Render(m.value), st, mid, st1);
  }

  /** Index 0 is the member's key, index 1 its value. */
  lemma FindsItem(done: Bytes, m: Member, rest: Bytes, i: nat, st: State)
    requires ValidMember(m) && i < 2 && AtItem(st, i) && rest != [] && IsBareEnd(rest[0])
    ensures Run([], done, MemberBytes(m) + rest, st) == ItemAnswer(|done|, [m], i)
  {
    hide Run, Reads, ValidJson, PlainChars, Render;
    KeyTextBytes(m.key);
    var k, v := Render(KeyText(m.key)), Render(m.value);
    if i == 0 {
      assert MemberBytes(m) + rest == k + ([COLON] + v + rest);
      FindsValue([], done, KeyText(m.key), [COLON] + v + rest, st);
    } else {
      var mid := CountsKey(done, m.key, i, st);
      assert MemberBytes(m) + rest == (k + [COLON]) + (v + rest);
      ReadsMeans([], done, k + [COLON], v + rest, st, mid);
      FindsValue([], done + (k + [COLON]), m.value, rest, mid);
    }
  }

  lemma CountsComma(done: Bytes, i: nat, st: State) returns (st1: State)
    requires PastItem(st, i)
    ensures Reads([], done, [COMMA], st, st1) && AtItem(st1, i)
  {
    ReadsByte([], done, COMMA, st);
    st1 := Step([], done, COMMA, st).st;
  }

  lemma ItemAnswerMoves(base: nat, ms: seq<Member>, i: nat)
    requires i < 2 * |ms|
    ensures i < 2 ==> ItemAnswer(base, ms, i) == ItemAnswer(base, [ms[0]], i)
    ensures i >= 2 ==> ItemAnswer(base, ms, i) == ItemAnswer(base + |MemberBytes(ms[0])| + 1, ms[1..], i - 2)
  {
    hide MemberBytes;
    assert (i - 2) / 2 == i / 2 - 1 && (i - 2) % 2 == i % 2;
  }

  lemma {:induction false} RunItems(done: Bytes, ms: seq<Member>, i: nat, st: State)
    requires ValidMembers(ms) && ms != [] && AtItem(st, i)
    ensures Run([], done, JoinBytes(ms) + [CLOSE_BRACE], st) == if i < 2 * |ms| then ItemAnswer(|done|, ms, i)
            else Missing(0)
    decreases |ms|
  {
    hide Run, MemberBytes, ValidMember, Reads, Step, ItemAnswer;
    var m, after := ms[0], Suffix(ms[1..]) + [CLOSE_BRACE];
    assert JoinBytes(ms) + [CLOSE_BRACE] == MemberBytes(m) + after;
    SuffixStarts(ms[1..]);
    if i < 2 * |ms| { ItemAnswerMoves(|done|, ms, i); }
    if i < 2 {
      FindsItem(done, m, after, i, st);
    } else {
      var st1 := CountsMember(done, m, i, st);
      ReadsMeans([], done, MemberBytes(m), after, st, st1);
      if |ms| == 1 {
        assert after == [CLOSE_BRACE];
        ClosesObject([], done + MemberBytes(m), st1);
      } else {
        var st2 := CountsComma(done + MemberBytes(m), i - 2, st1);
        var rest := JoinBytes(ms[1..]) + [CLOSE_BRACE];
        assert after == [COMMA] + rest by { assert ms[1..][1..] == ms[2..]; }
        ReadsMeans([], done + MemberBytes(m), [COMMA], rest, st1, st2);
        RunItems(done + MemberBytes(m) + [COMMA], ms[1..], i - 2, st2);
      }
    }
  }

  /** js0n by index on a header: keys at even indices, their values at odd ones, nothing beyond. */
  lemma ScanByIndex(i: nat, ms: seq<Member>)
    requires ValidMembers(ms)
    ensures Scan([], i, Head(ms)) == if i < 2 * |ms| then ItemAnswer(1, ms, i) else Missing(0)
  {
    hide Run, ValidMember, JoinBytes, ItemAnswer;
    var st := State(Struct, 1, i, None, Some(0), 0);
    assert Head(ms) == [OPEN_BRACE] + (JoinBytes(ms) + [CLOSE_BRACE]);
    Advance([], [], OPEN_BRACE, JoinBytes(ms) + [CLOSE_BRACE], InitialState(i));
    assert [] + [OPEN_BRACE] == [OPEN_BRACE];
    if ms == [] {
      EmptyObject([], st);
    } else {
      RunItems([OPEN_BRACE], ms, i, st);
    }
  }
}
