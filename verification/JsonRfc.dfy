/**
 JSON text as RFC 8259 has it, with byte ranges of its own: values, the blanks around them and
 the UTF-8 they are written in.  Every such value is one the scanner reads, and the jump tables
 of src/lib/js0n.c are written out as the bytes each mode takes.
 */
module JsonRfc {
  import opened Common
  import opened Js0n
  import opened JsonText

  // ----- values -----

  /** A character of a string: itself, \" \\ \/ \b \f \n \r or \t, \uXXXX, or a sequence of bytes. */
  datatype Char =
    | Unescaped(c: nat)
    | Escape(c: nat)
    | Hex(digits: Bytes)
    | Sequence(lead: nat, tails: Bytes)

  datatype Value =
    | Null
    | True
    | False
    | Number(minus: bool, whole: Bytes, fraction: Bytes, exponent: Bytes)
    | Quoted(chars: seq<Char>)
    | EmptyArray(blank: Bytes)
    | Array(elements: Elements)
    | EmptyObject(blank: Bytes)
    | Object(fields: Fields)

  /** Elements with the blanks before and after each. */
  datatype Elements =
    | Last(before: Bytes, v: Value, behind: Bytes)
    | More(before: Bytes, v: Value, behind: Bytes, rest: Elements)

  datatype Fields =
    | LastField(before: Bytes, name: seq<Char>, colonBefore: Bytes, colonBehind: Bytes, v: Value, behind: Bytes)
    | MoreFields(before: Bytes, name: seq<Char>, colonBefore: Bytes, colonBehind: Bytes, v: Value, behind: Bytes,
                 rest: Fields)

  predicate IsDigit(c: nat) { 48 <= c <= 57 }

  predicate AreDigits(s: Bytes) { forall i :: 0 <= i < |s| ==> 48 <= s[i] <= 57 }

  predicate IsBlank(s: Bytes) { forall i :: 0 <= i < |s| ==> s[i] in {9, 10, 13, 32} }

  /** e or E, a sign perhaps, and digits. */
  predicate IsExponent(s: Bytes) {
    && |s| >= 2 && s[0] in {69, 101}
    && if s[1] in {43, 45} then |s| >= 3 && AreDigits(s[2..]) else AreDigits(s[1..])
  }

  predicate AreTails(s: Bytes) { forall i :: 0 <= i < |s| ==> 128 <= s[i] <= 191 }

  predicate ValidChar(c: Char) {
    match c
    case Unescaped(b) => b == 32 || b == 33 || 35 <= b <= 91 || 93 <= b <= 126
    case Escape(b) => b in {34, 92, 47, 98, 102, 110, 114, 116}
    case Hex(ds) => |ds| == 4 && forall i :: 0 <= i < 4 ==> 48 <= ds[i] <= 57 || 65 <= ds[i] <= 70 || 97 <= ds[i] <= 102
    case Sequence(lead, tails) =>
      && AreTails(tails)
      && ((192 <= lead <= 223 && |tails| == 1) || (224 <= lead <= 239 && |tails| == 2)
          || (240 <= lead <= 247 && |tails| == 3))
  }

  predicate ValidChars(cs: seq<Char>) { forall i :: 0 <= i < |cs| ==> ValidChar(cs[i]) }

  predicate ValidValue(v: Value) {
    match v
    case Number(_, whole, fraction, exponent) =>
      && whole != [] && AreDigits(whole) && (whole[0] == 48 ==> |whole| == 1)
      && AreDigits(fraction) && (exponent == [] || IsExponent(exponent))
    case Quoted(chars) => ValidChars(chars)
    case EmptyArray(blank) => IsBlank(blank)
    case Array(elements) => ValidElements(elements)
    case EmptyObject(blank) => IsBlank(blank)
    case Object(fields) => ValidFields(fields)
    case _ => true
  }

  predicate ValidElements(es: Elements) {
    && IsBlank(es.before) && ValidValue(es.v) && IsBlank(es.behind)
    && (es.More? ==> ValidElements(es.rest))
  }

  predicate ValidFields(fs: Fields) {
    && IsBlank(fs.before) && ValidChars(fs.name) && IsBlank(fs.colonBefore) && IsBlank(fs.colonBehind)
    && ValidValue(fs.v) && IsBlank(fs.behind)
    && (fs.MoreFields? ==> ValidFields(fs.rest))
  }

  // ----- their text -----

  function WriteChar(c: Char): Bytes {
    match c
    case Unescaped(b) => [b]
    case Escape(b) => [92, b]
    case Hex(ds) => [92, 117] + ds
    case Sequence(lead, tails) => [lead] + tails
  }

  function WriteChars(cs: seq<Char>): Bytes {
    if cs == [] then [] else WriteChar(cs[0]) + WriteChars(cs[1..])
  }

  function WriteNumber(minus: bool, whole: Bytes, fraction: Bytes, exponent: Bytes): Bytes {
    (if minus then [45] else []) + whole + (if fraction == [] then [] else [46] + fraction) + exponent
  }

  function Write(v: Value): Bytes {
    match v
    case Null => [110, 117, 108, 108]
    case True => [116, 114, 117, 101]
    case False => [102, 97, 108, 115, 101]
    case Number(minus, whole, fraction, exponent) => WriteNumber(minus, whole, fraction, exponent)
    case Quoted(chars) => [34] + WriteChars(chars) + [34]
    case EmptyArray(blank) => [91] + blank + [93]
    case Array(elements) => [91] + WriteElements(elements) + [93]
    case EmptyObject(blank) => [123] + blank + [125]
    case Object(fields) => [123] + WriteFields(fields) + [125]
  }

  function WriteElements(es: Elements): Bytes {
    es.before + Write(es.v) + es.behind + if es.Last? then [] else [44] + WriteElements(es.rest)
  }

  function WriteFields(fs: Fields): Bytes {
    fs.before + ([34] + WriteChars(fs.name) + [34]) + fs.colonBefore + [58] + fs.colonBehind + Write(fs.v) + fs.behind
    + if fs.LastField? then [] else [44] + WriteFields(fs.rest)
  }

  // ----- as the scanner's values -----

  function Pieces(c: Char): seq<Piece> {
    match c
    case Unescaped(b) => [Plain(b)]
    case Escape(b) => [Escaped(b)]
    case Hex(ds) => [Escaped(117)] + seq(|ds|, i requires 0 <= i < |ds| => Plain(ds[i]))
    case Sequence(lead, tails) => [Multi(lead, tails)]
  }

  function AllPieces(cs: seq<Char>): seq<Piece> {
    if cs == [] then [] else Pieces(cs[0]) + AllPieces(cs[1..])
  }

  function WordOf(s: Bytes): Json
    requires s != []
  {
    Word(s[0], s[1..])
  }

  function Blanks(s: Bytes, after: Items): Items {
    if s == [] then after else Sep(s[0], Blanks(s[1..], after))
  }

  function ToJson(v: Value): Json
    requires ValidValue(v)
  {
    match v
    case Null => WordOf([110, 117, 108, 108])
    case True => WordOf([116, 114, 117, 101])
    case False => WordOf([102, 97, 108, 115, 101])
    case Number(minus, whole, fraction, exponent) => WordOf(WriteNumber(minus, whole, fraction, exponent))
    case Quoted(chars) => Text(AllPieces(chars))
    case EmptyArray(blank) => Nest(91, 93, Blanks(blank, End))
    case Array(elements) => Nest(91, 93, ToItems(elements))
    case EmptyObject(blank) => Nest(123, 125, Blanks(blank, End))
    case Object(fields) => Nest(123, 125, FieldItems(fields))
  }

  function ToItems(es: Elements): Items
    requires ValidElements(es)
  {
    Blanks(es.before, Elem(ToJson(es.v), Blanks(es.behind, if es.Last? then End else Sep(44, ToItems(es.rest)))))
  }

  function FieldItems(fs: Fields): Items
    requires ValidFields(fs)
  {
    var rest := if fs.LastField? then End else Sep(44, FieldItems(fs.rest));
    Blanks(fs.before,
           Elem(Text(AllPieces(fs.name)),
                Blanks(fs.colonBefore, Sep(58, Blanks(fs.colonBehind, Elem(ToJson(fs.v), Blanks(fs.behind, rest)))))))
  }

  lemma {:induction false} PiecesAppend(ps: seq<Piece>, qs: seq<Piece>)
    ensures PiecesBytes(ps + qs) == PiecesBytes(ps) + PiecesBytes(qs)
  {
    hide PieceBytes;
    if ps == [] {
      assert ps + qs == qs;
    } else {
      PiecesAppend(ps[1..], qs);
      assert (ps + qs)[0] == ps[0] && (ps + qs)[1..] == ps[1..] + qs;
    }
  }

  lemma {:induction false} PlainBytes(ds: Bytes, ps: seq<Piece>)
    requires |ps| == |ds| && forall i :: 0 <= i < |ds| ==> ps[i] == Plain(ds[i])
    ensures PiecesBytes(ps) == ds
  {
    if ds != [] {
      PlainBytes(ds[1..], ps[1..]);
      assert ds == [ds[0]] + ds[1..];
    }
  }

  lemma CharIsPieces(c: Char)
    requires ValidChar(c)
    ensures PiecesBytes(Pieces(c)) == WriteChar(c)
    ensures forall i :: 0 <= i < |Pieces(c)| ==> ValidPiece(Pieces(c)[i])
  {
    match c
    case Hex(ds) =>
      var ps := Pieces(c);
      PlainBytes(ds, ps[1..]);
      assert PiecesBytes(ps) == PieceBytes(ps[0]) + PiecesBytes(ps[1..]);
    case Unescaped(_) =>
    case Escape(_) =>
    case Sequence(_, _) =>
  }

  lemma {:induction false} CharsArePieces(cs: seq<Char>)
    requires ValidChars(cs)
    ensures PiecesBytes(AllPieces(cs)) == WriteChars(cs)
    ensures forall i :: 0 <= i < |AllPieces(cs)| ==> ValidPiece(AllPieces(cs)[i])
  {
    hide Pieces, ValidPiece, PieceBytes, WriteChar, ValidChar;
    if cs != [] {
      CharIsPieces(cs[0]);
      CharsArePieces(cs[1..]);
      PiecesAppend(Pieces(cs[0]), AllPieces(cs[1..]));
    }
  }

  lemma NumberIsWord(minus: bool, whole: Bytes, fraction: Bytes, exponent: Bytes)
    requires ValidValue(Number(minus, whole, fraction, exponent))
    ensures var s := WriteNumber(minus, whole, fraction, exponent); s != [] && ValidJson(WordOf(s))
  {
    var s := WriteNumber(minus, whole, fraction, exponent);
    assert forall i :: 0 <= i < |exponent| ==> exponent[i] in {43, 45, 69, 101} || 48 <= exponent[i] <= 57 by {
      forall i | 0 <= i < |exponent| ensures exponent[i] in {43, 45, 69, 101} || 48 <= exponent[i] <= 57 {
        if i >= 1 { assert exponent[1..][i - 1] == exponent[i]; }
        if i >= 2 { assert exponent[2..][i - 2] == exponent[i]; }
      }
    }
    assert forall i :: 0 <= i < |s| ==> s[i] in {43, 45, 46, 69, 101} || 48 <= s[i] <= 57;
    assert s[0] == 45 || 48 <= s[0] <= 57;
  }

  /** Blanks in front of items. */
  lemma {:induction false} BlanksRead(s: Bytes, after: Items)
    requires IsBlank(s) && ValidItems(after)
    ensures ValidItems(Blanks(s, after)) && RenderItems(Blanks(s, after)) == s + RenderItems(after)
    ensures !after.Elem? ==> !Blanks(s, after).Elem?
  {
    if s != [] {
      BlanksRead(s[1..], after);
      assert s == [s[0]] + s[1..];
    } else {
      assert s + RenderItems(after) == RenderItems(after);
    }
  }

  /** A value and the blanks behind it, in front of no other value. */
  lemma ValueThen(j: Json, s: Bytes, rest: Items)
    requires ValidJson(j) && IsBlank(s) && ValidItems(rest) && !rest.Elem?
    ensures var items := Elem(j, Blanks(s, rest));
            ValidItems(items) && RenderItems(items) == Render(j) + s + RenderItems(rest)
  {
    hide Render, Blanks, ValidJson, IsBlank;
    BlanksRead(s, rest);
    assert Render(j) + (s + RenderItems(rest)) == Render(j) + s + RenderItems(rest);
  }

  lemma SepThen(c: nat, after: Items)
    requires c in {44, 58} && ValidItems(after)
    ensures ValidItems(Sep(c, after)) && RenderItems(Sep(c, after)) == [c] + RenderItems(after)
  {
  }

  lemma NothingMore()
    ensures ValidItems(End) && RenderItems(End) == []
  {
  }

  lemma NestThen(open: nat, close: nat, items: Items, text: Bytes)
    requires (open, close) in {(91, 93), (123, 125)} && ValidItems(items) && RenderItems(items) == text
    ensures ValidJson(Nest(open, close, items)) && Render(Nest(open, close, items)) == [open] + text + [close]
  {
    hide RenderItems, ValidItems;
  }

  lemma StringThen(cs: seq<Char>)
    requires ValidChars(cs)
    ensures ValidJson(Text(AllPieces(cs))) && Render(Text(AllPieces(cs))) == [34] + WriteChars(cs) + [34]
  {
    hide AllPieces, WriteChars, ValidChar, ValidPiece, PiecesBytes;
    CharsArePieces(cs);
  }

  lemma WordThen(s: Bytes)
    requires s != []
    ensures Render(WordOf(s)) == s
  {
  }

  /** The scanner's value of a text of RFC 8259 is complete, and its text is that text. */
  lemma {:induction false} WriteIsRender(v: Value)
    requires ValidValue(v)
    ensures ValidJson(ToJson(v)) && Render(ToJson(v)) == Write(v)
    decreases v, 1
  {
    match v
    case Quoted(chars) => StringThen(chars);
    case EmptyArray(blank) => EmptyIsItems(v, blank);
    case EmptyObject(blank) => EmptyIsItems(v, blank);
    case Array(elements) =>
      ElementsAreItems(elements);
      ArrayIsNest(elements);
    case Object(fields) =>
      FieldsAreItems(fields);
      ObjectIsNest(fields);
    case _ => WordIsRender(v);
  }

  lemma WordIsRender(v: Value)
    requires ValidValue(v) && (v.Null? || v.True? || v.False? || v.Number?)
    ensures ValidJson(ToJson(v)) && Render(ToJson(v)) == Write(v)
  {
    hide WriteNumber;
    if v.Number? {
      NumberIsWord(v.minus, v.whole, v.fraction, v.exponent);
      WordThen(Write(v));
    }
  }

  lemma EmptyIsItems(v: Value, blank: Bytes)
    requires IsBlank(blank) && v in {EmptyArray(blank), EmptyObject(blank)}
    ensures ValidJson(ToJson(v)) && Render(ToJson(v)) == Write(v)
  {
    hide Blanks, IsBlank, RenderItems, ValidItems;
    NothingMore();
    BlanksRead(blank, End);
    assert blank + [] == blank;
    NestThen(91, 93, Blanks(blank, End), blank);
    NestThen(123, 125, Blanks(blank, End), blank);
  }

  lemma ArrayIsNest(es: Elements)
    requires ValidElements(es) && ValidItems(ToItems(es)) && RenderItems(ToItems(es)) == WriteElements(es)
    ensures ValidJson(ToJson(Array(es))) && Render(ToJson(Array(es))) == Write(Array(es))
  {
    hide ToItems, RenderItems, ValidItems, WriteElements, ValidElements;
    NestThen(91, 93, ToItems(es), WriteElements(es));
  }

  lemma ObjectIsNest(fs: Fields)
    requires ValidFields(fs) && ValidItems(FieldItems(fs)) && RenderItems(FieldItems(fs)) == WriteFields(fs)
    ensures ValidJson(ToJson(Object(fs))) && Render(ToJson(Object(fs))) == Write(Object(fs))
  {
    hide FieldItems, RenderItems, ValidItems, WriteFields, ValidFields;
    NestThen(123, 125, FieldItems(fs), WriteFields(fs));
  }

  lemma {:induction false} ElementsAreItems(es: Elements)
    requires ValidElements(es)
    ensures ValidItems(ToItems(es)) && RenderItems(ToItems(es)) == WriteElements(es)
    decreases es, 0
  {
    hide ValidValue, ToJson, Write, Render, RenderItems, ValidItems, ValidJson, Blanks, IsBlank;
    WriteIsRender(es.v);
    NothingMore();
    var rest := End;
    if es.More? {
      ElementsAreItems(es.rest);
      SepThen(44, ToItems(es.rest));
      rest := Sep(44, ToItems(es.rest));
    }
    ValueThen(ToJson(es.v), es.behind, rest);
    var items := Elem(ToJson(es.v), Blanks(es.behind, rest));
    BlanksRead(es.before, items);
    Joined(es.before, Write(es.v), es.behind, RenderItems(rest));
  }

  lemma Joined(a: Bytes, b: Bytes, c: Bytes, d: Bytes)
    ensures a + (b + c + d) == a + b + c + d
  {
  }

  lemma {:induction false} FieldsAreItems(fs: Fields)
    requires ValidFields(fs)
    ensures ValidItems(FieldItems(fs)) && RenderItems(FieldItems(fs)) == WriteFields(fs)
    decreases fs, 0
  {
    hide ValidValue, ToJson, Write, Render, RenderItems, ValidItems, ValidJson, Blanks, IsBlank, AllPieces, WriteChars,
         ValidChars;
    WriteIsRender(fs.v);
    StringThen(fs.name);
    NothingMore();
    var rest := End;
    if fs.MoreFields? {
      FieldsAreItems(fs.rest);
      SepThen(44, FieldItems(fs.rest));
      rest := Sep(44, FieldItems(fs.rest));
    }
    ValueThen(ToJson(fs.v), fs.behind, rest);
    var value := Elem(ToJson(fs.v), Blanks(fs.behind, rest));
    BlanksRead(fs.colonBehind, value);
    SepThen(58, Blanks(fs.colonBehind, value));
    var colon := Sep(58, Blanks(fs.colonBehind, value));
    ValueThen(Text(AllPieces(fs.name)), fs.colonBefore, colon);
    var name := Elem(Text(AllPieces(fs.name)), Blanks(fs.colonBefore, colon));
    BlanksRead(fs.before, name);
    var n, v, r := [34] + WriteChars(fs.name) + [34], Write(fs.v), RenderItems(rest);
    assert fs.before + (n + fs.colonBefore + ([58] + (fs.colonBehind + (v + fs.behind + r))))
        == fs.before + n + fs.colonBefore + [58] + fs.colonBehind + v + fs.behind + r;
  }

  // ----- the jump tables -----

  /** The mode after a byte, none where the table says bad. */
  function Target(mode: Mode, remain: int, c: nat): Option<Mode> {
    match mode
    case Struct =>
      if c in {9, 10, 13, 32, 44, 58, 91, 93, 123, 125} then Some(Struct)
      else if c == 34 then Some(Str)
      else if c == 45 || 48 <= c <= 57 || 65 <= c <= 90 || 97 <= c <= 122 then Some(Bare)
      else None
    case Bare =>
      if c in {9, 10, 13, 32, 44, 58, 93, 125} then Some(Struct)
      else if 32 <= c <= 126 then Some(Bare)
      else None
    case Str =>
      if c == 34 then Some(Struct)
      else if c == 92 then Some(Esc)
      else if 32 <= c <= 126 then Some(Str)
      else if 192 <= c <= 247 then Some(Utf8)
      else None
    case Utf8 => if 128 <= c <= 191 then Some(if remain == 1 then Str else Utf8) else None
    case Esc => if c in {34, 47, 92, 98, 102, 110, 114, 116, 117} then Some(Str) else None
  }

  /** A byte the table of the mode has nothing for ends the scan at its offset, and no other byte ends it so. */
  lemma JumpTables(key: Bytes, done: Bytes, c: nat, st: State)
    ensures match Step(key, done, c, st)
            case Stop(Missing(at)) => Target(st.mode, st.remain, c) == None && at == |done|
            case Stop(Found(_, _)) => Target(st.mode, st.remain, c).Some?
            case Go(st1) => Target(st.mode, st.remain, c) == Some(st1.mode)
  {
  }

  lemma BadByteEndsScan(key: Bytes, done: Bytes, c: nat, rest: Bytes, st: State)
    requires Target(st.mode, st.remain, c) == None
    ensures Run(key, done, [c] + rest, st) == Missing(|done|)
  {
    hide Step, Target, Run;
    JumpTables(key, done, c, st);
    Advance(key, done, c, rest, st);
  }

  /** Brackets move the depth, and a lead byte sets how many continuation bytes are to come. */
  lemma DepthAndRemain(key: Bytes, done: Bytes, c: nat, st: State)
    requires Step(key, done, c, st).Go?
    ensures var st1 := Step(key, done, c, st).st;
            && st1.depth == st.depth + (if st.mode == Struct && c in {91, 123} then 1
                                        else if st.mode in {Struct, Bare} && c in {93, 125} then -1 else 0)
            && st1.remain == if st.mode == Str && 192 <= c <= 223 then 1
                             else if st.mode == Str && 224 <= c <= 239 then 2
                             else if st.mode == Str && 240 <= c <= 247 then 3
                             else if st.mode == Utf8 then st.remain - 1
                             else st.remain
  {
  }
}
