/**
 JSON text and what the scanner makes of it.  A Json value stands for any complete JSON
 value with any spacing; Head is the text of a packet header.  The scanner finds exactly
 the first member with the key it is given, whatever the values contain.
 */
module JsonText {
  import opened Js0n

  // ----- values and their text -----

  /** One character of a string: itself, an escape, or a UTF-8 sequence. */
  datatype Piece = Plain(c: nat) | Escaped(c: nat) | Multi(lead: nat, tails: Bytes)

  datatype Json =
    | Text(pieces: seq<Piece>)
    | Word(first: nat, more: Bytes)                            // numbers, true, false, null
    | Nest(open: nat, close: nat, inner: Items)                // arrays and objects

  /** Commas, colons and spaces, and values between them. */
  datatype Items = End | Sep(c: nat, after: Items) | Elem(v: Json, after: Items)

  predicate ValidPiece(p: Piece) {
    match p
    case Plain(c) => 32 <= c <= 126 && c != QUOTE && c != BACKSLASH
    case Escaped(c) => IsEscapable(c)
    case Multi(lead, tails) =>
      && Continuations(lead) > 0 && |tails| == Continuations(lead)
      && forall i :: 0 <= i < |tails| ==> 128 <= tails[i] <= 191
  }

  predicate ValidJson(j: Json) {
    match j
    case Text(pieces) => forall i :: 0 <= i < |pieces| ==> ValidPiece(pieces[i])
    case Word(first, more) =>
      IsBareStart(first) && forall i :: 0 <= i < |more| ==> 32 <= more[i] <= 126 && !IsBareEnd(more[i])
    case Nest(open, close, inner) => IsOpen(open) && IsClose(close) && ValidItems(inner)
  }

  /** Separators and values, a word always followed by a separator or the closing bracket. */
  predicate ValidItems(items: Items) {
    match items
    case End => true
    case Sep(c, after) => IsSkip(c) && ValidItems(after)
    case Elem(v, after) => ValidJson(v) && (v.Word? ==> !after.Elem?) && ValidItems(after)
  }

  function PieceBytes(p: Piece): Bytes {
    match p
    case Plain(c) => [c]
    case Escaped(c) => [BACKSLASH, c]
    case Multi(lead, tails) => [lead] + tails
  }

  function PiecesBytes(ps: seq<Piece>): Bytes {
    if ps == [] then [] else PieceBytes(ps[0]) + PiecesBytes(ps[1..])
  }

  function Render(j: Json): Bytes {
    match j
    case Text(pieces) => [QUOTE] + PiecesBytes(pieces) + [QUOTE]
    case Word(first, more) => [first] + more
    case Nest(open, close, inner) => [open] + RenderItems(inner) + [close]
  }

  function RenderItems(items: Items): Bytes {
    match items
    case End => []
    case Sep(c, after) => [c] + RenderItems(after)
    case Elem(v, after) => Render(v) + RenderItems(after)
  }

  // ----- the scanner over pieces of text -----

  lemma Advance(key: Bytes, done: Bytes, c: nat, rest: Bytes, st: State)
    ensures match Step(key, done, c, st)
            case Go(st1) => Run(key, done, [c] + rest, st) == Run(key, done + [c], rest, st1)
            case Stop(r) => Run(key, done, [c] + rest, st) == r
  {
    assert ([c] + rest)[0] == c && ([c] + rest)[1..] == rest;
  }

  /** The scanner reads t in state st and goes on in state st1. */
  ghost predicate Reads(key: Bytes, done: Bytes, t: Bytes, st: State, st1: State) {
    forall rest :: Run(key, done, t + rest, st) == Run(key, done + t, rest, st1)
  }

  lemma ReadsNothing(key: Bytes, done: Bytes, st: State)
    ensures Reads(key, done, [], st, st)
  {
    hide Run;
    forall rest: Bytes ensures Run(key, done, [] + rest, st) == Run(key, done + [], rest, st) {
      assert [] + rest == rest && done + [] == done;
    }
  }

  lemma ReadsByte(key: Bytes, done: Bytes, c: nat, st: State)
    requires Step(key, done, c, st).Go?
    ensures Reads(key, done, [c], st, Step(key, done, c, st).st)
  {
    hide Run, Step;
    forall rest: Bytes ensures Run(key, done, [c] + rest, st) == Run(key, done + [c], rest, Step(key, done, c, st).st) {
      Advance(key, done, c, rest, st);
    }
  }

  lemma ReadsThen(key: Bytes, done: Bytes, t: Bytes, u: Bytes, st: State, st1: State, st2: State)
    requires Reads(key, done, t, st, st1) && Reads(key, done + t, u, st1, st2)
    ensures Reads(key, done, t + u, st, st2)
  {
    hide Run;
    forall rest: Bytes ensures Run(key, done, (t + u) + rest, st) == Run(key, done + (t + u), rest, st2) {
      assert (t + u) + rest == t + (u + rest);
      assert (done + t) + u == done + (t + u);
    }
  }

  // ----- strings -----

  lemma {:induction false} ReadsTails(key: Bytes, done: Bytes, tails: Bytes, st: State)
    requires forall i :: 0 <= i < |tails| ==> 128 <= tails[i] <= 191
    requires st.mode == Utf8 && st.remain == |tails| > 0
    ensures Reads(key, done, tails, st, st.(mode := Str, remain := 0))
    decreases |tails|
  {
    hide Reads;
    var st1 := Step(key, done, tails[0], st).st;
    ReadsByte(key, done, tails[0], st);
    if |tails| == 1 {
      assert tails == [tails[0]];
    } else {
      ReadsTails(key, done + [tails[0]], tails[1..], st1);
      ReadsThen(key, done, [tails[0]], tails[1..], st, st1, st.(mode := Str, remain := 0));
      assert tails == [tails[0]] + tails[1..];
    }
  }

  /** `remain` is scratch space: 0 after a multi-byte character, unchanged otherwise. */
  function AfterPiece(p: Piece, st: State): State {
    if p.Multi? then st.(remain := 0) else st
  }

  lemma ReadsPiece(key: Bytes, done: Bytes, p: Piece, st: State)
    requires ValidPiece(p) && st.mode == Str
    ensures Reads(key, done, PieceBytes(p), st, AfterPiece(p, st))
  {
    hide Reads;
    match p
    case Plain(c) => ReadsByte(key, done, c, st);
    case Escaped(c) =>
      ReadsByte(key, done, BACKSLASH, st);
      ReadsByte(key, done + [BACKSLASH], c, st.(mode := Esc));
      ReadsThen(key, done, [BACKSLASH], [c], st, st.(mode := Esc), st);
      assert [BACKSLASH] + [c] == [BACKSLASH, c];
    case Multi(lead, tails) =>
      ReadsByte(key, done, lead, st);
      var st1 := st.(mode := Utf8, remain := |tails|);
      ReadsTails(key, done + [lead], tails, st1);
      ReadsThen(key, done, [lead], tails, st, st1, st.(remain := 0));
  }

  function AfterPieces(ps: seq<Piece>, st: State): State {
    if ps == [] then st else AfterPieces(ps[1..], AfterPiece(ps[0], st))
  }

  lemma {:induction false} AfterPiecesIsScratch(ps: seq<Piece>, st: State)
    ensures AfterPieces(ps, st) == st.(remain := AfterPieces(ps, st).remain)
  {
    if ps != [] { AfterPiecesIsScratch(ps[1..], AfterPiece(ps[0], st)); }
  }

  lemma {:induction false} ReadsPieces(key: Bytes, done: Bytes, ps: seq<Piece>, st: State)
    requires (forall i :: 0 <= i < |ps| ==> ValidPiece(ps[i])) && st.mode == Str
    ensures Reads(key, done, PiecesBytes(ps), st, AfterPieces(ps, st))
    decreases |ps|
  {
    hide Reads, ValidPiece, PieceBytes;
    if ps == [] {
      ReadsNothing(key, done, st);
    } else {
      var st1 := AfterPiece(ps[0], st);
      ReadsPiece(key, done, ps[0], st);
      ReadsPieces(key, done + PieceBytes(ps[0]), ps[1..], st1);
      ReadsThen(key, done, PieceBytes(ps[0]), PiecesBytes(ps[1..]), st, st1, AfterPieces(ps, st));
    }
  }

  // ----- bare words -----

  lemma {:induction false} ReadsBare(key: Bytes, done: Bytes, more: Bytes, st: State)
    requires (forall i :: 0 <= i < |more| ==> 32 <= more[i] <= 126 && !IsBareEnd(more[i])) && st.mode == Bare
    ensures Reads(key, done, more, st, st)
    decreases |more|
  {
    hide Reads;
    if more == [] {
      ReadsNothing(key, done, st);
    } else {
      ReadsByte(key, done, more[0], st);
      ReadsBare(key, done + [more[0]], more[1..], st);
      ReadsThen(key, done, [more[0]], more[1..], st, st, st);
      assert more == [more[0]] + more[1..];
    }
  }

  // ----- values inside values: only the depth and the mode move -----

  /** States that differ only in the UTF-8 scratch counter. */
  predicate SameButScratch(st: State, st1: State) {
    st1 == st.(remain := st1.remain)
  }

  lemma ReadsDeepText(key: Bytes, done: Bytes, j: Json, st: State) returns (st1: State)
    requires ValidJson(j) && j.Text? && st.depth != 1 && st.mode == Struct
    ensures Reads(key, done, Render(j), st, st1) && SameButScratch(st, st1)
  {
    hide Reads, ValidPiece;
    var in' := st.(mode := Str);
    var out := AfterPieces(j.pieces, in');
    AfterPiecesIsScratch(j.pieces, in');
    st1 := out.(mode := Struct);
    ReadsByte(key, done, QUOTE, st);
    ReadsPieces(key, done + [QUOTE], j.pieces, in');
    ReadsThen(key, done, [QUOTE], PiecesBytes(j.pieces), st, in', out);
    ReadsByte(key, done + ([QUOTE] + PiecesBytes(j.pieces)), QUOTE, out);
    ReadsThen(key, done, [QUOTE] + PiecesBytes(j.pieces), [QUOTE], st, out, st1);
  }

  lemma ReadsDeepWord(key: Bytes, done: Bytes, j: Json, st: State)
    requires ValidJson(j) && j.Word? && st.depth != 1 && st.mode == Struct
    ensures Reads(key, done, Render(j), st, st.(mode := Bare))
  {
    hide Reads;
    ReadsByte(key, done, j.first, st);
    ReadsBare(key, done + [j.first], j.more, st.(mode := Bare));
    ReadsThen(key, done, [j.first], j.more, st, st.(mode := Bare), st.(mode := Bare));
  }

  /** A value at depth 2 or more: a word is left open, waiting for its terminator. */
  lemma {:induction false} ReadsDeep(key: Bytes, done: Bytes, j: Json, st: State) returns (st1: State)
    requires ValidJson(j) && st.depth >= 2 && st.mode == Struct
    ensures Reads(key, done, Render(j), st, st1)
    ensures SameButScratch(st.(mode := if j.Word? then Bare else Struct), st1)
    decreases j, 1
  {
    hide Reads, ValidPiece;
    match j
    case Text(_) => st1 := ReadsDeepText(key, done, j, st);
    case Word(_, _) =>
      ReadsDeepWord(key, done, j, st);
      st1 := st.(mode := Bare);
    case Nest(open, close, inner) => st1 := ReadsDeepNest(key, done, j, st);
  }

  lemma {:induction false} ReadsDeepNest(key: Bytes, done: Bytes, j: Json, st: State) returns (st1: State)
    requires ValidJson(j) && j.Nest? && st.depth >= 2 && st.mode == Struct
    ensures Reads(key, done, Render(j), st, st1) && SameButScratch(st, st1)
    decreases j, 0
  {
    hide Reads, ValidPiece;
    var open, close, t := j.open, j.close, RenderItems(j.inner);
    var in' := st.(depth := st.depth + 1);
    ReadsByte(key, done, open, st);
    var out := ReadsItems(key, done + [open], j.inner, in');
    ReadsThen(key, done, [open], t, st, in', out);
    ReadsByte(key, done + ([open] + t), close, out);
    st1 := Step(key, done + ([open] + t), close, out).st;
    ReadsThen(key, done, [open] + t, [close], st, out, st1);
  }

  /** The inside of a nested value, at depth 2 or more. */
  lemma {:induction false} ReadsItems(key: Bytes, done: Bytes, items: Items, st: State) returns (st1: State)
    requires ValidItems(items) && st.depth >= 2
    requires st.mode == Struct || (st.mode == Bare && !items.Elem?)
    ensures Reads(key, done, RenderItems(items), st, st1)
    ensures st1.mode in {Struct, Bare} && SameButScratch(st.(mode := st1.mode), st1)
    decreases items, 2
  {
    hide Reads, ValidPiece;
    match items
    case End =>
      ReadsNothing(key, done, st);
      st1 := st;
    case Sep(c, after) =>
      ReadsByte(key, done, c, st);
      var mid := Step(key, done, c, st).st;
      st1 := ReadsItems(key, done + [c], after, mid);
      ReadsThen(key, done, [c], RenderItems(after), st, mid, st1);
    case Elem(v, after) =>
      var mid := ReadsDeep(key, done, v, st);
      st1 := ReadsItems(key, done + Render(v), after, mid);
      ReadsThen(key, done, Render(v), RenderItems(after), st, mid, st1);
  }
}
