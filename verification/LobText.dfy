/**
 Text values of a packet: lob_set writes a string in quotes with a backslash before every quote
 and backslash, lob_get takes the quotes off and unescapes.  Only quotes survive both ways.
 */
module LobText {
  import opened Common
  import opened Js0n
  import opened JsonText
  import opened JsonHead
  import opened Lobs

  // ----- escaping -----

  function EscapeByte(c: nat): Bytes {
    if c == 34 || c == 92 then [92, c] else [c]
  }

  function Escaping(val: Bytes): Bytes {
    if val == [] then [] else EscapeByte(val[0]) + Escaping(val[1..])
  }

  lemma {:induction false} EscapingAppend(x: Bytes, y: Bytes)
    ensures Escaping(x + y) == Escaping(x) + Escaping(y)
  {
    hide EscapeByte;
    if x == [] {
      assert x + y == y;
    } else {
      EscapingAppend(x[1..], y);
      assert (x + y)[0] == x[0] && (x + y)[1..] == x[1..] + y;
      var e, r, t := EscapeByte(x[0]), Escaping(x[1..]), Escaping(y);
      assert e + (r + t) == (e + r) + t;
    }
  }

  /** The loop of lob_set_len, between its two quotes. */
  method Escape(val: Bytes) returns (text: Bytes)
    ensures text == [34] + Escaping(val) + [34]
  {
    hide Escaping;
    text := [QUOTE];
    var i := 0;
    NothingEscaped();
    while i < |val|
      invariant 0 <= i <= |val| && text == [34] + Escaping(val[..i])
    {
      OneEscaped(val, i);
      if val[i] == QUOTE || val[i] == BACKSLASH { text := text + [BACKSLASH]; }
      text := text + [val[i]];
      i := i + 1;
    }
    assert val[..i] == val;
    text := text + [QUOTE];
  }

  lemma NothingEscaped()
    ensures Escaping([]) == []
  {
  }

  lemma OneEscaped(val: Bytes, i: nat)
    requires i < |val|
    ensures Escaping(val[..i + 1])
            == Escaping(val[..i]) + (if val[i] == 34 || val[i] == 92 then [92] else []) + [val[i]]
  {
    EscapingAppend(val[..i], [val[i]]);
    assert val[..i + 1] == val[..i] + [val[i]];
    assert [val[i]][1..] == [];
  }

  // ----- what unescaping makes of it -----

  /** Without backslashes in it, the text comes back. */
  lemma {:induction false} QuotesComeBack(val: Bytes)
    requires 92 !in val
    ensures Unescaped(Escaping(val)) == val
  {
    if val != [] {
      var e, rest := Escaping(val), Escaping(val[1..]);
      QuotesComeBack(val[1..]);
      if val[0] == 34 {
        assert e[0] == 92 && e[1] == 34 && e[2..] == rest;
      } else {
        assert e[0] == val[0] && e[1..] == rest;
      }
      assert val == [val[0]] + val[1..];
    }
  }

  /** k backslashes written twice each come back as 2k - 1, and one more unless an n follows. */
  lemma {:induction false} BackslashesGrow(val: Bytes, k: nat)
    requires 0 < k <= |val| && (forall i :: 0 <= i < k ==> val[i] == 92) && (k < |val| ==> val[k] != 92)
    ensures var u := Unescaped(Escaping(val));
            && |u| >= 2 * k
            && (forall i :: 0 <= i < 2 * k - 1 ==> u[i] == 92)
            && (u[2 * k - 1] == 92 || (u[2 * k - 1] == 10 && k < |val| && val[k] == 110))
  {
    var e, rest := Escaping(val), Escaping(val[1..]);
    assert e == [92, 92] + rest && e[1..] == [92] + rest;
    var u := Unescaped(e);
    assert u == [92] + Unescaped([92] + rest);
    if k > 1 {
      BackslashesGrow(val[1..], k - 1);
      assert rest[0] == 92 by { assert rest == [92, 92] + Escaping(val[1..][1..]); }
      assert ([92] + rest)[1..] == rest;
      assert u == [92, 92] + Unescaped(rest);
    } else {
      LastBackslash(val, rest);
    }
  }

  lemma LastBackslash(val: Bytes, rest: Bytes)
    requires val != [] && rest == Escaping(val[1..]) && (|val| > 1 ==> val[1] != 92)
    ensures var u := Unescaped([92] + rest);
            u != [] && (u[0] == 92 || (u[0] == 10 && |val| > 1 && val[1] == 110))
  {
    assert ([92] + rest)[1..] == rest;
    if |val| > 1 { assert rest[0] == if val[1] == 34 then 92 else val[1]; }
  }

  function CountBackslashes(val: Bytes): (k: nat)
    ensures k <= |val| && (forall i :: 0 <= i < k ==> val[i] == 92) && (k < |val| ==> val[k] != 92)
  {
    if val == [] || val[0] != 92 then 0 else 1 + CountBackslashes(val[1..])
  }

  lemma {:induction false} BackslashesDoNot(val: Bytes)
    requires 92 in val
    ensures Unescaped(Escaping(val)) != val
  {
    var e, rest, u := Escaping(val), Escaping(val[1..]), Unescaped(Escaping(val));
    if val[0] == 92 {
      var k := CountBackslashes(val);
      BackslashesGrow(val, k);
      assert k < |val| ==> u[k] != val[k];
    } else {
      BackslashesDoNot(val[1..]);
      if val[0] == 34 {
        assert e[0] == 92 && e[1] == 34 && e[2..] == rest;
      } else {
        assert e[0] == val[0] && e[1..] == rest;
      }
      assert u[1..] == Unescaped(rest);
    }
  }

  /** Escaping and unescaping gives the text back exactly when there is no backslash in it. */
  lemma ComesBackExactlyWhen(val: Bytes)
    ensures Unescaped(Escaping(val)) == val <==> 92 !in val
  {
    if 92 in val { BackslashesDoNot(val); } else { QuotesComeBack(val); }
  }

  // ----- text the scanner reads -----

  predicate AreTails(s: Bytes) {
    forall i :: 0 <= i < |s| ==> 128 <= s[i] <= 191
  }

  /** The length of the UTF-8 sequence at the beginning, 0 if there is none. */
  function Width(val: Bytes): (n: nat)
    requires val != []
    ensures n <= |val|
  {
    var n := if 32 <= val[0] <= 126 then 1 else if 192 <= val[0] <= 223 then 2 else if 224 <= val[0] <= 239 then 3
             else if 240 <= val[0] <= 247 then 4 else 0;
    if n <= |val| && (n > 1 ==> AreTails(val[1..n])) then n else 0
  }

  /** Printable ASCII and UTF-8 sequences. */
  predicate IsText(val: Bytes) {
    val == [] || (Width(val) > 0 && IsText(val[Width(val)..]))
  }

  function FirstPiece(val: Bytes): Piece
    requires val != [] && Width(val) > 0
  {
    var n := Width(val);
    if n > 1 then Multi(val[0], val[1..n])
    else if val[0] == 34 || val[0] == 92 then Escaped(val[0])
    else Plain(val[0])
  }

  function TextPieces(val: Bytes): seq<Piece>
    requires IsText(val)
  {
    if val == [] then [] else [FirstPiece(val)] + TextPieces(val[Width(val)..])
  }

  lemma {:induction false} UnescapedNeedsNone(x: Bytes)
    requires 34 !in x && 92 !in x
    ensures Escaping(x) == x
  {
    if x != [] {
      UnescapedNeedsNone(x[1..]);
      assert x == [x[0]] + x[1..];
    }
  }

  lemma FirstPieceIs(val: Bytes)
    requires val != [] && Width(val) > 0
    ensures ValidPiece(FirstPiece(val)) && PieceBytes(FirstPiece(val)) == Escaping(val[..Width(val)])
  {
    var n := Width(val);
    var first := val[..n];
    if n > 1 {
      UnescapedNeedsNone(first);
      assert first == [val[0]] + val[1..n];
    } else {
      assert first == [val[0]] && first[1..] == [];
    }
  }

  /** The string that is written is a complete value. */
  lemma {:induction false} WrittenPieces(val: Bytes)
    requires IsText(val)
    ensures PiecesBytes(TextPieces(val)) == Escaping(val)
    ensures forall i :: 0 <= i < |TextPieces(val)| ==> ValidPiece(TextPieces(val)[i])
    decreases |val|
  {
    hide FirstPiece, PieceBytes, ValidPiece, Width, Escaping;
    if val == [] {
      NothingEscaped();
    } else {
      var n := Width(val);
      var ps := TextPieces(val[n..]);
      WrittenPieces(val[n..]);
      FirstPieceIs(val);
      EscapingAppend(val[..n], val[n..]);
      assert val == val[..n] + val[n..];
      assert TextPieces(val)[0] == FirstPiece(val) && TextPieces(val)[1..] == ps;
    }
  }

  function TextOf(val: Bytes): Json
    requires IsText(val)
  {
    Text(TextPieces(val))
  }

  lemma TextIsValid(val: Bytes)
    requires IsText(val)
    ensures ValidJson(TextOf(val)) && Render(TextOf(val)) == [34] + Escaping(val) + [34]
    ensures ValueText(TextOf(val)) == Unescaped(Escaping(val))
  {
    hide TextPieces, PiecesBytes, ValidPiece, Escaping, IsText, Unescaped;
    WrittenPieces(val);
    var r := [34] + Escaping(val) + [34];
    assert r[1..|r| - 1] == Escaping(val);
  }

  // ----- the packet -----

  /** lob_set: any key and text; with a plain key and UTF-8 text the packet is again that of its members. */
  method Set(p: Lob, key: Bytes, val: Bytes)
    requires p.Valid()
    modifies p`head, p`members
    ensures p.head == SetText(old(p.head), key, [34] + Escaping(val) + [34])
    ensures PlainKey(key) && IsText(val) ==>
              && p.Valid() && p.members == Put(old(p.members), key, TextOf(val))
              && MapOf(p.members) == MapOf(old(p.members))[key := TextOf(val)]
  {
    hide Escaping, ValidJson, Render, MapOf, Put, SetText, IsText;
    var escaped := Escape(val);
    ghost var v := Text([]);
    if IsText(val) {
      TextIsValid(val);
      v := TextOf(val);
    }
    p.SetRaw(key, escaped, v);
  }

  /** lob_get: the unescaped value without its quotes; an empty one comes back as nothing. */
  method Get(p: Lob, key: Bytes) returns (value: Option<Bytes>)
    requires p.Valid()
    ensures value == match Asked(p.members, key)
                     case None => None
                     case Some(v) => if ValueText(v) == [] then None else Some(ValueText(v))
  {
    hide Render, ValidJson, Head, Scan, Asked, Unescaped;
    HeadLength(p.members);
    if |p.head| < 5 {
      NothingAsked(key);
      return None;
    }
    AskedReadsBack(p.members, key);
    var r := Find(key, 1, p.head);
    match r {
      case Missing(_) => return None;
      case Found(at, len) =>
        ghost var v := Asked(p.members, key).value;
        InsideQuotes(p.head, at, v);
        UnescapedIsNonempty(RawText(v));
        if len <= 0 { return None; }
        var text := Unescape(p.head[at..at + len]);
        value := Some(text);
    }
  }

  lemma InsideQuotes(h: Bytes, at: nat, j: Json)
    requires at >= 1 && var o := if j.Text? then at - 1 else at;
             o + |Render(j)| <= |h| && h[o..o + |Render(j)|] == Render(j)
    ensures |RawText(j)| == |Render(j)| - (if j.Text? then 2 else 0) && at + |RawText(j)| <= |h|
    ensures h[at..at + |RawText(j)|] == RawText(j)
  {
    hide Render;
    if j.Text? {
      TextIsQuoted(j);
      Slices(h, at - 1, |Render(j)|, 1, |Render(j)| - 1);
    }
  }

  /** A text that is set comes back exactly when it is not empty and has no backslash. */
  method SetThenGet(p: Lob, key: Bytes, val: Bytes) returns (back: Option<Bytes>)
    requires p.Valid() && PlainKey(key) && IsText(val)
    modifies p`head, p`members
    ensures p.Valid() && MapOf(p.members) == MapOf(old(p.members))[key := TextOf(val)]
    ensures back == Some(val) <==> val != [] && 92 !in val
  {
    hide MapOf, Put, Escaping, Unescaped, TextOf, IsText, ValueText;
    Set(p, key, val);
    TextIsValid(val);
    ComesBackExactlyWhen(val);
    back := Get(p, key);
  }
}
