/**
 Signed tokens (src/lib/jwt.c, the compact serialization of section 7.1 of RFC 7515):
 three base64url sections joined by dots.
 */
module Jwt {
  import opened Common
  import opened Bits
  import Base64

  /** Two chained packets: the head of the first, the head and the body of the second. */
  datatype Token = Token(header: seq<nat>, claims: seq<nat>, signature: seq<nat>)

  const Dot: nat := 46

  predicate IsToken(t: Token) {
    AreBytes(t.header) && AreBytes(t.claims) && AreBytes(t.signature)
  }

  // ----- specification -----

  function Compact(t: Token): seq<nat> {
    Base64.Encode64(t.header) + [Dot] + Base64.Encode64(t.claims) + [Dot] + Base64.Encode64(t.signature)
  }

  /** Where memchr finds a dot, or the length if it finds none. */
  function FindDot(s: seq<nat>): (i: nat)
    ensures i <= |s| && Dot !in s[..i] && (i < |s| ==> s[i] == Dot)
  {
    if s == [] || s[0] == Dot then 0 else 1 + FindDot(s[1..])
  }

  /** A section is decoded where it stands in memory: an empty one is read up to the terminator. */
  function Parse(mem: seq<nat>, len: nat): (r: Option<Token>)
    requires len <= |mem|
  {
    var n := if len == 0 then |CString(mem)| else len;
    var text := mem[..n];
    var d1 := FindDot(text);
    if d1 == n then None
    else
      var d2 := d1 + 1 + FindDot(text[d1 + 1..]);
      if d2 == n then None else Decoded(mem, d1, d2, n)
  }

  /** The three sections, with dots at d1 and d2. */
  function Decoded(mem: seq<nat>, d1: nat, d2: nat, n: nat): Option<Token>
    requires d1 < d2 < n <= |mem|
  {
    var h := Base64.Decode64(mem, d1);
    var c := Base64.Decode64(mem[d1 + 1..], d2 - d1 - 1);
    var s := Base64.Decode64(mem[d2 + 1..], n - d2 - 1);
    if h == [] || c == [] || s == [] then None else Some(Token(h, c, s))
  }

  // ----- the operations -----

  /** Each section is written over the padding of the one before it. */
  method Encode(token: Option<Token>) returns (encoded: Option<seq<nat>>)
    requires token.Some? ==> IsToken(token.value)
    ensures encoded == if token.Some? then Some(Compact(token.value)) else None
  {
    if token.None? { return None; }
    var buffer, hlen := Base64.Encode(token.value.header);
    buffer := buffer[..hlen] + [Dot];
    var section, clen := Base64.Encode(token.value.claims);
    buffer := (buffer + section)[..hlen + 1 + clen] + [Dot];
    var last, slen := Base64.Encode(token.value.signature);
    buffer := (buffer + last)[..hlen + 1 + clen + 1 + slen];
    encoded := Some(buffer);
    Sections(token.value, section, clen, last, slen);
  }

  lemma Sections(t: Token, section: seq<nat>, clen: nat, last: seq<nat>, slen: nat)
    requires clen <= |section| && section[..clen] == Base64.Encode64(t.claims)
    requires slen <= |last| && last[..slen] == Base64.Encode64(t.signature)
    ensures var h := Base64.Encode64(t.header) + [Dot];
            var c := (h + section)[..|h| + clen] + [Dot];
            (c + last)[..|c| + slen] == Compact(t)
  {
    hide Base64.Encode64;
  }

  method Memchr(s: seq<nat>) returns (i: nat)
    ensures i == FindDot(s)
  {
    i := 0;
    while i < |s| && s[i] != Dot
      invariant i <= |s| && FindDot(s) == i + FindDot(s[i..])
    {
      assert s[i..][1..] == s[i + 1..];
      i := i + 1;
    }
  }

  /** The sections are checked last to first and then decoded. */
  method Decode(mem: seq<nat>, len: nat) returns (token: Option<Token>)
    requires len <= |mem|
    ensures token == Parse(mem, len)
  {
    hide Base64.Decode64, FindDot;
    var n := if len == 0 then |CString(mem)| else len;
    var text := mem[..n];
    var d1 := Memchr(text);
    if d1 == n { return None; }
    var d2 := Memchr(text[d1 + 1..]);
    d2 := d1 + 1 + d2;
    if d2 == n { return None; }
    var _, slen := Base64.Decode(mem[d2 + 1..], n - d2 - 1, false);
    if slen == 0 { return None; }
    var _, clen := Base64.Decode(mem[d1 + 1..], d2 - d1 - 1, false);
    if clen == 0 { return None; }
    var _, hlen := Base64.Decode(mem, d1, false);
    if hlen == 0 { return None; }
    var c, _ := Base64.Decode(mem[d1 + 1..], d2 - d1 - 1, true);
    var s, _ := Base64.Decode(mem[d2 + 1..], n - d2 - 1, true);
    var h, _ := Base64.Decode(mem, d1, true);
    token := Some(Token(h, c, s));
  }

  // ----- round trip -----

  lemma DotAfter(text: seq<nat>, rest: seq<nat>)
    requires Dot !in text
    ensures FindDot(text + [Dot] + rest) == |text|
  {
    var s := text + [Dot] + rest;
    var i := FindDot(s);
    assert forall j :: 0 <= j < |text| ==> s[j] == text[j] && s[j] in text;
    assert forall k :: 0 <= k < i ==> s[k] in s[..i];
    assert s[|text|] == Dot;
  }

  /** An empty section is read on into the dot or the terminator behind it, and refused. */
  lemma EmptySection(rest: seq<nat>)
    requires rest == [] || rest[0] == 0 || rest[0] == Dot
    ensures Base64.Decode64(rest, 0) == []
  {
    if rest != [] && rest[0] == Dot { assert Base64.Text(rest, 0)[0] == Dot; }
  }

  lemma Section(data: seq<nat>, rest: seq<nat>)
    requires AreBytes(data) && (rest == [] || rest[0] == 0 || rest[0] == Dot)
    ensures Base64.Decode64(Base64.Encode64(data) + rest, |Base64.Encode64(data)|) == data
  {
    hide Base64.Decode64, Base64.Encode64;
    if data == [] {
      Base64.NothingToEncode();
      assert [] + rest == rest;
      EmptySection(rest);
    } else {
      Base64.RoundTrip(data, rest);
    }
  }

  /**
   Decoding an encoded token, by its length or up to the terminator, gives it back exactly
   when header, claims and signature are all nonempty, and is refused otherwise.
   */
  lemma RoundTrip(t: Token, len: nat, beyond: seq<nat>)
    requires IsToken(t) && (len == 0 || len == |Compact(t)|)
    ensures var r := Parse(Compact(t) + [0] + beyond, len);
            if t.header != [] && t.claims != [] && t.signature != [] then r == Some(t) else r == None
  {
    hide Base64.Decode64, Base64.Encode64, FindDot, CString, Decoded;
    var h, c, s := Base64.Encode64(t.header), Base64.Encode64(t.claims), Base64.Encode64(t.signature);
    var text := Compact(t);
    NoStops(t);
    TextLength(text, beyond);
    Dots(h, c, s);
    SectionsDecode(t, beyond);
  }

  /** The length of the text, given or found, and the text itself. */
  lemma TextLength(text: seq<nat>, beyond: seq<nat>)
    requires 0 !in text
    ensures var mem := text + [0] + beyond; CString(mem) == text && mem[..|text|] == text
  {
    hide CString;
    var mem := text + [0] + beyond;
    assert mem == text + ([0] + beyond);
    CStringOf(text, [0] + beyond);
    Terminated(beyond);
    assert text + [] == text;
  }

  lemma SectionsDecode(t: Token, beyond: seq<nat>)
    requires IsToken(t)
    ensures var text := Compact(t);
            var d1 := |Base64.Encode64(t.header)|;
            var d2 := d1 + 1 + |Base64.Encode64(t.claims)|;
            d2 < |text| && Decoded(text + [0] + beyond, d1, d2, |text|)
                           == if t.header != [] && t.claims != [] && t.signature != [] then Some(t) else None
  {
    hide Base64.Decode64, Base64.Encode64;
    var h, c, s := Base64.Encode64(t.header), Base64.Encode64(t.claims), Base64.Encode64(t.signature);
    Memory(h, c, s, beyond);
    Section(t.header, [Dot] + c + [Dot] + s + [0] + beyond);
    Section(t.claims, [Dot] + s + [0] + beyond);
    Section(t.signature, [0] + beyond);
  }

  lemma Dots(h: seq<nat>, c: seq<nat>, s: seq<nat>)
    requires Dot !in h && Dot !in c
    ensures var text := h + [Dot] + c + [Dot] + s; FindDot(text) == |h| && FindDot(text[|h| + 1..]) == |c|
  {
    hide FindDot;
    var text := h + [Dot] + c + [Dot] + s;
    assert text == h + [Dot] + (c + [Dot] + s);
    DotAfter(h, c + [Dot] + s);
    assert text[|h| + 1..] == c + [Dot] + s;
    DotAfter(c, s);
  }

  lemma Terminated(beyond: seq<nat>)
    ensures CString([0] + beyond) == []
  {
  }

  lemma NoStops(t: Token)
    ensures 0 !in Compact(t) && Dot !in Base64.Encode64(t.header) && Dot !in Base64.Encode64(t.claims)
            && Dot !in Base64.Encode64(t.signature)
  {
    hide Base64.Encode64;
    Base64.EncodedText(t.header);
    Base64.EncodedText(t.claims);
    Base64.EncodedText(t.signature);
  }

  lemma Memory(h: seq<nat>, c: seq<nat>, s: seq<nat>, beyond: seq<nat>)
    ensures var mem := (h + [Dot] + c + [Dot] + s) + [0] + beyond;
            && mem == h + ([Dot] + c + [Dot] + s + [0] + beyond)
            && mem[|h| + 1..] == c + ([Dot] + s + [0] + beyond)
            && mem[|h| + 1 + |c| + 1..] == s + ([0] + beyond)
  {
  }
}
