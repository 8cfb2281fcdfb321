/** Small shared definitions: optional values, the 32-bit range of the C counters, and C strings. */
module Common {

  datatype Option<+T> = None | Some(value: T)

  const U32: nat := 0x1_0000_0000

  /** The characters before the terminator; memory beyond the sequence reads as zero. */
  function CString(mem: seq<nat>): (s: seq<nat>)
    ensures s <= mem && 0 !in s && (|s| < |mem| ==> mem[|s|] == 0)
  {
    if mem == [] || mem[0] == 0 then [] else [mem[0]] + CString(mem[1..])
  }

  lemma CStringCons(c: nat, mem: seq<nat>)
    requires c != 0
    ensures CString([c] + mem) == [c] + CString(mem)
  {
    assert ([c] + mem)[1..] == mem;
  }

  lemma {:induction false} CStringOf(text: seq<nat>, rest: seq<nat>)
    requires 0 !in text
    ensures CString(text + rest) == text + CString(rest)
  {
    hide CString;
    if text == [] {
      assert text + rest == rest && text + CString(rest) == CString(rest);
    } else {
      var c, tail := text[0], text[1..];
      assert text + rest == [c] + (tail + rest);
      CStringCons(c, tail + rest);
      CStringOf(tail, rest);
      assert text + CString(rest) == [c] + (tail + CString(rest));
    }
  }
}
