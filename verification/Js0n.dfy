/**
 The single-pass JSON scanner of src/lib/js0n.c as a byte-driven machine: a jump table
 per mode, a depth counter, and an index that counts keys and values at depth 1.
 */
module Js0n {
  import opened Common

  type Bytes = seq<nat>

  const QUOTE: nat := 34
  const BACKSLASH: nat := 92
  const COMMA: nat := 44
  const COLON: nat := 58
  const OPEN_BRACE: nat := 123
  const CLOSE_BRACE: nat := 125

  datatype Mode = Struct | Bare | Str | Utf8 | Esc

  /** `val` and `start` are offsets into the text; the C pointers are null when None. */
  datatype State = State(mode: Mode, depth: int, index: nat, val: Option<nat>, start: Option<nat>, remain: int)

  /** Found: the value's offset and length.  Missing: what is left in *vlen. */
  datatype Lookup = Found(at: nat, len: int) | Missing(vlen: nat)

  datatype Outcome = Go(st: State) | Stop(r: Lookup)

  // ----- byte classes -----

  predicate IsSkip(c: nat) { c == 9 || c == 10 || c == 13 || c == 32 || c == COLON || c == COMMA }

  predicate IsOpen(c: nat) { c == 91 || c == OPEN_BRACE }

  predicate IsClose(c: nat) { c == 93 || c == CLOSE_BRACE }

  predicate IsBareStart(c: nat) { c == 45 || 48 <= c <= 57 || 65 <= c <= 90 || 97 <= c <= 122 }

  predicate IsBareEnd(c: nat) { IsSkip(c) || IsClose(c) }

  predicate IsEscapable(c: nat) { c in {QUOTE, BACKSLASH, 47, 98, 102, 110, 114, 116, 117} }

  /** The number of continuation bytes a lead byte announces. */
  function Continuations(c: nat): nat {
    if 192 <= c <= 223 then 1 else if 224 <= c <= 239 then 2 else if 240 <= c <= 247 then 3 else 0
  }

  // ----- one byte -----

  /** PUSH(i): a key or value starts; at depth 1 it is remembered or counted. */
  function Push(klen: nat, at: nat, st: State): State {
    if st.depth != 1 then st
    else if st.index == 0 then st.(val := Some(at))
    else if klen > 0 && st.index == 1 then st.(start := Some(at))
    else st.(index := st.index - 1)
  }

  /** CAP(i): a key or value ends at offset `end`; `cur` is where the scanner is. */
  function Cap(key: Bytes, done: Bytes, end: int, st: State): Outcome {
    if st.depth != 1 then Go(st)
    else if st.val.Some? && st.index == 0 then Stop(Found(st.val.value, end - st.val.value))
    else if |key| > 0 && st.start.Some? then
      var s := st.start.value;
      Go(st.(index := if s <= |done| && done[s..] == key then 0 else 2, start := None))
    else Go(st)
  }

  function StructStep(key: Bytes, done: Bytes, c: nat, st: State): Outcome {
    var cur := |done|;
    if IsSkip(c) then Go(st)
    else if c == QUOTE then Go(Push(|key|, cur + 1, st).(mode := Str))
    else if IsOpen(c) then
      var st1 := Push(|key|, cur, st);
      Go(st1.(depth := st1.depth + 1))
    else if IsClose(c) then Cap(key, done, cur + 1, st.(depth := st.depth - 1))
    else if IsBareStart(c) then Go(Push(|key|, cur, st).(mode := Bare))
    else Stop(Missing(cur))
  }

  function Step(key: Bytes, done: Bytes, c: nat, st: State): Outcome {
    var cur := |done|;
    match st.mode
    case Struct => StructStep(key, done, c, st)
    case Bare =>
      if IsBareEnd(c) then
        match Cap(key, done, cur, st)
        case Go(st1) => StructStep(key, done, c, st1.(mode := Struct))
        case Stop(r) => Stop(r)
      else if 32 <= c <= 126 then Go(st)
      else Stop(Missing(cur))
    case Str =>
      if c == BACKSLASH then Go(st.(mode := Esc))
      else if c == QUOTE then
        match Cap(key, done, cur, st)
        case Go(st1) => Go(st1.(mode := Struct))
        case Stop(r) => Stop(r)
      else if 32 <= c <= 126 then Go(st)
      else if Continuations(c) > 0 then Go(st.(mode := Utf8, remain := Continuations(c)))
      else Stop(Missing(cur))
    case Utf8 =>
      if 128 <= c <= 191 then Go(st.(remain := st.remain - 1, mode := if st.remain - 1 == 0 then Str else Utf8))
      else Stop(Missing(cur))
    case Esc =>
      if IsEscapable(c) then Go(st.(mode := Str)) else Stop(Missing(cur))
  }

  // ----- the scan -----

  /** From the bytes already read to the end of the text. */
  function Run(key: Bytes, done: Bytes, rest: Bytes, st: State): Lookup
    decreases |rest|
  {
    if rest == [] then Missing(if st.depth != 0 then |done| else 0)
    else
      match Step(key, done, rest[0], st)
      case Go(st1) => Run(key, done + [rest[0]], rest[1..], st1)
      case Stop(r) => r
  }

  function InitialState(index: nat): State {
    State(Struct, 0, index, None, Some(0), 0)
  }

  /** With a key: the value of that key.  With an empty key: the index-th key or value. */
  function Scan(key: Bytes, index: nat, json: Bytes): Lookup {
    if json == [] then Missing(0) else Run(key, [], json, InitialState(if key == [] then index else 1))
  }

  /** The C loop, with its variables. */
  method Find(key: Bytes, index0: nat, json: Bytes) returns (r: Lookup)
    ensures r == Scan(key, index0, json)
  {
    hide Step;
    if json == [] { return Missing(0); }
    var st := InitialState(if key == [] then index0 else 1);
    var cur := 0;
    assert json[..0] == [] && json[0..] == json;
    while cur < |json|
      invariant 0 <= cur <= |json|
      invariant Scan(key, index0, json) == Run(key, json[..cur], json[cur..], st)
    {
      var next := Step(key, json[..cur], json[cur], st);
      assert json[..cur] + [json[cur]] == json[..cur + 1];
      assert json[cur..][1..] == json[cur + 1..];
      match next {
        case Go(st1) => st := st1;
        case Stop(found) => return found;
      }
      cur := cur + 1;
    }
    r := Missing(if st.depth != 0 then |json| else 0);
    assert json[..cur] == json && json[cur..] == [];
  }
}
