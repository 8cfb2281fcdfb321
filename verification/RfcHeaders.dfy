/**
 Packet headers of plain keys and values of RFC 8259, as literal text: what the scanner finds in
 them, and what is read after any sequence of sets on an empty packet.
 */
module RfcHeaders {
  import opened Common
  import opened Js0n
  import opened JsonText
  import opened JsonHead
  import opened Lobs
  import opened JsonRfc

  datatype Setting = Setting(key: Bytes, value: Value)

  /** Keys are not empty and have no byte that would need an escape. */
  predicate ValidSetting(s: Setting) {
    && s.key != []
    && (forall i :: 0 <= i < |s.key| ==> s.key[i] in {32, 33} || 35 <= s.key[i] <= 91 || 93 <= s.key[i] <= 126)
    && ValidValue(s.value)
  }

  predicate ValidSettings(ss: seq<Setting>) {
    forall i :: 0 <= i < |ss| ==> ValidSetting(ss[i])
  }

  // ----- the text -----

  function NameText(key: Bytes): Bytes {
    [34] + key + [34, 58]
  }

  function ListText(ss: seq<Setting>): Bytes {
    if ss == [] then []
    else NameText(ss[0].key) + Write(ss[0].value) + if |ss| == 1 then [] else [44] + ListText(ss[1..])
  }

  function HeaderText(ss: seq<Setting>): Bytes {
    [123] + ListText(ss) + [125]
  }

  /** The text from the first name to the value of setting f. */
  function Before(ss: seq<Setting>, f: nat): Bytes
    requires f < |ss|
  {
    if f == 0 then NameText(ss[0].key) else NameText(ss[0].key) + Write(ss[0].value) + [44] + Before(ss[1..], f - 1)
  }

  // ----- as members -----

  function ToMember(s: Setting): Member
    requires ValidSetting(s)
  {
    Member(s.key, ToJson(s.value))
  }

  function ToMembers(ss: seq<Setting>): (ms: seq<Member>)
    requires ValidSettings(ss)
    ensures |ms| == |ss| && forall i :: 0 <= i < |ss| ==> ms[i] == ToMember(ss[i])
  {
    seq(|ss|, i requires 0 <= i < |ss| => ToMember(ss[i]))
  }

  lemma SettingIsMember(s: Setting)
    requires ValidSetting(s)
    ensures ValidMember(ToMember(s)) && MemberBytes(ToMember(s)) == NameText(s.key) + Write(s.value)
    ensures Render(KeyText(s.key)) + [58] == NameText(s.key)
  {
    hide Render, ValidJson, ValidValue, Write, ToJson, KeyText;
    WriteIsRender(s.value);
    KeyTextBytes(s.key);
  }

  lemma MembersValid(ss: seq<Setting>)
    requires ValidSettings(ss)
    ensures ValidMembers(ToMembers(ss))
  {
    hide ValidSetting, ValidMember, ToMember;
    forall i | 0 <= i < |ss| ensures ValidMember(ToMembers(ss)[i]) { SettingIsMember(ss[i]); }
  }

  lemma {:induction false} ListIsJoin(ss: seq<Setting>)
    requires ValidSettings(ss)
    ensures JoinBytes(ToMembers(ss)) == ListText(ss)
  {
    hide ValidSetting, MemberBytes, Write, NameText, JoinBytes, Suffix, ToMember;
    var ms := ToMembers(ss);
    SuffixOfNone();
    if ss != [] {
      SettingIsMember(ss[0]);
      ListIsJoin(ss[1..]);
      assert ToMembers(ss[1..]) == ms[1..];
      JoinUnfolds(ms);
      if |ss| == 1 { assert ms[1..] == []; }
    }
  }

  lemma {:induction false} BeforeIs(ss: seq<Setting>, f: nat)
    requires ValidSettings(ss) && f < |ss|
    ensures BeforeValue(ToMembers(ss), f) == Before(ss, f)
  {
    hide ValidSetting, MemberBytes, Write, NameText, ToMember, Render, KeyText;
    SettingIsMember(ss[0]);
    MemberKey(ss[0]);
    if f > 0 {
      BeforeIs(ss[1..], f - 1);
      assert ToMembers(ss[1..]) == ToMembers(ss)[1..];
    }
  }

  lemma MemberKey(s: Setting)
    requires ValidSetting(s)
    ensures ToMember(s).key == s.key && ToMember(s).value == ToJson(s.value)
    ensures ToJson(s.value).Text? <==> s.value.Quoted?
  {
  }

  // ----- scanning -----

  /** The first setting of a key is found where its value is written, inside the quotes if it is a string. */
  lemma FindsFirst(key: Bytes, any: nat, ss: seq<Setting>, f: nat)
    requires ValidSettings(ss) && f < |ss| && ss[f].key == key && forall i :: 0 <= i < f ==> ss[i].key != key
    ensures var text := HeaderText(ss);
            var before, value := [123] + Before(ss, f), Write(ss[f].value);
            var quote := if ss[f].value.Quoted? then 1 else 0;
            && before + value <= text
            && Scan(key, any, text) == Found(|before| + quote, |value| - 2 * quote)
  {
    hide ValidSetting, ValidMember, MemberBytes, Write, NameText, ToMember, Render, Scan, Suffix, JoinBytes, Before,
         BeforeValue, ListText, HeaderText, Head, OffsetIn, ToJson;
    var ms := ToMembers(ss);
    NotEmptyKey(ss, f);
    HeaderScan(key, any, ss);
    MemberKeys(ss);
    assert FirstWith(ms, key) == f;
    HeadSplits(ms, f);
    BeforeIs(ss, f);
    SettingValue(ss[f]);
    assert ms[f] == ToMember(ss[f]);
    Prefix([123] + Before(ss, f), Write(ss[f].value), Suffix(ms[f + 1..]) + [125]);
  }

  lemma Prefix(a: Bytes, v: Bytes, b: Bytes)
    ensures a + v <= a + v + b
  {
  }

  lemma MemberKeys(ss: seq<Setting>)
    requires ValidSettings(ss)
    ensures forall i :: 0 <= i < |ss| ==> ToMembers(ss)[i].key == ss[i].key
  {
    hide ValidValue, ToJson;
  }

  lemma SettingValue(s: Setting)
    requires ValidSetting(s)
    ensures Render(ToMember(s).value) == Write(s.value) && (ToMember(s).value.Text? <==> s.value.Quoted?)
  {
    hide Render, ToJson, ValidJson;
    MemberKey(s);
    WriteIsRender(s.value);
  }

  /** The header text is the one the scanner was proved for. */
  lemma HeaderScan(key: Bytes, any: nat, ss: seq<Setting>)
    requires ValidSettings(ss)
    ensures Head(ToMembers(ss)) == HeaderText(ss) && ValidMembers(ToMembers(ss))
    ensures key != [] ==>
              var ms := ToMembers(ss);
              var f := FirstWith(ms, key);
              Scan(key, any, HeaderText(ss)) == if f < |ms| then Answer(1, ms, f) else Missing(0)
  {
    hide ValidSetting, ValidMember, ToMember, Scan, Answer, JoinBytes, ListText;
    ListIsJoin(ss);
    MembersValid(ss);
    ValidIsReadable(ToMembers(ss));
    if key != [] { ScanByKey(key, any, ToMembers(ss)); }
  }

  lemma FindsNothing(key: Bytes, any: nat, ss: seq<Setting>)
    requires ValidSettings(ss) && key != [] && forall i :: 0 <= i < |ss| ==> ss[i].key != key
    ensures Scan(key, any, HeaderText(ss)) == Missing(0)
  {
    hide ValidSetting, ValidMember, ToMember, Scan, Answer, Head, HeaderText;
    HeaderScan(key, any, ss);
    MemberKeys(ss);
  }

  // ----- read after write -----

  /** The header after setting everything in turn, from an empty one. */
  function Written(sets: seq<Setting>): Bytes {
    if sets == [] then []
    else
      var n := |sets| - 1;
      SetText(Written(sets[..n]), sets[n].key, Write(sets[n].value))
  }

  lemma {:induction false} WrittenIsHead(sets: seq<Setting>)
    requires ValidSettings(sets)
    ensures var ms := PutAll([], ToMembers(sets));
            && ValidMembers(ms) && DistinctKeys(ms)
            && if sets == [] then Written(sets) == [] else Written(sets) == Head(ms)
  {
    hide ValidSetting, ValidMember, ToMember, DistinctKeys, Head, Put, SetText, Write;
    var all := ToMembers(sets);
    if sets == [] {
      NothingDistinct();
    } else {
      var n := |sets| - 1;
      WrittenIsHead(sets[..n]);
      assert all[..n] == ToMembers(sets[..n]);
      PutAllSnoc([], all);
      OneMoreSet(PutAll([], all[..n]), Written(sets[..n]), sets[n]);
      if n == 0 { assert all[..0] == []; }
    }
  }

  lemma NothingDistinct()
    ensures DistinctKeys([])
  {
  }

  lemma OneMoreSet(ms: seq<Member>, text: Bytes, s: Setting)
    requires ValidMembers(ms) && DistinctKeys(ms) && ValidSetting(s)
    requires text == Head(ms) || (ms == [] && text == [])
    ensures var after := Put(ms, ToMember(s).key, ToMember(s).value);
            ValidMembers(after) && DistinctKeys(after) && SetText(text, s.key, Write(s.value)) == Head(after)
  {
    hide DistinctKeys, Head, Put, Write, Render, ValidJson, PlainChars, EditText, ToJson;
    SettingIsMember(s);
    SettingValue(s);
    MemberKey(s);
    HeadBraces(ms);
    assert ValidMember(ToMember(s));
    SetIsPut(ms, s.key, ToMember(s).value);
  }

  /** The last setting of a key is what is read, as it was written. */
  lemma LastIsRead(key: Bytes, sets: seq<Setting>, l: nat)
    requires ValidSettings(sets) && l < |sets| && sets[l].key == key
    requires forall i :: l < i < |sets| ==> sets[i].key != key
    ensures var text, value, r := Written(sets), Write(sets[l].value), Scan(key, 1, Written(sets));
            var quote := if sets[l].value.Quoted? then 1 else 0;
            && r.Found? && 1 <= r.at && r.len == |value| - 2 * quote
            && 0 <= r.at - quote && r.at - quote + |value| <= |text|
            && text[r.at - quote..r.at - quote + |value|] == value
  {
    hide ValidSetting, ValidMember, ToMember, Head, Put, Written, Write, Scan, PutAll, Render, LastSet, MapOf;
    var all := ToMembers(sets);
    WrittenIsHead(sets);
    MemberKeys(sets);
    LastSetIs(all, key, l);
    MembersValid(sets);
    NotEmptyKey(sets, l);
    PutAllMap(all, key);
    SettingValue(sets[l]);
    ValidIsReadable(PutAll([], all));
    KeyReadsBack(PutAll([], all), key);
  }

  lemma NotEmptyKey(sets: seq<Setting>, l: nat)
    requires ValidSettings(sets) && l < |sets|
    ensures sets[l].key != []
  {
    hide ValidValue;
    assert ValidSetting(sets[l]);
  }

  lemma {:induction false} LastSetIs(sets: seq<Member>, key: Bytes, l: nat)
    requires l < |sets| && sets[l].key == key && forall i :: l < i < |sets| ==> sets[i].key != key
    ensures LastSet(sets, key) == Some(sets[l].value)
  {
    if l < |sets| - 1 { LastSetIs(sets[..|sets| - 1], key, l); }
  }

  lemma {:induction false} NeverSet(sets: seq<Member>, key: Bytes)
    requires forall i :: 0 <= i < |sets| ==> sets[i].key != key
    ensures LastSet(sets, key) == None
  {
    if sets != [] { NeverSet(sets[..|sets| - 1], key); }
  }

  /** A key never set is not found. */
  lemma NothingIsRead(key: Bytes, sets: seq<Setting>)
    requires ValidSettings(sets) && key != [] && forall i :: 0 <= i < |sets| ==> sets[i].key != key
    ensures Scan(key, 1, Written(sets)) == Missing(0)
  {
    hide ValidSetting, ValidMember, ToMember, Head, Put, Write, Scan, PutAll, Render, LastSet, MapOf, SetText;
    var all := ToMembers(sets);
    WrittenIsHead(sets);
    MemberKeys(sets);
    NeverSet(all, key);
    MembersValid(sets);
    if sets == [] { EmptyScan(key); } else { ReadAfterWrite(all, key); }
  }

  lemma EmptyScan(key: Bytes)
    ensures Scan(key, 1, []) == Missing(0)
  {
  }
}
