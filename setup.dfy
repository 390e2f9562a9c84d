/**
  Start-up configuration of the translator and the keyboard from the parsed
  settings: the enabled HID-to-HID switches become overrides, and the
  enabled conditional rules are appended, each as its own value, to the key
  they are listed under.
 */
module Setup {
  import opened Bytes
  import opened Hid
  import opened ConvMap

  /** One configured override; `on` absent means enabled. */
  datatype SettingSwitchKey = SettingSwitchKey(on: Option<bool>, src: byte, dst: byte)

  /** One entry of the rule map after its key text has been parsed: `code`
      is None when the text is not an unsigned 8-bit number. */
  datatype ConvKeyEntry = ConvKeyEntry(code: Option<byte>, convKeys: seq<ConvKeyInfo>)

  predicate Enabled(on: Option<bool>) {
    on.None? || on.value
  }

  // ---------------------------------------------------------------------
  // Overrides

  /** The override map after applying `switchKeys` in order. */
  function SwitchRemap(remap: map<byte, byte>, switchKeys: seq<SettingSwitchKey>): (r: map<byte, byte>)
    decreases |switchKeys|
  {
    if switchKeys == [] then remap
    else
      var k := switchKeys[0];
      SwitchRemap(if Enabled(k.on) then remap[k.src := k.dst] else remap, switchKeys[1..])
  }

  /** The last enabled switch for a source code decides its override. */
  lemma {:induction false} SwitchRemapLastWins(remap: map<byte, byte>, switchKeys: seq<SettingSwitchKey>, i: nat)
    requires i < |switchKeys| && Enabled(switchKeys[i].on)
    requires forall j :: i < j < |switchKeys| ==> !(Enabled(switchKeys[j].on) && switchKeys[j].src == switchKeys[i].src)
    ensures var r := SwitchRemap(remap, switchKeys);
      switchKeys[i].src in r && r[switchKeys[i].src] == switchKeys[i].dst
    decreases |switchKeys|
  {
    var k := switchKeys[0];
    var remap' := if Enabled(k.on) then remap[k.src := k.dst] else remap;
    if i == 0 {
      SwitchRemapUntouched(remap', switchKeys[1..], k.src);
    } else {
      SwitchRemapLastWins(remap', switchKeys[1..], i - 1);
    }
  }

  /** A source code no enabled switch names keeps its earlier override, or
      stays without one. */
  lemma {:induction false} SwitchRemapUntouched(remap: map<byte, byte>, switchKeys: seq<SettingSwitchKey>, x: byte)
    requires forall j :: 0 <= j < |switchKeys| ==> !(Enabled(switchKeys[j].on) && switchKeys[j].src == x)
    ensures var r := SwitchRemap(remap, switchKeys);
      (x in r <==> x in remap) && (x in remap ==> r[x] == remap[x])
    decreases |switchKeys|
  {
    if switchKeys != [] {
      var k := switchKeys[0];
      SwitchRemapUntouched(if Enabled(k.on) then remap[k.src := k.dst] else remap, switchKeys[1..], x);
    }
  }

  method ApplySwitchKeys(conv: Code2HidCode, switchKeys: seq<SettingSwitchKey>)
    requires conv.Valid()
    modifies conv
    ensures conv.Valid() && conv.keySequencePos == old(conv.keySequencePos)
    ensures conv.remapHIDCode == SwitchRemap(old(conv.remapHIDCode), switchKeys)
  {
    var i := 0;
    while i < |switchKeys|
      invariant 0 <= i <= |switchKeys|
      invariant conv.Valid() && conv.keySequencePos == old(conv.keySequencePos)
      invariant SwitchRemap(conv.remapHIDCode, switchKeys[i..]) == SwitchRemap(old(conv.remapHIDCode), switchKeys)
    {
      var switchKey := switchKeys[i];
      assert switchKeys[i..][1..] == switchKeys[i + 1..];
      if switchKey.on.None? || switchKey.on.value {
        conv.SetHIDRemap(switchKey.src, switchKey.dst);
      }
      i := i + 1;
    }
    assert switchKeys[i..] == [];
  }

  // ---------------------------------------------------------------------
  // Conditional rules

  /** The enabled rules of `convKeys`, in order. */
  function EnabledRules(convKeys: seq<ConvKeyInfo>): (r: seq<ConvKeyInfo>)
    ensures |r| <= |convKeys|
    ensures forall k :: 0 <= k < |r| ==> Enabled(r[k].on) && r[k] in convKeys
    ensures forall x :: x in convKeys && Enabled(x.on) ==> x in r
    decreases |convKeys|
  {
    if convKeys == [] then []
    else
      var last := convKeys[|convKeys| - 1];
      EnabledRules(convKeys[..|convKeys| - 1]) + (if Enabled(last.on) then [last] else [])
  }

  /** Filtering distributes over concatenation: together with
      `EnabledSingle` this fixes `EnabledRules` as the in-order filter. */
  lemma {:induction false} EnabledRulesAppend(a: seq<ConvKeyInfo>, b: seq<ConvKeyInfo>)
    ensures EnabledRules(a + b) == EnabledRules(a) + EnabledRules(b)
    decreases |b|
  {
    if b == [] {
      assert a + b == a;
    } else {
      var init := b[..|b| - 1];
      var last := b[|b| - 1];
      assert (a + b)[..|a + b| - 1] == a + init;
      assert (a + b)[|a + b| - 1] == last;
      EnabledRulesAppend(a, init);
    }
  }

  lemma EnabledSingle(x: ConvKeyInfo)
    ensures EnabledRules([x]) == if Enabled(x.on) then [x] else []
  {
    assert [x][..0] == [];
  }

  /** The rules that `entries` attach to `code`, in the order they are met. */
  function RulesFor(entries: seq<ConvKeyEntry>, code: byte): seq<ConvKeyInfo>
    decreases |entries|
  {
    if entries == [] then []
    else
      var last := entries[|entries| - 1];
      RulesFor(entries[..|entries| - 1], code) + (if last.code == Some(code) then EnabledRules(last.convKeys) else [])
  }

  /** The registry with `rules` appended to the rule list of `code`. */
  function AppendRules(keys: map<byte, HIDKeyInfo>, code: byte, rules: seq<ConvKeyInfo>): (r: map<byte, HIDKeyInfo>)
    requires code in keys
    ensures r.Keys == keys.Keys
  {
    keys[code := keys[code].(convKeyInfoList := keys[code].convKeyInfoList + rules)]
  }

  /** The registry after the enabled rules of one entry are attached; an
      entry whose code did not parse, or names no key, attaches nothing. */
  function EntryApplied(keys: map<byte, HIDKeyInfo>, entry: ConvKeyEntry): (r: map<byte, HIDKeyInfo>)
    requires entry.code.Some? && EnabledRules(entry.convKeys) != [] ==> entry.code.value in keys
    ensures r.Keys == keys.Keys
  {
    if entry.code.Some? && entry.code.value in keys
    then AppendRules(keys, entry.code.value, EnabledRules(entry.convKeys))
    else keys
  }

  /** Every parsed entry names a key whenever it has an enabled rule. */
  predicate Attachable(keys: map<byte, HIDKeyInfo>, entries: seq<ConvKeyEntry>) {
    forall i :: 0 <= i < |entries| && entries[i].code.Some? && EnabledRules(entries[i].convKeys) != [] ==>
      entries[i].code.value in keys
  }

  /** The registry after every entry, in order. */
  function ConvKeyMapApplied(keys: map<byte, HIDKeyInfo>, entries: seq<ConvKeyEntry>): (r: map<byte, HIDKeyInfo>)
    requires Attachable(keys, entries)
    ensures r.Keys == keys.Keys
    decreases |entries|
  {
    if entries == [] then keys
    else
      var init := entries[..|entries| - 1];
      assert forall i :: 0 <= i < |init| ==> init[i] == entries[i];
      EntryApplied(ConvKeyMapApplied(keys, init), entries[|entries| - 1])
  }

  /** One entry gives key `c` its enabled rules when it names `c`, and
      nothing otherwise. */
  lemma EntryRules(keys: map<byte, HIDKeyInfo>, entry: ConvKeyEntry, c: byte)
    requires entry.code.Some? && EnabledRules(entry.convKeys) != [] ==> entry.code.value in keys
    requires c in keys
    ensures EntryApplied(keys, entry)[c]
         == keys[c].(convKeyInfoList := keys[c].convKeyInfoList
                       + (if entry.code == Some(c) then EnabledRules(entry.convKeys) else []))
  {
    assert keys[c].convKeyInfoList + [] == keys[c].convKeyInfoList;
  }

  /** Attaching the entries gives every key exactly the rules `RulesFor`
      lists for it, after its own, and changes nothing else. */
  lemma {:induction false} ConvKeyMapRules(keys: map<byte, HIDKeyInfo>, entries: seq<ConvKeyEntry>, c: byte)
    requires Attachable(keys, entries) && c in keys
    ensures ConvKeyMapApplied(keys, entries)[c]
         == keys[c].(convKeyInfoList := keys[c].convKeyInfoList + RulesFor(entries, c))
    decreases |entries|
  {
    if entries == [] {
      assert keys[c].convKeyInfoList + [] == keys[c].convKeyInfoList;
    } else {
      var init := entries[..|entries| - 1];
      var last := entries[|entries| - 1];
      assert forall i :: 0 <= i < |init| ==> init[i] == entries[i];
      var before := ConvKeyMapApplied(keys, init);
      ConvKeyMapRules(keys, init, c);
      EntryRules(before, last, c);
      var extra := if last.code == Some(c) then EnabledRules(last.convKeys) else [];
      assert RulesFor(entries, c) == RulesFor(init, c) + extra;
      assert keys[c].convKeyInfoList + RulesFor(init, c) + extra
          == keys[c].convKeyInfoList + RulesFor(entries, c);
    }
  }

  lemma AppendRulesTwice(keys: map<byte, HIDKeyInfo>, code: byte, rules: seq<ConvKeyInfo>, rule: ConvKeyInfo)
    requires code in keys
    ensures AddedRule(AppendRules(keys, code, rules), code, rule) == AppendRules(keys, code, rules + [rule])
  {
    assert keys[code].convKeyInfoList + rules + [rule] == keys[code].convKeyInfoList + (rules + [rule]);
  }

  lemma AppendNoRules(keys: map<byte, HIDKeyInfo>, code: byte)
    requires code in keys
    ensures AppendRules(keys, code, []) == keys
  {
    assert keys[code].convKeyInfoList + [] == keys[code].convKeyInfoList;
  }

  /** Attaches every enabled rule of every parsed entry to its key, in
      order; entries whose code did not parse are skipped. */
  method ApplyConvKeyMap(keyboard: HIDKeyboard, entries: seq<ConvKeyEntry>)
    requires keyboard.Valid() && Attachable(keyboard.keyInfoMap, entries)
    modifies keyboard
    ensures keyboard.Valid() && keyboard.data == old(keyboard.data)
    ensures keyboard.keyInfoMap == ConvKeyMapApplied(old(keyboard.keyInfoMap), entries)
  {
    var i := 0;
    while i < |entries|
      invariant 0 <= i <= |entries|
      invariant keyboard.Valid() && keyboard.data == old(keyboard.data)
      invariant Attachable(old(keyboard.keyInfoMap), entries[..i])
      invariant keyboard.keyInfoMap == ConvKeyMapApplied(old(keyboard.keyInfoMap), entries[..i])
    {
      assert entries[..i + 1][..i] == entries[..i];
      ApplyConvKeyEntry(keyboard, entries[i]);
      i := i + 1;
    }
    assert entries[..i] == entries;
  }

  /** The inner loop of `ApplyConvKeyMap`: the enabled rules of one entry,
      appended in order to its key. */
  method ApplyConvKeyEntry(keyboard: HIDKeyboard, entry: ConvKeyEntry)
    requires keyboard.Valid()
    requires entry.code.Some? && EnabledRules(entry.convKeys) != [] ==> entry.code.value in keyboard.keyInfoMap
    modifies keyboard
    ensures keyboard.Valid() && keyboard.data == old(keyboard.data)
    ensures keyboard.keyInfoMap == EntryApplied(old(keyboard.keyInfoMap), entry)
  {
    ghost var keys := keyboard.keyInfoMap;
    var j := 0;
    if entry.code.Some? && entry.code.value in keys {
      AppendNoRules(keys, entry.code.value);
    }
    while j < |entry.convKeys|
      invariant 0 <= j <= |entry.convKeys|
      invariant keyboard.Valid() && keyboard.data == old(keyboard.data)
      invariant keyboard.keyInfoMap
             == if entry.code.Some? && entry.code.value in keys
                then AppendRules(keys, entry.code.value, EnabledRules(entry.convKeys[..j]))
                else keys
    {
      var convKey := entry.convKeys[j];
      assert entry.convKeys[..j + 1][..j] == entry.convKeys[..j];
      assert EnabledRules(entry.convKeys[..j + 1])
          == EnabledRules(entry.convKeys[..j]) + (if Enabled(convKey.on) then [convKey] else []);
      if entry.code.Some? && Enabled(convKey.on) {
        // a value copy: every attached rule is independent of the others
        var cloneConvKey := convKey;
        EnabledPrefix(entry.convKeys, j + 1);
        AppendRulesTwice(keys, entry.code.value, EnabledRules(entry.convKeys[..j]), cloneConvKey);
        keyboard.AddConvKey(entry.code.value, cloneConvKey);
      } else if !Enabled(convKey.on) {
        assert EnabledRules(entry.convKeys[..j + 1]) == EnabledRules(entry.convKeys[..j]);
      }
      j := j + 1;
    }
    assert entry.convKeys[..j] == entry.convKeys;
  }

  /** A rule enabled in a prefix is enabled in the whole list. */
  lemma {:induction false} EnabledPrefix(convKeys: seq<ConvKeyInfo>, n: nat)
    requires n <= |convKeys| && EnabledRules(convKeys[..n]) != []
    ensures EnabledRules(convKeys) != []
    decreases |convKeys|
  {
    if n < |convKeys| {
      var init := convKeys[..|convKeys| - 1];
      assert init[..n] == convKeys[..n];
      EnabledPrefix(init, n);
    } else {
      assert convKeys[..n] == convKeys;
    }
  }
}
