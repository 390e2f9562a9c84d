/**
  The HID key registry, the conditional remap rule evaluator and the builder
  of the 8-byte boot-protocol keyboard input report (HID Usage Tables,
  Keyboard/Keypad page 0x07).
 */
module Hid {
  import opened Bytes

  /** One conditional remap rule: when `(modifier & condModifierMask) ==
      condModifierResult` the key is sent as `code` and the modifier byte is
      XOR-ed with `modifierXor`. `on` is the configuration's enable switch; the
      evaluator itself never looks at it. */
  datatype ConvKeyInfo = ConvKeyInfo(
    on: Option<bool>,
    condModifierMask: byte,
    condModifierResult: byte,
    code: byte,
    modifierXor: byte)

  /** The state of one HID usage: its code, whether it is a modifier key,
      whether it is held down, and its rules in registration order. */
  datatype HIDKeyInfo = HIDKeyInfo(
    orgCode: byte,
    isModifier: bool,
    pressed: bool,
    convKeyInfoList: seq<ConvKeyInfo>)

  /** What one pass of the report builder has produced so far. */
  datatype FillState = FillState(slots: seq<byte>, modifier: byte)

  // ---------------------------------------------------------------------
  // Key info

  function NewHIDKeyInfo(code: byte, modifier: bool): HIDKeyInfo {
    HIDKeyInfo(code, modifier, false, [])
  }

  /** The modifier-byte bit a key contributes: bit `k` is set exactly when
      the key is a held modifier whose code is 0xE0 + k. */
  function GetModifierBit(info: HIDKeyInfo): (r: byte)
    ensures forall k: nat :: k < 8 ==>
      (Bit(r, k) <==> info.pressed && info.isModifier && info.orgCode as int == 0xE0 + k)
  {
    if info.pressed && info.isModifier then ShiftLeft(1, Minus(info.orgCode, 0xE0)) else 0
  }

  predicate Fires(rule: ConvKeyInfo, modifier: byte) {
    And(modifier, rule.condModifierMask) == rule.condModifierResult
  }

  /** The rule loop of `process`: the first rule that fires decides the
      code and the new modifier; with none, `fallback` and the unchanged
      modifier. */
  function ProcessRules(rules: seq<ConvKeyInfo>, fallback: byte, modifier: byte): (r: (byte, byte))
    ensures r == (fallback, modifier)
         || exists j :: 0 <= j < |rules| && Fires(rules[j], modifier)
                        && r == (rules[j].code, Xor(modifier, rules[j].modifierXor))
  {
    if rules == [] then (fallback, modifier)
    else if Fires(rules[0], modifier) then (rules[0].code, Xor(modifier, rules[0].modifierXor))
    else
      var r := ProcessRules(rules[1..], fallback, modifier);
      assert forall j :: 0 <= j < |rules| - 1 ==> rules[1..][j] == rules[j + 1];
      r
  }

  /** The code a key contributes when none of its rules fires: its own code
      for an ordinary key, 0 for a modifier key. */
  function Passthrough(info: HIDKeyInfo): byte {
    if !info.isModifier then info.orgCode else 0
  }

  /** Resolves one key against the current modifier byte: the output code
      and the modifier byte after the rule's XOR. */
  function Process(info: HIDKeyInfo, modifier: byte): (byte, byte) {
    ProcessRules(info.convKeyInfoList, Passthrough(info), modifier)
  }

  // ---------------------------------------------------------------------
  // Registry

  /** The codes the registry holds: 0x00-0xA4, 0xB0-0xDD and 0xE0-0xE7
      (0xA5-0xAF and 0xDE-0xDF are reserved and absent). */
  predicate Registered(c: byte) {
    c <= 0xA4 || (0xB0 <= c <= 0xDD) || (0xE0 <= c <= 0xE7)
  }

  predicate IsModifierCode(c: byte) {
    0xE0 <= c <= 0xE7
  }

  /** The registry's shape, which no operation changes: exactly the
      registered codes, each entry carrying its own code and its modifier
      flag. */
  ghost predicate WellFormedRegistry(keys: map<byte, HIDKeyInfo>) {
    && (forall c :: c in keys <==> Registered(c))
    && (forall c :: c in keys ==> keys[c].orgCode == c && keys[c].isModifier == IsModifierCode(c))
  }

  /** The registry as constructed: every registered code, released, with no rules. */
  function InitialRegistry(): (keys: map<byte, HIDKeyInfo>)
    ensures WellFormedRegistry(keys)
    ensures forall c :: c in keys ==> !keys[c].pressed && keys[c].convKeyInfoList == []
  {
    map c: byte | Registered(c) :: NewHIDKeyInfo(c, IsModifierCode(c))
  }

  /** The registry after setting the press flag of `code` to `p`. */
  function SetPressed(keys: map<byte, HIDKeyInfo>, code: byte, p: bool): (r: map<byte, HIDKeyInfo>)
    requires code in keys
    ensures r.Keys == keys.Keys
    ensures r[code].pressed == p
    ensures r[code].orgCode == keys[code].orgCode && r[code].isModifier == keys[code].isModifier
    ensures r[code].convKeyInfoList == keys[code].convKeyInfoList
    ensures forall c :: c in keys && c != code ==> r[c] == keys[c]
  {
    keys[code := keys[code].(pressed := p)]
  }

  /** The registry with every key released and nothing else changed. */
  function ReleasedAll(keys: map<byte, HIDKeyInfo>): (r: map<byte, HIDKeyInfo>)
    ensures r.Keys == keys.Keys
    ensures forall c :: c in r ==> !r[c].pressed && r[c] == keys[c].(pressed := false)
  {
    map c | c in keys :: keys[c].(pressed := false)
  }

  /** The registry after appending `rule` to the rule list of `code`. */
  function AddedRule(keys: map<byte, HIDKeyInfo>, code: byte, rule: ConvKeyInfo): (r: map<byte, HIDKeyInfo>)
    requires code in keys
    ensures r.Keys == keys.Keys
    ensures |r[code].convKeyInfoList| == |keys[code].convKeyInfoList| + 1
    ensures r[code].convKeyInfoList[..|keys[code].convKeyInfoList|] == keys[code].convKeyInfoList
    ensures r[code].convKeyInfoList[|keys[code].convKeyInfoList|] == rule
    ensures r[code].(convKeyInfoList := keys[code].convKeyInfoList) == keys[code]
    ensures forall c :: c in keys && c != code ==> r[c] == keys[c]
  {
    keys[code := keys[code].(convKeyInfoList := keys[code].convKeyInfoList + [rule])]
  }

  // ---------------------------------------------------------------------
  // Report specification

  /** Every byte value in ascending order: the order in which the model
      visits the registry. */
  const Ascending: seq<byte> := seq(256, i requires 0 <= i < 256 => i as byte)

  lemma AscendingStep(n: nat)
    requires n < 256
    ensures Ascending[n..][0] == n as byte && Ascending[n..][1..] == Ascending[n + 1..]
  {
  }

  /** The baseline modifier byte: the OR of the bits of the held modifier
      keys met along `order`, starting from `acc`. */
  function BaselineFrom(keys: map<byte, HIDKeyInfo>, order: seq<byte>, acc: byte): (r: byte)
    ensures forall k: nat :: k < 8 && Bit(acc, k) ==> Bit(r, k)
  {
    if order == [] then acc
    else
      var c := order[0];
      if c in keys && keys[c].pressed && keys[c].isModifier then
        OrKeepsBits(acc, GetModifierBit(keys[c]));
        BaselineFrom(keys, order[1..], Or(acc, GetModifierBit(keys[c])))
      else BaselineFrom(keys, order[1..], acc)
  }

  /** The slot-filling pass: visits `order`, threads the modifier byte
      through `Process` for every held key, appends every non-zero code, and
      stops as soon as the sixth slot is filled. */
  function FillFrom(keys: map<byte, HIDKeyInfo>, order: seq<byte>, modifier: byte, slots: seq<byte>): (f: FillState)
    requires |slots| < 6
    ensures |slots| <= |f.slots| <= 6
    ensures f.slots[..|slots|] == slots
    ensures forall i :: |slots| <= i < |f.slots| ==> f.slots[i] != 0
  {
    if order == [] then FillState(slots, modifier)
    else
      var c := order[0];
      if c in keys && keys[c].pressed then
        var (code, modifier') := Process(keys[c], modifier);
        if code > 0 then
          if |slots| + 1 >= 6 then FillState(slots + [code], modifier')
          else
            var f := FillFrom(keys, order[1..], modifier', slots + [code]);
            assert f.slots[..|slots|] == (slots + [code])[..|slots|] by {
              assert f.slots[..|slots|] == f.slots[..|slots| + 1][..|slots|];
            }
            f
        else FillFrom(keys, order[1..], modifier', slots)
      else FillFrom(keys, order[1..], modifier, slots)
  }

  function Zeros(n: nat): (z: seq<byte>)
    ensures |z| == n && forall i :: 0 <= i < n ==> z[i] == 0
  {
    seq(n, _ => 0)
  }

  /** The report built from the registry when it is visited in `order`:
      modifier byte, reserved byte, then the filled slots padded with
      zeros. Byte 1 is always 0, and the slots are filled contiguously from
      byte 2: a zero key byte is followed only by zero key bytes. */
  function Report(keys: map<byte, HIDKeyInfo>, order: seq<byte>): (r: seq<byte>)
    ensures |r| == 8
    ensures r[1] == 0
    ensures forall i, j :: 2 <= i < j < 8 && r[i] == 0 ==> r[j] == 0
  {
    var f := FillFrom(keys, order, BaselineFrom(keys, order, 0), []);
    [f.modifier, 0] + f.slots + Zeros(6 - |f.slots|)
  }

  // ---------------------------------------------------------------------
  // The keyboard object

  class HIDKeyboard {
    /** The 8-byte report buffer: modifier, reserved, six key slots. */
    var data: array<byte>
    var keyInfoMap: map<byte, HIDKeyInfo>

    ghost predicate Valid()
      reads this
    {
      data.Length == 8 && WellFormedRegistry(keyInfoMap)
    }

    constructor ()
      ensures Valid() && fresh(data)
      ensures keyInfoMap == InitialRegistry()
    {
      data := new byte[8];
      keyInfoMap := InitialRegistry();
    }

    method PressKey(code: byte)
      requires Valid() && Registered(code)
      modifies this
      ensures Valid() && data == old(data)
      ensures keyInfoMap == SetPressed(old(keyInfoMap), code, true)
    {
      var keyInfo := keyInfoMap[code];
      keyInfoMap := keyInfoMap[code := keyInfo.(pressed := true)];
    }

    method ReleaseKey(code: byte)
      requires Valid() && Registered(code)
      modifies this
      ensures Valid() && data == old(data)
      ensures keyInfoMap == SetPressed(old(keyInfoMap), code, false)
    {
      var keyInfo := keyInfoMap[code];
      keyInfoMap := keyInfoMap[code := keyInfo.(pressed := false)];
    }

    method ReleaseAllKeys()
      requires Valid()
      modifies this
      ensures Valid() && data == old(data)
      ensures keyInfoMap == ReleasedAll(old(keyInfoMap))
    {
      var n := 0;
      while n < 256
        invariant 0 <= n <= 256
        invariant data == old(data)
        invariant keyInfoMap.Keys == old(keyInfoMap).Keys
        invariant forall c :: c in keyInfoMap ==>
          keyInfoMap[c] == if (c as int) < n then old(keyInfoMap)[c].(pressed := false) else old(keyInfoMap)[c]
      {
        var c := n as byte;
        if c in keyInfoMap {
          keyInfoMap := keyInfoMap[c := keyInfoMap[c].(pressed := false)];
        }
        n := n + 1;
      }
    }

    /** The entry for `code`; None stands for Go's nil. */
    function GetKeyInfo(code: byte): (r: Option<HIDKeyInfo>)
      requires Valid()
      reads this
      ensures r.Some? <==> Registered(code)
      ensures r.Some? ==> r.value.orgCode == code && r.value.isModifier == IsModifierCode(code)
      ensures r.Some? ==> r.value == keyInfoMap[code]
    {
      if code in keyInfoMap then Some(keyInfoMap[code]) else None
    }

    method AddConvKey(code: byte, convKey: ConvKeyInfo)
      requires Valid() && Registered(code)
      modifies this
      ensures Valid() && data == old(data)
      ensures keyInfoMap == AddedRule(old(keyInfoMap), code, convKey)
    {
      var keyInfo := keyInfoMap[code];
      keyInfoMap := keyInfoMap[code := keyInfo.(convKeyInfoList := keyInfo.convKeyInfoList + [convKey])];
    }

    /** The first pass of the report builder: the OR of the bits of the
        held modifier keys, visited in ascending order. */
    method ModifierBaseline() returns (orgModifierFlag: byte)
      requires Valid()
      ensures orgModifierFlag == BaselineFrom(keyInfoMap, Ascending, 0)
    {
      orgModifierFlag := 0;
      var n := 0;
      assert Ascending[0..] == Ascending;
      while n < 256
        invariant 0 <= n <= 256
        invariant BaselineFrom(keyInfoMap, Ascending[n..], orgModifierFlag) == BaselineFrom(keyInfoMap, Ascending, 0)
      {
        var c := n as byte;
        AscendingStep(n);
        if c in keyInfoMap {
          var val := keyInfoMap[c];
          if val.pressed && val.isModifier {
            orgModifierFlag := Or(orgModifierFlag, GetModifierBit(val));
          }
        }
        n := n + 1;
      }
    }

    /** The second pass of the report builder: visits the held keys in
        ascending order, threading the modifier byte through `Process`, and
        writes every non-zero code into the next free slot of a zeroed
        buffer, stopping once the sixth slot is filled. */
    method FillKeySlots(orgModifierFlag: byte) returns (modifierFlag: byte, index: nat)
      requires Valid()
      requires forall j :: 0 <= j < 8 ==> data[j] == 0
      modifies data
      ensures Valid()
      ensures 2 <= index <= 8
      ensures FillFrom(keyInfoMap, Ascending, orgModifierFlag, []) == FillState(data[2..index], modifierFlag)
      ensures data[0] == 0 && data[1] == 0
      ensures forall j :: index <= j < 8 ==> data[j] == 0
    {
      index := 2;
      modifierFlag := orgModifierFlag;
      var n := 0;
      assert data[2..index] == [];
      assert Ascending[0..] == Ascending;
      while n < 256
        invariant 0 <= n <= 256 && 2 <= index < 8
        invariant data[0] == 0 && data[1] == 0
        invariant forall j :: index <= j < 8 ==> data[j] == 0
        invariant FillFrom(keyInfoMap, Ascending[n..], modifierFlag, data[2..index])
               == FillFrom(keyInfoMap, Ascending, orgModifierFlag, [])
      {
        var c := n as byte;
        AscendingStep(n);
        if c in keyInfoMap && keyInfoMap[c].pressed {
          var (code, modifier') := Process(keyInfoMap[c], modifierFlag);
          modifierFlag := modifier';
          if code > 0 {
            ghost var before := data[2..index];
            data[index] := code;
            assert data[2..index + 1] == before + [code];
            index := index + 1;
            if index >= data.Length {
              break;
            }
          }
        }
        n := n + 1;
      }
    }

    /** Rebuilds the report in `data` from the registry, visiting the codes
        in ascending order, and returns its contents. The registry is left
        as it was, so a second call with no press or release in between
        returns the same bytes. */
    method SetupHidPackat() returns (report: seq<byte>)
      requires Valid()
      modifies data
      ensures Valid()
      ensures report == data[..] == Report(keyInfoMap, Ascending)
    {
      var i := 0;
      while i < data.Length
        invariant 0 <= i <= data.Length
        invariant forall j :: 0 <= j < i ==> data[j] == 0
      {
        data[i] := 0;
        i := i + 1;
      }

      var orgModifierFlag := ModifierBaseline();
      var modifierFlag, index := FillKeySlots(orgModifierFlag);
      ghost var f := FillFrom(keyInfoMap, Ascending, orgModifierFlag, []);
      data[0] := modifierFlag;
      assert data[2..index] == f.slots;
      assert data[index..] == Zeros(6 - |f.slots|);
      assert data[..] == [data[0], data[1]] + data[2..index] + data[index..];
      report := data[..];
    }
  }
}
