/**
  What the rule evaluator and the report builder promise, proved about the
  specification functions of module Hid.
 */
module HidProofs {
  import opened Bytes
  import opened Hid

  // ---------------------------------------------------------------------
  // The rule evaluator

  /** The first rule that fires decides: its code, and the modifier XOR-ed
      with its `modifierXor`. */
  lemma {:induction false} ProcessFirstMatch(info: HIDKeyInfo, modifier: byte, i: nat)
    requires i < |info.convKeyInfoList|
    requires Fires(info.convKeyInfoList[i], modifier)
    requires forall j :: 0 <= j < i ==> !Fires(info.convKeyInfoList[j], modifier)
    ensures Process(info, modifier)
         == (info.convKeyInfoList[i].code, Xor(modifier, info.convKeyInfoList[i].modifierXor))
  {
    FirstMatchOf(info.convKeyInfoList, Passthrough(info), modifier, i);
  }

  lemma {:induction false} FirstMatchOf(rules: seq<ConvKeyInfo>, fallback: byte, modifier: byte, i: nat)
    requires i < |rules| && Fires(rules[i], modifier)
    requires forall j :: 0 <= j < i ==> !Fires(rules[j], modifier)
    ensures ProcessRules(rules, fallback, modifier) == (rules[i].code, Xor(modifier, rules[i].modifierXor))
  {
    if i > 0 {
      FirstMatchOf(rules[1..], fallback, modifier, i - 1);
    }
  }

  /** With no rule firing the modifier is unchanged, and the code is the
      key's own for an ordinary key and 0 for a modifier key. */
  lemma {:induction false} ProcessNoMatch(info: HIDKeyInfo, modifier: byte)
    requires forall j :: 0 <= j < |info.convKeyInfoList| ==> !Fires(info.convKeyInfoList[j], modifier)
    ensures Process(info, modifier) == (if info.isModifier then 0 else info.orgCode, modifier)
  {
    NoMatchOf(info.convKeyInfoList, Passthrough(info), modifier);
  }

  lemma {:induction false} NoMatchOf(rules: seq<ConvKeyInfo>, fallback: byte, modifier: byte)
    requires forall j :: 0 <= j < |rules| ==> !Fires(rules[j], modifier)
    ensures ProcessRules(rules, fallback, modifier) == (fallback, modifier)
  {
    if rules != [] {
      NoMatchOf(rules[1..], fallback, modifier);
    }
  }

  /** Once a rule of `rules` fires, rules appended after them are never
      consulted. */
  lemma {:induction false} LaterRulesIgnored(rules: seq<ConvKeyInfo>, later: seq<ConvKeyInfo>, fallback: byte, modifier: byte)
    requires exists j :: 0 <= j < |rules| && Fires(rules[j], modifier)
    ensures ProcessRules(rules + later, fallback, modifier) == ProcessRules(rules, fallback, modifier)
  {
    if !Fires(rules[0], modifier) {
      assert (rules + later)[1..] == rules[1..] + later;
      LaterRulesIgnored(rules[1..], later, fallback, modifier);
    }
  }

  // ---------------------------------------------------------------------
  // The modifier baseline

  /** A key sets bit `k` of the baseline exactly when it is a held modifier
      with code 0xE0 + k. */
  ghost predicate SetsBit(keys: map<byte, HIDKeyInfo>, c: byte, k: nat) {
    c in keys && keys[c].pressed && keys[c].isModifier && keys[c].orgCode as int == 0xE0 + k
  }

  lemma {:induction false} BaselineBit(keys: map<byte, HIDKeyInfo>, order: seq<byte>, acc: byte, k: nat)
    requires k < 8
    ensures Bit(BaselineFrom(keys, order, acc), k)
        <==> Bit(acc, k) || exists i :: 0 <= i < |order| && SetsBit(keys, order[i], k)
  {
    if order != [] {
      var c := order[0];
      var acc' := if c in keys && keys[c].pressed && keys[c].isModifier
                  then Or(acc, GetModifierBit(keys[c])) else acc;
      BaselineBit(keys, order[1..], acc', k);
      if c in keys && keys[c].pressed && keys[c].isModifier {
        OrBit(acc, GetModifierBit(keys[c]), k);
      }
      if exists i :: 0 <= i < |order| && SetsBit(keys, order[i], k) {
        var i :| 0 <= i < |order| && SetsBit(keys, order[i], k);
        if i > 0 {
          assert order[1..][i - 1] == order[i];
        }
      }
      if exists i :: 0 <= i < |order[1..]| && SetsBit(keys, order[1..][i], k) {
        var i :| 0 <= i < |order[1..]| && SetsBit(keys, order[1..][i], k);
        assert order[i + 1] == order[1..][i];
      }
    }
  }

  /** In the built registry visited in ascending order, bit `k` of the
      baseline is set exactly when modifier key 0xE0 + k is held. */
  lemma AscendingBaseline(keys: map<byte, HIDKeyInfo>, k: nat)
    requires WellFormedRegistry(keys) && k < 8
    ensures Bit(BaselineFrom(keys, Ascending, 0), k) <==> keys[(0xE0 + k) as byte].pressed
  {
    var m := (0xE0 + k) as byte;
    assert Registered(m);
    BaselineBit(keys, Ascending, 0, k);
    ZeroHasNoBits(0);
    assert Ascending[0xE0 + k] == m;
    if exists i :: 0 <= i < |Ascending| && SetsBit(keys, Ascending[i], k) {
      var i :| 0 <= i < |Ascending| && SetsBit(keys, Ascending[i], k);
      assert Ascending[i] == m;
    }
  }

  // ---------------------------------------------------------------------
  // Reports without rules

  ghost predicate NoRules(keys: map<byte, HIDKeyInfo>) {
    forall c :: c in keys ==> keys[c].convKeyInfoList == []
  }

  /** The codes that held ordinary keys with a non-zero code put into the
      report, in visiting order, before saturation. */
  function PlainCodes(keys: map<byte, HIDKeyInfo>, order: seq<byte>): seq<byte> {
    if order == [] then []
    else
      var c := order[0];
      (if c in keys && keys[c].pressed && !keys[c].isModifier && keys[c].orgCode != 0
       then [keys[c].orgCode] else [])
      + PlainCodes(keys, order[1..])
  }

  function Take6(s: seq<byte>): seq<byte> {
    if |s| <= 6 then s else s[..6]
  }

  lemma {:induction false} FillWithoutRules(keys: map<byte, HIDKeyInfo>, order: seq<byte>, modifier: byte, slots: seq<byte>)
    requires NoRules(keys) && |slots| < 6
    ensures FillFrom(keys, order, modifier, slots) == FillState(Take6(slots + PlainCodes(keys, order)), modifier)
  {
    if order != [] {
      var c := order[0];
      var rest := PlainCodes(keys, order[1..]);
      if c in keys && keys[c].pressed {
        var code := Passthrough(keys[c]);
        assert Process(keys[c], modifier) == (code, modifier);
        if code > 0 {
          assert PlainCodes(keys, order) == [code] + rest;
          assert slots + PlainCodes(keys, order) == (slots + [code]) + rest;
          if |slots| + 1 < 6 {
            FillWithoutRules(keys, order[1..], modifier, slots + [code]);
          } else {
            assert (slots + [code] + rest)[..6] == slots + [code];
          }
        } else {
          assert PlainCodes(keys, order) == rest;
          FillWithoutRules(keys, order[1..], modifier, slots);
        }
      } else {
        assert PlainCodes(keys, order) == rest;
        FillWithoutRules(keys, order[1..], modifier, slots);
      }
    }
  }

  /** With no rules attached, byte 0 is the baseline modifier byte and the
      slots hold the first six codes of held ordinary keys, in visiting
      order, padded with zeros. */
  lemma ReportWithoutRules(keys: map<byte, HIDKeyInfo>, order: seq<byte>)
    requires NoRules(keys)
    ensures var t := Take6(PlainCodes(keys, order));
      Report(keys, order) == [BaselineFrom(keys, order, 0), 0] + t + Zeros(6 - |t|)
  {
    FillWithoutRules(keys, order, BaselineFrom(keys, order, 0), []);
    assert [] + PlainCodes(keys, order) == PlainCodes(keys, order);
  }

  /** The report of the keyboard's own registry with no rules attached: bit
      `k` of byte 0 is set exactly when modifier 0xE0 + k is held. */
  lemma ModifierByteWithoutRules(keys: map<byte, HIDKeyInfo>, k: nat)
    requires WellFormedRegistry(keys) && NoRules(keys) && k < 8
    ensures Bit(Report(keys, Ascending)[0], k) <==> keys[(0xE0 + k) as byte].pressed
  {
    ReportWithoutRules(keys, Ascending);
    AscendingBaseline(keys, k);
  }

  /** Saturation: with no rules, when at least six ordinary keys are held
      exactly the first six met are reported and the rest are dropped. */
  lemma SaturatedWithoutRules(keys: map<byte, HIDKeyInfo>, order: seq<byte>)
    requires NoRules(keys) && |PlainCodes(keys, order)| >= 6
    ensures Report(keys, order)[2..] == PlainCodes(keys, order)[..6]
  {
    ReportWithoutRules(keys, order);
  }

  // ---------------------------------------------------------------------
  // A report in which a rule fires

  /** A key that adds nothing to the report and leaves the modifier byte
      as it is: absent, released, or held with no rules and a zero code (a
      modifier key, or Reserved). */
  ghost predicate Silent(keys: map<byte, HIDKeyInfo>, c: byte) {
    c !in keys || !keys[c].pressed || (keys[c].convKeyInfoList == [] && Passthrough(keys[c]) == 0)
  }

  lemma {:induction false} FillSkipsSilent(keys: map<byte, HIDKeyInfo>, pre: seq<byte>, rest: seq<byte>, modifier: byte, slots: seq<byte>)
    requires |slots| < 6
    requires forall j :: 0 <= j < |pre| ==> Silent(keys, pre[j])
    ensures FillFrom(keys, pre + rest, modifier, slots) == FillFrom(keys, rest, modifier, slots)
  {
    if pre != [] {
      var c := pre[0];
      assert (pre + rest)[0] == c;
      assert (pre + rest)[1..] == pre[1..] + rest;
      if c in keys && keys[c].pressed {
        assert Process(keys[c], modifier) == (0, modifier);
      }
      assert FillFrom(keys, pre + rest, modifier, slots) == FillFrom(keys, pre[1..] + rest, modifier, slots);
      FillSkipsSilent(keys, pre[1..], rest, modifier, slots);
    } else {
      assert pre + rest == rest;
    }
  }

  /** Held modifiers rewrite one held key: when every other key is silent
      and rule i of key y is the first of its rules to fire at the baseline,
      the report is that rule's code alone, with the baseline XOR-ed by the
      rule's value, whatever keys are visited before or after y. */
  lemma RuleFiresInReport(keys: map<byte, HIDKeyInfo>, pre: seq<byte>, y: byte, post: seq<byte>, i: nat)
    requires y in keys && keys[y].pressed
    requires forall j :: 0 <= j < |pre| ==> Silent(keys, pre[j])
    requires forall j :: 0 <= j < |post| ==> Silent(keys, post[j])
    requires var rules := keys[y].convKeyInfoList;
      var b := BaselineFrom(keys, pre + [y] + post, 0);
      && i < |rules| && rules[i].code != 0 && Fires(rules[i], b)
      && forall j :: 0 <= j < i ==> !Fires(rules[j], b)
    ensures var rule := keys[y].convKeyInfoList[i];
      var b := BaselineFrom(keys, pre + [y] + post, 0);
      Report(keys, pre + [y] + post) == [Xor(b, rule.modifierXor), 0, rule.code, 0, 0, 0, 0, 0]
  {
    FillWithFiringKey(keys, pre, y, post, i, BaselineFrom(keys, pre + [y] + post, 0));
    var rule := keys[y].convKeyInfoList[i];
    SingleSlotReport(keys, pre + [y] + post, rule.code, Xor(BaselineFrom(keys, pre + [y] + post, 0), rule.modifierXor));
  }

  lemma FillWithFiringKey(keys: map<byte, HIDKeyInfo>, pre: seq<byte>, y: byte, post: seq<byte>, i: nat, b: byte)
    requires y in keys && keys[y].pressed
    requires forall j :: 0 <= j < |pre| ==> Silent(keys, pre[j])
    requires forall j :: 0 <= j < |post| ==> Silent(keys, post[j])
    requires var rules := keys[y].convKeyInfoList;
      && i < |rules| && rules[i].code != 0 && Fires(rules[i], b)
      && forall j :: 0 <= j < i ==> !Fires(rules[j], b)
    ensures var rule := keys[y].convKeyInfoList[i];
      FillFrom(keys, pre + [y] + post, b, []) == FillState([rule.code], Xor(b, rule.modifierXor))
  {
    assert pre + [y] + post == pre + ([y] + post);
    FillSkipsSilent(keys, pre, [y] + post, b, []);
    FillFiringKey(keys, y, post, b, i);
  }

  /** The report whose fill pass produced exactly one slot. */
  lemma SingleSlotReport(keys: map<byte, HIDKeyInfo>, order: seq<byte>, code: byte, m: byte)
    requires FillFrom(keys, order, BaselineFrom(keys, order, 0), []) == FillState([code], m)
    ensures Report(keys, order) == [m, 0, code, 0, 0, 0, 0, 0]
  {
    var z := Zeros(5);
    assert Report(keys, order) == [m, 0] + [code] + z;
    assert z[0] == 0 && z[1] == 0 && z[2] == 0 && z[3] == 0 && z[4] == 0;
    assert [m, 0] + [code] + z == [m, 0, code, 0, 0, 0, 0, 0];
  }

  lemma FillFiringKey(keys: map<byte, HIDKeyInfo>, y: byte, post: seq<byte>, b: byte, i: nat)
    requires y in keys && keys[y].pressed
    requires forall j :: 0 <= j < |post| ==> Silent(keys, post[j])
    requires var rules := keys[y].convKeyInfoList;
      && i < |rules| && rules[i].code != 0 && Fires(rules[i], b)
      && forall j :: 0 <= j < i ==> !Fires(rules[j], b)
    ensures var rule := keys[y].convKeyInfoList[i];
      FillFrom(keys, [y] + post, b, []) == FillState([rule.code], Xor(b, rule.modifierXor))
  {
    var rule := keys[y].convKeyInfoList[i];
    var m := Xor(b, rule.modifierXor);
    ProcessFirstMatch(keys[y], b, i);
    assert ([y] + post)[0] == y && ([y] + post)[1..] == post;
    assert [] + [rule.code] == [rule.code];
    assert FillFrom(keys, [y] + post, b, []) == FillFrom(keys, post, m, [rule.code]);
    FillSkipsSilent(keys, post, [], m, [rule.code]);
    assert post + [] == post;
  }

  /** The worked example of a conditional rule: key 0x1C (y) with the rule
      "modifier & 0x02 == 0x02 gives code 0x1D and XOR 0x02", pressed
      together with left Shift (0xE1), is reported as 0x1D with the Shift
      bit cleared. */
  lemma ShiftRuleExample()
    ensures var rule := ConvKeyInfo(None, 0x02, 0x02, 0x1D, 0x02);
      var keys := map[0x1C := HIDKeyInfo(0x1C, false, true, [rule]),
                      0xE1 := HIDKeyInfo(0xE1, true, true, [])];
      Report(keys, [0xE1, 0x1C]) == [0, 0, 0x1D, 0, 0, 0, 0, 0]
  {
    var rule := ConvKeyInfo(None, 0x02, 0x02, 0x1D, 0x02);
    var keys := map[0x1C := HIDKeyInfo(0x1C, false, true, [rule]),
                    0xE1 := HIDKeyInfo(0xE1, true, true, [])];
    assert [0xE1] + [0x1C as byte] + [] == [0xE1, 0x1C];
    assert Minus(0xE1, 0xE0) == 1;
    assert ShiftLeft(1, 1) == 0x02 by {
      assert (1 as bv8) << 1 == 2;
      BvRoundTrip(2);
    }
    assert Or(0, 0x02) == 0x02 by {
      BvRoundTrip(2);
    }
    assert [0xE1, 0x1C][1..] == [0x1C] && [0x1C][1..] == [];
    assert BaselineFrom(keys, [0xE1, 0x1C], 0) == BaselineFrom(keys, [0x1C], 0x02);
    assert BaselineFrom(keys, [0x1C], 0x02) == 0x02;
    assert Fires(rule, 0x02) by {
      BvRoundTrip(2);
    }
    assert Xor(0x02, 0x02) == 0 by {
      BvRoundTrip(0);
    }
    RuleFiresInReport(keys, [0xE1], 0x1C, [], 0);
  }

  // ---------------------------------------------------------------------
  // Released keyboards

  lemma {:induction false} BaselineReleased(keys: map<byte, HIDKeyInfo>, order: seq<byte>)
    requires forall c :: c in keys ==> !keys[c].pressed
    ensures BaselineFrom(keys, order, 0) == 0
  {
    if order != [] {
      BaselineReleased(keys, order[1..]);
    }
  }

  lemma {:induction false} FillReleased(keys: map<byte, HIDKeyInfo>, order: seq<byte>, modifier: byte, slots: seq<byte>)
    requires forall c :: c in keys ==> !keys[c].pressed
    requires |slots| < 6
    ensures FillFrom(keys, order, modifier, slots) == FillState(slots, modifier)
  {
    if order != [] {
      FillReleased(keys, order[1..], modifier, slots);
    }
  }

  /** With nothing held, whatever the rules and the visiting order, the
      report is eight zero bytes. */
  lemma ReportReleased(keys: map<byte, HIDKeyInfo>, order: seq<byte>)
    requires forall c :: c in keys ==> !keys[c].pressed
    ensures Report(keys, order) == Zeros(8)
  {
    BaselineReleased(keys, order);
    FillReleased(keys, order, 0, []);
  }

  /** After releasing every key the report is eight zero bytes. */
  lemma ReportAfterReleaseAll(keys: map<byte, HIDKeyInfo>, order: seq<byte>)
    ensures Report(ReleasedAll(keys), order) == Zeros(8)
  {
    ReportReleased(ReleasedAll(keys), order);
  }
}
