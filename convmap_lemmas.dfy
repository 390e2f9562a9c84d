/**
  What the translator and the exit-sequence detector promise, proved about
  the specification functions of module ConvMap.
 */
module ConvMapProofs {
  import opened Bytes
  import opened Hid
  import opened ConvMap

  // ---------------------------------------------------------------------
  // Translation

  /** Every value of the static table is a registered HID code. */
  lemma ScanTableRegistered()
    ensures forall s :: s in ScanCodeTable ==> Registered(ScanCodeTable[s])
  {
  }

  /** Without an override that leads outside the registry, every scan code
      translates to a registered code (unmapped ones to 0, Reserved), so
      `ProcessKeyEvent` never looks up a missing registry entry. */
  lemma TranslationRegistered(remap: map<byte, byte>, code: byte)
    requires forall h :: h in remap ==> Registered(remap[h])
    ensures Registered(Translate(ScanCodeTable, remap, code))
  {
    ScanTableRegistered();
  }

  /** `SetHIDRemap(old, new)`: scan codes whose table value is `old` now
      translate to `new`; every other scan code translates as before. */
  lemma SetRemapEffect(table: map<byte, byte>, remap: map<byte, byte>, oldCode: byte, newCode: byte, code: byte)
    ensures Translate(table, remap[oldCode := newCode], code)
         == if code in table && table[code] == oldCode then newCode else Translate(table, remap, code)
  {
  }

  /** The override is applied once: a chain a -> b -> c still gives b. */
  lemma OverrideNotChained(table: map<byte, byte>, a: byte, b: byte, c: byte, code: byte)
    requires code in table && table[code] == a && a != b
    ensures Translate(table, map[a := b, b := c], code) == b
  {
  }

  // ---------------------------------------------------------------------
  // The exit-sequence detector

  lemma {:induction false} RunFrozen(pattern: seq<byte>, presses: seq<byte>)
    ensures RunPresses(pattern, |pattern|, presses) == |pattern|
    decreases |presses|
  {
    if presses != [] {
      RunFrozen(pattern, presses[..|presses| - 1]);
    }
  }

  /** `pattern` appears as a contiguous run of `s`. */
  ghost predicate Occurs(pattern: seq<byte>, s: seq<byte>) {
    exists i :: OccursAt(pattern, s, i)
  }

  ghost predicate OccursAt(pattern: seq<byte>, s: seq<byte>, i: int) {
    0 <= i && i + |pattern| <= |s| && s[i..i + |pattern|] == pattern
  }

  /** What the cursor knows about the input it has read: at the end of the
      pattern, the pattern has occurred; before it, the input ends with the
      first `pos` codes of the pattern. */
  ghost predicate Tracks(pattern: seq<byte>, input: seq<byte>, pos: nat) {
    && pos <= |pattern|
    && (pos == |pattern| ==> Occurs(pattern, input))
    && (pos < |pattern| ==> pos <= |input| && input[|input| - pos..] == pattern[..pos])
  }

  lemma ExitStepTracks(pattern: seq<byte>, input: seq<byte>, pos: nat, code: byte)
    requires Tracks(pattern, input, pos)
    ensures Tracks(pattern, input + [code], ExitStep(pattern, pos, code))
  {
    var input' := input + [code];
    var r := ExitStep(pattern, pos, code);
    if pos == |pattern| {
      var i :| OccursAt(pattern, input, i);
      assert input'[i..i + |pattern|] == pattern;
      assert OccursAt(pattern, input', i);
    } else if pattern[pos] == code {
      assert input'[|input'| - r..] == input[|input| - pos..] + [code];
      assert pattern[..r] == pattern[..pos] + [code];
      if r == |pattern| {
        assert OccursAt(pattern, input', |input'| - r);
      }
    } else if pattern[0] == code {
      assert input'[|input'| - 1..] == [code];
      assert pattern[..1] == [code];
    } else {
      assert input'[|input'|..] == [] == pattern[..0];
    }
  }

  /** Soundness: after any run of presses from the start, the cursor tracks
      the input; in particular reaching the end of the pattern means that the
      pattern was typed consecutively. */
  lemma {:induction false} ExitDetectionSound(pattern: seq<byte>, presses: seq<byte>)
    ensures Tracks(pattern, presses, RunPresses(pattern, 0, presses))
    ensures RunPresses(pattern, 0, presses) == |pattern| ==> Occurs(pattern, presses)
    decreases |presses|
  {
    if presses == [] {
      if |pattern| == 0 {
        assert OccursAt(pattern, presses, 0);
      }
    } else {
      var init := presses[..|presses| - 1];
      ExitDetectionSound(pattern, init);
      ExitStepTracks(pattern, init, RunPresses(pattern, 0, init), presses[|presses| - 1]);
      assert init + [presses[|presses| - 1]] == presses;
    }
  }

  /** Completeness from a partial match: with the cursor at `pos`, typing
      the next `k` codes of the phrase moves it to `pos + k`. */
  lemma {:induction false} CompletesFrom(pattern: seq<byte>, pos: nat, k: nat)
    requires pos + k <= |pattern|
    ensures RunPresses(pattern, pos, pattern[pos..pos + k]) == pos + k
    decreases k
  {
    if k > 0 {
      assert pattern[pos..pos + k][..k - 1] == pattern[pos..pos + k - 1];
      CompletesFrom(pattern, pos, k - 1);
    }
  }

  /** Completeness: typing the whole phrase from a fresh cursor reaches the
      end, so the loop is told to stop. */
  lemma PhraseTypedIsDetected(pattern: seq<byte>)
    ensures RunPresses(pattern, 0, pattern) == |pattern|
  {
    CompletesFrom(pattern, 0, |pattern|);
    assert pattern[0..|pattern|] == pattern;
  }

  /** The matcher is naive, not Knuth-Morris-Pratt: the phrase "qqw" typed
      inside "qqqw" is not recognised, although it occurs there. */
  lemma NaiveMatcherMissesOverlap()
    ensures Occurs(ExitCodes("qqw"), ExitCodes("qqqw"))
    ensures RunPresses(ExitCodes("qqw"), 0, ExitCodes("qqqw")) == 0
  {
    var p := ExitCodes("qqw");
    var s := ExitCodes("qqqw");
    assert p == [0x14, 0x14, 0x1A];
    assert s == [0x14, 0x14, 0x14, 0x1A];
    assert s[1..4] == p;
    assert OccursAt(p, s, 1);
    assert s[..1][..0] == [] && s[..2][..1] == s[..1] && s[..3][..2] == s[..2] && s[..4] == s;
    assert RunPresses(p, 0, s[..1]) == 1;
    assert RunPresses(p, 0, s[..2]) == 2;
    assert RunPresses(p, 0, s[..3]) == 1;
  }

  /** A mismatch followed by a fresh start of the phrase is still
      recognised: "qwe" (0x14 0x1A 0x08) is matched in 0x14 0x99 0x14 0x1A
      0x08. */
  lemma RestartAfterMismatch()
    ensures RunPresses([0x14, 0x1A, 0x08], 0, [0x14, 0x99, 0x14, 0x1A, 0x08]) == 3
  {
    var s: seq<byte> := [0x14, 0x99, 0x14, 0x1A, 0x08];
    var p: seq<byte> := [0x14, 0x1A, 0x08];
    assert s[..1][..0] == [] && s[..2][..1] == s[..1] && s[..3][..2] == s[..2] && s[..4][..3] == s[..3] && s[..5] == s;
    assert RunPresses(p, 0, s[..1]) == 1;
    assert RunPresses(p, 0, s[..2]) == 0;
    assert RunPresses(p, 0, s[..3]) == 1;
    assert RunPresses(p, 0, s[..4]) == 2;
  }

  /** The phrase the program is started with, "qweqweqweqwe", is the HID
      letter codes of q, w and e, four times over. */
  lemma DefaultExitPhrase()
    ensures ExitCodes("qweqweqweqwe") == [0x14, 0x1A, 0x08, 0x14, 0x1A, 0x08, 0x14, 0x1A, 0x08, 0x14, 0x1A, 0x08]
  {
  }
}
