/**
  The scan-code translator (Linux key code to HID usage, then the
  user's HID-to-HID overrides) and the exit-sequence detector, tied
  together by the per-event entry point `ProcessKeyEvent`.
 */
module ConvMap {
  import opened Bytes
  import opened Hid

  /** The fixed Linux key code to HID usage table, one case per entry.
      Codes without a case have no HID equivalent. */
  function ScanCode(code: byte): (r: Option<byte>)
    ensures r.Some? <==> 1 <= code <= 83 || 87 <= code <= 88 || 92 <= code <= 94 || 96 <= code <= 100
                         || 102 <= code <= 111 || code == 119 || code == 124 || code == 125
    ensures r.Some? ==> Registered(r.value)
  {
    match code
    case 1 => Some(0x29)
    case 2 => Some(0x1E)
    case 3 => Some(0x1F)
    case 4 => Some(0x20)
    case 5 => Some(0x21)
    case 6 => Some(0x22)
    case 7 => Some(0x23)
    case 8 => Some(0x24)
    case 9 => Some(0x25)
    case 10 => Some(0x26)
    case 11 => Some(0x27)
    case 12 => Some(0x2D)
    case 13 => Some(0x2E)
    case 14 => Some(0x2A)
    case 15 => Some(0x2B)
    case 16 => Some(0x14)
    case 17 => Some(0x1A)
    case 18 => Some(0x08)
    case 19 => Some(0x15)
    case 20 => Some(0x17)
    case 21 => Some(0x1C)
    case 22 => Some(0x18)
    case 23 => Some(0x0C)
    case 24 => Some(0x12)
    case 25 => Some(0x13)
    case 26 => Some(0x2F)
    case 27 => Some(0x30)
    case 28 => Some(0x28)
    case 29 => Some(0xE0)
    case 30 => Some(0x04)
    case 31 => Some(0x16)
    case 32 => Some(0x07)
    case 33 => Some(0x09)
    case 34 => Some(0x0A)
    case 35 => Some(0x0B)
    case 36 => Some(0x0D)
    case 37 => Some(0x0E)
    case 38 => Some(0x0F)
    case 39 => Some(0x33)
    case 40 => Some(0x34)
    case 41 => Some(0x35)
    case 42 => Some(0xE1)
    case 43 => Some(0x31)
    case 44 => Some(0x1D)
    case 45 => Some(0x1B)
    case 46 => Some(0x06)
    case 47 => Some(0x19)
    case 48 => Some(0x05)
    case 49 => Some(0x11)
    case 50 => Some(0x10)
    case 51 => Some(0x36)
    case 52 => Some(0x37)
    case 53 => Some(0x38)
    case 54 => Some(0xE5)
    case 55 => Some(0x55)
    case 56 => Some(0xE2)
    case 57 => Some(0x2C)
    case 58 => Some(0x39)
    case 59 => Some(0x3A)
    case 60 => Some(0x3B)
    case 61 => Some(0x3C)
    case 62 => Some(0x3D)
    case 63 => Some(0x3E)
    case 64 => Some(0x3F)
    case 65 => Some(0x40)
    case 66 => Some(0x41)
    case 67 => Some(0x42)
    case 68 => Some(0x43)
    case 69 => Some(0x83)
    case 70 => Some(0x84)
    case 71 => Some(0x5F)
    case 72 => Some(0x60)
    case 73 => Some(0x61)
    case 74 => Some(0x56)
    case 75 => Some(0x5C)
    case 76 => Some(0x5D)
    case 77 => Some(0x5E)
    case 78 => Some(0x57)
    case 79 => Some(0x59)
    case 80 => Some(0x5A)
    case 81 => Some(0x5B)
    case 82 => Some(0x62)
    case 83 => Some(0x63)
    case 87 => Some(0x44)
    case 88 => Some(0x45)
    case 92 => Some(0x8A)
    case 93 => Some(0x88)
    case 94 => Some(0x8B)
    case 96 => Some(0x58)
    case 97 => Some(0xE4)
    case 98 => Some(0x54)
    case 99 => Some(0x46)
    case 100 => Some(0xE6)
    case 102 => Some(0x4A)
    case 103 => Some(0x52)
    case 104 => Some(0x4B)
    case 105 => Some(0x50)
    case 106 => Some(0x4F)
    case 107 => Some(0x4D)
    case 108 => Some(0x51)
    case 109 => Some(0x4E)
    case 110 => Some(0x49)
    case 111 => Some(0x4C)
    case 119 => Some(0x48)
    case 124 => Some(0x89)
    case 125 => Some(0xE3)
    case _ => None
  }

  const ScanCodeTable: map<byte, byte> := map c: byte | ScanCode(c).Some? :: ScanCode(c).value

  /** One key transition from the input device. */
  datatype KeyEvent = KeyEvent(code: byte, pressed: bool) {
    predicate KeyPress() { pressed }
    predicate KeyRelease() { !pressed }
  }

  /** Every event is a press or a release and never both, so
      `ProcessKeyEvent` takes exactly one of its two branches. */
  lemma PressOrRelease(e: KeyEvent)
    ensures e.KeyPress() != e.KeyRelease()
  {
  }

  // ---------------------------------------------------------------------
  // Translation

  /** A scan code's HID usage: 0 when the table has no entry for it,
      whatever the overrides; otherwise the table's value, replaced once by
      its override when there is one. */
  function Translate(table: map<byte, byte>, remap: map<byte, byte>, code: byte): (r: byte)
    ensures code !in table ==> r == 0
    ensures code in table && table[code] !in remap ==> r == table[code]
    ensures code in table && table[code] in remap ==> r == remap[table[code]]
  {
    if code !in table then 0
    else if table[code] in remap then remap[table[code]]
    else table[code]
  }

  // ---------------------------------------------------------------------
  // Exit sequence

  predicate IsAscii(txt: string) {
    forall i :: 0 <= i < |txt| ==> txt[i] as int < 128
  }

  /** The HID code the exit phrase uses for one character: its byte value
      minus that of 'a', plus 4, all modulo 256. */
  function CharCode(c: char): (r: byte)
    requires c as int < 128
    ensures 'a' <= c <= 'z' ==> r as int == c as int - 'a' as int + 0x04
  {
    Plus(Minus(c as int as byte, 'a' as int as byte), 0x04)
  }

  /** The exit phrase as HID codes, one per character; a lower-case letter
      becomes its HID letter usage (0x04 for 'a' to 0x1D for 'z'). */
  function ExitCodes(txt: string): (r: seq<byte>)
    requires IsAscii(txt)
    ensures |r| == |txt|
    ensures forall i :: 0 <= i < |txt| && 'a' <= txt[i] <= 'z' ==>
      r[i] as int == txt[i] as int - 'a' as int + 0x04 && Registered(r[i]) && !IsModifierCode(r[i])
  {
    seq(|txt|, i requires 0 <= i < |txt| => CharCode(txt[i]))
  }

  /** One press event seen by the exit-sequence cursor `pos` over
      `pattern`: a match at `pos` advances it; a mismatch drops it to 1 if
      the code starts the pattern and to 0 otherwise; at the end of the
      pattern it stays put. */
  function ExitStep(pattern: seq<byte>, pos: nat, code: byte): (r: nat)
    requires pos <= |pattern|
    ensures r <= |pattern|
    ensures pos == |pattern| ==> r == pos
    ensures r == pos + 1 <==> pos < |pattern| && pattern[pos] == code
    ensures pos < |pattern| && pattern[pos] != code ==> r == (if pattern[0] == code then 1 else 0)
  {
    if pos < |pattern| then
      if pattern[pos] == code then pos + 1
      else if pattern[0] == code then 1
      else 0
    else pos
  }

  /** The cursor after a run of press events, starting from `pos`. */
  function RunPresses(pattern: seq<byte>, pos: nat, presses: seq<byte>): (r: nat)
    requires pos <= |pattern|
    ensures r <= |pattern|
    decreases |presses|
  {
    if presses == [] then pos
    else ExitStep(pattern, RunPresses(pattern, pos, presses[..|presses| - 1]), presses[|presses| - 1])
  }

  // ---------------------------------------------------------------------
  // The translator object

  class Code2HidCode {
    const code2HidCode: map<byte, byte>
    var remapHIDCode: map<byte, byte>
    const exitKeySequence: array<byte>
    var keySequencePos: int
    const exitKeySequenceTxt: string

    ghost predicate Valid()
      reads this
    {
      code2HidCode == ScanCodeTable && 0 <= keySequencePos <= exitKeySequence.Length
    }

    constructor (exitKeySequenceTxt: string)
      requires IsAscii(exitKeySequenceTxt)
      ensures Valid() && fresh(exitKeySequence)
      ensures exitKeySequence[..] == ExitCodes(exitKeySequenceTxt)
      ensures keySequencePos == 0 && remapHIDCode == map[]
      ensures this.exitKeySequenceTxt == exitKeySequenceTxt
    {
      this.exitKeySequenceTxt := exitKeySequenceTxt;
      var codes := new byte[|exitKeySequenceTxt|];
      var index := 0;
      while index < |exitKeySequenceTxt|
        invariant 0 <= index <= |exitKeySequenceTxt|
        invariant codes[..index] == ExitCodes(exitKeySequenceTxt)[..index]
      {
        codes[index] := CharCode(exitKeySequenceTxt[index]);
        index := index + 1;
      }
      exitKeySequence := codes;
      remapHIDCode := map[];
      code2HidCode := ScanCodeTable;
      keySequencePos := 0;
    }

    method SetHIDRemap(oldCode: byte, newCode: byte)
      requires Valid()
      modifies this
      ensures Valid() && keySequencePos == old(keySequencePos)
      ensures remapHIDCode == old(remapHIDCode)[oldCode := newCode]
    {
      remapHIDCode := remapHIDCode[oldCode := newCode];
    }

    /** With the fixed table in place: 0 for a scan code the table lacks,
        else its HID usage, replaced by that usage's override if it has one. */
    function GetHIDKeyCode(code: byte): (r: byte)
      reads this
      ensures code2HidCode == ScanCodeTable && ScanCode(code).None? ==> r == 0
      ensures code2HidCode == ScanCodeTable && ScanCode(code).Some? ==>
        r == (if ScanCode(code).value in remapHIDCode then remapHIDCode[ScanCode(code).value] else ScanCode(code).value)
    {
      Translate(code2HidCode, remapHIDCode, code)
    }

    /** Handles one key event: translates it, records the press or release
        in `keyboard`, moves the exit-sequence cursor on a press, and returns
        the rebuilt report, whether the exit phrase has been matched, and the
        cursor. The translated code must be registered: the keyboard holds no
        entry for any other code. */
    method ProcessKeyEvent(keyboard: HIDKeyboard, keyEvent: KeyEvent) returns (report: seq<byte>, matched: bool, pos: int)
      requires Valid() && keyboard.Valid()
      requires keyboard.data != exitKeySequence
      requires Registered(GetHIDKeyCode(keyEvent.code))
      modifies this, keyboard, keyboard.data
      ensures Valid() && keyboard.Valid()
      ensures remapHIDCode == old(remapHIDCode) && exitKeySequence[..] == old(exitKeySequence[..])
      ensures keyboard.keyInfoMap
           == SetPressed(old(keyboard.keyInfoMap), old(GetHIDKeyCode(keyEvent.code)), keyEvent.pressed)
      ensures keySequencePos
           == if keyEvent.pressed
              then ExitStep(exitKeySequence[..], old(keySequencePos), old(GetHIDKeyCode(keyEvent.code)))
              else old(keySequencePos)
      ensures report == Report(keyboard.keyInfoMap, Ascending)
      ensures keyboard.data == old(keyboard.data) && keyboard.data[..] == report
      ensures matched == (keySequencePos == exitKeySequence.Length) && pos == keySequencePos
    {
      var hidCode := GetHIDKeyCode(keyEvent.code);

      if keyEvent.KeyPress() {
        keyboard.PressKey(hidCode);
        if keySequencePos < exitKeySequence.Length {
          if exitKeySequence[keySequencePos] == hidCode {
            keySequencePos := keySequencePos + 1;
          } else {
            if exitKeySequence[0] == hidCode {
              keySequencePos := 1;
            } else {
              keySequencePos := 0;
            }
          }
        }
      }

      if keyEvent.KeyRelease() {
        keyboard.ReleaseKey(hidCode);
      }

      report := keyboard.SetupHidPackat();
      matched := exitKeySequence.Length == keySequencePos;
      pos := keySequencePos;
    }
  }
}
