# hw-keyboard-remapper: the key translator and the HID report builder

This project models the core of hw-keyboard-remapper in Dafny and proves properties of the model. The program reads key events from a Linux keyboard and replays them as a USB HID keyboard, remapping keys along the way. The core is the part that runs on every event:

- **Translation.** A Linux scan code becomes a HID usage through a fixed table of 106 entries. A user-configured HID-to-HID override is then applied once (`ConvMap.Translate`, `ConvMap.Code2HidCode.GetHIDKeyCode`). A code the table does not know becomes 0.
- **The key registry.** Every HID usage the keyboard knows has an entry recording whether the key is held (`Hid.HIDKeyboard`):
  - 0x00–0xA4, 0xB0–0xDD, and the eight modifiers 0xE0–0xE7;
  - each entry carries its own list of conditional rules.
- **Conditional rules.** Each rule applies to one key while it is held. It fires when the modifier byte, masked with the rule's mask, equals the rule's expected value. The first rule that fires gives the key's replacement code and XORs its value into the modifier byte (`Hid.ProcessRules`).
- **The 8-byte boot-protocol report.** The report is built in two passes over the registry (`Hid.HIDKeyboard.SetupHidPackat`, specified by `Hid.Report`):
  - the first pass ORs together the bits of the held modifiers;
  - the second pass runs the rules of each held key in turn, threading the modifier byte through them and filling the key slots, until the sixth slot is filled; keys after that are not visited, so their rules neither add a code nor change the modifier byte;
  - byte 0 is the final modifier byte, byte 1 is 0, and unused slots are 0.
- **The exit phrase detector.** Its cursor advances on a press that matches the next code of the phrase. On a mismatch it drops to 1 if the press matches the first code, else to 0. Once the whole phrase has been typed it stays at the end (`ConvMap.ExitStep`, inside `ConvMap.Code2HidCode.ProcessKeyEvent`).
- **Start-up configuration.** `Setup.ApplySwitchKeys` installs the enabled overrides. `Setup.ApplyConvKeyMap` attaches a separate copy of each enabled rule to its key.

Design of the model:

- **Bytes.** Go's `uint8` is the newtype `Bytes.byte`:
  - subtraction and addition wrap modulo 256;
  - a shift by 8 or more gives 0, as in Go;
  - AND, OR and XOR go through `bv8`.
- **The keyboard and the translator.** Both are classes whose fields change in place:
  - `Hid.HIDKeyboard` holds the registry as a map of values and the report buffer as an `array<byte>` of length 8;
  - `ConvMap.Code2HidCode` holds the override map, the exit phrase as an array, and the cursor.
- **Visiting order.** Go visits its maps in no fixed order. The specification functions of the report (`Hid.BaselineFrom`, `Hid.FillFrom`, `Hid.Report`) therefore take the visiting order as a parameter. The methods visit codes in ascending order (`Hid.Ascending`). The lemmas in `HidProofs` hold for every order, except `HidProofs.AscendingBaseline` and `HidProofs.ModifierByteWithoutRules`, which are stated for the ascending order only, and the worked example `HidProofs.ShiftRuleExample`, which fixes its own two-key registry and order.

## Model

| member | source | states |
|---|---|---|
| Hid.GetModifierBit | HID.go:36-41 | bit k of the result is set exactly when the key is held, is a modifier, and has code 0xE0 + k; every other key gives 0 |
| Hid.ProcessRules | HID.go:48-60 | the outcome of `process` is either the fallback code with the modifier unchanged, or the code of some rule that fires together with the modifier XOR-ed by that rule's value |
| HidProofs.ProcessFirstMatch | HID.go:48-55 | when rule i is the first rule whose masked-modifier test holds, the key becomes that rule's code and the modifier is XOR-ed with that rule's value |
| HidProofs.ProcessNoMatch | HID.go:48-60 | when no rule fires, the modifier is unchanged; an ordinary key keeps its own code and a modifier key gives 0 |
| HidProofs.LaterRulesIgnored | HID.go:49-55 | once a rule in the list fires, rules appended after it never change the outcome |
| Hid.InitialRegistry | HID.go:77-305 | the built registry holds exactly the codes 0x00–0xA4, 0xB0–0xDD and 0xE0–0xE7; each entry carries its own code, is a modifier exactly for 0xE0–0xE7, is released, and has no rules |
| Hid.HIDKeyboard.constructor | HID.go:81-306 | a fresh 8-byte buffer and the initial registry |
| Hid.HIDKeyboard.PressKey | HID.go:308-311 | only the held flag of that key becomes true; every other field and key is unchanged |
| Hid.HIDKeyboard.ReleaseKey | HID.go:313-316 | only the held flag of that key becomes false; every other field and key is unchanged |
| Hid.HIDKeyboard.ReleaseAllKeys | HID.go:318-322 | every key is released and nothing else changes |
| Hid.ReleasedAll | HID.go:318-322 | same keys; every entry released and otherwise unchanged |
| HidProofs.ReportAfterReleaseAll | HID.go:318-363 | after releasing every key, the report is eight zero bytes, whatever the rules and the visiting order |
| Hid.HIDKeyboard.GetKeyInfo | HID.go:324-326 | an entry is returned exactly for registered codes; it is the registry's own entry for that code (held flag and rules included), which carries that code and its modifier status |
| Hid.HIDKeyboard.AddConvKey | HID.go:328-331 | the key's rule list grows by that one rule at the end; nothing else changes |
| Hid.HIDKeyboard.ModifierBaseline | HID.go:339-345 | the value equals the OR-fold of the held modifiers' bits over the ascending visiting order |
| Hid.BaselineFrom | HID.go:341-345 | the baseline pass only ORs: no bit already in the accumulator is ever cleared |
| HidProofs.BaselineBit | HID.go:340-345 | bit k of the baseline is set exactly when it was already set or some visited key is a held modifier with code 0xE0 + k |
| HidProofs.AscendingBaseline | HID.go:340-345 | in the built registry, bit k of the baseline is set exactly when modifier 0xE0 + k is held |
| Hid.HIDKeyboard.FillKeySlots | HID.go:346-360 | slots 2.. of the buffer hold exactly the codes the fill specification produces, the threaded modifier is returned, and the rest of the buffer stays zero |
| Hid.FillFrom | HID.go:347-360 | previously filled slots are kept, never more than six slots are filled, and every slot added is non-zero |
| Hid.Report | HID.go:333-363 | the report is 8 bytes, byte 1 is 0, and the key slots are packed: no non-zero code follows a zero |
| Hid.HIDKeyboard.SetupHidPackat | HID.go:333-363 | the returned report and the buffer both equal the report specification of the current registry, visited in ascending order |
| HidProofs.ReportWithoutRules | HID.go:333-363 | with no rules, byte 0 is the baseline, and the slots are the first six codes of held ordinary keys in visiting order, padded with zeros |
| HidProofs.ModifierByteWithoutRules | HID.go:339-361 | with no rules in the built registry, bit k of byte 0 is set exactly when modifier 0xE0 + k is held |
| HidProofs.RuleFiresInReport | HID.go:333-362 | for any visiting order: when rule i of a held key y is the first of its rules to fire at the baseline and every other key adds nothing, the report is [baseline XOR the rule's value, 0, the rule's code, 0, 0, 0, 0, 0] |
| HidProofs.ShiftRuleExample | HID.go:48-55 | a rule "mask 0x02, result 0x02, code 0x1D, XOR 0x02" on key 0x1C, held with left Shift, gives the report [0, 0, 0x1D, 0, 0, 0, 0, 0]: the replaced code with the Shift bit cleared |
| HidProofs.SaturatedWithoutRules | HID.go:353-358 | when six or more ordinary keys with non-zero codes are held, exactly the first six met are reported and the rest are dropped |
| ConvMap.Code2HidCode.constructor | convMap.go:19-27 | the exit phrase becomes one code per character; the cursor is 0 and there are no overrides |
| ConvMap.CharCode | convMap.go:24 | a lower-case letter becomes its HID letter usage, the character minus 'a' plus 4 |
| ConvMap.ExitCodes | convMap.go:22-25 | one code per character; a lower-case letter becomes its HID letter usage, which is registered and not a modifier |
| ConvMapProofs.DefaultExitPhrase | main.go:82 | the start-up phrase "qweqweqweqwe" is the codes of q, w, e four times over |
| ConvMap.ScanCode | convMap.go:28-150 | the table has an entry exactly for Linux codes 1-83, 87-88, 92-94, 96-100, 102-111, 119, 124 and 125, and every entry is a registered HID code |
| ConvMapProofs.ScanTableRegistered | convMap.go:28-150 | every value of the fixed translation table is a registered HID code |
| ConvMap.Code2HidCode.SetHIDRemap | convMap.go:159-161 | the override map gains or replaces that one entry; nothing else changes |
| ConvMapProofs.SetRemapEffect | convMap.go:159-175 | after an override old -> new, codes whose table value is old translate to new and every other code translates as before |
| ConvMap.Code2HidCode.GetHIDKeyCode | convMap.go:163-175 | with the fixed table in place, a scan code without an entry gives 0; otherwise its HID usage, replaced by that usage's override when one exists |
| ConvMap.Translate | convMap.go:163-175 | a code missing from the table gives 0; otherwise the table value, or its override when one exists |
| ConvMapProofs.OverrideNotChained | convMap.go:169-173 | an override is applied once: with a -> b and b -> c, a code whose table value is a gives b |
| ConvMapProofs.TranslationRegistered | convMap.go:163-175 | when every override leads to a registered code, every scan code translates to a registered code |
| ConvMap.ExitStep | convMap.go:188-198 | the cursor advances exactly on a match below the end; a mismatch drops it to 1 if the code starts the phrase, else to 0; at the end it stays put |
| ConvMap.PressOrRelease | KeyEvent.go:3-19 | every key event is a press or a release, never both |
| ConvMap.Code2HidCode.ProcessKeyEvent | convMap.go:177-212 | the translated key's held flag follows the event; the cursor takes one exit step on a press only; the report is the rebuilt report, and it is the keyboard's own buffer contents; "matched" holds exactly when the cursor is at the end of the phrase |
| ConvMapProofs.RunFrozen | convMap.go:188-198 | once at the end of the phrase, the cursor stays there for any further presses |
| ConvMapProofs.ExitDetectionSound | convMap.go:188-198 | after any presses from 0, the last presses are the phrase's first pos codes; reaching the end means the phrase was typed consecutively |
| ConvMapProofs.NaiveMatcherMissesOverlap | convMap.go:188-198 | the phrase "qqw" occurs in the presses "qqqw" but the cursor ends at 0 |
| ConvMapProofs.CompletesFrom | convMap.go:188-190 | from any cursor position, typing the next k codes of the phrase advances the cursor by exactly k |
| ConvMapProofs.PhraseTypedIsDetected | convMap.go:188-198 | from a fresh cursor, typing the whole phrase consecutively drives the cursor to the end of the phrase |
| ConvMapProofs.RestartAfterMismatch | convMap.go:188-198 | a mismatch that is itself the first code of the phrase restarts the match at 1, so "qwe" is found in q ? q w e |
| Setup.ApplySwitchKeys | main.go:96-100 | the override map becomes the in-order fold of the enabled switches |
| Setup.SwitchRemapLastWins | main.go:96-100 | the last enabled switch for a source code decides its override |
| Setup.SwitchRemapUntouched | main.go:96-100 | a source code that no enabled switch names keeps its earlier override, or stays without one |
| Setup.EnabledRules | main.go:102-106 | a rule is kept exactly when it is enabled (an absent flag means enabled), and every kept rule comes from the list |
| Setup.EnabledRulesAppend | main.go:102-106 | filtering distributes over concatenation, so the kept rules stay in list order |
| Setup.EnabledSingle | main.go:106 | a single rule is kept exactly when it is enabled |
| Setup.ApplyConvKeyEntry | main.go:102-112 | the keyboard's registry becomes that entry's rules attached to its key |
| Setup.ApplyConvKeyMap | main.go:101-114 | the registry becomes the in-order attachment of every entry's enabled rules |
| Setup.EntryRules | main.go:101-114 | one entry adds its enabled rules to the key it names and nothing to any other key |
| Setup.ConvKeyMapRules | main.go:101-114 | after setup, every key has its own rules followed by exactly the enabled rules listed for it, in the order the entries were met; everything else is unchanged |

## Left out

- Display names of keys and events (`Name`, `KeyString`) and every `logrus` call are left out: they are logging only. `ConvMap.KeyEvent` keeps only the code and the press flag.
- `GetExitKeySequenceTxt` (convMap.go:154-156) is a plain getter and has no member of its own. The phrase text is kept as a field, which the constructor stores unchanged.
- The constants `L_SHIFTBIT` and `LR_SHIFTBIT` (HID.go:5-6) are left out; nothing in the core uses them.
- Go map iteration order is unspecified. The methods visit codes in ascending order. The report specification and most `HidProofs` lemmas take any order; `HidProofs.AscendingBaseline` and `HidProofs.ModifierByteWithoutRules` hold for the ascending order only, and `HidProofs.ShiftRuleExample` fixes its own order.
- Pointer sharing is left out:
  - the registry holds key entries as values, not pointers;
  - `SetupHidPackat` returns a copy of the buffer, not the buffer itself;
  - a later call cannot alter a report already returned.
- `ConvMap.Code2HidCode.ProcessKeyEvent` requires the translated code to be registered. In Go an unregistered code makes the lookup return nil and the event handler panics, so no such path is modelled.
- `ConvMap.Code2HidCode.ProcessKeyEvent` also requires the keyboard's buffer and the exit phrase to be different arrays. They are separate allocations in the program.
- `ConvMap.Code2HidCode.constructor` requires the exit phrase to be ASCII. For other text, Go indexes by byte offset while ranging over runes; that is not modelled.
- `Hid.HIDKeyboard.PressKey` and `Hid.HIDKeyboard.ReleaseKey` require the code to be registered. In Go the lookup of an unregistered code gives nil, and setting its held flag panics (HID.go:309-310, 314-315).
- `Hid.HIDKeyboard.AddConvKey` requires the code to be registered. The Go code dereferences a nil entry otherwise.
- `Setup.ApplyConvKeyMap` and `Setup.ApplyConvKeyEntry` require that every entry with an enabled rule names a registered code (`Setup.Attachable`). An entry whose key parses to an unregistered code and has an enabled rule makes Go panic at main.go:110, so that path is not modelled.
- `Setup.ApplyConvKeyMap` takes the rule map as a sequence of entries whose key text is already parsed; `code` is None when the text is not an 8-bit number. The parsing itself (`strconv.ParseUint`) and the map's iteration order are not modelled. Every order is an input.
- Reading the settings file, the JSON decoding, the evdev listener, writing reports to the gadget device, and the rest of `main` are I/O and are not part of this model.
- The rule evaluator consults every attached rule and never reads a rule's `On` flag. Disabled rules are filtered out once, when they are attached (main.go:106); the model follows the code here.
