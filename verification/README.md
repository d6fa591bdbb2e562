# Kindle Launchpad, verified

A Dafny model of Kindle Launchpad, the hotkey daemon for Kindles with a keyboard, and proofs about it. The C++ port (`src/domain`, `src/system`, `src/ui`, `src/hal`, `src/config`) is modelled together with the parts of the original C program that it replaces, so that the two can be compared.

`dafny verify dfyconfig.toml` checks everything.

## What is modelled

State that the program changes in place is a class whose methods are proved against functions of the old state; whole runs of these functions are then what the lemmas are about. Automatic induction is switched off for every lemma, so that each proof says by itself what it rests on.

- **The hotkey engine.** `SequenceMatching` is the matcher, with its counter, armed flag and collected keys. `MatcherTraces` proves that what it delivers over any trace equals a batch function that only searches the trace. `HeldKeys` and `Deliverable` relate it to a keyboard and say exactly which sequences can ever be delivered; `LiveBindings` turns that into which entries of a configuration a user can ever trigger, from the keyboard to the command. `LegacyHotkey` is the C program's machine, with its array of eight codes, `PortBisimulation` and `CaptureLengths` the exact conditions for the two to agree and to be interchangeable, and `Timers` those for their different timers to make no difference.
- **The framebuffer and the overlay.** `Framebuffer` packs two pixels a byte, `MockDisplays` and `DisplayRuns` relate it to a plain pixel array over all runs, `Fonts` says which pixels a text inks, `StatusBars` that the overlay can always be taken off again, and `BarFrames` what each update of the display shows.
- **The daemon.** `Execution` and `Applications` put matcher, bindings, overlay, grabs and clock together; `ApplicationRuns` proves what every run keeps, for any mix of key events, timer checks and reloads, `TimedRuns` reads the commands that are run off the inputs and their times, `DaemonScreen` says what is on the screen meanwhile, and `SettingsAtWork` what the settings do.
- **Configuration.** `Text`, `IniParsing` and `IniNormalForm` are the INI parser, with the theorem that parse, print, parse is stable for every text; `IniLaws` says what each kind of line means and `TokenLaws` what the tokens of a text are. `Actions` and `LegacyActions` are the two programs' binding tables. `ConfigScanning` merges the files of a directory.
- **The C program's drawing.** `Pixmaps` proves the clipped blitters against a bounds test for every byte, and `LegacyStatusBars` the status bar built on them.
- **Files.** `Screenshots` writes bitmap files (the layout of the DeviceIndependentBitmap and BitmapInfoHeader objects, sections 2.2.2.9 and 2.2.2.3 of [MS-WMF]) and reads them back; `UpdateTool` does the same for firmware update files.

Hardware is state: the grabbed flag and the list of grab and release calls stand for the input devices, the list of commands for the shell, an array of bytes for the framebuffer. The clock, the answers of commands, the text of files, the listing of a directory and the font are parameters.

The functions that methods are proved against are tied down in turn by laws that name no function of the implementation: what a pixel, a byte of a file, a token or a line of a configuration is, in numbers and letters.

## Where the code and its documentation differ

The model follows the code.

- A timeout delivers the collected sequence (src/domain/sequence_matcher.cpp:79-87); docs/architecture/domain.md:53-56 says it cancels.
- The trailer ends a capture when it is pressed (src/domain/sequence_matcher.cpp:50); docs/architecture/domain.md:51 says when it is released.
- The first binding of a sequence wins (src/domain/action_registry.cpp:8-13); docs/sot/config-schema.md:23 says the last one.
- Files are sorted by name only (src/config/config_scanner.cpp:29-30); docs/sot/config-schema.md:21 says that launchpad.ini comes first.
- Clearing the display uses the opposite polarity from setting pixels (src/hal/kindle_display.cpp:62-66 against 72); `MockDisplays.ClearedLevel` says for which colours the two agree. The heap buffer is filled with 0xFF (src/hal/kindle_display.cpp:45), which reads back as black, while 0xFF means white to a caller; `DisplayRuns.ShowsPlainExactly` says which pixels are right after any calls.
- Script and Kindle query actions do nothing when executed (src/domain/action_executor.cpp:63-77).

## Model

| member | source | states |
|---|---|---|
| LegacyKeys.GetKeySubstituteCode | src/keydefs.c:260-275 | The C program's alias-table scan gives, for every code, the same code as the switch of the C++ port (src/domain/key_definition.cpp:43-59) |
| Keys.SubstitutionByNumber | src/domain/key_definition.cpp:43-59 | The ten replaced codes and what stands for them, in numbers; every other code stands for itself |
| SequenceMatching.SequenceMatcher.constructor | src/domain/sequence_matcher.cpp:5-10 | A new matcher is idle, unarmed, counts no key and has collected nothing; a table argument overrides the configuration's |
| SequenceMatching.SequenceMatcher.Assign | src/system/application.cpp:79 | Replacing the matcher forgets the capture, the counter and the armed flag |
| SequenceMatching.SequenceMatcher.HandleIdlePress | src/domain/sequence_matcher.cpp:27-35 | Counts the key; arms exactly when it is the introducer and the only key down |
| SequenceMatching.SequenceMatcher.HandleIdleRelease | src/domain/sequence_matcher.cpp:37-46 | Counts down, not below zero; starts a capture only for the armed introducer as the last key up |
| SequenceMatching.SequenceMatcher.HandleCapturingPress | src/domain/sequence_matcher.cpp:48-59 | The trailer delivers what was collected and goes idle; any other key is substituted, appended and reported |
| SequenceMatching.SequenceMatcher.HandleCapturingRelease | src/domain/sequence_matcher.cpp:61-64 | Only the counter changes |
| SequenceMatching.SequenceMatcher.ProcessKeyEvent | src/domain/sequence_matcher.cpp:66-77 | Each of the four cases does the whole-state transition that the trace theorems below are about |
| SequenceMatching.SequenceMatcher.Timeout | src/domain/sequence_matcher.cpp:79-87 | A timeout in a capture delivers what was collected, without touching the counter; otherwise nothing happens |
| SequenceMatching.SequenceMatcher.Cancel | src/domain/sequence_matcher.cpp:89-95 | Back to the initial state, reported as cancelled |
| MatcherTraces.AppendedCarriesPrefix | src/domain/sequence_matcher.cpp:56-58 | At every position of a capture the report is the codes of all its presses so far, or nothing for a release |
| MatcherTraces.IdlePrefix | src/domain/sequence_matcher.cpp:27-46 | Until the first capture start, found by searching the trace, the machine is idle, and armed exactly when the trace says so |
| MatcherTraces.CaptureSegment | src/domain/sequence_matcher.cpp:48-64 | A stretch with neither trailer press nor timeout collects the substituted codes of its presses in order |
| MatcherTraces.FirstCapture | src/domain/sequence_matcher.cpp:37-87 | A complete capture, from its start to the next trailer press or timeout, delivers its codes once and leaves the machine at rest |
| MatcherTraces.DeliveredIsBatch | src/domain/sequence_matcher.cpp:27-87 | For every trace, well formed or not, the list of delivered sequences equals a batch function that only searches the trace for starts and ends |
| HeldKeys.KeysDownCountsHeld | src/domain/sequence_matcher.cpp:28-62 | On every stream a keyboard can produce, the counter equals the number of keys held |
| HeldKeys.KeysDownBounded | src/domain/sequence_matcher.cpp:28-62 | A machine that starts with keys already held, as after a reload, never counts more keys than are held |
| HeldKeys.ArmedExactly | src/domain/sequence_matcher.cpp:29-33 | Armed if and only if the last key event pressed the introducer in idle with nothing else held; then it is the one key held |
| HeldKeys.CaptureStartsExactly | src/domain/sequence_matcher.cpp:37-46 | A capture starts if and only if the introducer is released and the key event before pressed it alone in idle |
| Deliverable.TypeableExactly | src/domain/key_definition.cpp:43-59 | Some key other than the trailer reports a code if and only if the code is not replaced by substitution and, if it is the trailer's, is the target of a replacement |
| Deliverable.OnlyTypeable | src/domain/sequence_matcher.cpp:48-58 | Every code of every delivered sequence is one that some key other than the trailer reports |
| Deliverable.TypingCollects | src/domain/sequence_matcher.cpp:27-64 | For every sequence of such codes there is a run of key taps, possible on a keyboard, that collects exactly it |
| Deliverable.DeliverableExactly | src/domain/sequence_matcher.cpp:27-87 | A sequence is delivered by some run, and by some run of a keyboard, if and only if each of its codes is such a code |
| Deliverable.AliasBindingIsDead | src/domain/key_definition.cpp:43-59 | No run delivers a sequence that holds a code which substitution replaces |
| LiveBindings.DeliveredExactly | src/domain/action.cpp:40-56 | The sequence of a binding can be delivered on a keyboard if and only if every key its text names is reachable, decided by the code and the trailer |
| LiveBindings.LiveExactly | src/system/application.cpp:57-121 | From a keyboard to a command, over runs of the whole daemon: some keys run the shell command of entry i, whatever it is, if and only if every key the entry names is reachable, it is not two shifts, and no earlier entry binds the same sequence |
| LiveBindings.AliasNamesAreDead | src/domain/key_definition.cpp:122-133 | A binding that mentions a key by a K3 alias name such as k3_Home, in any case, is never delivered |
| LegacyHotkey.LegacyMachine.constructor | src/main.c:59-62 | The C program's counters and flags start at zero |
| LegacyHotkey.LegacyMachine.ProcessInputEvent | src/main.c:284-354 | Presses, releases and ignored autorepeats change counter, flags, the array of eight codes and the capture as specified, for every event; a ninth key of a capture, which the C program stores behind its array, is recorded as an overflow |
| LegacyHotkey.LegacyMachine.AlarmHandler | src/main.c:222-264 | A pending timer is a false alarm; otherwise the input is released and a non-empty sequence is looked up and cleared |
| PortBisimulation.StaysRelated | src/main.c:284-354 | Port and C program stay related, with nothing stored behind the array, over every trace whose releases never find the counter at zero and whose captures have at most 8 keys |
| PortBisimulation.OverflowExactly | src/main.c:335-338 | On traces whose releases never find the counter at zero, the C program stores behind its array if and only if some capture of the port has more than 8 keys |
| PortBisimulation.PortAgreesWithLegacy | src/main.c:222-354 | On every stream of a keyboard, with timeouts at the same events: the C program stays in its array and both start captures at the same events and look up the same non-empty sequences, if and only if no capture has more than 8 keys |
| CaptureLengths.FitsExactly | src/main.c:335-338 | No capture has more than 8 keys, along the run, if and only if none has that is found by searching the trace for starts and ends |
| CaptureLengths.AgreeExactly | src/main.c:222-354 | The agreement of the two programs, decided by that search |
| Timers.SameTimeoutsExactly | src/main.c:266-282 | With each program's own timer, one running from the start of a capture and the other from the last accepted key, the two time out at the same key events of a keyboard if and only if every key that comes while a capture is on comes before the interval from the start is over, or after the one from the last key is over too |
| Timers.PromptKeysAgree | src/main.c:222-354 | With such keys the two programs, each with its own timer, start the same captures and look up the same sequences |
| Timers.SlowTypingDiffers | src/system/application.cpp:104-109 | For every interval above one millisecond a key just before its end and one at its end tell them apart: the port goes on collecting, the C program has given up |
| DaemonTimers.DaemonKeepsClock | src/system/application.cpp:94-145 | The daemon, with a timer check at every key, has the clock compared here and runs the commands of what it delivers |
| PortBisimulation.NinthKeyOverflows | src/main.c:335-338 | With every configuration some stream of a keyboard makes the C program leave its array |
| PortBisimulation.CountersDrift | src/domain/sequence_matcher.cpp:38 | The C program's counter is never above the port's, and equal exactly while no release came with no key down |
| PortBisimulation.ProbeExposes | src/main.c:344-350 | Counters that have drifted apart are visible: a concrete continuation makes the observations differ |
| PortBisimulation.InterchangeableExactly | src/main.c:222-354 | With timeouts at the same events: after a trace whose captures have at most 8 keys, the two agree on every continuation that neither releases a key with none down nor collects more than 8 keys, if and only if no release in the trace came with no key down |
| PortBisimulation.OverflowSettles | src/main.c:335-338 | Once a code was stored behind the array, the two agree on no continuation |
| Framebuffer.AllocationCoversRows | src/hal/kindle_display.cpp:33-70 | The allocated bytes, computed in 32 bits, cover the rows if and only if the height is zero, or the width is even and the size does not wrap; then they are equal |
| Framebuffer.EveryPixelAllocated | src/hal/kindle_display.cpp:33-71 | On the same screens and no others, the byte index that the driver computes lies in the allocation for every pixel |
| Framebuffer.RegularPixels | src/hal/kindle_display.cpp:68-88 | On these screens the nibble at the index of the driver is the pixel |
| Framebuffer.Quantize | src/hal/kindle_display.cpp:72-87 | What a level reads back as: a multiple of 17, not below it, and at most 16 above |
| Framebuffer.QuantizeMonotone | src/hal/kindle_display.cpp:72-87 | Rounding keeps the order of levels |
| Framebuffer.LevelIsFixed | src/hal/kindle_display.cpp:72-87 | A level that was read rounds to itself |
| Framebuffer.ByteIndexDoesNotWrap | src/hal/kindle_display.cpp:70-71 | On every addressable screen the 32-bit byte index is the mathematical one |
| Framebuffer.PixelAfterWrite | src/hal/kindle_display.cpp:68-88 | A read after a write gives the rounded level; every other pixel, the one in the same byte included, is unchanged; a write off the screen does nothing |
| Framebuffer.WriteBackIsIdentity | src/hal/kindle_display.cpp:68-88 | Writing back any pixel that was read changes no byte |
| Framebuffer.PixelsDetermineBytes | src/hal/kindle_display.cpp:81-88 | Two framebuffers with the same pixels are the same bytes |
| Framebuffer.PixelInMemory | src/hal/kindle_display.cpp:81-88 | Which byte and which half of it holds a pixel, and the level it means, in numbers |
| Framebuffer.KindleDisplay.constructor | src/hal/kindle_display.cpp:43-45 | For every screen the heap buffer has the allocated size and holds 0xFF |
| Framebuffer.KindleDisplay.Clear | src/hal/kindle_display.cpp:62-66 | Every byte gets the high nibble of the colour twice |
| Framebuffer.KindleDisplay.SetPixel | src/hal/kindle_display.cpp:68-79 | On any screen whose byte for the pixel exists, one nibble is replaced at the index of the driver, or nothing off the screen; on regular screens that is writing the pixel |
| Framebuffer.KindleDisplay.GetPixel | src/hal/kindle_display.cpp:81-88 | Reads the level at the index of the driver, the pixel on regular screens, 0xFF off the screen |
| MockDisplays.MockDisplay.constructor | include/launchpad/hal/mock_display.hpp:32-35 | One byte 0xFF for each pixel |
| MockDisplays.MockDisplay.Clear | include/launchpad/hal/mock_display.hpp:49-51 | Every pixel gets the colour |
| MockDisplays.MockDisplay.SetPixel | include/launchpad/hal/mock_display.hpp:59-64 | One cell changes, at the 32-bit index; up to 2^32 pixels that is exactly the written pixel, and none for a write off the screen |
| MockDisplays.MockDisplay.GetPixel | include/launchpad/hal/mock_display.hpp:72-77 | Reads the pixel, 0xFF off the screen |
| MockDisplays.WriteBoth | src/hal/kindle_display.cpp:68-79 | Where the packed display shows the plain levels rounded, a write to both keeps it so, for every coordinate and level |
| MockDisplays.ClearedLevel | src/hal/kindle_display.cpp:62-66 | Clearing has the opposite polarity: the display shows the cleared colour if and only if it lies in 0x78 to 0x7F |
| DisplayRuns.ShowsPlainExactly | src/hal/kindle_display.cpp:43-88 | After any calls from the construction on, a pixel of the packed display shows the plain level, rounded, if and only if it was written since the last construction or clear, or the last clear had a colour in 0x78 to 0x7F |
| DisplayRuns.DrawOnBoth | include/launchpad/hal/mock_display.hpp:32-77 | The same for the two classes themselves, from their constructors through any list of calls |
| DisplayRuns.NewDisplaysDiffer | src/hal/kindle_display.cpp:45 | Two new displays agree on no pixel: the byte 0xFF is two black pixels to one and white to the other |
| DisplayRuns.ClearShows | src/hal/kindle_display.cpp:62-66 | What a cleared display shows, in numbers |
| Fonts.TextInkExactly | src/ui/font.cpp:22-52 | A point is inked if and only if some cell of some character's glyph is inked and lands on it, glyphs 12 apart, coordinates wrapping at 32 bits |
| Fonts.GlyphsInOrder | src/ui/font.cpp:37-43 | The bytes of the font go by code, then by row from the top, then from the left |
| Fonts.GlyphsCoverFont | src/ui/font.cpp:6-9 | Every one of the 33792 bytes belongs to a row of a glyph |
| Fonts.FontRenderer.RenderGlyphRow | src/ui/font.cpp:22-35 | Exactly the inked points of the glyph row turn black on the screen |
| Fonts.FontRenderer.DrawChar | src/ui/font.cpp:37-44 | Exactly the inked points of the glyph turn black |
| Fonts.FontRenderer.DrawString | src/ui/font.cpp:46-52 | Exactly the inked points of the text turn black and every other pixel is as before |
| StatusBars.SavedPixelAt | src/ui/status_bar.cpp:15-25 | Where the flat list of saved pixels holds the pixel of a row and column |
| StatusBars.RestoredPixel | src/ui/status_bar.cpp:27-41 | Writing the list back gives each bar pixel its saved level, rounded, and leaves the rest |
| StatusBars.PaintedPixel | src/ui/status_bar.cpp:43-52 | After drawing the bar a pixel is black if inked, white elsewhere in the bar, unchanged outside |
| StatusBars.InkInBar | src/ui/status_bar.cpp:43-52 | No ink of any text lands outside the rows of the bar, whatever the text's length and the screen's size |
| StatusBars.WriteBackRestoresBase | src/ui/status_bar.cpp:27-41 | While the bar is active, writing the saved pixels back yields the covered screen byte for byte |
| StatusBars.OverlayKeepsBase | src/ui/status_bar.cpp:54-71 | Showing, reporting and hiding all keep the covered screen recoverable, and hiding puts it back byte for byte |
| StatusBars.StatusBar.constructor | src/ui/status_bar.cpp:5-7 | A new bar is inactive and changes no pixel |
| StatusBars.StatusBar.CaptureBackground | src/ui/status_bar.cpp:15-25 | Saves exactly the bar's pixels, row by row, and draws nothing |
| StatusBars.StatusBar.RestoreBackground | src/ui/status_bar.cpp:27-41 | Writes the saved pixels back and deactivates, unless inactive or nothing was saved |
| StatusBars.StatusBar.FillBar | src/ui/status_bar.cpp:44-49 | The bar is white and the rest of the screen unchanged, byte for byte |
| StatusBars.StatusBar.DrawBarText | src/ui/status_bar.cpp:43-52 | The new bytes are the old ones with the bar painted white and the text's ink black |
| StatusBars.StatusBar.ShowStatus | src/ui/status_bar.cpp:54-59 | Saves first if inactive; a second show keeps what the first one saved |
| StatusBars.StatusBar.ShowResult | src/ui/status_bar.cpp:61-67 | Draws one of the two results and saves nothing |
| StatusBars.StatusBar.HideStatus | src/ui/status_bar.cpp:69-71 | Hiding is restoring |
| BarFrames.BarPixelShown | src/ui/status_bar.cpp:43-52 | What every pixel of the screen is once a text is shown, from the bytes of the font and in numbers: black where a half byte of a glyph is not zero, 12 columns a character from column 30 on, white elsewhere in the last 24 rows |
| BarFrames.ShowUpdates | src/ui/status_bar.cpp:54-59 | Showing updates the display once, with the text over the covered screen, and activates the bar, whether or not it was active |
| BarFrames.ResultUpdates | src/ui/status_bar.cpp:61-67 | Reporting shows "Success!" or "Failure." over the covered screen, in one update |
| BarFrames.HideUpdates | src/ui/status_bar.cpp:27-41 | Hiding an active bar updates the display once, with the covered screen, and deactivates it; otherwise nothing happens |
| Text.TrimFacts | src/config/ini_parser.cpp:71-79 | Trimming leaves no white space at either end, invents no character and does not cut a trimmed string |
| Text.TrimView | src/config/ini_parser.cpp:71-79 | The two loops trim left and then right |
| Text.TrimBeforeReturn | src/config/ini_parser.cpp:71-79 | A carriage return at the end of a line is trimmed away |
| Text.TrimSkips | src/config/ini_parser.cpp:71-79 | Any amount of the six white space characters, given by code, is trimmed on both sides |
| Text.TrimCuts | src/config/ini_parser.cpp:71-79 | Nothing but these six characters is trimmed |
| Text.NormalizedByCode | src/config/ini_parser.cpp:9-16 | The codes 65 to 90 become 97 to 122, every other character stays |
| IniParsing.FirstValue | src/config/ini_parser.cpp:36-42 | The value of the first entry with the key, whatever its case; none only if no entry has it |
| IniParsing.IniDocument.AddEntry | src/config/ini_parser.cpp:18-24 | Appends the entry to its section; a new section keeps the spelling of its first use, at the end of the order |
| IniParsing.IniDocument.GetStringValue | src/config/ini_parser.cpp:30-43 | The loop finds the first matching entry of the section |
| IniParsing.IniDocument.GetSectionEntries | src/config/ini_parser.cpp:59-65 | All entries of a section, none for an unknown one |
| IniParsing.ParseLineEntry | src/config/ini_parser.cpp:85-100 | A line is a comment, a header, an entry or ignored, with the effect of each |
| IniLaws.CommentChangesNothing | src/config/ini_parser.cpp:81-88 | A line whose first character, white space aside, is a semicolon or a number sign changes nothing |
| IniLaws.SpacedEntryReads | src/config/ini_parser.cpp:93-99 | A line with any white space around key, equals sign and value adds just key and value to the current section |
| IniLaws.SpacedHeaderReads | src/config/ini_parser.cpp:89-92 | A line in square brackets names the section, without the white space inside and outside them |
| IniLaws.FirstEntryReads | src/config/ini_parser.cpp:102-116 | Such an entry alone parses to one section "default" with it |
| IniLaws.ValueAfterEntry | src/config/ini_parser.cpp:18-43 | What a lookup gives after one more entry: sections and keys are equal up to case, and the first entry of a key stays |
| IniParsing.ParseFromIsFold | src/config/ini_parser.cpp:106-114 | Handling line after line equals folding the line handler over the newline split |
| IniParsing.ParseString | src/config/ini_parser.cpp:102-116 | The index loop gives the document of the fold, for every text |
| IniParsing.ParseContinues | src/config/ini_parser.cpp:102-116 | Parsing a, newline, b goes on parsing b from the document and the section that a ended in |
| IniParsing.LineEndsDoNotMatter | src/config/ini_parser.cpp:71-116 | Turning every LF into CRLF never changes the result |
| IniNormalForm.ParsingIsGood | src/config/ini_parser.cpp:85-116 | Every parse gives trimmed one-line names and entries, keys without '=' that read neither as comment nor as header, and distinct sections in order |
| IniNormalForm.PrintReadsBack | src/config/ini_parser.cpp:18-116 | A document of that kind, printed section by section, parses to itself |
| IniNormalForm.ParsePrintParse | src/config/ini_parser.cpp:18-116 | For every text, parse, print, parse gives the same section order and the same entries |
| IniNormalForm.PrintableExactly | src/config/ini_parser.cpp:18-116 | A document survives printing if and only if some text denotes it |
| Tokens.SplitAgrees | src/launchpad.c:142-161 | The two programs' tokenisers split a text alike when their separators agree on its characters |
| TokenLaws.SplitWord | src/domain/action.cpp:41-45 | A word without separators is its own token |
| TokenLaws.SplitAt | src/domain/action.cpp:41-45 | A separator separates: the tokens before it in order, then those behind it |
| TokenLaws.TokensOfSpaced | src/domain/action.cpp:41-45 | Words written with any of the six white space characters between and around them are the tokens, in order |
| Actions.SpacedNamesParse | src/domain/action.cpp:40-56 | Names written so bind exactly the sequence of their codes |
| Actions.CommandByCode | src/domain/action.cpp:6-38 | What each first character of a command makes of the rest, by its code, and how a script is joined to its directory |
| Actions.KeyTable.RegisterKey | src/domain/key_definition.cpp:22-25 | The last registration of a name, whatever its case, and of a code wins |
| Actions.KeyTable.PopulateAliases | src/domain/key_definition.cpp:122-133 | Adds the ten K3 names in normalised form |
| Actions.AliasesNameReplacedCodes | src/domain/key_definition.cpp:122-133 | Every K3 name, in any case, stands for a code that substitution replaces |
| Actions.AliasesByNumber | src/domain/key_definition.cpp:122-133 | The ten alias names and their codes, in letters and numbers |
| Actions.ResolveAll | src/domain/action.cpp:45-51 | A sequence names every token in order, and failure means some token has no code |
| Actions.ParseSequenceExactly | src/domain/action.cpp:40-56 | A text parses to a sequence if and only if it is not empty and its tokens name its codes one by one |
| Actions.ParseSequenceText | src/domain/action.cpp:40-56 | The loop over the tokens computes that |
| Actions.ActionRegistry.RegisterAction | src/domain/action_registry.cpp:8-13 | The first binding of a sequence is kept |
| Actions.ActionRegistry.Find | src/domain/action_registry.cpp:15-24 | Two shifts are the screenshot; otherwise the binding, if any |
| Actions.ActionRegistry.Clear | src/domain/action_registry.cpp:30-32 | No binding is left |
| Actions.FirstEntry | src/domain/action_registry.cpp:8-13 | The first entry that binds a sequence, or none |
| Actions.LookupIsFirstEntry | src/system/application.cpp:57-70 | After loading any list of entries a lookup equals a scan for the first one that binds the sequence, except that two shifts are always the screenshot; the empty sequence is never bound |
| Actions.TwoShiftsByNumber | src/domain/action_registry.cpp:15-18 | Twice the code 42 is the screenshot, whatever is bound |
| LegacyActions.ActionTable.Grow | src/launchpad.c:276-287 | The larger array holds the same rows |
| LegacyActions.ActionTable.IsDefined | src/launchpad.c:302-311 | The scan finds a duplicate if and only if some row has the sequence |
| LegacyActions.ActionTable.ProcessAction | src/launchpad.c:293-330 | A row is added only for a known non-empty sequence without a row and a non-empty command |
| LegacyActions.ActionTable.ProcessActions | src/launchpad.c:269-330 | The whole section, entry by entry, behind the rows of earlier files, under the script directory in force |
| LegacyActions.ActionTable.ProcessIniFile | src/launchpad.c:251-330 | A script directory is copied over the old one without its terminator, so that the tail of a longer one stays; then the actions |
| LegacyActions.ActionTable.ProcessIniFiles | src/launchpad.c:405-419 | All files in listing order, each under the script directory that it leaves |
| LegacyActions.ActionTable.FindSequenceAction | src/launchpad.c:515-545 | The first matching row wins; only without one do two shifts mean the screenshot |
| LegacyActions.TableIsScanned | src/launchpad.c:269-330 | The filled table answers with the first entry that binds the sequence and has a command the C program accepts under the script directory of its file |
| LegacyActions.PlainKeysParseAlike | src/launchpad.c:128-171 | Texts with blanks as their only white space and at most 8 tokens parse alike in both programs |
| LegacyActions.LegacyKeyExactly | src/launchpad.c:128-171 | A text binds the non-empty sequence that its first eight names give, more names being ignored |
| LegacyActions.DirCharacters | src/launchpad.c:251-254 | The script directory character by character, after a new one was copied over it without a terminator |
| LegacyActions.SameEntryExactly | src/launchpad.c:291-318 | On such texts both programs choose the same entry if and only if the first one for the sequence, if any, has an accepted command |
| LegacyActions.SameCommandExactly | src/launchpad.c:173-209 | An accepted command means the same to both if and only if it is no script, or its path is absolute, or relative and both programs' directories join to the same path |
| LegacyActions.LookupsAgreeExactly | src/launchpad.c:291-545 | On plain keys both programs look up the same for a sequence if and only if: for two shifts, no accepted entry binds them; otherwise no entry binds it, or the first one has an accepted command that, if it is a script, joins to the same path |
| LegacyActions.LookupsDiffer | src/launchpad.c:201-206 | Two inputs on which they differ: an empty command, and a script under a directory written with a slash |
| LegacyActions.TwoShiftsDiffer | src/launchpad.c:519-542 | For two shifts the port always takes the screenshot and the C program lets the user's binding win |
| ConfigScanning.ApplySettings | src/config/config_scanner.cpp:34-63 | Each setting the file defines replaces the old one; an interval only when it is a positive number |
| ConfigScanning.GetPositive | src/config/config_scanner.cpp:54-62 | A missing, unreadable, zero or negative number changes nothing |
| ConfigScanning.FindIniFiles | src/config/config_scanner.cpp:8-32 | The paths of the .ini names, sorted |
| ConfigScanning.SortedUnique | src/config/config_scanner.cpp:29-30 | A sorted arrangement is unique, so any sorting algorithm gives the same list |
| ConfigScanning.ScanDirectory | src/config/config_scanner.cpp:65-80 | The loop merges the readable files in sorted order: settings overwritten, actions appended |
| ConfigScanning.OrderDoesNotMatter | src/config/config_scanner.cpp:8-80 | Any permutation of the directory listing gives the same settings and the same action list |
| ConfigScanning.SettingsComeFromLast | src/config/config_scanner.cpp:34-63 | Each string setting is the last document's that defines it, each interval the last document's that gives a positive number, or the default when none does |
| ConfigScanning.ScannedFromGreatest | src/config/config_scanner.cpp:8-80 | After scanning a directory every setting is that of the readable .ini file with the greatest path that gives it, or the default |
| ConfigScanning.HotIntervalIsPositive | src/config/config_scanner.cpp:54-57 | For all files the interval is at least 1 and below 2^31 |
| ConfigScanning.PathsExactly | src/config/config_scanner.cpp:15-26 | The paths are exactly directory and name with one slash between, for the listed names that end in ".ini" behind at least one character |
| ConfigScanning.LeqExactly | src/config/config_scanner.cpp:29-30 | Paths are ordered by the first character in which they differ, a beginning before the whole |
| ConfigScanning.ActionsInOrder | src/config/config_scanner.cpp:73-76 | The actions of the files follow one another in the order of the files |
| ConfigScanning.SettingsByName | src/config/config_scanner.cpp:38-62 | Each setting is changed by the entry of its name in section Settings |
| ConfigScanning.SettingsByDefault | include/launchpad/config/settings.hpp:19-25 | The settings without a readable file, in letters and numbers |
| Execution.ExecutionKeepsBase | src/domain/action_executor.cpp:33-77 | Executing any action runs its command and no other, and keeps the covered screen recoverable |
| Execution.ActionExecutor.SendQuotedString | src/domain/action_executor.cpp:14-18 | One injection per character, in order |
| Execution.ActionExecutor.SendToken | src/domain/action_executor.cpp:20-31 | A quoted token is typed without its quotes, a key name is pressed, anything else is typed |
| Execution.ActionExecutor.ExecuteShell | src/domain/action_executor.cpp:33-42 | Show, run, report, hide, in this order, as one change of the whole state |
| Execution.ActionExecutor.ExecuteSendKeys | src/domain/action_executor.cpp:44-53 | The tokens are injected in order, then the bar is hidden |
| Execution.ActionExecutor.ExecuteScreenshot | src/domain/action_executor.cpp:55-61 | Show, report success, hide; nothing is run |
| Execution.ActionExecutor.Execute | src/domain/action_executor.cpp:63-77 | Dispatches on the payload; scripts and Kindle queries do nothing |
| Execution.QuotedIsTyped | src/domain/action_executor.cpp:20-24 | A token in double quotes types exactly the characters between them, in order |
| Execution.TokenIsPressedOrTyped | src/domain/action_executor.cpp:25-31 | Any other token presses the one key it names, or is typed when it names none |
| Execution.InjectionsInOrder | src/domain/action_executor.cpp:44-49 | What tokens inject follows in the order of the tokens |
| Execution.InertActions | src/domain/action_executor.cpp:63-77 | Scripts and Kindle queries change nothing |
| DaemonScreen.ShellUpdates | src/domain/action_executor.cpp:33-42 | A shell action updates the display three times, with its name, the result and the uncovered screen, and its command runs after the first |
| DaemonScreen.ScreenshotUpdates | src/domain/action_executor.cpp:55-61 | The same for a screenshot, with its name and success; nothing runs |
| Applications.Application.constructor | src/system/application.cpp:28-41 | The daemon starts with the configuration loaded, nothing grabbed and the screen untouched |
| Applications.Application.LoadConfiguration | src/system/application.cpp:57-80 | Replaces bindings, interval and matcher, and nothing else: capture flag, grab and bar stay |
| Applications.Application.ReloadConfiguration | src/system/application.cpp:49-55 | Loading, then the bar says so |
| Applications.Application.HandleCompletedMatch | src/system/application.cpp:82-92 | Release, hide, and only then execute what the sequence is bound to |
| Applications.Application.ProcessKeyEvent | src/system/application.cpp:94-121 | The whole state after a key event: the step of the matcher, and then its report |
| Applications.Application.HandleResult | src/system/application.cpp:96-120 | What each report asks for, the cancelled one that key events never give included |
| Applications.Application.CheckTimer | src/system/application.cpp:123-137 | Nothing before the interval is over, measured as 32-bit milliseconds; then a delivery, or a plain release when the matcher is idle |
| Applications.Application.Step | src/system/application.cpp:139-145 | One turn of the loop is a run over the polled events and then the timer |
| ApplicationRuns.StepKeepsInvariant | src/system/application.cpp:49-145 | Every key event, timer check and reload keeps the invariant of screen, grab flag, calls, matcher and bar |
| ApplicationRuns.ScreenIsNeverLost | src/system/application.cpp:49-145 | After every run, writing the saved pixels back yields the starting framebuffer byte for byte, and an inactive bar means it already is that |
| ApplicationRuns.GrabsAreBalanced | src/system/application.cpp:57-137 | After every run, reloads in mid-capture included, grabbed means capturing, a capturing matcher has the input grabbed, grabbed input has the bar shown, and grab and release calls alternate starting with grab |
| DaemonScreen.ReleaseUncovers | src/system/application.cpp:82-137 | Whatever input releases the grab leaves the starting framebuffer on the screen, byte for byte, in every reachable state, after a reload in mid-capture too |
| DaemonScreen.FreeScreenIsBase | src/system/application.cpp:82-145 | Over runs without a reload, a free input means that the framebuffer is the starting one |
| DaemonScreen.CapturesAreShown | src/system/application.cpp:96-109 | Over all runs, while a capture is on the framebuffer is the starting one with "^[...]" over it |
| DaemonScreen.UpdatesShowBase | src/system/application.cpp:49-145 | Over all runs, every update of the display shows the starting framebuffer or that with a text over it, and the last one what the framebuffer holds |
| DaemonScreen.ReloadShows | src/system/application.cpp:49-55 | A reload shows "Reloaded", in one update |
| DaemonScreen.DeliveryUpdates | src/system/application.cpp:82-92 | Delivering a sequence bound to a shell action uncovers the screen, shows the name, runs the command, shows the result and uncovers the screen again |
| SettingsAtWork.SettingsGovernCaptures | src/system/application.cpp:71-79 | After the configuration was read, tapping a key grabs the input and starts a capture if and only if it is the key of the introducer setting, Shift when that names none; then a key goes on with it if and only if it is not the key of the trailer setting, Enter when that names none |
| SettingsAtWork.SettingsGovernHold | src/system/application.cpp:71-127 | A timer check after that tap keeps the input if and only if it comes less than the interval setting later, in nanoseconds |
| SettingsAtWork.ElapsedBelow | src/system/application.cpp:125-127 | Whole milliseconds are below the interval if and only if the nanoseconds are, up to 2^32 milliseconds |
| ApplicationRuns.HoldIsBounded | src/system/application.cpp:123-137 | After a timer check the input is grabbed if and only if it was and the interval, in 32-bit milliseconds, is not over |
| ApplicationRuns.TurnBoundsHold | src/system/application.cpp:139-145 | After every turn of the loop a grabbed input was touched less than one interval ago, in 32-bit milliseconds |
| ApplicationRuns.CounterIsBounded | src/system/application.cpp:79 | Over any run on a keyboard, reloads included, the counter never exceeds the number of keys held |
| ApplicationRuns.CommandsRunExactly | src/system/application.cpp:82-145 | From any state at rest, as at the start and after a reload, the commands run until the next reload are, in order, those bound to the sequences of the batch reading of what the matcher saw, and no others |
| ApplicationRuns.CommandsAfterReload | src/system/application.cpp:49-80 | Over any run a reload runs nothing and drops a capture in progress; afterwards commands are those of the new bindings, for what the new matcher sees |
| TimedRuns.DeliveredIsTimedBatch | src/system/application.cpp:94-137 | What the matcher with its clock delivers equals a search of the inputs: from each capture start to the next trailer press, or the next timer check an interval or more after the last press found |
| TimedRuns.CommandsFromInputs | src/system/application.cpp:82-145 | From any state at rest until the next reload, the commands run are those bound to the sequences of that search of keys, timer checks and times |
| Pixmaps.Pixmap.constructor | src/pixop.c:157-174 | A zeroed buffer of exactly the rows |
| Pixmaps.PixBlt | src/pixop.c:47-93 | For every position, also negative, and every size, the clipped row copy equals a copy with a bounds test for every byte, stays in both buffers and returns twice the bytes touched |
| Pixmaps.PixmapExtract | src/pixop.c:97-138 | The same for extracting a window; a negative position copies nothing |
| Pixmaps.PixFill | src/pixop.c:15-43 | The same for filling a rectangle, also of negative size |
| Pixmaps.CountInExactly | src/pixop.c:23-27 | Clipping arithmetic counts exactly the rows or columns that pass the bounds test |
| Pixmaps.HalfInNumbers | src/pixop.c:57-58 | The byte column of a pixel column, left of the surface too |
| Pixmaps.DoubledInNumbers | src/pixop.c:28-29 | Both pixels of a filled byte have the low digit of the colour |
| LegacyStatusBars.ExtractThenBlitRestores | src/pixop.c:47-138 | Extract a window, change anything inside it, blit it back at the same non-negative position: the surface is restored, for all sizes, odd positions and windows partly off the surface |
| LegacyStatusBars.ScreenStringAt | src/screen.c:275-312 | The number of characters reported, and every byte of the surface after drawing them; nothing is drawn when the first does not fit |
| LegacyStatusBars.LastGlyphShows | src/screen.c:298-305 | What a drawn text leaves in a byte: that of the last glyph which covers it, glyphs a width apart |
| LegacyStatusBars.TextStaysInRows | src/screen.c:275-312 | Drawing a text changes no byte outside the rows of its glyphs |
| LegacyStatusBars.StatusbarShow | src/statusbar.c:8-21 | Saves the window of the bar and blanks it |
| LegacyStatusBars.StatusbarText | src/statusbar.c:32-37 | Blanks the bar and draws the text from column 30 on, and changes nothing outside the bar |
| LegacyStatusBars.StatusbarHide | src/statusbar.c:23-30 | Blits the saved window back |
| LegacyStatusBars.ShowTextsHide | src/statusbar.c:8-37 | Show, any texts, hide is the identity on a screen at least 30 high, whatever the glyph size; a lower screen ends up blank |
| LittleEndian.ValueOfBytes | src/ui/screenshot_writer.cpp:13-39 | Reading a little-endian number back gives the number written |
| LittleEndian.ByteOfNumber | src/ui/screenshot_writer.cpp:13-39 | Byte k of a number has the weight 256 to the k |
| Screenshots.StrideIsLeast | src/ui/screenshot_writer.cpp:76 | The row size holds the pixels of a row if and only if the width is at most 0x3FFFFFF8, and then it is the least multiple of 4 that does |
| Screenshots.WriteHeaders | src/ui/screenshot_writer.cpp:7-40 | The fields of both headers, in file order and with their sizes |
| Screenshots.WritePalette | src/ui/screenshot_writer.cpp:42-48 | Sixteen gray entries from white to black |
| Screenshots.WriteRow | src/ui/screenshot_writer.cpp:54-64 | Or-ing the nibbles in leaves each byte with its two pixels and zero padding |
| Screenshots.WritePixelRows | src/ui/screenshot_writer.cpp:50-67 | The rows from the last to the first |
| Screenshots.WriteBmp | src/ui/screenshot_writer.cpp:69-82 | The file is headers, palette and rows, for every screen whose rows fit the row buffer |
| Screenshots.SizeFieldsAreLengths | src/ui/screenshot_writer.cpp:8-25 | The size fields, read from the file, are its real length and that of the pixels if and only if these fit 32 bits; the offset is always the real one |
| Screenshots.FieldsInNumbers | src/ui/screenshot_writer.cpp:7-40 | All other header fields of the written file, in numbers: BM, 40 bytes of header, one plane, four bits, no compression, sixteen colours |
| Screenshots.PaletteInNumbers | src/ui/screenshot_writer.cpp:42-48 | The sixteen entries of the palette in the written file, byte by byte |
| Screenshots.PaddingIsZero | src/ui/screenshot_writer.cpp:50-66 | Rows are filled up with zeros |
| Screenshots.BitmapRoundTrip | src/ui/screenshot_writer.cpp:7-82 | A reader that uses only the file gets every pixel back, rounded up to a multiple of 17, in gray |
| Screenshots.ScreenRoundTrip | src/ui/screenshot_writer.cpp:69-82 | For the packed framebuffer it gets every pixel back exactly |
| UpdateTool.Dm | packaging/packager/kindle_update_tool.py:90-95 | The loop descrambles every byte of the array in place |
| UpdateTool.Md | packaging/packager/kindle_update_tool.py:97-103 | The loop scrambles every byte of the array in place |
| UpdateTool.ScramblingsInvert | packaging/packager/kindle_update_tool.py:90-103 | dm and md undo each other, in both orders, on byte strings of any length |
| UpdateTool.ConvertBin | packaging/packager/kindle_update_tool.py:263-283 | The file is header, scrambled digest, zeros up to the block size of the type, scrambled payload |
| UpdateTool.ExtractBin | packaging/packager/kindle_update_tool.py:123-146 | A short file and an unknown signature are refused; otherwise the fields, digest and payload found at the signature's offset |
| UpdateTool.LayoutInNumbers | packaging/packager/kindle_update_tool.py:263-283 | Where everything lies in a built update, in numbers, for each type |
| UpdateTool.ExtractionInNumbers | packaging/packager/kindle_update_tool.py:123-146 | What is made of any file, in numbers: when it is refused and how, and else which bytes give which field |
| UpdateTool.ScramblingInNumbers | packaging/packager/kindle_update_tool.py:97-103 | The scrambling by nine values and a law that fix it for every byte |
| UpdateTool.UpdateRoundTrip | packaging/packager/kindle_update_tool.py:123-283 | Extracting a built update gives back payload, digest, signature, versions, device code and flag, for every payload, device and type |

## Left out

- LegacyHotkey.LegacyMachine.ProcessInputEvent: what the C program does once it has stored a code behind its array of 8 is unspecified; the model records that it happened and claims nothing from then on.
- PortBisimulation.InterchangeableExactly: timeouts are events that both programs see, as in the next line.
- PortBisimulation.PortAgreesWithLegacy: timeouts are events that both programs see. The C program's timer is set once, when a capture starts (src/main.c:350), and the port's interval starts again at every accepted key (src/system/application.cpp:102-107), so slow typing delivers different sequences; `Timers` says exactly when. The C program's reset after one second without input (src/main.c:599-605), its skipping of events after an action and its restart on a signal are not part of the machine.
- Framebuffer.KindleDisplay.SetPixel: requires that the byte of the pixel lies in the allocation, which `Framebuffer.EveryPixelAllocated` decides; other depths than four bits are not modelled, and the null check of the memory is not, the memory always exists.
- Framebuffer.KindleDisplay.GetPixel: the same.
- MockDisplays.MockDisplay.SetPixel: on screens of more than 2^32 pixels the index wraps, and the contract says which cell changes but not that it is the written pixel's.
- Applications.Application.Step: several events polled at once carry their own times; the clock may be any sequence of times, later or earlier.
- ApplicationRuns.ScreenIsNeverLost: nothing else draws on the framebuffer; on the device the Kindle's own framework does.
- SequenceMatching.SequenceMatcher.ProcessKeyEvent: the counter is unbounded, where the source's `int` would overflow after 2^31 presses without a release.
- Actions.KeyTable.RegisterKey: the default key names are a parameter of everything that looks names up, and both programs are given the same one; only the K3 names are spelled out.
- ConfigScanning.GetPositive: `std::stoi` is an arbitrary partial function from strings to 32-bit integers.
- ConfigScanning.FindIniFiles: `std::sort` is represented by the sorted arrangement, which is proved unique; names are compared as the source compares strings, and hidden or special directory entries are listing entries like any other.
- Execution.ActionExecutor.SendTokens: the token stream is split before the loop; a quoted text with blanks is split inside its quotes, as in the source, so that no round trip holds.
- LegacyActions.ActionTable.ProcessActions: a failed allocation and texts longer than the C program's buffers of 256 bytes are not modelled.
- LegacyActions.LookupsAgreeExactly: compares the programs on one list of entries. The C program reads files in listing order and the port in sorted order, so with several files the lists themselves may differ; the directory of each file is modelled, the C program's own INI parser (src/inifile.c) is not.
- Pixmaps.PixBlt: source and destination are different buffers, as copying rows with `memcpy` demands when they overlap, and each holds exactly its rows; no caller blits a surface to itself. Null pixmaps, C integer overflow and coordinates beyond `int` are not modelled.
- Pixmaps.PixmapExtract: the same.
- LegacyStatusBars.ScreenStringAt: the glyphs are 256 pixmaps of one size more than 2 pixels wide, as the division by the width less 2 demands; for an empty text the source also reads one byte behind the terminator without using it.
- Timers.SameTimeoutsExactly: timers are examined at key events; an alarm due in the millisecond of a key comes first, and the port, which examines its timer at least every 50 milliseconds, is taken to examine it at every key. The interval is not zero; the port never stores zero (`ConfigScanning.HotIntervalIsPositive`), the C program then sets no timer.
- Screenshots.WriteBmp: requires a width of at most 0x3FFFFFF8, beyond which the source writes behind its row buffer, and a height below 2^31, which the source converts to an `int`; the error for a file that cannot be opened is not modelled.
- UpdateTool.ConvertBin: the digest is an arbitrary function to 32 bytes and the device code must fit 16 bits, as packing it demands; building and signing the archive is not modelled.
- StatusBars.StatusBar.UpdateDisplay: an update of the display is recorded as the bytes that the framebuffer holds; the controller behind the `ioctl`, the flash thread and all delays are not modelled.
- Evdev, `/proc`, sockets, fork, locks, signals: `RceServer`, src/rce.c, `Daemon`, `PidLock`, `SignalHandler`, `CliOptions`, `Logger`.
- The ASCII and symbol tables (src/asciitab.c, src/domain/ascii_translator.cpp): an injected character is recorded as itself.
- src/inifile.c, src/screenshot.c and `pixmap_invert`: replaced by the C++ code, or without callers.
