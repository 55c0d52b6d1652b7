# Dota 2 phrase clipboard: the hotkey core in Dafny

The Dota 2 phrase clipboard is a small desktop tool. It keeps a list of
phrases (entries), each bound to a keyboard hotkey such as `cmd+y`. It listens
to the global keyboard, and when the keys currently held spell a stored
hotkey it copies that phrase to the clipboard so it can be pasted into the game
chat. A hotkey is recorded by clicking its table cell (or the hotkey box under
the table) and pressing the chord.

This project models the part of `dota2_clipboard.py` that decides what gets
copied and what gets recorded:

- **`get_key_string`** (module `Keys`) turns a key from the keyboard hook into a
  lower-case token. The left and right variants of the four modifiers give
  `cmd`, `ctrl`, `alt` and `shift`. A character key whose `char` is missing,
  and an object with no name, give no token.
- **`normalize_hotkey`** (module `Hotkeys`) applies to every stored hotkey. It
  lower-cases the hotkey and splits it on `'+'`. The modifiers come first, in
  the priority `cmd < ctrl < alt < shift`, and the other tokens follow in their
  input order.
- **`check_hotkeys`** (module `Listener`) compares each normalised stored
  hotkey with `'+'.join(sorted(held))`, the held tokens in plain string order.
  It copies every matching entry's text in list order, so the last match wins.
- **The recording branch of `on_press`** (module `Listener`) builds a hotkey
  from the held modifiers in priority order, then the key just pressed.
- **`on_press`, `on_release`, `on_cell_clicked`, `start_hotkey_recording`,
  `add_entry` and `delete_entry`** together form one state machine,
  `Listener.Step`, over a `State` record. It holds the held set, the recording
  flag, the row being rebound, the entries, the clipboard, the hotkey box and a
  count of saves.
- **The list operations** `add_preset_entry`, `delete_entry` and the row
  rebinding, plus the six default entries seeded at start-up, are in module
  `Registry`.

The supporting modules model the Python built-ins used:

- `Text` models `str.lower` (ASCII letters), `str.split('+')` and `'+'.join`.
- `LexOrder` models the `<` order of `str` and `sorted` of a set of strings.

`Scenarios` walks through whole interactions event by event.

Stored hotkeys and the live chord are put in two different orders: priority
order for stored hotkeys, string order for the live chord. So a stored hotkey
fires only if the string order of its tokens happens to agree with priority
order. For held tokens without `'+'`, `Hotkeys.CanFire` characterises
exactly which hotkeys can fire; the plus key falls outside that
(`Hotkeys.PlusKeyOutside`). The
state machine keeps `check_hotkeys` exactly as the program has it. The
corrected comparison is defined next to it (`Hotkeys.FixedPressedChord`,
`Listener.CheckHotkeysFixed`), and the proofs show what it repairs; see
"Findings".

## Model

| member | source | states |
|---|---|---|
| Text.Lower | dota2_clipboard.py:442 | lower-casing keeps the length and maps each character on its own |
| Text.LowerIsLowercase | dota2_clipboard.py:442 | a lower-cased string is lower case, and lower-casing it again changes nothing |
| Text.LowercaseFixed | dota2_clipboard.py:442 | lower-casing a lower-case string gives it back |
| Text.LowerKeepsSep | dota2_clipboard.py:442 | lower-casing neither creates nor removes a `'+'` |
| Text.Split | dota2_clipboard.py:442 | splitting on `'+'` always gives at least one part |
| Text.SplitParts | dota2_clipboard.py:442 | no part of a split holds `'+'`; the parts of a lower-case string are lower case; a string without `'+'` is its own only part |
| Text.JoinSplit | dota2_clipboard.py:442 | joining the parts of a split with `'+'` gives back the string |
| Text.SplitPrefix | dota2_clipboard.py:442 | splitting `p + '+' + t` for a `'+'`-free `p` gives `p` followed by the parts of `t` |
| Text.SplitJoin | dota2_clipboard.py:460 | splitting the join of one or more `'+'`-free parts gives back the parts |
| Text.JoinLowercase | dota2_clipboard.py:460 | the join of lower-case parts is lower case |
| LexOrder.LexIrreflexive | dota2_clipboard.py:435 | no string sorts before itself |
| LexOrder.LexTransitive | dota2_clipboard.py:435 | string order is transitive |
| LexOrder.LexTotal | dota2_clipboard.py:435 | any two distinct strings are ordered one way or the other |
| LexOrder.LexAsymmetric | dota2_clipboard.py:435 | two strings never sort before each other |
| LexOrder.LexAsymmetricAll | dota2_clipboard.py:435 | asymmetry of string order for all pairs at once |
| LexOrder.LeastExists | dota2_clipboard.py:435 | every non-empty set of strings has a least member |
| LexOrder.Least | dota2_clipboard.py:435 | the chosen member is in the set and below every other member |
| LexOrder.LexSort | dota2_clipboard.py:435 | `sorted(held)` lists exactly the members of the set, once each, in strictly increasing order |
| LexOrder.IncreasingUnique | dota2_clipboard.py:435 | two strictly increasing lists with the same members are equal |
| LexOrder.LexSortOf | dota2_clipboard.py:435 | any strictly increasing listing of a set is its sorted form |
| Keys.Rank | dota2_clipboard.py:447 | the four modifiers rank 0 to 3; every other token ranks after them |
| Keys.RankOrder | dota2_clipboard.py:447 | the priority order is `cmd` before `ctrl` before `alt` before `shift` |
| Keys.RankInjective | dota2_clipboard.py:447 | distinct modifiers have distinct priorities |
| Keys.KeyToken | dota2_clipboard.py:331-347 | a token is always lower case; a character key gives its lower-cased character or, with no character, nothing; a named key always gives a token; an unnamed key gives nothing |
| Keys.NamedModifierTokens | dota2_clipboard.py:335-342 | left and right variants of each modifier give the same modifier token |
| Keys.OtherNamedKeyToken | dota2_clipboard.py:335-344 | any named key other than the eight modifier variants gives its lower-cased name |
| Keys.TokenIsFixedPoint | dota2_clipboard.py:334 | a token fed back as a character key gives itself again |
| Hotkeys.Modifiers | dota2_clipboard.py:450-454 | the modifier list holds only modifiers |
| Hotkeys.Others | dota2_clipboard.py:450-454 | the other list holds no modifier |
| Hotkeys.ModifiersAppend | dota2_clipboard.py:450-454 | the modifiers of a concatenation are the modifiers of each half, in order |
| Hotkeys.OthersAppend | dota2_clipboard.py:450-454 | the other tokens of a concatenation are those of each half, in order |
| Hotkeys.FilterAppend | dota2_clipboard.py:450-454 | classifying a concatenation classifies each half and concatenates |
| Hotkeys.ModifiersCount | dota2_clipboard.py:450-454 | a modifier occurs in the modifier list as often as in the parts; any other token not at all |
| Hotkeys.OthersCount | dota2_clipboard.py:450-454 | a non-modifier occurs in the other list as often as in the parts; a modifier not at all |
| Hotkeys.FilterCount | dota2_clipboard.py:450-454 | each token keeps its multiplicity in exactly one of the two lists |
| Hotkeys.FilterPartition | dota2_clipboard.py:450-454 | the two lists together are a permutation of the parts |
| Hotkeys.FilterAll | dota2_clipboard.py:450-454 | a list of modifiers goes wholly into the modifier list |
| Hotkeys.FilterNone | dota2_clipboard.py:450-454 | a list without modifiers goes wholly into the other list |
| Hotkeys.PermutationKeeps | dota2_clipboard.py:457 | a property of every element carries over to any rearrangement |
| Hotkeys.Insert | dota2_clipboard.py:457 | insertion adds the one element, keeps everything else, and keeps a priority-sorted list sorted |
| Hotkeys.SortByRank | dota2_clipboard.py:457 | `modifiers.sort(key=...)` returns a permutation of its input sorted by priority |
| Hotkeys.SortKeepsSorted | dota2_clipboard.py:457 | sorting an already sorted list changes nothing |
| Hotkeys.SortedHeadsEqual | dota2_clipboard.py:457 | two priority-sorted modifier lists with the same members start with the same modifier |
| Hotkeys.SortedModifiersUnique | dota2_clipboard.py:457 | two priority-sorted modifier lists with the same members are equal |
| Hotkeys.SortForgetsOrder | dota2_clipboard.py:457 | sorting any two arrangements of the same modifiers gives the same list |
| Hotkeys.SortedSplits | dota2_clipboard.py:450-460 | a priority-sorted list is its modifiers followed by its other tokens |
| Hotkeys.SortedThenOthers | dota2_clipboard.py:460 | sorted modifiers followed by non-modifiers are priority-sorted |
| Hotkeys.Parts | dota2_clipboard.py:442 | the parts of a hotkey are at least one, `'+'`-free and lower case |
| Hotkeys.ArrangeShape | dota2_clipboard.py:443-460 | the arranged tokens are a permutation of the parts, priority-sorted, with the non-modifiers in input order and the modifiers sorted |
| Hotkeys.ArrangeKeepsTokens | dota2_clipboard.py:443-460 | arranging keeps tokens `'+'`-free and lower case |
| Hotkeys.ArrangeNormal | dota2_clipboard.py:443-460 | arranging at least one `'+'`-free lower-case token gives a list in normal form |
| Hotkeys.NormalizeShape | dota2_clipboard.py:440-460 | the normal form, split again, is a permutation of the lower-cased parts, priority-sorted, other tokens in input order, all lower case |
| Hotkeys.JoinInjective | dota2_clipboard.py:460 | two non-empty `'+'`-free token lists join to the same string exactly when they are equal |
| Hotkeys.NormalFormFixed | dota2_clipboard.py:440-460 | a hotkey already priority-sorted and lower case normalises to itself |
| Hotkeys.ArrangeFixesSorted | dota2_clipboard.py:450-460 | arranging leaves a token list unchanged exactly when it is already priority-sorted |
| Hotkeys.NormalizeIdempotent | dota2_clipboard.py:440-460 | normalising twice is normalising once |
| Hotkeys.FiringNeedsIncreasing | dota2_clipboard.py:434-437 | for held tokens without `'+'`: a stored hotkey equal to the live chord of a non-empty held set has non-empty normal tokens in strictly increasing string order |
| Hotkeys.CanFireMatches | dota2_clipboard.py:434-437 | conversely, a hotkey whose normal tokens are non-empty and increasing matches the live chord of exactly its keys, and those keys are well formed, so without `'+'` |
| Hotkeys.PlusKeyOutside | dota2_clipboard.py:331-347 | the plus key gives the token `+`; the stored hotkey `+` equals the live chord of that key held alone, yet `CanFire` rejects it, because splitting on `'+'` leaves two empty tokens |
| Hotkeys.FirableKeys | dota2_clipboard.py:435 | the keys of increasing well-formed tokens are well formed, and sorting them lists the tokens again |
| Hotkeys.NormalTokensOf | dota2_clipboard.py:440-460 | a hotkey written as the join of a normal token list has those normal tokens |
| Hotkeys.NormalFormFires | dota2_clipboard.py:434-437 | a hotkey written in normal form can fire exactly when its tokens are non-empty and strictly increasing |
| Hotkeys.PairNormal | dota2_clipboard.py:440-460 | two `'+'`-free lower-case tokens, the first of no greater priority, form a normal token list |
| Hotkeys.PairOutOfOrder | dota2_clipboard.py:434-437 | a two-token normal hotkey whose string order disagrees never fires |
| Hotkeys.PairInOrder | dota2_clipboard.py:434-437 | a two-token normal hotkey of non-empty tokens in string order fires |
| Hotkeys.PairFirable | dota2_clipboard.py:435 | two non-empty tokens in string order are what `sorted` would list |
| Hotkeys.CtrlAltNeverFires | dota2_clipboard.py:447 | `ctrl+alt+k` never fires: `alt` sorts before `ctrl` as a string but after it by priority |
| Hotkeys.DefaultBracketNeverFires | dota2_clipboard.py:320 | the default hotkey `cmd+[` never fires: `[` sorts before `cmd` |
| Hotkeys.DefaultLetterFires | dota2_clipboard.py:313 | the default hotkey `cmd+y` fires |
| Hotkeys.RecordedFiresIff | dota2_clipboard.py:394-398 | a hotkey recorded from a held set matches the live chord of that set exactly when the set's string order is already priority order |
| Hotkeys.RecordedChordMissed | dota2_clipboard.py:394-398 | the hotkey recorded from ctrl, shift and k never matches those keys held |
| Hotkeys.CtrlShiftKSorted | dota2_clipboard.py:435 | `sorted({ctrl, shift, k})` is `ctrl, k, shift` |
| Hotkeys.CtrlShiftKWellFormed | dota2_clipboard.py:391-392 | ctrl, shift and k are well-formed held tokens |
| Hotkeys.PressedChordParts | dota2_clipboard.py:435-442 | the tokens `normalize_hotkey` reads from a live chord are the sorted held keys themselves |
| Hotkeys.EmptyChords | dota2_clipboard.py:435 | with nothing held, the live chord, the recorded chord and the normalised live chord are all empty |
| Hotkeys.FixedChordAgrees | dota2_clipboard.py:434-437 | whenever a stored hotkey matches the live chord as written, normalising the live chord changes nothing |
| Hotkeys.RecordedChordFiresWhenFixed | dota2_clipboard.py:394-398 | a recorded hotkey is in normal form and equals the normalised live chord of the set it was recorded from |
| Hotkeys.RecordingOrderFree | dota2_clipboard.py:394-398 | with at most one non-modifier held, every iteration order of the held set records the same hotkey |
| Hotkeys.SameMembersFilter | dota2_clipboard.py:394-397 | two repeat-free listings of one set classify into the same modifiers and other tokens, counting repeats |
| Hotkeys.OneOtherKey | dota2_clipboard.py:396-397 | with at most one non-modifier held, the other-token list does not depend on the listing |
| Hotkeys.RecordingChordOfKey | dota2_clipboard.py:391-398 | the recorded hotkey is the held modifiers in priority order followed by the key just pressed |
| Registry.Append | dota2_clipboard.py:505 | appending adds one entry at the end and keeps every earlier entry in place |
| Registry.RemoveAt | dota2_clipboard.py:525 | deleting a row removes exactly that entry; earlier rows stay, later rows move down one |
| Registry.Rebind | dota2_clipboard.py:402 | rebinding changes only that row's hotkey; its text and every other row stay |
| Registry.RemoveUndoesAppend | dota2_clipboard.py:523-525 | deleting the row just appended gives back the list before it |
| Registry.RebindLastWins | dota2_clipboard.py:402 | rebinding a row twice keeps only the second hotkey; rebinding to its own hotkey changes nothing |
| Registry.Seed | dota2_clipboard.py:311-323 | the list after start-up is never empty; loaded entries are kept as they are, and with none loaded it is exactly the six default entries |
| Registry.DefaultsFirability | dota2_clipboard.py:312-321 | of the six default hotkeys the first five can fire and `cmd+[` never can |
| Listener.Init | dota2_clipboard.py:307-323 | the start state satisfies the invariant and holds the seeded entries (the loaded ones, or exactly the defaults when none were loaded), the given clipboard, an empty hotkey box, no held keys, no recording, no target row and no saves |
| Listener.Dispatch | dota2_clipboard.py:436-438 | the clipboard after the loop is its earlier value or the text of some entry |
| Listener.DispatchLastMatch | dota2_clipboard.py:434-438 | after the loop the clipboard holds the text of the last matching entry, and keeps its value when nothing matches |
| Listener.LastMatchTail | dota2_clipboard.py:436-438 | a last match past the head is a last match of the tail, and a match in the tail is a match of the list |
| Listener.LastMatchExists | dota2_clipboard.py:436-438 | if any entry matches, a last matching entry exists |
| Listener.DispatchIdempotent | dota2_clipboard.py:434-438 | checking the same chord twice copies nothing new |
| Listener.DispatchIgnoresStart | dota2_clipboard.py:436-438 | once any entry matches, the clipboard's earlier value does not affect the result |
| Listener.FixKeepsWrittenMatches | dota2_clipboard.py:434-438 | where the check as written finds a match, the corrected check copies the same text |
| Listener.Step | dota2_clipboard.py:387-428 | every event from a valid state leads to a valid state: a target row only while recording and in range, held tokens non-empty and lower case, only modifiers held while recording |
| Listener.InactiveKeyIgnored | dota2_clipboard.py:388-389 | a key without a non-empty token changes nothing, pressed or released |
| Listener.PressAddsToken | dota2_clipboard.py:387-422 | every press adds its token to the held set, so pressing it again leaves the held set as it was |
| Listener.ListeningRepeatIdempotent | dota2_clipboard.py:421-423 | while listening, a repeated press of the same key leaves the whole state as the first press left it |
| Listener.ReleaseDiscards | dota2_clipboard.py:425-428 | a release only discards its token; releasing a key not held changes nothing |
| Listener.ReleaseRightCmd | dota2_clipboard.py:335-336 | releasing right cmd removes `cmd` from the held set |
| Listener.PressReleaseRestoresHeld | dota2_clipboard.py:387-428 | pressing then releasing a key not held gives back the held set |
| Listener.ListeningPress | dota2_clipboard.py:421-423 | a press while listening keeps the mode, row, entries, box and saves, and puts the last matching entry's text on the clipboard, or keeps it when none matches |
| Listener.PressOrderIrrelevant | dota2_clipboard.py:434-435 | pressing two keys in either order gives the same held set and, when the chord matches, the same clipboard |
| Listener.CellClickStartsRecording | dota2_clipboard.py:349-367 | a hotkey-cell click starts recording for that row with nothing held and an empty box; other columns change nothing |
| Listener.InputClickStartsRecording | dota2_clipboard.py:462-465 | a click on the hotkey box starts recording with nothing held and an empty box, and keeps an earlier target row |
| Listener.RecordingModifierAccumulates | dota2_clipboard.py:419-420 | while recording, a modifier press only adds the modifier |
| Listener.RecordingCompletes | dota2_clipboard.py:390-418 | a non-modifier press while recording stores the modifiers in priority order plus that key, in the target row (saving once) or in the box, and ends recording with the keys still held |
| Listener.RecordedHotkeyNormal | dota2_clipboard.py:390-398 | a recorded hotkey is in normal form; as written it matches the keys then held exactly when their string order is priority order; against the normalised live chord it always does |
| Listener.SavesOnlyOnRebind | dota2_clipboard.py:407 | the only event that saves is a press that rebinds a row, and it saves once |
| Listener.AddEntryAppends | dota2_clipboard.py:507-513 | the add button appends exactly when the text and the recorded hotkey are both non-empty, then empties the box; otherwise nothing changes |
| Listener.DeleteEntryRemoves | dota2_clipboard.py:523-525 | the delete button removes that row's entry and nothing else |
| Scenarios.ScenarioTokens | dota2_clipboard.py:331-347 | the tokens of ctrl, shift, cmd and the keys k, h and y |
| Scenarios.CtrlShiftK | dota2_clipboard.py:394-398 | ctrl and shift held with k pressed record `ctrl+shift+k` |
| Scenarios.CtrlShiftKJoin | dota2_clipboard.py:398 | joining ctrl, shift and k gives `ctrl+shift+k` |
| Scenarios.CtrlShiftRankSorted | dota2_clipboard.py:394-395 | ctrl then shift is already modifier-priority order, so sorting by priority keeps it |
| Scenarios.CtrlK | dota2_clipboard.py:394-398 | ctrl held with k pressed records `ctrl+k` |
| Scenarios.RecordRowModifiers | dota2_clipboard.py:349-420 | clicking the hotkey cell of row 2 then pressing ctrl and shift targets row 2 with both held and nothing else changed |
| Scenarios.RecordRowKey | dota2_clipboard.py:390-407 | then pressing k rebinds row 2 to `ctrl+shift+k`, saves once and ends recording |
| Scenarios.ScenarioRecordRow | dota2_clipboard.py:349-420 | the whole rebinding of row 2, from the click to the saved hotkey |
| Scenarios.ScenarioRecordedMatch | dota2_clipboard.py:394-437 | the hotkey `ctrl+shift+k` does not match ctrl, shift and k held as written, and does match against the normalised live chord |
| Scenarios.ScenarioRecordAndAdd | dota2_clipboard.py:462-511 | a box click, ctrl then k puts `ctrl+k` in the box; the add button appends the entry at the end |
| Scenarios.TwoKeyChord | dota2_clipboard.py:435-460 | two keys in string order with the first of no greater priority give a live chord that is its own normal form |
| Scenarios.MatchesTwoKeys | dota2_clipboard.py:437 | an entry naming such two keys matches when exactly they are held |
| Scenarios.FirstPress | dota2_clipboard.py:421-423 | the first press of a chord while listening holds just that key |
| Scenarios.PressH | dota2_clipboard.py:421-438 | with ctrl held and one entry on `ctrl+h`, pressing h copies that entry's text |
| Scenarios.PressY | dota2_clipboard.py:421-438 | with cmd held and the second of two entries on `cmd+y`, pressing y copies the second entry's text |
| Scenarios.OnlyEntryMatches | dota2_clipboard.py:436-437 | the one entry on `ctrl+h` is the last match for ctrl and h held |
| Scenarios.LaterEntryMatches | dota2_clipboard.py:436-437 | the second of two entries, on `cmd+y`, is the last match for cmd and y held |
| Scenarios.SecondPress | dota2_clipboard.py:421-438 | the second press copies the text of the last entry matching the chord |
| Scenarios.ScenarioCopyHello | dota2_clipboard.py:421-438 | with one entry on `ctrl+h`, pressing ctrl then h copies its text |
| Scenarios.PlusHotkeyFires | dota2_clipboard.py:387-438 | with one entry on the hotkey `+` and nothing held, pressing the plus key copies its text (contrast `Hotkeys.PlusKeyOutside`) |
| Scenarios.PlusEntryMatches | dota2_clipboard.py:434-437 | the entry `+` is the last match of the live chord of the plus key held alone |
| Scenarios.ScenarioLastWins | dota2_clipboard.py:434-438 | with two entries on `cmd+y`, pressing cmd then y copies the later one's text |

## Left out

- The Qt window is not modelled: styles, table cells and their texts, the phrase counter, and the window dragging and resizing code.
- The keyboard listener thread is not modelled. Events are handled one at a time; thread interleavings are out of scope.
- `pyperclip.copy` is replaced by the `clipboard` field. `load_settings` becomes the `loaded` argument of `Listener.Init`. `save_settings` becomes the `saves` counter; the JSON files are not modelled.
- `str.lower` is modelled for ASCII letters only. Python's full Unicode lower-casing is not modelled.
- Keys are modelled as a character key with an optional character, a named key, or an object with neither. Other hook objects are out of scope.
- Hotkeys.WellFormedHeld: assumes that no held token contains `'+'`. The plus key breaks this: the keypad plus, or shift and `=` on a US layout, reports the character `+`, and `get_key_string` (line 334) returns `"+"`. The stored hotkey `+` still fires when the plus key is held alone (`Scenarios.PlusHotkeyFires`), because splitting `+` gives two empty parts that join back into `+`, the live chord of that key held alone. Only the stored hotkey goes through `normalize_hotkey`; the live chord is never split. `Hotkeys.CanFire`, which asks for non-empty tokens, classifies the hotkey `+` wrongly (`Hotkeys.PlusKeyOutside`). `Hotkeys.FiringNeedsIncreasing`, `Hotkeys.CanFireMatches`, `Hotkeys.RecordedFiresIff`, `Hotkeys.PressedChordParts`, `Hotkeys.FixedChordAgrees`, `Hotkeys.RecordedChordFiresWhenFixed`, `Listener.RecordedHotkeyNormal` and `Listener.FixKeepsWrittenMatches` speak only of held tokens without `'+'`.
- Hotkeys.RecordingChord: Python iterates the held set in an unspecified order. The model takes sorted order, and `Hotkeys.RecordingOrderFree` shows the result is the same for every order while at most one non-modifier is held. That always holds when the branch runs.
- Hotkeys.RecordingOrderFree: requires at most one non-modifier among the held keys. With two or more, the stored hotkey would depend on Python's set order, which the model does not fix.
- Listener.PressOrderIrrelevant: equates the clipboards only when the final chord matches some entry. Otherwise each order may have copied a different intermediate match, and nothing is promised.
- Listener.Allowed: a delete while a row is being rebound is only admitted when the target row stays in range. Otherwise the program raises `IndexError` at line 402, on the next non-modifier key press while that row is still the target. A modifier press does not reach that line, and a click on another hotkey cell first moves the target (line 357), so the error may never come.
- Listener.Allowed: a hotkey-cell click is only admitted for an existing row. Qt only reports clicks on existing cells.
- The delete buttons made by `add_preset_entry` bind the row number when the row is created (line 495). After an earlier row is deleted they name a shifted row. The buttons made by `load_settings` capture the loop variable `row` late (lines 543-544), so every loaded row's button deletes the row index of the last loaded entry. The model takes the row the button passes as given, as long as that row exists.
- Listener.Allowed: a delete is admitted only for an existing row. A stale button can name a row past the end of the list (after an earlier delete); `del self.entries[row]` then raises `IndexError` at line 525, and the model does not follow that path.
- `reset_hotkey_cell_style` only restores a cell's look and is not modelled.
- The text box being cleared by `add_entry` is not modelled; the text arrives with the `AddEntry` event.
- `build.py` and `dev.py` (packaging and a restart-on-change runner) are not part of this model.
- The state machine keeps `check_hotkeys` as written, so that both chord procedures appear exactly as the program has them. The corrected comparison is stated beside it rather than substituted; see "Findings".

## Findings

| source | as written | input that shows it | evidently intended | confidence | as-written member | corrected member |
|---|---|---|---|---|---|---|
| dota2_clipboard.py:435 | the live chord is `'+'.join(sorted(held))`, in plain string order, while stored hotkeys are normalised to modifier-priority order | ctrl, shift and k held: recording stores `ctrl+shift+k`, but the live chord is `ctrl+k+shift`, so the recorded hotkey never fires; likewise the default `cmd+[` and any `ctrl+alt+…` | normalise the live chord the same way as the stored hotkeys before comparing | not executed | Hotkeys.RecordedChordMissed | Hotkeys.RecordedChordFiresWhenFixed |

`Hotkeys.RecordedFiresIff` shows which recorded hotkeys the code as written can fire. For held tokens without `'+'`, `Hotkeys.FiringNeedsIncreasing` and `Hotkeys.CanFireMatches` characterise every stored hotkey that can fire; the stored hotkey `+` fires outside that characterisation (`Scenarios.PlusHotkeyFires`). The corrected check is `Listener.CheckHotkeysFixed`. `Listener.FixKeepsWrittenMatches` proves that the correction changes nothing where the code as written already finds a match.
