# SpellBeeBot, modelled in Dafny

SpellBeeBot (`app.py`) plays the spellbee.org "unlimited" puzzle in a headless browser.
It does four things:

- **Loads a dictionary.** It keeps every line that, once stripped and lower-cased, has at
  least four letters, is alphabetic and uses at least four distinct letters.
- **Solves the puzzle.** It reads the center letter and the grid letters from the page. It
  keeps the dictionary words that contain the center letter and use no other letters. It
  queues the pangrams first, longest first, and then the other words, longest first.
- **Relays progress.** A page script watches the progress panel. It serializes the three
  progress texts with `JSON.stringify` and dispatches an event only when that
  serialization differs from the last one dispatched. A listener logs each event as
  `PROGRESS_UPDATE:` followed by the event's JSON. `handle_console` decodes these console
  lines with `json.loads` and prints `"<title> - <left> points to <next>"`.
- **Tries every word.** For each queued word it types the word, clicks submit if the
  button is visible, and presses Backspace once per letter.

The model has one module per concern:

| file | module | what it models |
|---|---|---|
| `wrappers.dfy` | `Wrappers` | `Option` and `Result` |
| `text.dfy` | `Text` | `str.strip`, `str.lower`, `str.isalpha`, `set(word)`, `str.startswith`, `str.replace` |
| `dictionary.dfy` | `Dictionary` | the `load_words` comprehension |
| `solver.dfy` | `Solver` | the candidate loop and the two length-sorted groups |
| `json.dfy` | `Json` | `JSON.stringify` of the progress object, and `json.loads` for objects with string values |
| `progress.dfy` | `Progress` | the MutationObserver debounce as a class, the console line it produces, and `handle_console` |
| `submission.dfy` | `Submission` | the letter input as a class, and the type / submit / backspace loop |

The main results are these:

- **Dictionary.** The dictionary is exactly the set of normalized lines that pass the
  filter. Every entry is a lower-case word that normalization leaves unchanged.
- **Solver.** Whatever order the dictionary set is visited in, the queue has these
  properties:
  - it is a permutation of the candidate words;
  - its first `len(pangrams)` entries are exactly the pangrams;
  - each group is longest first;
  - two runs can differ only by reordering words of equal length within a group.
- **Debounce.** The observer dispatches a snapshot exactly when it differs from the last
  one dispatched. This is because `JSON.stringify` of the progress object is injective and
  `json.loads` inverts it.
- **Console bridge.** `handle_console` is modelled case by case: untagged lines are
  ignored, a failed decode raises, a missing key raises the `KeyError` of the first one
  read, and otherwise the status line is written. Provided no progress text contains `_`,
  the line the page logs for a snapshot is shown as that snapshot's status line, or raises
  the `KeyError` of its first missing text. Without that premise the claim fails:
  `replace` removes every copy of the tag, so a title that itself starts with
  `PROGRESS_UPDATE:` is shown without it.
- **Submission.** The word loop's effect on the input field is given by a fold over the
  queue. Starting from an empty field, the submitted words are exactly the queued words
  whose submit button was visible, in order.

## Model

| member | source | states |
|---|---|---|
| Text.IsWhitespace | app.py:19 | definition: the 29 code points Python's `str.isspace` accepts, which `strip()` removes |
| Text.TrimLeft | app.py:19 | the result is a suffix of the line after a run of whitespace, and does not start with whitespace |
| Text.TrimRight | app.py:19 | the line is the result followed by a run of whitespace, and the result does not end with whitespace |
| Text.Strip | app.py:19 | `line.strip()`: the line is whitespace, the result, whitespace, and the result has no whitespace at either end |
| Text.StripUnchanged | app.py:19 | a string without whitespace at either end is its own `strip()` |
| Text.Lower | app.py:19 | `lower()` keeps the length and lower-cases each character in place |
| Text.IsAlpha | app.py:21 | definition: `isalpha()` as a non-empty string of ASCII letters |
| Text.LetterSet | app.py:22 | defines `set(word)` as the set of the word's characters; it has at most as many elements as the word has characters |
| Text.DistinctCharsBound | app.py:22 | a word has no more distinct characters than characters |
| Text.StartsWith | app.py:123 | definition: `startswith(p)` as "the first `len(p)` characters are `p`" |
| Text.Replace | app.py:124 | definition: `replace(pat, rep)` scanning left to right and replacing every non-overlapping occurrence; its behaviour is stated by the lemmas below |
| Text.ReplaceWithoutOccurrence | app.py:124 | `replace` leaves text without an occurrence of the pattern unchanged |
| Text.ReplaceWithoutChar | app.py:124 | text lacking some character of the pattern is unchanged by `replace` |
| Text.ReplaceSkips | app.py:124 | a stretch without the pattern's first character is copied through and the scan resumes after it |
| Text.ReplaceLeading | app.py:124 | a leading occurrence is replaced and the scan resumes right after it |
| Text.ReplaceNested | app.py:124 | a second, later copy of the pattern is replaced as well, not only the first |
| Text.RemoveBothCopies | app.py:123-124 | text starting with the tag and holding a second copy starts with the tag, and removing the tag drops both copies |
| Dictionary.Normalize | app.py:19 | definition: `line.strip().lower()` |
| Dictionary.Admissible | app.py:20-22 | definition: the comprehension's three tests on a normalized line |
| Dictionary.LoadWords | app.py:14-23 | every word loaded is lower-case, meets both thresholds and is unchanged by `strip().lower()` |
| Dictionary.LoadWordsMembership | app.py:16-23 | a word is loaded iff some line normalizes to it and it is long enough, alphabetic and has enough distinct letters |
| Dictionary.NormalizedWordIsStable | app.py:19-22 | a kept line normalizes to a lower-case word that normalizing again leaves unchanged |
| Dictionary.NormalizeLowercase | app.py:19 | a lower-case word is its own `strip().lower()` |
| Dictionary.LowerOfLetters | app.py:19-21 | if a lower-cased line is alphabetic, it is made of `a`-`z` only |
| Dictionary.ExampleTea | app.py:20 | the line "tea" is dropped with the default thresholds: it is shorter than four letters |
| Dictionary.ExampleAced | app.py:14-23 | the line "aced" is kept unchanged with the default thresholds |
| Dictionary.ExampleCadet | app.py:14-23 | the line "cadet" is kept unchanged with the default thresholds |
| Dictionary.ExampleAide | app.py:14-23 | the line "aide" is kept unchanged with the default thresholds |
| Dictionary.FourDistinctLetters | app.py:22 | a word containing four distinct letters has `len(set(word)) >= 4` |
| Solver.IsCandidate | app.py:96-102 | definition: the word contains the center and no letter outside `letters_set` |
| Solver.IsPangram | app.py:103 | definition: `word_set >= letters` |
| Solver.InsertByLength | app.py:108-110 | one insertion step of the stable sort: a permutation with one more word, still longest first |
| Solver.SortByLength | app.py:108-110 | `sorted(..., key=len, reverse=True)` is a permutation of its input, longest first |
| Solver.Solve | app.py:94-111 | over any visiting order of the dictionary: a ranked queue (pangram candidates first, then plain candidates, each group once and longest first), `found_words` is its length |
| Solver.SourceTests | app.py:102-103 | the loop's two tests are the candidate test (center present, no letter outside the grid) and the pangram test |
| Solver.GroupsGrow | app.py:101-106 | visiting one more word adds it to exactly the group it belongs to, or to none |
| Solver.MoveWord | app.py:101 | moving a word from unvisited to visited keeps the dictionary split in two disjoint parts |
| Solver.RankedFromGroups | app.py:108-110 | concatenating the two sorted groups gives a ranked queue whose first `len(pangrams)` entries are the pangrams |
| Solver.QueueMembership | app.py:101-110 | a word is in the queue iff it is a dictionary word passing the candidate test |
| Solver.PangramsFirst | app.py:103-110 | an entry is a pangram iff its index is below `len(pangrams)`; no plain word precedes a pangram |
| Solver.LongestFirstWithinGroups | app.py:108-110 | within each group, no word is followed by a longer one |
| Solver.QueueIsPermutation | app.py:108-115 | the queue holds each candidate once; `found_words` and `len(pangrams)` count the candidates and the pangram candidates |
| Solver.NoDuplicatesFromSet | app.py:101 | a sequence with the multiset of a set has no repeated entry |
| Solver.PangramUsesAllAllowed | app.py:96-103 | for a candidate, using every grid letter is the same as using exactly the grid letters plus the center |
| Solver.SortedPermutationsAgreeOnLengths | app.py:108-110 | two longest-first orders of the same words have the same length at every position |
| Solver.QueueDeterminedUpToTies | app.py:101-110 | two runs on the same input agree on the words, the split and the length at each position |
| Solver.AllowedLetters | app.py:102 | a word with the center letter and only allowed letters passes the candidate test |
| Solver.ForeignLetter | app.py:102 | a word with a letter outside the grid and the center fails the candidate test |
| Solver.ExampleGroups | app.py:101-106 | for center `a` and letters `a c d e t`, "cadet" is the only pangram and "aced" the only plain word of {"aced", "cadet", "aide"} |
| Solver.ExamplePuzzle | app.py:94-110 | for that puzzle, the only ranked queue is "cadet", "aced" with one pangram |
| Json.EscapeChar | app.py:45 | definition: the escape `JSON.stringify` writes for one character (short escapes, `\u00XY` for other control characters, the character itself otherwise) |
| Json.EscapeString | app.py:45 | definition: the escapes of the characters, in order |
| Json.StringifyObject | app.py:45 | definition: `JSON.stringify` of an object whose members are strings or `undefined`, which are skipped |
| Json.HexDigit | app.py:45 | the lower-case hexadecimal digit of a value below 16 |
| Json.Present | app.py:45 | `JSON.stringify` writes no more members than the object has (`undefined` ones are skipped) |
| Json.SkipWhitespace | app.py:124 | nothing longer comes back, the result does not start with JSON whitespace, and text starting with a non-blank is left alone |
| Json.SkipWhitespaceDropsBlanks | app.py:124 | the input is a run of JSON whitespace followed by the result, so only whitespace is skipped |
| Json.HexValue | app.py:124 | a hexadecimal digit of either case has a value below 16 |
| Json.Hex4 | app.py:124 | four hexadecimal digits give one UTF-16 code unit |
| Json.CombineSurrogates | app.py:124 | a high and a low surrogate combine into a code point above U+FFFF |
| Json.ScanEscape | app.py:124 | an escape that is decoded consumes input |
| Json.ScanString | app.py:124 | a string literal that is decoded consumes input |
| Json.ParseMembers | app.py:124 | object members that are decoded consume input |
| Json.AfterMember | app.py:124 | a closing brace or a comma and more members, consuming input |
| Json.Loads | app.py:124 | a successful `json.loads` had non-empty text not starting with a byte-order mark |
| Json.HexDigitValue | app.py:45 | decoding the digit the encoder writes gives back its value |
| Json.ScanEscapedChar | app.py:124 | decoding the escape `JSON.stringify` writes for a character gives back that character |
| Json.ScanUnicodeEscape | app.py:124 | a control character written as `\u00XY` is decoded back |
| Json.ScanQuoted | app.py:124 | the decoder reads back exactly the string the encoder quoted, and stops after its closing quote |
| Json.ScanQuote | app.py:124 | a quoted string opens with `"` and decodes to its contents |
| Json.ParseMember | app.py:124 | an encoded member is entered into the dict and parsing goes on after it |
| Json.ParseMemberSteps | app.py:124 | a key, a colon and a string value are entered into the dict |
| Json.ParseJoinedMembers | app.py:124 | the joined members are entered into the dict in order, up to the closing brace |
| Json.CloseObject | app.py:124 | a closing brace ends the members |
| Json.NextMember | app.py:124 | a comma before a quote continues with the next member |
| Json.JoinedShape | app.py:45 | two or more joined members are the first, a comma and the others, and the others start with a quote |
| Json.JoinStartsWithQuote | app.py:45 | joined members start with the opening quote of the first key |
| Json.JoinFirst | app.py:45 | joined members are the first member followed by a comma and the rest, when there are more |
| Json.LoadsStringify | app.py:124 | `json.loads` inverts `JSON.stringify` (line 45): it gives the dict of the defined members |
| Json.LoadsEmptyObject | app.py:124 | `{}` decodes to the empty dict |
| Json.LoadsMembers | app.py:124 | a brace followed by members that parse to the end decodes to their dict |
| Json.EnterPresent | app.py:124 | with distinct keys, the decoded dict maps each defined key to its value and holds no undefined key |
| Json.FindAbsent | app.py:45 | a key that no entry carries is not found |
| Json.EscapeAvoids | app.py:45 | escaping introduces no character outside JSON's syntax |
| Json.QuoteAvoids | app.py:45 | quoting introduces no character outside JSON's syntax |
| Json.MemberAvoids | app.py:45 | a member's encoding has such a character only if its key or value has it |
| Json.JoinAvoids | app.py:45 | joined members have such a character only if some key or value has it |
| Json.PresentAvoids | app.py:45 | the defined members avoid a character that every entry avoids |
| Json.StringifyAvoids | app.py:45 | the whole encoding has such a character only if some key or defined value has it |
| Json.EscapePlainPrefix | app.py:45 | a plain prefix of a value is written as itself, before the escaped rest |
| Json.StringifyFirstMember | app.py:45 | the encoding of an object with a defined first member, split around that member's escaped value |
| Json.SplitFirstValue | app.py:45 | an object whose first value starts with a plain text, cut at that text: removing it gives the encoding of the object without it |
| Progress.Serialize | app.py:45 | definition: `JSON.stringify({currentTitle, nextLeft, nextTitle})` |
| Progress.Lookup | app.py:127 | definition: `status[key]` as an option, absent when the key is missing |
| Progress.EntryKeys | app.py:45 | the three keys are distinct and each finds its own text |
| Progress.DecodeSerialized | app.py:45-124 | decoding a serialized snapshot succeeds and gives back each of its three texts |
| Progress.SerializeInjective | app.py:45-46 | two snapshots serialize alike iff they are equal |
| Progress.SerializeNonEmpty | app.py:38-46 | no serialization equals the initial `lastUpdate = ''` |
| Progress.Emitted | app.py:46-52 | the events dispatched for observed snapshots are no more than the observations |
| Progress.EmittedEndsWithLatest | app.py:46-52 | once something was observed, the last event carries the latest snapshot |
| Progress.EmittedStep | app.py:46-52 | a new observation is appended unless it repeats the last event |
| Progress.EmittedNoConsecutiveRepeats | app.py:46-52 | no two consecutive events carry the same snapshot |
| Progress.AppendKeepsNoRepeats | app.py:46-52 | appending a snapshot different from the last event keeps that property |
| Progress.EmittedWereObserved | app.py:46-52 | every dispatched snapshot was observed |
| Progress.RepeatIsSilent | app.py:46-52 | observing the same snapshot twice in a row dispatches no more than once |
| Progress.DebounceStep | app.py:45-52 | comparing serializations with `lastUpdate` is comparing the snapshot with the last event |
| Progress.LastUpdateDiffers | app.py:46 | `update !== lastUpdate` iff there is no last event or the last event is a different snapshot |
| Progress.ProgressObserver.constructor | app.py:38 | starts with `lastUpdate == ''` and nothing observed or dispatched |
| Progress.ProgressObserver.OnMutation | app.py:40-52 | an event is dispatched iff the serialization differs from `lastUpdate`; it carries the snapshot; `lastUpdate` becomes the serialization; the debounce invariant is kept |
| Progress.SetupProgressMonitoring | app.py:36-38 | an observer exists iff the progress panel exists, and it starts with `lastUpdate == ''` |
| Progress.BridgeLine | app.py:87 | definition: the text `console.log` receives, the tag followed by the serialization |
| Progress.StatusLine | app.py:126-127 | definition: the f-string `"<title> - <left> points to <next>\n"` |
| Progress.HandlesStatus | app.py:126-127 | definition: the f-string reads the keys left to right, raising the `KeyError` of the first missing one, otherwise the status line is written |
| Progress.HandleConsole | app.py:122-128 | untagged messages are ignored (iff); for a tagged one, a failed `json.loads` of the tag-less text raises its error, and a decoded dict raises the first missing key's `KeyError` or writes its status line; a written line always comes from a decoded dict with all three keys |
| Progress.Displayed | app.py:126-127 | definition: the effect a snapshot is meant to have, its status line or the `KeyError` of its first missing text |
| Progress.HandleDecoded | app.py:122-128 | a tagged line whose payload, with the tag removed, is a serialization shows that snapshot |
| Progress.SerializeAvoidsTag | app.py:124 | a serialization whose texts avoid `_` holds no copy of the tag |
| Progress.ConsumeBridgeLine | app.py:87-128 | the line logged for a snapshot is shown as its status line, or raises the first missing key |
| Progress.TaggedTitleIsStripped | app.py:124 | a current title starting with the tag is shown without it, since `replace` removes every copy |
| Progress.SplitAroundTitle | app.py:45 | the serialization of such a snapshot is the serialization without the tag, with the tag inserted once |
| Submission.InputField.constructor | app.py:134 | the input is empty and nothing has been submitted |
| Submission.InputField.Type | app.py:135 | typing appends the word to the input |
| Submission.InputField.PressBackspace | app.py:141 | Backspace removes the last character, if any |
| Submission.InputField.ClickSubmit | app.py:138 | clicking submits the current input, which the game may then clear |
| Submission.Attempt | app.py:135-141 | one iteration leaves the input as it was or empty, and submits at most one word |
| Submission.TryWord | app.py:135-141 | one iteration of the loop has the effect `Attempt` describes |
| Submission.Session | app.py:134-141 | the whole loop submits at most one word per queued word |
| Submission.SessionSnoc | app.py:134-141 | running over one more word continues from where the shorter run stopped |
| Submission.ReachedNext | app.py:134-141 | trying the next word from the state after a prefix of the queue reaches the state after the longer prefix |
| Submission.SubmitAll | app.py:134-141 | the loop leaves the input and the submitted words that `Session` gives for the queue |
| Submission.VisibleWords | app.py:137 | the words submitted are at most the queue and come from it |
| Submission.SessionFromEmpty | app.py:134-141 | from an empty input, the input ends empty and the submitted words are exactly the visible ones, in queue order |
| Submission.AllVisibleSubmitsQueue | app.py:137-138 | if the button is always visible, the whole queue is submitted in order |

## Left out

- Browser automation is not modelled. This covers Playwright, the page, its selectors,
  `wait_for_selector`, the device configuration, `page.evaluate` and `context.close()`. The
  values read from the DOM are inputs: the center letter, the grid letters, the progress
  texts and the submit button's visibility.
- File I/O is not modelled. The dictionary is the sequence of lines the file iterator yields.
- `time.sleep`, `tqdm`, `input()`, `logging`, `print` and the ANSI escape sequences are not
  modelled. This includes the "move up and clear line" write that happens before a `KeyError`
  can be raised; they only affect the terminal.
- The initial `monitor_progress` read and print (lines 92 and 113-117) and the
  `sorted(letters)` display are not modelled; they do not feed the solver.
- Observer registration (`observer.observe`), `CustomEvent` dispatch, the event listener
  and console routing are modelled only through what they carry. The snapshot passed to
  `OnMutation` is what the callback reads. `BridgeLine` is the text `console.log` receives.
- `TargetClosedError`, the `try`/`finally` and the cursor show/hide writes are not modelled.
- Submission.InputField.ClickSubmit: page-side timing of the input is not modelled. The
  game is taken to clear the input at the moment of the click, if it clears it at all. A
  page that cleared it later, racing the Backspace presses or the next word's typing, is
  outside the model, and so are key presses that the page drops.
- Text.Lower, Text.IsAlpha: only ASCII letters are lower-cased and count as alphabetic.
  Python's Unicode case mapping and `isalpha` are not modelled. `isspace` is modelled
  exactly.
- Solver.Solve: the center letter is one `char` and the grid letters a `set<char>`. This
  assumes each DOM text is one letter; with longer texts Python's `center in word` would
  be a substring test.
- Solver.Solve: the order among words of equal length is not fixed. Python's sort is
  stable, so it depends on the dictionary set's iteration order, which the model leaves
  open. `QueueDeterminedUpToTies` states what is still fixed.
- Json.Loads: it decodes only objects whose member values are strings, which is what the
  page produces. A number, `null`, array or nested object as a member value is
  `UnsupportedValue`, where Python would decode it and print it.
- Json.Loads: `NotAnObject` covers both a top level that fails to decode and one that
  decodes to a non-object. Python would raise `JSONDecodeError` in the first case and
  `TypeError` or `KeyError` in the second.
- Json.ScanEscape: a lone surrogate escape is the error `LoneSurrogate`. Dafny's `char`
  cannot hold one, while Python would decode it into its string.
- Json.LoadsStringify: the round trip covers the compact output `JSON.stringify` writes. The
  decoder accepts JSON whitespace between tokens, but no lemma is stated about that.
- Text.Replace: it requires a non-empty pattern, since the only pattern used is the
  non-empty tag. Python's behaviour for an empty pattern is not modelled.
- Progress.ConsumeBridgeLine: the premise that no text contains `_` is sufficient, not
  necessary. It rules out a copy of the tag anywhere in the payload.
  `TaggedTitleIsStripped` covers the case of a title that starts with the tag.
- Submission.SubmitAll: the submit button's visibility after each word is an input
  sequence. Whether the game clears the input on submit is a fixed property of the field,
  `clearsOnSubmit`. Both settings are covered.
