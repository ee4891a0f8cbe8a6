# Word tool core, modelled in Dafny

The word tool is a browser vocabulary trainer. The user pastes a word bank as text: a term line such as `aunt [ɑ:nt]` followed by an explanation line. The tool parses the text into word records and files banks under tags. It then quizzes the user, either in dictation mode (explanation shown, term typed) or in explanation mode (term shown, explanation typed). It keeps counters, a wrong-words book and exam records, and persists its state through a storage manager. That manager writes to IndexedDB, to localStorage or to a REST API.

This project models three parts of that program and proves properties about them:

- **Word-bank format** (`word_bank.dfy`, on top of the JavaScript string primitives in `text.dfy`).
  - `parseWordBank` as a loop method, proved equal to a recursive specification.
  - The term-line regular expression, including its lazy term group and optional bracketed phonetic.
  - The text template `loadTagContent` writes into the editor.
  - A round-trip theorem connecting the template and the parser.
- **Grading** (`levenshtein.dfy`, `grading.dfy`).
  - The `levenshtein` table filled in nested loops over a two-dimensional array, proved equal to the edit-distance recurrence. The recurrence is proved symmetric, bounded above and below, and zero exactly on equal strings.
  - The `clean` normaliser of `isSimilarAnswer` with its ordered abbreviation pattern.
  - The similarity decision and the strict/lenient choice of `checkAnswer`.
- **Quiz state** (`quiz.dfy`): the application state as a `Session` class whose methods update its fields as the program does.
  - Methods: tags, saving the bank, the wrong-words book, question selection, answer checking, switching mode, moving to the next word, and starting and ending an exam.
  - The list and map updates are specified by functions with their own lemmas.
- **Persistence** (`json.dfy`, `storage_manager.dfy`, `storage_adapter.dfy`).
  - The `StorageManager` class: the constructor, `init`, the IndexedDB open and schema upgrade, the `save`/`load`/`remove` dispatch, and the per-backend methods.
  - The adapter's lazy initialisation with a permanent fallback to localStorage.
  - The value normalisation of `getItem`/`setItem`.
  - localStorage and the `settings` object store are map fields. A failing store, an IndexedDB open result and a server reply are parameters. `JSON.parse`/`JSON.stringify` are a pair of given functions, assumed only to round-trip where a lemma says so.

Modelling choices that follow the code:

- Only `n.` and `v.` lines are refused as term lines.
- A candidate term line that fails the pattern still consumes its explanation line.
- The phonetic keeps its brackets.
- The dictation comparison trims the answer but not the expected term.
- The abbreviation pattern tries `n` before `num` and `int`.
- `generateQuestion` records the index `findIndex` returns for the picked word. So with duplicate entries, a later copy is never marked used.
- `similarity > 0.7` is stated in integers as `10 * distance < 3 * maxLength`.
- `Math.round(correct / total * 100)` is stated as rounding the exact quotient half up.
- The random draw of `generateQuestion` and the exam timestamp are parameters. When an exam starts, a draw outside the available list is read as 0.

## Model

| member | source | states |
|---|---|---|
| WordBank.MatchTermLine | script.js:87-90 | a match yields a non-empty term made of `[a-zA-Z\- ]` that is a prefix of the line, and a phonetic that is empty or one bracketed group ending the line |
| WordBank.PhoneticTail | script.js:87 | the optional group `\s+(\[[^\]]+\])$` yields a bracketed suffix of the rest of the line |
| WordBank.MatchScan | script.js:87 | the lazy term group, scanned from any shorter prefix of a valid term, stops exactly at the term's end and finds its phonetic |
| WordBank.AbbreviationLineUnmatched | script.js:87 | `adj. big` does not match the term-line pattern |
| WordBank.ParseWordBank | script.js:76-110 | the loop over the trimmed text's lines returns exactly the records of the recursive line-pair specification |
| WordBank.ReadEntry | script.js:82-106 | one loop step advances the index by one or two lines and produces exactly the records the specification reads from those lines |
| WordBank.ParseLinesAt | script.js:82-106 | at any position, a candidate term line followed by a non-blank line yields its pair's record (or nothing) and skips two lines; any other line is skipped alone |
| WordBank.ParseTextWellFormed | script.js:76-110 | every parsed record is well formed (valid term, empty or bracketed phonetic, trimmed non-empty explanation) with count 0, and there are at most half as many records as lines |
| WordBank.ParsedLinesWellFormed | script.js:84-97 | records parsed from newline-free lines are well formed with count 0 |
| WordBank.RecordOfWellFormed | script.js:87-97 | a trimmed term line with a valid explanation yields only well-formed records with count 0 |
| WordBank.ParseLinesBound | script.js:81-106 | each record consumes two lines |
| WordBank.TrimmedTermValid | script.js:93 | trimming a matched term group that starts with a term character gives a valid term |
| WordBank.PartOfSpeechLineSkipped | script.js:83 | a line opened by `n.` or `v.` is never a term line: wherever it stands it is skipped alone |
| WordBank.OtherAbbreviationSwallowsNextTerm | script.js:83-100 | an `adj.` line is taken as a term line, fails the pattern and consumes the next entry's term line, so that entry is lost |
| WordBank.SingleLineYieldsNothing | script.js:84-85 | a term line with no line after it yields no record |
| WordBank.SerializeWordBank | script.js:264-269 | the accumulation loop produces the trimmed concatenation of the `english phonetic / explanation / blank line` entries |
| WordBank.SerializedLines | script.js:77 | the editor text of well-formed records splits into exactly their term lines, explanation lines and separating blank lines |
| WordBank.TermLineMatches | script.js:87-90 | the written term line of a well-formed record matches the pattern with that record's term and phonetic |
| WordBank.RecordOfTermLine | script.js:87-97 | a well-formed record's two written lines give back the record with count 0 |
| WordBank.ParseTextLines | script.js:81-106 | the written lines of well-formed records parse back to the records with counts reset |
| WordBank.RoundTrip | script.js:264-269 | parsing the editor text that `loadTagContent` writes for well-formed records gives the same records with `wrongCount` 0 |
| WordBank.ReparseIsStable | script.js:264-269 | loading a parsed bank into the editor and saving it again gives the same bank |
| Text.TrimFacts | script.js:77 | `trim` leaves no whitespace at either end and returns an infix of its input |
| Text.TrimChars | script.js:824 | every character of a trimmed string occurs in the input |
| Text.ToLower | script.js:731-732 | the result has the input's length and no ASCII capital; each capital becomes the small letter 32 code points above it; every other character is unchanged |
| Text.ToLowerIdempotent | script.js:731-732 | lower-casing an already lower-cased string changes nothing |
| Text.ToLowerEqualIff | script.js:731-743 | two strings lower-case to the same string exactly when they have the same length and agree up to ASCII case |
| Text.ContainsIffInfix | script.js:834 | `includes` holds exactly when the argument occurs at some index |
| Text.SplitAtNewline | script.js:77 | `split('\n')` of two texts joined by a newline is the concatenation of their splits |
| Text.SplitNoNewlines | script.js:77 | no piece of `split('\n')` contains a newline |
| Levenshtein.ComputeLevenshtein | script.js:842-857 | the table method returns the edit distance of the two strings |
| Levenshtein.FillRow | script.js:846-855 | filling row `i` left to right from the finished row above sets every cell of the row to the recurrence's value |
| Levenshtein.DistUpperBound | script.js:842-857 | the distance of two prefixes is at most the longer length |
| Levenshtein.DistLowerBound | script.js:842-857 | the distance of two prefixes is at least the difference of their lengths |
| Levenshtein.DistZeroIffEqual | script.js:842-857 | the distance is zero exactly when the two prefixes are equal |
| Levenshtein.EqualPrefixesDistZero | script.js:842-857 | equal prefixes are at distance zero |
| Levenshtein.DistZeroEqualPrefixes | script.js:842-857 | distance zero implies equal prefixes |
| Levenshtein.DistSymmetric | script.js:842-857 | swapping the strings does not change the distance |
| Levenshtein.EditDistanceFacts | script.js:842-857 | against the empty string the distance is the other length; it is symmetric, zero exactly on equal strings, and between the length difference and the longer length |
| Grading.FirstTag | script.js:819 | the first abbreviation of the ordered alternation that starts at a position, as a length that fits in the string |
| Grading.TagMatchAt | script.js:819 | a match of `\b(adj\|…\|int)\.?` at a position has a positive length that fits in the string |
| Grading.StripTagsFrom | script.js:819 | the global replace never lengthens the string |
| Grading.Filter | script.js:821-823 | a character-class removal keeps only characters of the class and never lengthens the string |
| Grading.CleanKeepsOnlyLetters | script.js:815-825 | `clean` leaves only ASCII letters and CJK ideographs U+4E00–U+9FA5 |
| Grading.SeparatorPassRedundant | script.js:821-823 | the separator pass removes nothing the final character-class pass would keep |
| Grading.FinalTrimIsNoOp | script.js:824 | the final `trim` of `clean` changes nothing |
| Grading.NumberAbbreviationHalfStripped | script.js:819 | `clean("num.")` is `um`, because `n` is tried before `num` |
| Grading.StripNumber | script.js:819 | the abbreviation pass turns `num.` into `um.` |
| Grading.CheckSimilar | script.js:814-840 | `isSimilarAnswer` as run, with the table method, agrees with the specification: empty cleaned side rejects, equality or containment accepts, otherwise the similarity threshold decides |
| Grading.SimilarSymmetric | script.js:827-839 | the similarity decision does not depend on which side is the answer |
| Grading.EmptyCleanRejected | script.js:830 | an answer or explanation that cleans to nothing is never similar |
| Grading.InfixAccepted | script.js:834 | a non-empty cleaned answer occurring in the cleaned explanation is accepted |
| Grading.AcceptedNeedsCloseLength | script.js:837-839 | outside containment, acceptance needs the length difference under 30% of the longer cleaned string |
| Grading.OneEditTolerated | script.js:837-839 | one edit on cleaned strings of length four or more is accepted |
| Grading.GradeAnswer | script.js:731-747 | the grading step as run: dictation mode compares trimmed lower-cased answer and lower-cased term, other modes ask the similarity test |
| Grading.UntrimmedTermNeverCorrect | script.js:731-743 | an expected term ending in whitespace can never be answered correctly in dictation mode |
| Grading.DictationAcceptsTerm | script.js:731-743 | in dictation mode the term typed as shown, with any surrounding blanks, is accepted |
| Grading.DictationIgnoresCase | script.js:731-743 | an accepted dictation answer has the term's length and differs from it at most in ASCII case |
| Grading.ExplanationAcceptsItself | script.js:744-746 | in explanation mode an explanation typed back is accepted unless it cleans to nothing |
| Quiz.FindIndex | script.js:618-621 | `findIndex` by term and explanation: -1 exactly when no entry matches, otherwise the first matching index |
| Quiz.RecordMissExisting | script.js:781-788 | missing a word already in the book adds one to its count and leaves every other entry and the length unchanged |
| Quiz.RecordMissNew | script.js:789-793 | missing a new word appends it with count 1 after the unchanged book |
| Quiz.RecordMissKeepsDistinct | script.js:777-796 | the book never holds two entries for one word, and after a miss it holds the missed word |
| Quiz.MissedTwiceCountsTwo | script.js:777-793 | a new word missed twice is in the book once, with count 2 |
| Quiz.AvailableIndicesFrom | script.js:603-605 | the unused indices are exactly the indices not in `usedWords` |
| Quiz.AvailableIndicesIncreasing | script.js:603-605 | the unused indices come in increasing order, so `filter` keeps the bank's order |
| Quiz.Available | script.js:603-605 | holds no more words than the bank, and a word is in it exactly when the bank has it at some unused index |
| Quiz.AvailableMembers | script.js:603-605 | the entries picked at the unused indices are exactly the words stored at some unused index |
| Quiz.AvailableEmptyIff | script.js:603-611 | nothing is left to ask exactly when every index of the bank is used |
| Quiz.PickIsFresh | script.js:614-624 | without duplicate entries, the index recorded for the picked word is its own and was unused |
| Quiz.DuplicateNeverMarkedUsed | script.js:603-624 | with a duplicate entry the later copy is never recorded as used, so questions never run out |
| Quiz.AccuracyBounds | script.js:698 | the accuracy is at most 100 and is `100 * correct / total` rounded to the nearest integer, halves up |
| Quiz.AccuracyExtremes | script.js:698 | a perfect exam scores 100 and one without a right answer 0 |
| Quiz.ExamRecordFor | script.js:696-706 | an exam record's tag is never empty and its accuracy is at most 100 |
| Quiz.SaveTarget | script.js:439-448 | the bank is saved under the current tag unless it is missing, empty or the wrong-words tag, and never under the wrong-words tag |
| Quiz.Session.constructor | script.js:15-33 | the initial application state |
| Quiz.Session.LoadTagContent | script.js:254-269 | selects the tag; with a bank, the editor holds the bank's serialised text, otherwise it is unchanged |
| Quiz.Session.AddTag | script.js:337-356 | each rejection holds exactly when its guard does, and leaves the map unchanged: an empty name; an existing tag or a name inherited from `Object.prototype` (`constructor`, `toString`, `__proto__`, …); an empty text. Otherwise the trimmed name maps to the parsed trimmed text |
| Quiz.Session.RemoveTag | script.js:372-377 | the tag is deleted exactly when the user confirms |
| Quiz.Session.SaveWordBank | script.js:426-458 | an empty editor changes nothing; otherwise the working bank is the parsed text, filed under the save target, and the counters are reset |
| Quiz.Session.AddToWrongWords | script.js:777-796 | the book records the miss of the current word, still with one entry per word, and the wrong-words tag holds the new book |
| Quiz.Session.CleanWrongWords | script.js:804-811 | the book is empty and the wrong-words tag is gone, every other tag unchanged |
| Quiz.Session.FinishExam | script.js:694-716 | an exam in progress with an answer appends its record; exam mode ends either way |
| Quiz.Session.GenerateQuestion | script.js:595-650 | with words left, the picked word's `findIndex` index is appended to the used list and the question is its term or explanation by mode, with no new record. With none left, the exam ends, and a record is appended exactly when an exam with answers was running |
| Quiz.Session.EndExam | script.js:687-691 | on confirmation the exam is finished as `finishExam` does; otherwise nothing changes |
| Quiz.Session.StartExamWithSelectedTag | script.js:886-920 | an empty choice changes nothing. Otherwise the choice becomes the current tag. The exam starts exactly when that tag's bank is non-empty: exam mode, a copy of the bank, zero counters, one entry asked with its index the only used one, no new record. Otherwise no exam state changes |
| Quiz.Session.StartExam | script.js:473-503 | without a tag, the working bank is filed under the default tag and selected. The exam starts exactly when the tag's bank is non-empty, as for the live start. Otherwise no exam state changes |
| Quiz.Session.SelectTag | script.js:475-479 | the default-tag fallback of `startExam` |
| Quiz.Session.ResetExam | script.js:488-498 | the exam state both starts set up |
| Quiz.Session.BeginExam | script.js:488-503 | the reset and first question shared by both starts: the state is valid and the exam has begun over the bank |
| Quiz.Session.SwitchMode | script.js:412-423 | the mode is set. Outside an exam nothing else changes. During an exam a new question is asked in the new mode, or the exam ends with its record when nothing is left |
| Quiz.Session.NextWord | script.js:865-868 | asks the next question as `generateQuestion` does, or ends the exam, and clears `waitingForNext` |
| Quiz.Session.CheckAnswer | script.js:730-769 | no question or an empty answer changes nothing; otherwise the grade decides, a right answer adds one to `correct`, a wrong one adds one to `wrong`, records the miss and waits for the next word; the book keeps one entry per word |
| Quiz.Session.Tally | script.js:750-769 | the counter and wrong-words updates of one graded answer |
| Storage.UpgradeSchema | storageManager.js:37-58 | the upgrade keeps every existing store and creates exactly the required stores that are missing |
| Storage.UpgradeIdempotent | storageManager.js:41-57 | a second upgrade creates nothing |
| Storage.LocalSaveLoad | storageManager.js:99-127 | through localStorage, a value saved and loaded comes back when it is a string that is not JSON text, or when the codec round-trips it |
| Storage.LocalJsonStringComesBackParsed | storageManager.js:101-119 | a saved string that is JSON text comes back as the parsed value, not as the string |
| Storage.LocalRemoveThenLoad | storageManager.js:111-138 | after a remove the key loads as null and every other key loads as before |
| Storage.IdbSaveLoad | storageManager.js:141-183 | through the `settings` store any value saved comes back as itself, and other keys are unaffected |
| Storage.IdbRemoveThenLoad | storageManager.js:163-205 | after a delete the key loads as null and every other key loads as before |
| Storage.ApiGuard | storageManager.js:208-274 | with no endpoint every API operation fails the same way, whatever the server would answer |
| Storage.ApiLoadOutcomes | storageManager.js:240-268 | an API load gives null exactly for a 404 or null data, an HTTP error exactly for another failure status, the data on success |
| Storage.StorageManager.constructor | storageManager.js:5-12 | the configured type, endpoint and timeout, falsy ones replaced by the defaults, and no connection |
| Storage.StorageManager.Init | storageManager.js:15-20 | only the IndexedDB type opens the database; any other type resolves with the connection untouched |
| Storage.StorageManager.InitIndexedDB | storageManager.js:23-60 | resolves exactly when the open succeeds; the connection is kept, after an upgrade if one ran, whenever a handler received it |
| Storage.StorageManager.Save | storageManager.js:63-72 | dispatches on the type: only localStorage or only `settings` changes, and only when its backend succeeds |
| Storage.StorageManager.Load | storageManager.js:75-84 | dispatches on the type to the backend's load |
| Storage.StorageManager.Remove | storageManager.js:87-96 | dispatches on the type: only localStorage or only `settings` changes, and only when its backend succeeds |
| Storage.StorageManager.SaveToLocalStorage | storageManager.js:99-108 | a string is stored as it is, any other value as its JSON text; a throwing store rejects and changes nothing |
| Storage.StorageManager.LoadFromLocalStorage | storageManager.js:111-127 | null for a missing key, the parsed value for JSON text, the raw string otherwise; a throwing store rejects |
| Storage.StorageManager.RemoveFromLocalStorage | storageManager.js:130-138 | the key is removed unless the store throws |
| Storage.StorageManager.SaveToIndexedDB | storageManager.js:141-160 | rejects without a connection or on a request error, changing nothing; otherwise the key maps to the value |
| Storage.StorageManager.LoadFromIndexedDB | storageManager.js:163-183 | rejects without a connection or on a request error; otherwise the record's value or null |
| Storage.StorageManager.RemoveFromIndexedDB | storageManager.js:186-205 | rejects without a connection or on a request error, changing nothing; otherwise the key is gone |
| Storage.StorageManager.SaveToApi | storageManager.js:208-237 | fails without an endpoint before any request; otherwise succeeds exactly on a reply with an ok status |
| Storage.StorageManager.LoadFromApi | storageManager.js:240-268 | fails without an endpoint; 404 is null; another failure status is an error; success gives the body's data |
| Storage.StorageManager.RemoveFromApi | storageManager.js:271-296 | fails without an endpoint before any request; otherwise succeeds exactly on a reply with an ok status |
| Storage.StorageManager.Respond | storageManager.js:226-232 | no reply is a network error, a failure status an HTTP error with that status, an ok status success |
| StorageAdapter.Normalise | storageAdapter.js:25-26 | `getItem` returns null exactly for a null value |
| StorageAdapter.ToSave | storageAdapter.js:38-46 | a non-string, or a string that is not JSON text, is handed over as it is |
| StorageAdapter.LocalRoundTrip | storageAdapter.js:34-46 | through localStorage, `setItem` then `getItem` gives back a string that is not JSON text |
| StorageAdapter.IdbRoundTrip | storageAdapter.js:34-46 | through IndexedDB, `setItem` then `getItem` gives back a string that is not JSON text |
| StorageAdapter.JsonTextRoundTrip | storageAdapter.js:34-46 | JSON text of a value that is neither a string nor null comes back as the canonical text of the same value |
| StorageAdapter.QuotedStringLosesQuotes | storageAdapter.js:38-46 | the JSON text of a string comes back without its quotes |
| StorageAdapter.NullTextReadsAsMissing | storageAdapter.js:21-46 | the text `null` is stored as null and read back as a missing key |
| StorageAdapter.Adapter.constructor | storageAdapter.js:5 | the adapter starts uninitialised |
| StorageAdapter.Adapter.InitStorage | storageAdapter.js:7-18 | once initialised nothing happens; otherwise a successful `init` sets the flag and a failed one switches the manager to localStorage |
| StorageAdapter.Adapter.InitStorageTwice | storageAdapter.js:7-18 | two calls always leave the adapter initialised; IndexedDB stays in use only if it opened; after a failed first open, whether before or after the upgrade, the second call does not touch the connection, which stays as the first call left it |
| StorageAdapter.Adapter.GetItem | storageAdapter.js:21-31 | initialises, then returns the loaded value normalised, or null on any error |
| StorageAdapter.Adapter.SetItem | storageAdapter.js:34-51 | initialises, then saves the parsed string or the value as given; errors leave the stores unchanged and are swallowed |
| StorageAdapter.Adapter.RemoveItem | storageAdapter.js:54-61 | initialises, then removes the key; errors leave the stores unchanged and are swallowed |
| StorageAdapter.Adapter.SetThenGet | storageAdapter.js:21-51 | with the localStorage backend, `setItem(k, s)` then `getItem(k)` returns `s` for any string that is not JSON text |

## Left out

- DOM and UI glue is not modelled: `elements`, rendering, `alert`/`confirm` and the `show*`/`view*` functions. The user's confirmation in `removeTag` is a boolean parameter.
- Speech synthesis and the `setTimeout` delays are not modelled. So `currentWordForSpeaking` and the automatic `nextWord` after a right answer are left out.
- `initApp` is not modelled. It restores the working bank, the tags, the counters, the book and the records from storage, through `JSON.parse`. The session starts from the constructor's state instead.
- `loadSelectedTag` and `loadWrongWords` are not modelled because nothing in `script.js` calls them or binds them to a control.
- `startExam` is also never called: the start button opens the tag choice (`showTagSelection`), and its confirm button runs `startExamWithSelectedTag`. Both are modelled. The live start makes the choice the current tag before its empty-bank check, and it never files the working bank under `系统默认`.
- `examStartTime` is not modelled because nothing reads it.
- The `setItem` persistence calls that the quiz operations issue are not modelled inside `Session`. Their errors are swallowed by the adapter, which is modelled separately.
- Quiz.Session.FinishExam, Quiz.Session.SaveWordBank and Quiz.Session.CleanWrongWords: each session handler is taken as one atomic step. In the source, each changes state on both sides of an awaited `setItem`, and with the IndexedDB backend another handler can run in that gap:
  - `finishExam` appends the record, awaits its save, and only then clears `examMode` (script.js:707-716). A second `nextWord` or `endExam` in the gap finishes the exam again and appends the same record twice.
  - `saveWordBank` parses the bank, awaits two saves, and only then resets the counters (script.js:433-458).
  - `cleanWrongWords` empties the book, awaits its save, and only then deletes the `错题本` tag (script.js:805-810). An `addToWrongWords` in the gap leaves a non-empty book whose tag is then deleted.

  The model promises neither the duplicate records nor the book without its tag that these interleavings produce.
- Quiz.AccuracyBounds: states rounding of the exact quotient. The source rounds a floating-point product, which can differ at halves: 29 right of 200 gives 14 in floating point and 15 here.
- Grading.SimilarEnough: the floating-point test `1 - d / m > 0.7` is replaced by its exact integer equivalent.
- Text.ToLower: lower-cases ASCII letters only. Unicode case mapping is not modelled.
- Strings are sequences of Unicode code points, while JavaScript lengths count UTF-16 units. This changes the edit distance only for characters outside the Basic Multilingual Plane, and `clean` removes those anyway.
- Quiz.Session.AddToWrongWords: treats the book and the banks as values. The source shares one array between the book and the wrong-words tag, and an exam over that tag shares the entry objects, so a count increment also shows in the exam bank. It requires the current index to be in range. Out of range, the source throws when the book is non-empty, because the `findIndex` callback reads a field of `undefined`. With an empty book it appends an entry that holds only `wrongCount: 1`.
- Quiz.Session.CheckAnswer: where the source throws on a missing question, the model returns `NoQuestion` with nothing changed.
- Quiz.Session.StartExam: the random draw is a parameter, and a draw outside the available list is read as the first available word. The same holds for Quiz.Session.StartExamWithSelectedTag.
- Tag lookups other than the `addTag` guard use the map's own keys: the tags they receive come from `Object.keys` of the map or from the constants, never from an inherited name.
- Storage.StorageManager.constructor: only `""` and `0` are treated as falsy configuration values. `null`, `undefined`, `NaN` and `false` are not representable.
- `JSON.parse` and `JSON.stringify` are given functions. Their text format is not modelled. The lemmas that need it assume the round trip `parse(stringify(v)) == v`.
- The `fetch` request, its URL and body, the `AbortController` timeout and `response.json()` are not modelled. Save and remove through the API resolve with no value: the JSON body they return is dropped. A reply whose body is not JSON, and an absent `data` field (`undefined`), are not representable.
- IndexedDB transactions, callbacks, the `blocked` and version-change events, and the object stores other than `settings` are not modelled beyond their names. A request or transaction failure is one boolean parameter.
- Two overlapping asynchronous `initStorage` calls are not modelled: calls are taken one at a time.
