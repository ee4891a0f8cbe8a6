/**
 * The quiz bookkeeping of the word tool: the tagged word banks, the wrong-words book,
 * question selection, answer checking and exam records. `Session` holds the fields of the
 * application state that these operations read and update; the pure functions beside it
 * specify the list and map updates and carry the lemmas.
 */
module Quiz {
  import opened Wrappers
  import opened Text
  import opened WordBank
  import opened Grading

  /** The reserved tag that mirrors the wrong-words book. */
  const WrongWordsTag: string := "错题本"
  /** The tag a save without a current tag writes to. */
  const DefaultTag: string := "系统默认"
  /** The tag an exam record gets when there is no current tag. */
  const UnknownTag: string := "未知"
  /** The dictation mode: the explanation is shown and the term must be typed. */
  const DictationMode: int := 1

  /** Two records are the same entry when term and explanation agree; phonetic and count do not matter. */
  predicate SameEntry(a: Word, b: Word) {
    a.english == b.english && a.explanation == b.explanation
  }

  /** No two records of the list are the same entry. */
  predicate DistinctEntries(ws: seq<Word>) {
    forall i, j :: 0 <= i < j < |ws| ==> !SameEntry(ws[i], ws[j])
  }

  /** `findIndex` by entry: the first index whose record is the same entry as `w`, or -1. */
  function FindIndex(ws: seq<Word>, w: Word): (r: int)
    ensures -1 <= r < |ws|
    ensures r == -1 <==> forall i :: 0 <= i < |ws| ==> !SameEntry(ws[i], w)
    ensures r >= 0 ==> SameEntry(ws[r], w) && forall i :: 0 <= i < r ==> !SameEntry(ws[i], w)
  {
    if ws == [] then -1
    else if SameEntry(ws[0], w) then 0
    else
      var k := FindIndex(ws[1..], w);
      if k == -1 then -1 else k + 1
  }

  /** The wrong-words list after missing `w`: its entry's count goes up by one, or it is appended with count 1. */
  function RecordMiss(ws: seq<Word>, w: Word): seq<Word> {
    var k := FindIndex(ws, w);
    if k >= 0 then ws[k := ws[k].(wrongCount := ws[k].wrongCount + 1)]
    else ws + [w.(wrongCount := 1)]
  }

  /** Missing a word already in the book adds one to its count and leaves the list otherwise as it was. */
  lemma RecordMissExisting(ws: seq<Word>, w: Word, k: nat)
    requires DistinctEntries(ws) && k < |ws| && SameEntry(ws[k], w)
    ensures var r := RecordMiss(ws, w);
      && |r| == |ws|
      && r[k] == ws[k].(wrongCount := ws[k].wrongCount + 1)
      && forall i :: 0 <= i < |ws| && i != k ==> r[i] == ws[i]
  {
    var f := FindIndex(ws, w);
    if f != k {
      assert f < k;
      assert SameEntry(ws[f], ws[k]);
    }
  }

  /** Missing a word not in the book appends it with count 1 and keeps every earlier entry. */
  lemma RecordMissNew(ws: seq<Word>, w: Word)
    requires forall i :: 0 <= i < |ws| ==> !SameEntry(ws[i], w)
    ensures var r := RecordMiss(ws, w);
      && |r| == |ws| + 1
      && r[..|ws|] == ws
      && r[|ws|] == w.(wrongCount := 1)
  {
  }

  /** The book never gets a second entry for a word: distinct entries stay distinct, and the missed word is in it. */
  lemma RecordMissKeepsDistinct(ws: seq<Word>, w: Word)
    requires DistinctEntries(ws)
    ensures DistinctEntries(RecordMiss(ws, w))
    ensures exists k :: 0 <= k < |RecordMiss(ws, w)| && SameEntry(RecordMiss(ws, w)[k], w)
  {
    var r := RecordMiss(ws, w);
    var f := FindIndex(ws, w);
    if f >= 0 {
      assert forall i :: 0 <= i < |r| ==> SameEntry(r[i], ws[i]);
      assert SameEntry(r[f], w);
    } else {
      assert forall i :: 0 <= i < |ws| ==> r[i] == ws[i];
      assert SameEntry(r[|ws|], w);
    }
  }

  /** A word missed twice that was not in the book is in it once, with count 2. */
  lemma MissedTwiceCountsTwo(ws: seq<Word>, w: Word)
    requires forall i :: 0 <= i < |ws| ==> !SameEntry(ws[i], w)
    ensures var r := RecordMiss(RecordMiss(ws, w), w);
      |r| == |ws| + 1 && r[|ws|] == w.(wrongCount := 2)
  {
    var r1 := RecordMiss(ws, w);
    RecordMissNew(ws, w);
    assert FindIndex(r1, w) == |ws| by {
      assert forall i :: 0 <= i < |ws| ==> r1[i] == ws[i];
    }
  }

  /** The indices from `i` up to `n` that are not in `used`, in increasing order. */
  function AvailableIndicesFrom(n: nat, used: seq<int>, i: nat): (r: seq<nat>)
    requires i <= n
    decreases n - i
    ensures forall p :: 0 <= p < |r| ==> i <= r[p] < n && r[p] !in used
    ensures forall k :: i <= k < n && k !in used ==> k in r
  {
    if i == n then [] else (if i in used then [] else [i]) + AvailableIndicesFrom(n, used, i + 1)
  }

  /** Strictly increasing. */
  predicate Increasing(r: seq<nat>) {
    forall p, q :: 0 <= p < q < |r| ==> r[p] < r[q]
  }

  /** The unused indices come in increasing order, so the filter keeps the bank's order. */
  lemma {:induction false} AvailableIndicesIncreasing(n: nat, used: seq<int>, i: nat)
    requires i <= n
    decreases n - i
    ensures Increasing(AvailableIndicesFrom(n, used, i))
  {
    if i < n {
      AvailableIndicesIncreasing(n, used, i + 1);
      var rest := AvailableIndicesFrom(n, used, i + 1);
      if i !in used {
        assert forall p :: 0 <= p < |rest| ==> i < rest[p];
        PrependIncreasing(i, rest);
      }
    }
  }

  /** A value below every element may go in front of an increasing sequence. */
  lemma PrependIncreasing(x: nat, r: seq<nat>)
    requires Increasing(r) && forall p :: 0 <= p < |r| ==> x < r[p]
    ensures Increasing([x] + r)
  {
    var s := [x] + r;
    forall p, q | 0 <= p < q < |s| ensures s[p] < s[q] {
      assert s[q] == r[q - 1];
      if p > 0 {
        assert s[p] == r[p - 1];
      }
    }
  }

  /** The indices of the exam bank not yet asked. */
  function AvailableIndices(bank: seq<Word>, used: seq<int>): seq<nat> {
    AvailableIndicesFrom(|bank|, used, 0)
  }

  /** `currentWordBank.filter((word, index) => !usedWords.includes(index))`. */
  function Available(bank: seq<Word>, used: seq<int>): (r: seq<Word>)
    ensures |r| <= |bank|
    ensures forall w :: w in r <==> exists k :: 0 <= k < |bank| && k !in used && bank[k] == w
  {
    var idx := AvailableIndices(bank, used);
    var r := seq(|idx|, p requires 0 <= p < |idx| => bank[idx[p]]);
    AvailableMembers(bank, used, idx, r);
    r
  }

  /** The filtered list's members are exactly the bank's entries at unused indices. */
  lemma AvailableMembers(bank: seq<Word>, used: seq<int>, idx: seq<nat>, r: seq<Word>)
    requires idx == AvailableIndices(bank, used)
    requires |r| == |idx| && forall p :: 0 <= p < |idx| ==> r[p] == bank[idx[p]]
    ensures |r| <= |bank|
    ensures forall w :: w in r <==> exists k :: 0 <= k < |bank| && k !in used && bank[k] == w
  {
    AvailableIndicesBound(|bank|, used, 0);
    forall k | 0 <= k < |bank| && k !in used ensures bank[k] in r {
      var p :| 0 <= p < |idx| && idx[p] == k;
      assert r[p] == bank[k];
    }
    forall w | w in r ensures exists k :: 0 <= k < |bank| && k !in used && bank[k] == w {
      var p :| 0 <= p < |r| && r[p] == w;
      assert bank[idx[p]] == w;
    }
  }

  /** At most `n - i` indices are left from `i` on. */
  lemma {:induction false} AvailableIndicesBound(n: nat, used: seq<int>, i: nat)
    requires i <= n
    decreases n - i
    ensures |AvailableIndicesFrom(n, used, i)| <= n - i
  {
    if i < n {
      AvailableIndicesBound(n, used, i + 1);
    }
  }

  /** Nothing is left to ask exactly when every index of the bank has been used. */
  lemma AvailableEmptyIff(bank: seq<Word>, used: seq<int>)
    ensures Available(bank, used) == [] <==> forall k :: 0 <= k < |bank| ==> k in used
  {
    var idx := AvailableIndices(bank, used);
    if exists k :: 0 <= k < |bank| && k !in used {
      var k :| 0 <= k < |bank| && k !in used;
      assert k in idx;
    }
    if idx != [] {
      assert idx[0] < |bank| && idx[0] !in used;
    }
  }

  /** Without duplicate entries, the index recorded for the picked word is its own, and it had not been used. */
  lemma PickIsFresh(bank: seq<Word>, used: seq<int>, pick: nat)
    requires DistinctEntries(bank) && pick < |Available(bank, used)|
    ensures var k := FindIndex(bank, Available(bank, used)[pick]);
      0 <= k < |bank| && k !in used && k == AvailableIndices(bank, used)[pick]
  {
    var j := AvailableIndices(bank, used)[pick];
    var k := FindIndex(bank, bank[j]);
    assert k <= j;
  }

  /**
   * With a duplicate entry, the later copy is never the index `findIndex` returns, so it
   * is never marked used and stays available: the exam never runs out of questions.
   */
  lemma DuplicateNeverMarkedUsed(bank: seq<Word>, used: seq<int>, i: nat, j: nat, w: Word)
    requires i < j < |bank| && SameEntry(bank[i], bank[j]) && j !in used
    ensures FindIndex(bank, w) != j
    ensures Available(bank, used) != []
  {
    if FindIndex(bank, w) == j {
      assert SameEntry(bank[i], w);
    }
    AvailableEmptyIff(bank, used);
  }

  /** `Math.round(correct / total * 100)` over exact rationals, halves rounded up; 0 without answers. */
  function Accuracy(correct: nat, wrong: nat): nat {
    var total := correct + wrong;
    if total > 0 then (200 * correct + total) / (2 * total) else 0
  }

  /** Euclidean division by a positive divisor, as the bounds on its quotient. */
  lemma DivBounds(n: nat, d: nat)
    requires d > 0
    ensures d * (n / d) <= n < d * (n / d) + d
  {
  }

  /** A larger factor gives a larger product. */
  lemma MulMonotone(d: nat, x: nat, y: nat)
    requires x <= y
    ensures d * x <= d * y
  {
    assert d * y == d * x + d * (y - x);
  }

  /** The accuracy is a percentage, and the nearest integer to `100 * correct / total` (halves up). */
  lemma AccuracyBounds(correct: nat, wrong: nat)
    ensures Accuracy(correct, wrong) <= 100
    ensures correct + wrong > 0 ==>
      var t, a := correct + wrong, Accuracy(correct, wrong);
      2 * t * a <= 200 * correct + t < 2 * t * a + 2 * t
  {
    var t := correct + wrong;
    if t > 0 {
      var a := Accuracy(correct, wrong);
      var n := 200 * correct + t;
      var d := 2 * t;
      assert a == n / d;
      DivBounds(n, d);
      assert n <= 201 * t;
      if a > 100 {
        MulMonotone(d, 101, a);
        assert false;
      }
    }
  }

  /** A perfect exam scores 100, an exam without a right answer 0. */
  lemma AccuracyExtremes(correct: nat, wrong: nat)
    ensures correct > 0 && wrong == 0 ==> Accuracy(correct, wrong) == 100
    ensures correct == 0 ==> Accuracy(correct, wrong) == 0
  {
    var t := correct + wrong;
    if t > 0 {
      var d := 2 * t;
      var a := Accuracy(correct, wrong);
      DivBounds(200 * correct + t, d);
      if correct > 0 && wrong == 0 {
        assert 200 * correct + t == d * 100 + t;
        if a < 100 {
          MulMonotone(d, a + 1, 100);
        } else if a > 100 {
          MulMonotone(d, 101, a);
        }
      } else if correct == 0 {
        if a > 0 {
          MulMonotone(d, 1, a);
        }
      }
    }
  }

  /** One finished exam. */
  datatype ExamRecord = ExamRecord(tag: string, timestamp: string, correct: nat, wrong: nat, accuracy: nat)

  /** JavaScript truthiness of the current tag: present and not the empty string. */
  predicate HasTag(tag: Option<string>) {
    tag.Some? && tag.value != ""
  }

  /** The record `finishExam` appends: the current tag or `未知`, the counters, the accuracy. */
  function ExamRecordFor(tag: Option<string>, timestamp: string, correct: nat, wrong: nat): (r: ExamRecord)
    ensures r.tag != ""
    ensures r.accuracy <= 100
  {
    AccuracyBounds(correct, wrong);
    ExamRecord(if HasTag(tag) then tag.value else UnknownTag, timestamp, correct, wrong, Accuracy(correct, wrong))
  }

  /** The tag `saveWordBank` files the bank under: the current tag, unless it is missing, empty or the wrong-words tag. */
  function SaveTarget(currentTag: Option<string>): (r: string)
    ensures r != "" && r != WrongWordsTag
    ensures HasTag(currentTag) && currentTag.value != WrongWordsTag ==> r == currentTag.value
  {
    if HasTag(currentTag) && currentTag.value != WrongWordsTag then currentTag.value else DefaultTag
  }

  /** How `checkAnswer` ends. */
  datatype CheckOutcome =
    | NoQuestion   // no question yet: lower-casing the missing question throws, nothing changes
    | EmptyAnswer  // the trimmed answer is empty: an alert, nothing changes
    | Correct
    | Wrong

  /** How `addTag` ends. */
  datatype AddTagOutcome = NameMissing | TagExists | TextMissing | TagAdded

  /**
   * The properties every plain object inherits from `Object.prototype`. Looking one of
   * them up in the tag map finds a function (or the prototype itself), which is truthy.
   */
  const InheritedNames: set<string> := {
    "constructor", "hasOwnProperty", "isPrototypeOf", "propertyIsEnumerable",
    "toString", "toLocaleString", "valueOf", "__proto__",
    "__defineGetter__", "__defineSetter__", "__lookupGetter__", "__lookupSetter__"
  }

  /** The truthiness test `taggedWordBanks[name]`: an own tag (banks are arrays, always truthy) or an inherited name. */
  predicate TagLookupTruthy(banks: map<string, seq<Word>>, name: string) {
    name in banks || name in InheritedNames
  }

  /** The expected answer for `w`: its term in dictation mode, its explanation otherwise. */
  function QuestionText(mode: int, w: Word): string {
    if mode == DictationMode then w.english else w.explanation
  }

  class Session {
    var taggedWordBanks: map<string, seq<Word>>
    var wordBank: seq<Word>
    var wrongWords: seq<Word>
    var currentWordBank: seq<Word>
    var usedWords: seq<int>
    var currentWordIndex: int
    var currentMode: int
    var currentQuestion: Option<string>
    var correct: nat
    var wrong: nat
    var waitingForNext: bool
    var examMode: bool
    var currentTag: Option<string>
    var examRecords: seq<ExamRecord>
    /** The word-bank editor's text. */
    var editorText: string

    /** Every used index is an index of the exam bank. */
    ghost predicate UsedInRange()
      reads this`usedWords, this`currentWordBank
    {
      forall u :: u in usedWords ==> 0 <= u < |currentWordBank|
    }

    /**
     * A question on screen belongs to an entry of the exam bank, every used index is one
     * of the bank's, and the wrong-words book holds at most one entry per word.
     */
    ghost predicate Valid()
      reads this`currentQuestion, this`currentWordIndex, this`usedWords, this`currentWordBank, this`wrongWords
    {
      && (currentQuestion.Some? ==> 0 <= currentWordIndex < |currentWordBank|)
      && UsedInRange()
      && DistinctEntries(wrongWords)
    }

    /** The initial application state: no banks, no question, dictation mode, zero counters. */
    constructor()
      ensures Valid()
      ensures taggedWordBanks == map[] && wordBank == [] && wrongWords == [] && currentWordBank == []
      ensures usedWords == [] && currentWordIndex == 0 && currentMode == DictationMode
      ensures currentQuestion == None && correct == 0 && wrong == 0
      ensures !waitingForNext && !examMode && currentTag == None && examRecords == [] && editorText == ""
    {
      taggedWordBanks := map[];
      wordBank := [];
      wrongWords := [];
      currentWordBank := [];
      usedWords := [];
      currentWordIndex := 0;
      currentMode := DictationMode;
      currentQuestion := None;
      correct := 0;
      wrong := 0;
      waitingForNext := false;
      examMode := false;
      currentTag := None;
      examRecords := [];
      editorText := "";
    }

    /** `loadTagContent`: selects the tag, then, if it has a bank, puts the bank's text in the editor. */
    method LoadTagContent(tag: string) returns (loaded: bool)
      modifies this`currentTag, this`editorText
      ensures currentTag == Some(tag)
      ensures loaded <==> tag in taggedWordBanks
      ensures loaded ==> editorText == SerializedText(taggedWordBanks[tag])
      ensures !loaded ==> editorText == old(editorText)
    {
      currentTag := Some(tag);
      if tag !in taggedWordBanks {
        return false;
      }
      editorText := SerializeWordBank(taggedWordBanks[tag]);
      loaded := true;
    }

    /** `addTag`: a new tag, named by the trimmed input, holding the parsed editor text. */
    method AddTag(nameInput: string) returns (outcome: AddTagOutcome)
      modifies this`taggedWordBanks
      ensures var name := Trim(nameInput);
        && (outcome == NameMissing <==> name == "")
        && (outcome == TagExists <==> name != "" && TagLookupTruthy(old(taggedWordBanks), name))
        && (outcome == TextMissing <==> name != "" && !TagLookupTruthy(old(taggedWordBanks), name) && Trim(editorText) == "")
        && (outcome == TagAdded ==> taggedWordBanks == old(taggedWordBanks)[name := ParseText(Trim(editorText))])
        && (outcome != TagAdded ==> taggedWordBanks == old(taggedWordBanks))
    {
      var name := Trim(nameInput);
      if name == "" {
        return NameMissing;
      }
      if TagLookupTruthy(taggedWordBanks, name) {
        return TagExists;
      }
      var text := Trim(editorText);
      if text == "" {
        return TextMissing;
      }
      var bank := ParseWordBank(text);
      taggedWordBanks := taggedWordBanks[name := bank];
      outcome := TagAdded;
    }

    /** `removeTag`: deletes the tag if the user confirms; any tag, the wrong-words tag included. */
    method RemoveTag(tag: string, confirmed: bool)
      modifies this`taggedWordBanks
      ensures taggedWordBanks == if confirmed then old(taggedWordBanks) - {tag} else old(taggedWordBanks)
    {
      if confirmed {
        taggedWordBanks := taggedWordBanks - {tag};
      }
    }

    /**
     * `saveWordBank`: parses the editor text into the working bank and files it under the
     * current tag, or under `系统默认` when there is none or it is the wrong-words tag;
     * resets the counters. An empty editor changes nothing.
     */
    method SaveWordBank() returns (saved: bool)
      modifies this`wordBank, this`taggedWordBanks, this`correct, this`wrong
      ensures saved <==> Trim(editorText) != ""
      ensures !saved ==> (wordBank == old(wordBank) && taggedWordBanks == old(taggedWordBanks)
        && correct == old(correct) && wrong == old(wrong))
      ensures saved ==>
        && wordBank == ParseText(Trim(editorText))
        && taggedWordBanks == old(taggedWordBanks)[SaveTarget(currentTag) := wordBank]
        && correct == 0 && wrong == 0
    {
      var text := Trim(editorText);
      if text == "" {
        return false;
      }
      wordBank := ParseWordBank(text);
      taggedWordBanks := taggedWordBanks[SaveTarget(currentTag) := wordBank];
      correct, wrong := 0, 0;
      saved := true;
    }

    /** `addToWrongWords`: records a miss of the current word in the book and mirrors the book into its tag. */
    method AddToWrongWords()
      requires 0 <= currentWordIndex < |currentWordBank|
      modifies this`wrongWords, this`taggedWordBanks
      ensures wrongWords == RecordMiss(old(wrongWords), currentWordBank[currentWordIndex])
      ensures taggedWordBanks == old(taggedWordBanks)[WrongWordsTag := wrongWords]
      ensures DistinctEntries(old(wrongWords)) ==> DistinctEntries(wrongWords)
    {
      if DistinctEntries(wrongWords) {
        RecordMissKeepsDistinct(wrongWords, currentWordBank[currentWordIndex]);
      }
      var currentWord := currentWordBank[currentWordIndex];
      var existingIndex := FindIndex(wrongWords, currentWord);
      if existingIndex >= 0 {
        wrongWords := wrongWords[existingIndex := wrongWords[existingIndex].(wrongCount := wrongWords[existingIndex].wrongCount + 1)];
      } else {
        wrongWords := wrongWords + [currentWord.(wrongCount := 1)];
      }
      taggedWordBanks := taggedWordBanks[WrongWordsTag := wrongWords];
    }

    /** `cleanWrongWords`: empties the book and deletes its tag. */
    method CleanWrongWords()
      modifies this`wrongWords, this`taggedWordBanks
      ensures wrongWords == []
      ensures taggedWordBanks == old(taggedWordBanks) - {WrongWordsTag}
    {
      wrongWords := [];
      taggedWordBanks := taggedWordBanks - {WrongWordsTag};
    }

    /** `finishExam`: an exam with at least one answer leaves a record; the exam mode ends either way. */
    method FinishExam(timestamp: string)
      modifies this`examRecords, this`examMode
      ensures !examMode
      ensures examRecords ==
        if old(examMode) && (correct > 0 || wrong > 0)
        then old(examRecords) + [ExamRecordFor(currentTag, timestamp, correct, wrong)]
        else old(examRecords)
    {
      if examMode && (correct > 0 || wrong > 0) {
        examRecords := examRecords + [ExamRecordFor(currentTag, timestamp, correct, wrong)];
      }
      examMode := false;
    }

    /** `endExam`: finishes the exam when the user confirms; otherwise nothing changes. */
    method EndExam(confirmed: bool, timestamp: string)
      modifies this`examRecords, this`examMode
      ensures !confirmed ==> examMode == old(examMode) && examRecords == old(examRecords)
      ensures confirmed ==> (!examMode && examRecords == (
        if old(examMode) && (correct > 0 || wrong > 0)
        then old(examRecords) + [ExamRecordFor(currentTag, timestamp, correct, wrong)]
        else old(examRecords)))
    {
      if confirmed {
        FinishExam(timestamp);
      }
    }

    /**
     * `generateQuestion`: with something left to ask, asks the available word at position
     * `pick` (the random draw), marks the index `findIndex` gives for it as used and sets
     * the expected answer by mode; otherwise finishes the exam.
     */
    method GenerateQuestion(pick: nat, timestamp: string) returns (asked: bool)
      requires UsedInRange()
      requires pick < |Available(currentWordBank, usedWords)| || Available(currentWordBank, usedWords) == []
      modifies this`currentWordIndex, this`usedWords, this`currentQuestion, this`examRecords, this`examMode
      ensures UsedInRange()
      ensures asked ==> 0 <= currentWordIndex < |currentWordBank| && currentQuestion.Some?
      ensures asked <==> old(Available(currentWordBank, usedWords)) != []
      ensures asked ==>
        var w := old(Available(currentWordBank, usedWords))[pick];
        && currentWordIndex == FindIndex(currentWordBank, w)
        && usedWords == old(usedWords) + [currentWordIndex]
        && currentQuestion == Some(QuestionText(currentMode, w))
        && examMode == old(examMode) && examRecords == old(examRecords)
      ensures !asked ==> (currentWordIndex == old(currentWordIndex) && usedWords == old(usedWords)
        && currentQuestion == old(currentQuestion) && !examMode)
      ensures !asked ==> (examRecords == (
        if old(examMode) && (correct > 0 || wrong > 0)
        then old(examRecords) + [ExamRecordFor(currentTag, timestamp, correct, wrong)]
        else old(examRecords)))
    {
      if |currentWordBank| == 0 {
        FinishExam(timestamp);
        return false;
      }
      var availableWords := Available(currentWordBank, usedWords);
      if |availableWords| == 0 {
        FinishExam(timestamp);
        return false;
      }
      var selectedWord := availableWords[pick];
      currentWordIndex := FindIndex(currentWordBank, selectedWord);
      assert currentWordIndex >= 0 by {
        assert selectedWord == currentWordBank[AvailableIndices(currentWordBank, usedWords)[pick]];
      }
      usedWords := usedWords + [currentWordIndex];
      if currentMode == DictationMode {
        currentQuestion := Some(selectedWord.english);
      } else {
        currentQuestion := Some(selectedWord.explanation);
      }
      asked := true;
    }

    /**
     * `startExam`: without a current tag, files the working bank under `系统默认` and
     * selects it; then, if the tag's bank is non-empty, starts an exam over a copy of it
     * with fresh counters and asks the first question. No button is bound to it: the
     * exam is started through `StartExamWithSelectedTag`.
     */
    method StartExam(pick: nat, timestamp: string) returns (started: bool)
      requires Valid()
      modifies this`currentTag, this`taggedWordBanks, this`examMode, this`currentWordBank, this`usedWords
      modifies this`correct, this`wrong, this`currentWordIndex, this`currentQuestion, this`examRecords
      ensures Valid()
      ensures !HasTag(old(currentTag)) ==> currentTag == Some(DefaultTag) && taggedWordBanks == old(taggedWordBanks)[DefaultTag := old(wordBank)]
      ensures HasTag(old(currentTag)) ==> currentTag == old(currentTag) && taggedWordBanks == old(taggedWordBanks)
      ensures started <==> currentTag.value in taggedWordBanks && |taggedWordBanks[currentTag.value]| > 0
      ensures started ==> ExamBegun(taggedWordBanks[currentTag.value], old(examRecords))
      ensures !started ==> ExamUntouched()
    {
      SelectTag();
      var tag := currentTag.value;
      if tag !in taggedWordBanks || |taggedWordBanks[tag]| == 0 {
        return false;
      }
      BeginExam(taggedWordBanks[tag], pick, timestamp);
      started := true;
    }

    /**
     * `startExamWithSelectedTag`, the start the confirm button runs: an empty choice
     * changes nothing; otherwise the chosen tag becomes current and, if its bank is
     * non-empty, an exam starts over a copy of it with fresh counters and a first question.
     */
    method StartExamWithSelectedTag(selectedTag: string, pick: nat, timestamp: string) returns (started: bool)
      requires Valid()
      modifies this`currentTag, this`examMode, this`currentWordBank, this`usedWords
      modifies this`correct, this`wrong, this`currentWordIndex, this`currentQuestion, this`examRecords
      ensures Valid()
      ensures currentTag == if selectedTag == "" then old(currentTag) else Some(selectedTag)
      ensures started <==> selectedTag != "" && selectedTag in taggedWordBanks && |taggedWordBanks[selectedTag]| > 0
      ensures started ==> ExamBegun(taggedWordBanks[selectedTag], old(examRecords))
      ensures !started ==> ExamUntouched()
    {
      if selectedTag == "" {
        return false;
      }
      currentTag := Some(selectedTag);
      if selectedTag !in taggedWordBanks || |taggedWordBanks[selectedTag]| == 0 {
        return false;
      }
      BeginExam(taggedWordBanks[selectedTag], pick, timestamp);
      started := true;
    }

    /**
     * A freshly started exam over `bank`: exam mode, zero counters, one word asked (an
     * entry of the bank, whose index is the only used one) and no new record.
     */
    ghost predicate ExamBegun(bank: seq<Word>, records: seq<ExamRecord>)
      reads this`examMode, this`correct, this`wrong, this`currentWordBank, this`usedWords
      reads this`currentWordIndex, this`currentQuestion, this`currentMode, this`examRecords
    {
      && examMode && correct == 0 && wrong == 0 && currentWordBank == bank
      && 0 <= currentWordIndex < |bank| && usedWords == [currentWordIndex]
      && currentQuestion == Some(QuestionText(currentMode, bank[currentWordIndex]))
      && examRecords == records
    }

    /** A start that did not happen leaves the exam state as it was. */
    twostate predicate ExamUntouched()
      reads this`examMode, this`correct, this`wrong, this`currentWordBank, this`usedWords
      reads this`currentWordIndex, this`currentQuestion, this`examRecords
    {
      && examMode == old(examMode) && correct == old(correct) && wrong == old(wrong)
      && currentWordBank == old(currentWordBank) && usedWords == old(usedWords)
      && currentWordIndex == old(currentWordIndex) && currentQuestion == old(currentQuestion)
      && examRecords == old(examRecords)
    }

    /** The common tail of both starts: reset the exam over `bank` and ask the first question. */
    method BeginExam(bank: seq<Word>, pick: nat, timestamp: string)
      requires |bank| > 0 && DistinctEntries(wrongWords)
      modifies this`examMode, this`currentWordBank, this`usedWords, this`correct, this`wrong
      modifies this`currentWordIndex, this`currentQuestion, this`examRecords
      ensures Valid()
      ensures ExamBegun(bank, old(examRecords))
    {
      ResetExam(bank);
      AvailableEmptyIff(currentWordBank, usedWords);
      var choice := if pick < |Available(currentWordBank, usedWords)| then pick else 0;
      var asked := GenerateQuestion(choice, timestamp);
    }

    /**
     * `switchMode`: sets the mode and, during an exam, asks a new question in that mode
     * (or finishes the exam when nothing is left).
     */
    method SwitchMode(mode: int, pick: nat, timestamp: string) returns (asked: bool)
      requires UsedInRange()
      requires examMode ==> pick < |Available(currentWordBank, usedWords)| || Available(currentWordBank, usedWords) == []
      modifies this`currentMode, this`currentWordIndex, this`usedWords, this`currentQuestion, this`examRecords, this`examMode
      ensures currentMode == mode && UsedInRange()
      ensures !old(examMode) ==> (!asked && !examMode && currentWordIndex == old(currentWordIndex)
        && usedWords == old(usedWords) && currentQuestion == old(currentQuestion) && examRecords == old(examRecords))
      ensures asked <==> old(examMode) && old(Available(currentWordBank, usedWords)) != []
      ensures asked ==>
        var w := old(Available(currentWordBank, usedWords))[pick];
        && currentWordIndex == FindIndex(currentWordBank, w)
        && usedWords == old(usedWords) + [currentWordIndex]
        && currentQuestion == Some(QuestionText(mode, w))
        && examMode && examRecords == old(examRecords)
      ensures old(examMode) && !asked ==> (!examMode && examRecords == (
        if correct > 0 || wrong > 0
        then old(examRecords) + [ExamRecordFor(currentTag, timestamp, correct, wrong)]
        else old(examRecords)))
    {
      currentMode := mode;
      asked := false;
      if examMode {
        asked := GenerateQuestion(pick, timestamp);
      }
    }

    /** `nextWord`: asks the next question (or finishes the exam) and stops waiting. */
    method NextWord(pick: nat, timestamp: string) returns (asked: bool)
      requires UsedInRange()
      requires pick < |Available(currentWordBank, usedWords)| || Available(currentWordBank, usedWords) == []
      modifies this`currentWordIndex, this`usedWords, this`currentQuestion, this`examRecords, this`examMode, this`waitingForNext
      ensures !waitingForNext && UsedInRange()
      ensures asked <==> old(Available(currentWordBank, usedWords)) != []
      ensures asked ==>
        var w := old(Available(currentWordBank, usedWords))[pick];
        && currentWordIndex == FindIndex(currentWordBank, w)
        && usedWords == old(usedWords) + [currentWordIndex]
        && currentQuestion == Some(QuestionText(currentMode, w))
        && examMode == old(examMode) && examRecords == old(examRecords)
      ensures !asked ==> (!examMode && examRecords == (
        if old(examMode) && (correct > 0 || wrong > 0)
        then old(examRecords) + [ExamRecordFor(currentTag, timestamp, correct, wrong)]
        else old(examRecords)))
    {
      asked := GenerateQuestion(pick, timestamp);
      waitingForNext := false;
    }

    /** The first step of `startExam`: fall back to the working bank under `系统默认` when no tag is selected. */
    method SelectTag()
      modifies this`currentTag, this`taggedWordBanks
      ensures currentTag.Some?
      ensures !HasTag(old(currentTag)) ==> currentTag == Some(DefaultTag) && taggedWordBanks == old(taggedWordBanks)[DefaultTag := wordBank]
      ensures HasTag(old(currentTag)) ==> currentTag == old(currentTag) && taggedWordBanks == old(taggedWordBanks)
    {
      if !HasTag(currentTag) {
        currentTag := Some(DefaultTag);
        taggedWordBanks := taggedWordBanks[DefaultTag := wordBank];
      }
    }

    /** The exam state `startExam` sets up: exam mode, a copy of the bank, no used words, zero counters. */
    method ResetExam(bank: seq<Word>)
      modifies this`examMode, this`currentWordBank, this`usedWords, this`correct, this`wrong
      ensures examMode && currentWordBank == bank && usedWords == [] && correct == 0 && wrong == 0
      ensures UsedInRange()
    {
      examMode := true;
      currentWordBank := bank;
      usedWords := [];
      correct, wrong := 0, 0;
    }

    /** `checkAnswer`: grades the answer against the current question and updates the counters and the book. */
    method CheckAnswer(answer: string) returns (outcome: CheckOutcome)
      requires Valid()
      modifies this`correct, this`wrong, this`wrongWords, this`taggedWordBanks, this`waitingForNext
      ensures Valid()
      ensures outcome == NoQuestion <==> old(currentQuestion) == None
      ensures outcome == EmptyAnswer <==> old(currentQuestion) != None && Trim(answer) == ""
      ensures outcome in {NoQuestion, EmptyAnswer} ==> (
        correct == old(correct) && wrong == old(wrong) && wrongWords == old(wrongWords)
        && taggedWordBanks == old(taggedWordBanks) && waitingForNext == old(waitingForNext))
      ensures outcome in {Correct, Wrong} ==>
        outcome == (if Grade(currentMode, answer, currentQuestion.value) then Correct else Wrong)
      ensures outcome == Correct ==> (
        correct == old(correct) + 1 && wrong == old(wrong) && wrongWords == old(wrongWords)
        && taggedWordBanks == old(taggedWordBanks) && waitingForNext == old(waitingForNext))
      ensures outcome == Wrong ==>
        && wrong == old(wrong) + 1 && correct == old(correct) && waitingForNext
        && wrongWords == RecordMiss(old(wrongWords), currentWordBank[currentWordIndex])
        && taggedWordBanks == old(taggedWordBanks)[WrongWordsTag := wrongWords]
    {
      if currentQuestion.None? {
        return NoQuestion;
      }
      var userAnswer := ToLower(Trim(answer));
      if userAnswer == "" {
        return EmptyAnswer;
      }
      var isCorrect := GradeAnswer(currentMode, answer, currentQuestion.value);
      outcome := Tally(isCorrect);
    }

    /** The counting half of `checkAnswer`: a right answer scores, a wrong one scores and goes into the book. */
    method Tally(isCorrect: bool) returns (outcome: CheckOutcome)
      requires Valid() && currentQuestion.Some?
      modifies this`correct, this`wrong, this`wrongWords, this`taggedWordBanks, this`waitingForNext
      ensures Valid()
      ensures outcome == if isCorrect then Correct else Wrong
      ensures isCorrect ==> (
        correct == old(correct) + 1 && wrong == old(wrong) && wrongWords == old(wrongWords)
        && taggedWordBanks == old(taggedWordBanks) && waitingForNext == old(waitingForNext))
      ensures !isCorrect ==>
        && wrong == old(wrong) + 1 && correct == old(correct) && waitingForNext
        && wrongWords == RecordMiss(old(wrongWords), currentWordBank[currentWordIndex])
        && taggedWordBanks == old(taggedWordBanks)[WrongWordsTag := wrongWords]
    {
      if isCorrect {
        correct := correct + 1;
        outcome := Correct;
      } else {
        wrong := wrong + 1;
        AddToWrongWords();
        waitingForNext := true;
        outcome := Wrong;
      }
    }
  }
}
