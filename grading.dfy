/**
 * How an answer is graded. Dictation mode (mode 1) compares the trimmed, lower-cased answer
 * with the lower-cased expected term. Every other mode asks `IsSimilarAnswer`: both sides
 * are normalised by `Clean`, then accepted when equal, when one contains the other, or
 * when the edit distance is under 30% of the longer one.
 */
module Grading {
  import opened Text
  import opened Levenshtein
  import opened Wrappers

  /** The part-of-speech abbreviations `clean` strips, in the order the pattern tries them. */
  const PosTags: seq<string> := ["adj", "adv", "n", "vt", "vi", "prep", "conj", "pron", "num", "art", "int"]

  /** The word characters of `\b`: ASCII letters, digits and `_`. */
  predicate IsWordChar(c: char) {
    ('a' <= c <= 'z') || ('A' <= c <= 'Z') || ('0' <= c <= '9') || c == '_'
  }

  /** `\b` at position `i`: a word character on exactly one side. */
  predicate AtWordBoundary(s: string, i: nat)
    requires i <= |s|
  {
    (i > 0 && IsWordChar(s[i - 1])) != (i < |s| && IsWordChar(s[i]))
  }

  /** The first abbreviation, from the `k`-th on, that starts at position `i` of `s`; its length. */
  function FirstTag(s: string, i: nat, k: nat): (r: Option<nat>)
    requires i <= |s| && k <= |PosTags|
    decreases |PosTags| - k
    ensures r.Some? ==> 0 < r.value <= |s| - i
  {
    if k == |PosTags| then None
    else if StartsWith(s[i..], PosTags[k]) then Some(|PosTags[k]|)
    else FirstTag(s, i, k + 1)
  }

  /** The length of the `\b(adj|...|int)\.?` match at `i`, if any: the abbreviation and an optional dot. */
  function TagMatchAt(s: string, i: nat): (r: Option<nat>)
    requires i <= |s|
    ensures r.Some? ==> 0 < r.value <= |s| - i
  {
    if !AtWordBoundary(s, i) then None
    else match FirstTag(s, i, 0)
      case None => None
      case Some(n) => Some(if i + n < |s| && s[i + n] == '.' then n + 1 else n)
  }

  /** The global replace of the abbreviation pattern from position `i`: matches are removed, other characters kept. */
  function StripTagsFrom(s: string, i: nat): (r: string)
    requires i <= |s|
    decreases |s| - i
    ensures |r| <= |s| - i
  {
    if i == |s| then ""
    else match TagMatchAt(s, i)
      case Some(n) => StripTagsFrom(s, i + n)
      case None => [s[i]] + StripTagsFrom(s, i + 1)
  }

  /** The characters of `s` that satisfy `keep`, in order. */
  function Filter(s: string, keep: char -> bool): (r: string)
    ensures |r| <= |s|
    ensures forall i :: 0 <= i < |r| ==> keep(r[i])
  {
    if s == [] then "" else (if keep(s[0]) then [s[0]] else "") + Filter(s[1..], keep)
  }

  /** Not matched by `[&;，。、\s]`. */
  predicate IsNotSeparator(c: char) {
    !(c == '&' || c == ';' || c == '，' || c == '。' || c == '、' || IsSpace(c))
  }

  /** Matched by `[a-zA-Z一-龥]`: the characters the last replace keeps. */
  predicate IsKeptChar(c: char) {
    ('a' <= c <= 'z') || ('A' <= c <= 'Z') || ('一' <= c <= '龥')
  }

  /** `clean`: lower-case, strip abbreviations, drop separators, keep letters and CJK ideographs, trim. */
  function Clean(s: string): string {
    Trim(Filter(Filter(StripTagsFrom(ToLower(s), 0), IsNotSeparator), IsKeptChar))
  }

  /** Nothing but ASCII letters and CJK ideographs survives `clean`. */
  lemma CleanKeepsOnlyLetters(s: string)
    ensures forall c :: c in Clean(s) ==> IsKeptChar(c)
  {
    var kept := Filter(Filter(StripTagsFrom(ToLower(s), 0), IsNotSeparator), IsKeptChar);
    TrimChars(kept);
    forall c | c in kept ensures IsKeptChar(c) {
      var i :| 0 <= i < |kept| && kept[i] == c;
    }
  }

  /** Every separator is outside the kept class, so the separator pass changes nothing the last pass would keep. */
  lemma {:induction false} SeparatorPassRedundant(t: string)
    ensures Filter(Filter(t, IsNotSeparator), IsKeptChar) == Filter(t, IsKeptChar)
  {
    if t != [] {
      SeparatorPassRedundant(t[1..]);
      var rest := Filter(t[1..], IsNotSeparator);
      if IsNotSeparator(t[0]) {
        var u := [t[0]] + rest;
        assert Filter(t, IsNotSeparator) == u;
        assert u[0] == t[0] && u[1..] == rest;
      } else {
        assert !IsKeptChar(t[0]);
        assert Filter(t, IsNotSeparator) == "" + rest == rest;
        assert Filter(t, IsKeptChar) == "" + Filter(t[1..], IsKeptChar) == Filter(t[1..], IsKeptChar);
      }
    }
  }

  /** The final `trim` of `clean` is a no-op: no kept character is whitespace. */
  lemma FinalTrimIsNoOp(s: string)
    ensures Clean(s) == Filter(StripTagsFrom(ToLower(s), 0), IsKeptChar)
  {
    var t := StripTagsFrom(ToLower(s), 0);
    var kept := Filter(Filter(t, IsNotSeparator), IsKeptChar);
    SeparatorPassRedundant(t);
    if kept != [] {
      assert IsKeptChar(kept[0]) && IsKeptChar(kept[|kept| - 1]);
      TrimOfTrimmed(kept);
    }
  }

  /** The longer of the two lengths. */
  function MaxLen(a: string, b: string): nat {
    if |a| <= |b| then |b| else |a|
  }

  /**
   * `1 - distance / max > 0.7`, over exact rationals: the distance is under 30% of the
   * longer length. (Two doubles equal to 3/10 are the same double, so the boundary case
   * `distance / max == 0.3` is rejected in both.)
   */
  predicate SimilarEnough(distance: int, maxLen: int) {
    10 * distance < 3 * maxLen
  }

  /** `isSimilarAnswer(userAnswer, correctAnswer)`. */
  function IsSimilarAnswer(userAnswer: string, correctAnswer: string): bool {
    var a := Clean(userAnswer);
    var b := Clean(correctAnswer);
    if a == "" || b == "" then false
    else if a == b then true
    else if Contains(b, a) || Contains(a, b) then true
    else SimilarEnough(EditDistance(a, b), MaxLen(a, b))
  }

  /** `isSimilarAnswer` as the program runs it: the edit distance comes from the table method. */
  method CheckSimilar(userAnswer: string, correctAnswer: string) returns (similar: bool)
    ensures similar == IsSimilarAnswer(userAnswer, correctAnswer)
  {
    var a := Clean(userAnswer);
    var b := Clean(correctAnswer);
    if a == "" || b == "" {
      return false;
    }
    if a == b {
      return true;
    }
    if Contains(b, a) || Contains(a, b) {
      return true;
    }
    var distance := ComputeLevenshtein(a, b);
    similar := SimilarEnough(distance, MaxLen(a, b));
  }

  /** The similarity decision does not depend on which side is the answer. */
  lemma SimilarSymmetric(u: string, c: string)
    ensures IsSimilarAnswer(u, c) == IsSimilarAnswer(c, u)
  {
    EditDistanceFacts(Clean(u), Clean(c));
  }

  /** An answer whose cleaned form is empty (only abbreviations, digits, punctuation) is never accepted. */
  lemma EmptyCleanRejected(u: string, c: string)
    requires Clean(u) == "" || Clean(c) == ""
    ensures !IsSimilarAnswer(u, c)
  {
  }

  /** A non-empty cleaned answer that occurs inside the cleaned explanation is accepted, however short. */
  lemma InfixAccepted(u: string, c: string, k: int)
    requires Clean(u) != "" && InfixAt(Clean(c), Clean(u), k)
    ensures IsSimilarAnswer(u, c)
  {
    ContainsIffInfix(Clean(c), Clean(u));
  }

  /**
   * Outside the containment cases, acceptance needs the lengths to be close: the
   * difference in length is under 30% of the longer one.
   */
  lemma AcceptedNeedsCloseLength(u: string, c: string)
    requires IsSimilarAnswer(u, c)
    requires !Contains(Clean(c), Clean(u)) && !Contains(Clean(u), Clean(c))
    ensures var a, b := Clean(u), Clean(c);
      10 * (if |a| <= |b| then |b| - |a| else |a| - |b|) < 3 * MaxLen(a, b)
  {
    var a, b := Clean(u), Clean(c);
    DistLowerBound(a, b, |a|, |b|);
  }

  /** One typo in a cleaned answer of four or more characters is tolerated. */
  lemma OneEditTolerated(u: string, c: string)
    requires Clean(u) != "" && Clean(c) != ""
    requires EditDistance(Clean(u), Clean(c)) <= 1 && MaxLen(Clean(u), Clean(c)) >= 4
    ensures IsSimilarAnswer(u, c)
  {
  }

  /** How `checkAnswer` grades a non-empty answer in a mode. */
  function Grade(mode: int, answer: string, question: string): bool {
    var userAnswer := ToLower(Trim(answer));
    var correctAnswer := ToLower(question);
    if mode == 1 then userAnswer == correctAnswer
    else IsSimilarAnswer(userAnswer, correctAnswer)
  }

  /** The grading step of `checkAnswer` as the program runs it, the similarity branch through the table method. */
  method GradeAnswer(mode: int, answer: string, question: string) returns (isCorrect: bool)
    ensures isCorrect == Grade(mode, answer, question)
  {
    var userAnswer := ToLower(Trim(answer));
    var correctAnswer := ToLower(question);
    if mode == 1 {
      isCorrect := userAnswer == correctAnswer;
    } else {
      isCorrect := CheckSimilar(userAnswer, correctAnswer);
    }
  }

  /**
   * The expected term is lower-cased but not trimmed, while the answer is trimmed: a term
   * that ends in whitespace can never be answered correctly in dictation mode.
   */
  lemma UntrimmedTermNeverCorrect(answer: string, question: string)
    requires |question| > 0 && IsSpace(question[|question| - 1])
    ensures !Grade(1, answer, question)
  {
    TrimFacts(answer);
    LowerKeepsTrimmed(Trim(answer));
    var lowered := ToLower(question);
    assert lowered[|lowered| - 1] == question[|question| - 1];
  }

  /** In dictation mode, a term is accepted when typed as-is, or with surrounding blanks, in any ASCII case. */
  lemma DictationAcceptsTerm(answer: string, question: string)
    requires Trimmed(question) && Trim(answer) == question
    ensures Grade(1, answer, question)
  {
  }

  /** In dictation mode the comparison ignores ASCII case: the answer may differ from the term only in letter case. */
  lemma DictationIgnoresCase(answer: string, question: string)
    requires Grade(1, answer, question)
    ensures |Trim(answer)| == |question|
    ensures forall i :: 0 <= i < |question| ==> LowerChar(Trim(answer)[i]) == LowerChar(question[i])
  {
    var t := Trim(answer);
    assert ToLower(t) == ToLower(question);
    forall i | 0 <= i < |question| ensures LowerChar(t[i]) == LowerChar(question[i]) {
      assert ToLower(t)[i] == ToLower(question)[i];
    }
  }

  /** In the other modes an explanation is accepted when typed back as shown, unless it cleans to nothing. */
  lemma ExplanationAcceptsItself(question: string)
    requires Trimmed(question) && Clean(ToLower(question)) != ""
    ensures Grade(2, question, question)
  {
    TrimOfTrimmed(question);
  }

  /** `n` is tried before `num`, so `num.` keeps its `um`; the dot survives the first pass and falls to the last. */
  lemma NumberAbbreviationHalfStripped()
    ensures Clean("num.") == "um"
  {
    var s := "num.";
    assert ToLower(s) == s by {
      assert forall i :: 0 <= i < |s| ==> LowerChar(s[i]) == s[i];
    }
    StripNumber();
    FinalTrimIsNoOp(s);
    KeepLettersOfNumber();
  }

  lemma KeepLettersOfNumber()
    ensures Filter("um.", IsKeptChar) == "um"
  {
    assert "um."[1..] == "m." && "m."[1..] == "." && "."[1..] == "";
    assert Filter(".", IsKeptChar) == "";
  }

  /** The abbreviation pass on `num.`: `n` goes, `um.` stays, since no boundary precedes `u` or `m`. */
  lemma StripNumber()
    ensures StripTagsFrom("num.", 0) == "um."
  {
    var s := "num.";
    assert s[0..] == s && s[..1] == "n" && s[..3] == "num";
    assert FirstTag(s, 0, 2) == Some(1);
    assert FirstTag(s, 0, 0) == Some(1);
    assert TagMatchAt(s, 0) == Some(1);
    assert !AtWordBoundary(s, 1) && !AtWordBoundary(s, 2);
    assert AtWordBoundary(s, 3) && TagMatchAt(s, 3) == None;
    assert StripTagsFrom(s, 3) == ".";
    assert StripTagsFrom(s, 2) == "m.";
  }
}
