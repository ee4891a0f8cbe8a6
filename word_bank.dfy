/**
 * The word-bank text format of the word tool. `ParseWordBank` turns free text into
 * word records, two physical lines per record. `SerializeWordBank` is the
 * `loadTagContent` template that writes records back as text. `RoundTrip` connects
 * the two.
 */
module WordBank {
  import opened Wrappers
  import opened Text

  /** One vocabulary entry: term, phonetic (possibly empty), explanation, and how often it was missed. */
  datatype Word = Word(english: string, phonetic: string, explanation: string, wrongCount: nat)

  /** The characters of the term group `[a-zA-Z\- ]` of the term-line pattern. */
  predicate IsTermChar(c: char) {
    ('a' <= c <= 'z') || ('A' <= c <= 'Z') || c == '-' || c == ' '
  }

  /** A bracketed phonetic `\[[^\]]+\]`: brackets kept, something inside, no inner `]`. */
  predicate IsBracketed(p: string) {
    |p| >= 3 && p[0] == '[' && p[|p| - 1] == ']' && forall i :: 1 <= i < |p| - 1 ==> p[i] != ']'
  }

  /** A term as the parser produces it: letters, hyphens and spaces, no space at either end. */
  predicate ValidTerm(e: string) {
    && |e| > 0
    && (forall i :: 0 <= i < |e| ==> IsTermChar(e[i]))
    && e[0] != ' ' && e[|e| - 1] != ' '
  }

  lemma TermCharNotSpace(c: char)
    requires IsTermChar(c) && c != ' '
    ensures !IsSpace(c)
  {
  }

  predicate ValidPhonetic(p: string) {
    p == "" || (IsBracketed(p) && NoNewline(p))
  }

  predicate ValidExplanation(x: string) {
    x != "" && Trimmed(x) && NoNewline(x)
  }

  /** A record that the text format can carry: what the parser produces and what survives a round trip. */
  predicate WellFormed(w: Word) {
    ValidTerm(w.english) && ValidPhonetic(w.phonetic) && ValidExplanation(w.explanation)
  }

  // ---------------------------------------------------------------------------
  // The term-line pattern /^([a-zA-Z\- ]+?)(?:\s+(\[[^\]]+\]))?$/
  // ---------------------------------------------------------------------------

  /** The two groups of a successful match; an unmatched phonetic group is `""`. */
  datatype TermMatch = TermMatch(term: string, phonetic: string)

  /**
   * Whether the rest of the line matches `\s+(\[[^\]]+\])$`; if so, the bracketed group.
   * The greedy `\s+` takes all leading whitespace, and a `[` can never be whitespace.
   */
  function PhoneticTail(t: string): (r: Option<string>)
    ensures r.Some? ==> IsBracketed(r.value) && |r.value| < |t| && r.value == t[|t| - |r.value|..]
  {
    if |t| > 0 && IsSpace(t[0]) && IsBracketed(TrimStart(t)) then
      TrimStartSuffix(t);
      Some(TrimStart(t))
    else None
  }

  /**
   * The lazy group `[a-zA-Z\- ]+?` tried with `k` characters, then `k + 1`, ...: the first
   * length whose remainder is empty or a phonetic tail wins, and a character outside the
   * group ends the search.
   */
  function MatchFrom(line: string, k: nat): Option<TermMatch>
    requires 1 <= k <= |line|
    decreases |line| - k
  {
    if !IsTermChar(line[k - 1]) then None
    else if k == |line| then Some(TermMatch(line, ""))
    else match PhoneticTail(line[k..])
      case Some(p) => Some(TermMatch(line[..k], p))
      case None => MatchFrom(line, k + 1)
  }

  /**
   * A match found from length `k` on: the term is a prefix of the line, at least `k` long,
   * made of term characters from position `k - 1` on; the phonetic is empty or a bracketed
   * suffix of the line.
   */
  lemma {:induction false} MatchFromShape(line: string, k: nat)
    requires 1 <= k <= |line|
    decreases |line| - k
    ensures var r := MatchFrom(line, k);
      r.Some? ==>
        && k <= |r.value.term| <= |line| && r.value.term == line[..|r.value.term|]
        && (forall i :: k - 1 <= i < |r.value.term| ==> IsTermChar(line[i]))
        && (r.value.phonetic == "" || IsBracketed(r.value.phonetic))
        && |r.value.phonetic| <= |line| && r.value.phonetic == line[|line| - |r.value.phonetic|..]
  {
    if !IsTermChar(line[k - 1]) {
    } else if k == |line| {
      assert line[..|line|] == line;
    } else {
      var t := line[k..];
      match PhoneticTail(t)
      case Some(p) =>
        assert MatchFrom(line, k) == Some(TermMatch(line[..k], p));
        assert p == t[|t| - |p|..] == line[|line| - |p|..];
      case None =>
        assert MatchFrom(line, k) == MatchFrom(line, k + 1);
        MatchFromShape(line, k + 1);
    }
  }

  /** `englishLine.match(...)`: the term group is a non-empty prefix of term characters, the phonetic a suffix. */
  function MatchTermLine(line: string): (r: Option<TermMatch>)
    ensures r.Some? ==> 1 <= |r.value.term| <= |line| && r.value.term == line[..|r.value.term|]
    ensures r.Some? ==> forall i :: 0 <= i < |r.value.term| ==> IsTermChar(r.value.term[i])
    ensures r.Some? ==> r.value.phonetic == "" || IsBracketed(r.value.phonetic)
    ensures r.Some? ==> |r.value.phonetic| <= |line| && r.value.phonetic == line[|line| - |r.value.phonetic|..]
  {
    if |line| == 0 then None
    else
      MatchFromShape(line, 1);
      MatchFrom(line, 1)
  }

  // ---------------------------------------------------------------------------
  // parseWordBank
  // ---------------------------------------------------------------------------

  /** A trimmed line that may start a record: non-empty and not opened by `n.` or `v.`. */
  predicate IsCandidateTermLine(englishLine: string) {
    englishLine != "" && !StartsWith(englishLine, "n.") && !StartsWith(englishLine, "v.")
  }

  /** The record a term line and its explanation line yield: one if the pattern matches, none otherwise. */
  function RecordOf(englishLine: string, explanationLine: string): seq<Word> {
    match MatchTermLine(englishLine)
    case Some(m) => [Word(Trim(m.term), m.phonetic, explanationLine, 0)]
    case None => []
  }

  /**
   * The records of a list of lines, read pairwise from the front. A candidate term line
   * followed by a non-blank line consumes both, whether or not the pattern matched; any
   * other line is skipped alone.
   */
  function ParseLines(lines: seq<string>): seq<Word>
    decreases |lines|
  {
    if |lines| == 0 then []
    else
      var englishLine := Trim(lines[0]);
      if IsCandidateTermLine(englishLine) then
        var explanationLine := if |lines| > 1 then Trim(lines[1]) else "";
        if explanationLine != "" then RecordOf(englishLine, explanationLine) + ParseLines(lines[2..])
        else ParseLines(lines[1..])
      else ParseLines(lines[1..])
  }

  /** What `parseWordBank(text)` returns. */
  function ParseText(text: string): seq<Word> {
    ParseLines(Split(Trim(text)))
  }

  /** One step of `ParseLines` at position `i`: a record from lines `i` and `i + 1`, or a skipped line. */
  lemma ParseLinesAt(lines: seq<string>, i: nat)
    requires i < |lines|
    ensures var englishLine := Trim(lines[i]);
      var explanationLine := if i + 1 < |lines| then Trim(lines[i + 1]) else "";
      ParseLines(lines[i..]) ==
        if IsCandidateTermLine(englishLine) && explanationLine != "" then
          RecordOf(englishLine, explanationLine) + ParseLines(lines[i + 2..])
        else ParseLines(lines[i + 1..])
  {
    var rest := lines[i..];
    assert rest[0] == lines[i];
    assert rest[1..] == lines[i + 1..];
    if i + 1 < |lines| {
      assert rest[1] == lines[i + 1];
      assert rest[2..] == lines[i + 2..];
    }
  }

  /** `parseWordBank`: walks the lines with index `i`, which grows on every path, pushing records. */
  method ParseWordBank(text: string) returns (words: seq<Word>)
    ensures words == ParseText(text)
  {
    var lines := Split(Trim(text));
    words := [];
    var i := 0;
    while i < |lines|
      invariant 0 <= i <= |lines|
      invariant words + ParseLines(lines[i..]) == ParseLines(lines)
      decreases |lines| - i
    {
      var record, next := ReadEntry(lines, i);
      assert words + record + ParseLines(lines[next..]) == words + (record + ParseLines(lines[next..]));
      words := words + record;
      i := next;
    }
    assert lines[i..] == [];
  }

  /**
   * One pass of `parseWordBank`'s loop at line `i`: a candidate term line followed by a
   * non-blank line yields its record (if the pattern matches) and moves on two lines;
   * anything else moves on one.
   */
  method ReadEntry(lines: seq<string>, i: nat) returns (record: seq<Word>, next: nat)
    requires i < |lines|
    ensures i < next <= |lines| && next <= i + 2
    ensures ParseLines(lines[i..]) == record + ParseLines(lines[next..])
  {
    ParseLinesAt(lines, i);
    var englishLine := Trim(lines[i]);
    if IsCandidateTermLine(englishLine) {
      var explanationLine := if i + 1 < |lines| then Trim(lines[i + 1]) else "";
      if explanationLine != "" {
        record := RecordOf(englishLine, explanationLine);
        next := i + 2;
        return;
      }
    }
    record := [];
    next := i + 1;
    assert ParseLines(lines[i..]) == record + ParseLines(lines[next..]);
  }

  /** Trimming a matched term group that starts with a term character gives a valid term. */
  lemma TrimmedTermValid(term: string)
    requires |term| > 0 && !IsSpace(term[0])
    requires forall i :: 0 <= i < |term| ==> IsTermChar(term[i])
    ensures ValidTerm(Trim(term))
  {
    TrimStartKeeps(term);
    TrimEndPrefix(term);
    var e := Trim(term);
    assert e == TrimEnd(term) == term[..|e|];
    TrimEndFacts(term);
    assert |e| > 0;
    TrimFacts(term);
    assert forall i :: 0 <= i < |e| ==> e[i] == term[i];
  }

  /** A phonetic group taken from the end of a newline-free line is a valid phonetic. */
  lemma MatchedPhoneticValid(line: string, p: string)
    requires NoNewline(line)
    requires p == "" || IsBracketed(p)
    requires |p| <= |line| && p == line[|line| - |p|..]
    ensures ValidPhonetic(p)
  {
    assert forall i :: 0 <= i < |p| ==> p[i] == line[|line| - |p| + i];
  }

  /** A record built from a trimmed term line and explanation line satisfies `WellFormed`, with count 0. */
  lemma RecordOfWellFormed(englishLine: string, explanationLine: string)
    requires englishLine != "" && Trimmed(englishLine) && NoNewline(englishLine)
    requires ValidExplanation(explanationLine)
    ensures forall w :: w in RecordOf(englishLine, explanationLine) ==> WellFormed(w) && w.wrongCount == 0
  {
    var m := MatchTermLine(englishLine);
    if m.Some? {
      var term := m.value.term;
      assert term[0] == englishLine[0];
      TrimmedTermValid(term);
      MatchedPhoneticValid(englishLine, m.value.phonetic);
    }
  }

  /** Every record the parser produces is well formed and starts with `wrongCount = 0`. */
  lemma {:induction false} ParsedLinesWellFormed(lines: seq<string>)
    requires forall k :: 0 <= k < |lines| ==> NoNewline(lines[k])
    ensures forall w :: w in ParseLines(lines) ==> WellFormed(w) && w.wrongCount == 0
  {
    if |lines| > 0 {
      var englishLine := Trim(lines[0]);
      TrimNoNewline(lines[0]);
      TrimFacts(lines[0]);
      if IsCandidateTermLine(englishLine) {
        var explanationLine := if |lines| > 1 then Trim(lines[1]) else "";
        if explanationLine != "" {
          TrimNoNewline(lines[1]);
          TrimFacts(lines[1]);
          RecordOfWellFormed(englishLine, explanationLine);
          ParsedLinesWellFormed(lines[2..]);
        } else {
          ParsedLinesWellFormed(lines[1..]);
        }
      } else {
        ParsedLinesWellFormed(lines[1..]);
      }
    }
  }

  /** Each record consumes two lines, so there are at most half as many records as lines. */
  lemma {:induction false} ParseLinesBound(lines: seq<string>)
    ensures 2 * |ParseLines(lines)| <= |lines|
  {
    if |lines| > 0 {
      var englishLine := Trim(lines[0]);
      if IsCandidateTermLine(englishLine) {
        var explanationLine := if |lines| > 1 then Trim(lines[1]) else "";
        if explanationLine != "" {
          ParseLinesBound(lines[2..]);
        } else {
          ParseLinesBound(lines[1..]);
        }
      } else {
        ParseLinesBound(lines[1..]);
      }
    }
  }

  /** `parseWordBank` never fails: every text yields well-formed records, at most one per two lines. */
  lemma ParseTextWellFormed(text: string)
    ensures forall w :: w in ParseText(text) ==> WellFormed(w) && w.wrongCount == 0
    ensures 2 * |ParseText(text)| <= |Split(Trim(text))|
  {
    SplitNoNewlines(Trim(text));
    ParsedLinesWellFormed(Split(Trim(text)));
    ParseLinesBound(Split(Trim(text)));
  }

  /**
   * A line opened by `n.` or `v.` is never taken as a term line: wherever it stands, it is
   * skipped on its own and the line after it is read afresh.
   */
  lemma PartOfSpeechLineSkipped(lines: seq<string>, i: nat)
    requires i < |lines|
    requires StartsWith(Trim(lines[i]), "n.") || StartsWith(Trim(lines[i]), "v.")
    ensures ParseLines(lines[i..]) == ParseLines(lines[i + 1..])
  {
    ParseLinesAt(lines, i);
  }

  /** The term-line pattern rejects `adj. big`: the `.` is outside the term group and no phonetic tail fits before it. */
  lemma AbbreviationLineUnmatched()
    ensures MatchTermLine("adj. big") == None
  {
    var line := "adj. big";
    assert line[3] == '.';
    assert MatchFrom(line, 4) == None;
    assert PhoneticTail(line[3..]) == None by { assert line[3..][0] == '.'; }
    assert MatchFrom(line, 3) == None;
    assert PhoneticTail(line[2..]) == None by { assert line[2..][0] == 'j'; }
    assert MatchFrom(line, 2) == None;
    assert PhoneticTail(line[1..]) == None by { assert line[1..][0] == 'd'; }
  }

  /**
   * Only `n.` and `v.` are refused: a continuation line opened by another part of speech
   * is taken as a term line, fails the pattern, and still swallows the term line after it.
   */
  lemma OtherAbbreviationSwallowsNextTerm(e: string, p: string, x: string)
    requires WellFormed(Word(e, p, x, 0))
    ensures ParseLines(["adj. big", e + " " + p, x]) == []
  {
    var lines := ["adj. big", e + " " + p, x];
    var first := "adj. big";
    assert Trim(first) == first by {
      TrimStartKeeps(first);
      TrimEndKeeps(first);
    }
    assert IsCandidateTermLine(first) by {
      assert first[..2] == "ad";
    }
    TermLineCandidate(Word(e, p, x, 0));
    var second := Trim(e + " " + p);
    assert second != "";
    AbbreviationLineUnmatched();
    assert RecordOf(first, second) == [];
    assert ParseLines(lines) == ParseLines(lines[2..]) by {
      assert lines[0] == first && lines[1] == e + " " + p;
    }
    assert lines[2..] == [x];
    SingleLineYieldsNothing(x);
  }

  /** A line with nothing after it cannot form a record. */
  lemma SingleLineYieldsNothing(x: string)
    ensures ParseLines([x]) == []
  {
    assert [x][1..] == [];
  }

  // ---------------------------------------------------------------------------
  // The loadTagContent template and the round trip
  // ---------------------------------------------------------------------------

  /** The first line `loadTagContent` writes for a record: `${english} ${phonetic}`. */
  function TermLine(w: Word): string {
    w.english + " " + w.phonetic
  }

  /** One record in `loadTagContent`'s template: `${english} ${phonetic}\n${explanation}\n\n`. */
  function EntryText(w: Word): string {
    TermLine(w) + "\n" + w.explanation + "\n\n"
  }

  function EntriesText(ws: seq<Word>): string {
    if ws == [] then "" else EntryText(ws[0]) + EntriesText(ws[1..])
  }

  /** The text `loadTagContent` puts in the editor: the entries one after another, trimmed. */
  function SerializedText(ws: seq<Word>): string {
    Trim(EntriesText(ws))
  }

  /** The records with their miss counts reset, as they come back from the parser. */
  function WithoutCounts(ws: seq<Word>): (r: seq<Word>)
    ensures |r| == |ws|
  {
    if ws == [] then [] else [ws[0].(wrongCount := 0)] + WithoutCounts(ws[1..])
  }

  lemma {:induction false} EntriesSnoc(ws: seq<Word>, w: Word)
    ensures EntriesText(ws + [w]) == EntriesText(ws) + EntryText(w)
  {
    if ws == [] {
      assert [w][1..] == [];
    } else {
      assert (ws + [w])[1..] == ws[1..] + [w];
      EntriesSnoc(ws[1..], w);
    }
  }

  /**
   * `loadTagContent`'s loop: appends each record's entry, then trims. `RoundTrip` says
   * what parsing the text gives back.
   */
  method SerializeWordBank(words: seq<Word>) returns (text: string)
    ensures text == SerializedText(words)
  {
    var acc := "";
    for i := 0 to |words|
      invariant acc == EntriesText(words[..i])
    {
      EntriesSnoc(words[..i], words[i]);
      assert words[..i + 1] == words[..i] + [words[i]];
      acc := acc + EntryText(words[i]);
    }
    assert words[..|words|] == words;
    text := Trim(acc);
  }

  /** The serialised entries without the final blank line. */
  function Body(ws: seq<Word>): string
    requires |ws| > 0
  {
    if |ws| == 1 then TermLine(ws[0]) + "\n" + ws[0].explanation
    else TermLine(ws[0]) + "\n" + ws[0].explanation + "\n\n" + Body(ws[1..])
  }

  /** The lines `split('\n')` cuts the serialised text into. */
  function TextLines(ws: seq<Word>): seq<string>
    requires |ws| > 0
  {
    if |ws| == 1 then [TermLine(ws[0]), ws[0].explanation]
    else [TermLine(ws[0]), ws[0].explanation, ""] + TextLines(ws[1..])
  }

  lemma {:induction false} EntriesIsBody(ws: seq<Word>)
    requires |ws| > 0
    ensures EntriesText(ws) == Body(ws) + "\n\n"
  {
    if |ws| == 1 {
      assert ws[1..] == [];
    } else {
      EntriesIsBody(ws[1..]);
    }
  }

  /** The body neither starts nor ends with whitespace: a term character opens it, an explanation character closes it. */
  lemma {:induction false} BodyEnds(ws: seq<Word>)
    requires |ws| > 0 && forall w :: w in ws ==> WellFormed(w)
    ensures |Body(ws)| > 0 && Trimmed(Body(ws))
  {
    var w := ws[0];
    assert WellFormed(w);
    var b := Body(ws);
    assert b[0] == w.english[0];
    TermCharNotSpace(w.english[0]);
    if |ws| == 1 {
      assert b[|b| - 1] == w.explanation[|w.explanation| - 1];
    } else {
      assert forall v :: v in ws[1..] ==> v in ws;
      BodyEnds(ws[1..]);
      var rest := Body(ws[1..]);
      assert b[|b| - 1] == rest[|rest| - 1];
    }
  }

  lemma TrimEntries(ws: seq<Word>)
    requires |ws| > 0 && forall w :: w in ws ==> WellFormed(w)
    ensures SerializedText(ws) == Body(ws)
  {
    EntriesIsBody(ws);
    BodyEnds(ws);
    TrimBlankLine(Body(ws));
  }

  /** Trimming a trimmed non-empty text followed by a blank line gives the text back. */
  lemma TrimBlankLine(b: string)
    requires |b| > 0 && Trimmed(b)
    ensures Trim(b + "\n\n") == b
  {
    var s := b + "\n\n";
    assert s[0] == b[0];
    TrimStartKeeps(s);
    assert s[..|s| - 1] == b + "\n";
    TrimEndDrops(s);
    assert (b + "\n")[..|b|] == b;
    TrimEndDrops(b + "\n");
    TrimEndKeeps(b);
  }

  /** A newline-free piece followed by a newline splits off as one line. */
  lemma SplitCons(a: string, b: string)
    requires NoNewline(a)
    ensures Split(a + "\n" + b) == [a] + Split(b)
  {
    SplitAtNewline(a, b);
    SplitNoNewline(a);
  }

  lemma {:induction false} SplitBody(ws: seq<Word>)
    requires |ws| > 0 && forall w :: w in ws ==> WellFormed(w)
    ensures Split(Body(ws)) == TextLines(ws)
  {
    var w := ws[0];
    assert WellFormed(w);
    TermLineNoNewline(w);
    if |ws| == 1 {
      SplitPair(TermLine(w), w.explanation);
    } else {
      assert forall v :: v in ws[1..] ==> v in ws;
      SplitBody(ws[1..]);
      SplitEntry(TermLine(w), w.explanation, Body(ws[1..]));
    }
  }

  /** A term line and its explanation line, each without newlines, split into those two lines. */
  lemma SplitPair(line: string, x: string)
    requires NoNewline(line) && NoNewline(x)
    ensures Split(line + "\n" + x) == [line, x]
  {
    SplitCons(line, x);
    SplitNoNewline(x);
  }

  /** One entry and its blank line, in front of more text, split into three lines before the rest. */
  lemma SplitEntry(line: string, x: string, rest: string)
    requires NoNewline(line) && NoNewline(x)
    ensures Split(line + "\n" + x + "\n\n" + rest) == [line, x, ""] + Split(rest)
  {
    var b2 := "" + "\n" + rest;
    var b1 := x + "\n" + b2;
    assert line + "\n" + x + "\n\n" + rest == line + "\n" + b1;
    SplitCons(line, b1);
    SplitCons(x, b2);
    SplitCons("", rest);
  }

  /** The shape of a well-formed record's term line, trimmed: the term, then the phonetic if any. */
  lemma TermLineShape(w: Word)
    requires WellFormed(w)
    ensures Trim(TermLine(w)) == if w.phonetic == "" then w.english else w.english + " " + w.phonetic
    ensures IsCandidateTermLine(Trim(TermLine(w)))
    ensures NoNewline(TermLine(w))
  {
    TermLineTrim(w);
    TermLineCandidate(w);
    TermLineNoNewline(w);
  }

  lemma TermLineTrim(w: Word)
    requires WellFormed(w)
    ensures Trim(TermLine(w)) == if w.phonetic == "" then w.english else w.english + " " + w.phonetic
  {
    var e, p := w.english, w.phonetic;
    var s := e + " " + p;
    assert s[0] == e[0];
    TermCharNotSpace(e[0]);
    TrimStartKeeps(s);
    if p == "" {
      assert s[..|s| - 1] == e;
      TrimEndDrops(s);
      TermCharNotSpace(e[|e| - 1]);
      TrimEndKeeps(e);
    } else {
      assert s[|s| - 1] == p[|p| - 1];
      TrimEndKeeps(s);
    }
  }

  lemma TermLineCandidate(w: Word)
    requires WellFormed(w)
    ensures IsCandidateTermLine(Trim(TermLine(w)))
  {
    TermLineTrim(w);
    var e := w.english;
    var line := Trim(TermLine(w));
    assert line[..|e|] == e;
    if |e| >= 2 {
      assert line[1] == e[1] && IsTermChar(e[1]);
    } else if w.phonetic != "" {
      assert line[1] == ' ';
    }
  }

  lemma TermLineNoNewline(w: Word)
    requires WellFormed(w)
    ensures NoNewline(TermLine(w))
  {
    var e, p := w.english, w.phonetic;
    var s := TermLine(w);
    forall i | 0 <= i < |s| ensures s[i] != '\n' {
      if i < |e| {
        assert s[i] == e[i] && IsTermChar(e[i]);
      } else if i > |e| {
        assert s[i] == p[i - |e| - 1];
      }
    }
  }

  /** Inside the term no phonetic tail can start: the first non-blank character after the cut is a term character. */
  lemma NoTailInsideTerm(e: string, line: string, k: nat)
    requires ValidTerm(e) && 1 <= k < |e| && |e| <= |line| && line[..|e|] == e
    ensures PhoneticTail(line[k..]) == None
  {
    var t := line[k..];
    var r := TrimStart(t);
    var d := |t| - |r|;
    TrimStartFacts(t);
    TrimStartSuffix(t);
    var last := |e| - 1 - k;
    assert t[last] == e[|e| - 1];
    TermCharNotSpace(e[|e| - 1]);
    assert d <= last;
    assert r[0] == t[d] == e[k + d];
    assert IsTermChar(e[k + d]);
  }

  /** Right after the term, a blank and a bracketed phonetic form the phonetic tail. */
  lemma TailAfterTerm(e: string, p: string)
    requires ValidPhonetic(p) && p != ""
    ensures PhoneticTail((e + " " + p)[|e|..]) == Some(p)
  {
    var t := (e + " " + p)[|e|..];
    assert t == " " + p;
    assert t[1..] == p;
    TrimStartKeeps(p);
  }

  /** The lazy scan passes every shorter prefix of the term and stops exactly at its end. */
  lemma {:induction false} MatchScan(e: string, p: string, line: string, k: nat)
    requires ValidTerm(e) && ValidPhonetic(p)
    requires line == if p == "" then e else e + " " + p
    requires 1 <= k <= |e|
    ensures MatchFrom(line, k) == Some(TermMatch(e, p))
    decreases |e| - k
  {
    assert line[..|e|] == e;
    assert line[k - 1] == e[k - 1];
    if k == |e| {
      if p != "" {
        TailAfterTerm(e, p);
      }
    } else {
      NoTailInsideTerm(e, line, k);
      MatchScan(e, p, line, k + 1);
    }
  }

  lemma TermLineMatches(w: Word)
    requires WellFormed(w)
    ensures MatchTermLine(Trim(TermLine(w))) == Some(TermMatch(w.english, w.phonetic))
  {
    TermLineShape(w);
    MatchScan(w.english, w.phonetic, Trim(TermLine(w)), 1);
  }

  /** A well-formed record's two lines give back the record, count reset. */
  lemma RecordOfTermLine(w: Word)
    requires WellFormed(w)
    ensures IsCandidateTermLine(Trim(TermLine(w)))
    ensures Trim(w.explanation) == w.explanation != ""
    ensures RecordOf(Trim(TermLine(w)), w.explanation) == [w.(wrongCount := 0)]
  {
    TermLineCandidate(w);
    TermLineMatches(w);
    TrimOfTrimmed(w.explanation);
    TrimOfTrimmed(w.english);
  }

  /** A candidate term line followed by a non-blank line is read as a pair. */
  lemma ParsePair(lines: seq<string>)
    requires |lines| >= 2 && IsCandidateTermLine(Trim(lines[0])) && Trim(lines[1]) != ""
    ensures ParseLines(lines) == RecordOf(Trim(lines[0]), Trim(lines[1])) + ParseLines(lines[2..])
  {
  }

  /** The first two lines are the first record's; a blank line separates it from the rest. */
  lemma TextLinesHead(ws: seq<Word>)
    requires |ws| > 0
    ensures |TextLines(ws)| >= 2
    ensures TextLines(ws)[0] == TermLine(ws[0]) && TextLines(ws)[1] == ws[0].explanation
    ensures TextLines(ws)[2..] == if |ws| == 1 then [] else [""] + TextLines(ws[1..])
  {
  }

  /** The lines of well-formed records parse back to the records, counts reset. */
  lemma {:induction false} ParseTextLines(ws: seq<Word>)
    requires |ws| > 0 && forall w :: w in ws ==> WellFormed(w)
    ensures ParseLines(TextLines(ws)) == WithoutCounts(ws)
  {
    var w := ws[0];
    assert WellFormed(w);
    RecordOfTermLine(w);
    var lines := TextLines(ws);
    TextLinesHead(ws);
    ParsePair(lines);
    assert ParseLines(lines) == [w.(wrongCount := 0)] + ParseLines(lines[2..]);
    assert WithoutCounts(ws) == [w.(wrongCount := 0)] + WithoutCounts(ws[1..]);
    if |ws| == 1 {
      assert ws[1..] == [];
    } else {
      assert forall v :: v in ws[1..] ==> v in ws;
      ParseTextLines(ws[1..]);
      BlankLineSkipped(TextLines(ws[1..]));
    }
  }

  /** A blank line on its own is skipped. */
  lemma BlankLineSkipped(rest: seq<string>)
    ensures ParseLines([""] + rest) == ParseLines(rest)
  {
    assert Trim("") == "";
    assert ([""] + rest)[1..] == rest;
  }

  /**
   * Round trip: writing well-formed records with `loadTagContent`'s template and parsing
   * the text again gives the same terms, phonetics and explanations, with `wrongCount = 0`.
   */
  lemma RoundTrip(ws: seq<Word>)
    requires forall w :: w in ws ==> WellFormed(w)
    ensures ParseText(SerializedText(ws)) == WithoutCounts(ws)
  {
    if ws == [] {
      assert SerializedText(ws) == "";
      assert Split(Trim("")) == [""];
      SingleLineYieldsNothing("");
    } else {
      SerializedLines(ws);
      ParseTextLines(ws);
    }
  }

  /** The editor text of non-empty well-formed records splits into exactly their lines. */
  lemma SerializedLines(ws: seq<Word>)
    requires |ws| > 0 && forall w :: w in ws ==> WellFormed(w)
    ensures Split(Trim(SerializedText(ws))) == TextLines(ws)
  {
    SerializedIsTrimmedBody(ws);
    SplitBody(ws);
  }

  /** The editor text is already trimmed: trimming it again gives the body back. */
  lemma SerializedIsTrimmedBody(ws: seq<Word>)
    requires |ws| > 0 && forall w :: w in ws ==> WellFormed(w)
    ensures Trim(SerializedText(ws)) == Body(ws)
  {
    TrimEntries(ws);
    BodyEnds(ws);
    TrimOfTrimmed(Body(ws));
  }

  /** Parsing the editor text of parsed records gives the same records: load-then-save changes nothing. */
  lemma ReparseIsStable(text: string)
    ensures ParseText(SerializedText(ParseText(text))) == ParseText(text)
  {
    var ws := ParseText(text);
    ParseTextWellFormed(text);
    RoundTrip(ws);
    assert forall i :: 0 <= i < |ws| ==> ws[i] in ws;
    ZeroCountsUnchanged(ws);
  }

  lemma {:induction false} ZeroCountsUnchanged(ws: seq<Word>)
    requires forall i :: 0 <= i < |ws| ==> ws[i].wrongCount == 0
    ensures WithoutCounts(ws) == ws
  {
    if ws != [] {
      ZeroCountsUnchanged(ws[1..]);
    }
  }
}
