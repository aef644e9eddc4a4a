/**
 The completeness auditor (`is_incomplete` in assessment.py): decides from
 the text alone whether a generated draft looks finished. Four independent
 signals are read off the trimmed text, and any one of them marks the draft
 incomplete:
   - it does not end in `.`, `!` or `?`;
   - its last line starts like a heading, a list item or a table row;
   - it holds an odd number of `|` characters;
   - it has more than 900 whitespace-separated words.
 */
module Auditor {
  import opened Text
  import Lines
  import Words

  const TerminalMarks: set<char> := {'.', '!', '?'}

  /** Line openings that betray a draft cut off mid-heading, mid-list or
      mid-table. */
  const StructuralPrefixes: seq<string> := ["##", "###", "1.", "2.", "3.", "4.", "5.", "-", "|"]

  const WordLimit: nat := 900

  /** Python's `t.endswith(suffix)`. */
  predicate EndsWith(t: string, suffix: string) {
    |suffix| <= |t| && t[|t| - |suffix|..] == suffix
  }

  /** `t.endswith(('.', '!', '?'))`. */
  predicate EndsWithTerminal(t: string)
    ensures EndsWithTerminal(t) <==> EndsWith(t, ".") || EndsWith(t, "!") || EndsWith(t, "?")
  {
    if |t| > 0 then
      assert t[|t| - 1..] == [t[|t| - 1]];
      t[|t| - 1] in TerminalMarks
    else false
  }

  /** The last piece of `t.split("\n")`: the text after the final line
      feed, or the whole text when there is none. */
  function LastLine(t: string): (r: string)
    ensures '\n' !in r
    ensures |r| <= |t| && t[|t| - |r|..] == r
    ensures |r| == |t| || t[|t| - |r| - 1] == '\n'
  {
    var lines := Lines.SplitOn(t, '\n');
    Lines.LastPiece(t, '\n');
    lines[|lines| - 1]
  }

  predicate StartsStructural(line: string) {
    exists p | p in StructuralPrefixes :: p <= line
  }

  /** `t.count("|")`. */
  function PipeCount(t: string): (n: nat)
    ensures n <= |t|
    ensures n == 0 <==> '|' !in t
  {
    multiset(t)['|']
  }

  /** The auditor's word count: Python's `len(t.split())`. It is zero
      exactly for blank text; `Words.SplitIsTheCut` pins the words down as
      the maximal whitespace-free runs. */
  function WordCount(t: string): (n: nat)
    ensures n <= |t|
    ensures n == 0 <==> AllWs(t)
  {
    |Words.Split(t)|
  }

  /** `is_incomplete` lower-cases the last line before testing the prefixes;
      none of them holds a letter, so that makes no difference. */
  lemma StructuralIgnoresCase(line: string)
    ensures StartsStructural(Lower(line)) <==> StartsStructural(line)
  {
    forall p | p in StructuralPrefixes
      ensures p <= Lower(line) <==> p <= line
    {
      LowerKeepsCaselessPrefix(p, line);
    }
  }

  /** True when the draft looks unfinished. The checks run in `is_incomplete`'s
      order and the first one that fires decides; the contract states the
      verdict as the plain disjunction of the four signals, read on the
      original rather than the lower-cased last line and on the untrimmed
      text's pipes. */
  function IsIncomplete(text: string): (r: bool)
    ensures r <==>
      var t := Trim(text);
      || !EndsWithTerminal(t)
      || StartsStructural(LastLine(t))
      || PipeCount(text) % 2 == 1
      || WordCount(t) > WordLimit
  {
    var t := Trim(text);
    StructuralIgnoresCase(LastLine(t));
    TrimKeepsPipes(text);
    if !EndsWithTerminal(t) then true
    else if StartsStructural(Lower(LastLine(t))) then true
    else if PipeCount(t) % 2 != 0 then true
    else if WordCount(t) > WordLimit then true
    else false
  }

  /** Trimming removes no `|`. */
  lemma TrimKeepsPipes(text: string)
    ensures PipeCount(Trim(text)) == PipeCount(text)
  {
    assert !IsWs('|');
  }

  /** The last line of a string without a line break is the whole string. */
  lemma LastLineOfOneLine(line: string)
    requires '\n' !in line
    ensures LastLine(line) == line
  {
    Lines.SplitWithoutSep(line, '\n');
  }

  /** The last line is whatever follows the final line break. */
  lemma LastLineAfterBreak(head: string, line: string)
    requires '\n' !in line
    ensures LastLine(head + "\n" + line) == line
  {
    Lines.SplitAtSep(head, line, '\n');
    Lines.SplitWithoutSep(line, '\n');
  }

  /** The verdict depends only on the trimmed text: whitespace added around
      a draft never changes it. */
  lemma VerdictIgnoresPadding(a: string, text: string, b: string)
    requires AllWs(a) && AllWs(b)
    ensures IsIncomplete(a + text + b) == IsIncomplete(text)
  {
    TrimOfPadded(a, text, b);
    assert multiset(a + text + b)['|'] == multiset(a)['|'] + multiset(text)['|'] + multiset(b)['|'];
    AllWsCount(a, '|');
    AllWsCount(b, '|');
  }

  /** A line feed and blank text appended to a draft leave its verdict
      as it was. */
  lemma BlankTailKeepsVerdict(text: string, more: string)
    requires AllWs(more)
    ensures IsIncomplete(text + "\n" + more) == IsIncomplete(text)
  {
    assert AllWs("\n" + more);
    VerdictIgnoresPadding([], text, "\n" + more);
    EmptyFront(text);
    Assoc(text, "\n", more);
  }

  /** Empty and whitespace-only drafts are incomplete. */
  lemma BlankIsIncomplete(text: string)
    requires AllWs(text)
    ensures IsIncomplete(text)
  {
  }

  /** Any draft whose trimmed form does not end in `.`, `!` or `?` is
      incomplete, whatever else holds. */
  lemma UnterminatedIsIncomplete(text: string)
    requires !EndsWithTerminal(Trim(text))
    ensures IsIncomplete(text)
  {
  }

  /** A last line opening with a structural prefix marks the draft
      incomplete even when it ends in punctuation. */
  lemma DanglingLineIsIncomplete(head: string, line: string, p: string)
    requires '\n' !in line
    requires p in StructuralPrefixes && p <= line
    requires Bordered(head + "\n" + line)
    ensures IsIncomplete(head + "\n" + line)
  {
    LastLineAfterBreak(head, line);
  }

  /** The same for a one-line draft. */
  lemma DanglingSingleLineIsIncomplete(line: string, p: string)
    requires '\n' !in line
    requires p in StructuralPrefixes && p <= line
    requires Bordered(line)
    ensures IsIncomplete(line)
  {
    LastLineOfOneLine(line);
  }

  /** An odd number of `|` anywhere marks the draft incomplete. */
  lemma OddPipesIsIncomplete(text: string)
    requires PipeCount(text) % 2 == 1
    ensures IsIncomplete(text)
  {
  }

  /** More than 900 words marks the draft incomplete. */
  lemma OverlongIsIncomplete(text: string)
    requires WordCount(Trim(text)) > WordLimit
    ensures IsIncomplete(text)
  {
  }

  /** A draft is complete exactly when all four checks pass. */
  lemma CompleteWhenAllChecksPass(head: string, line: string)
    requires '\n' !in line
    requires Bordered(head + "\n" + line)
    requires EndsWithTerminal(line)
    requires forall p | p in StructuralPrefixes :: !(p <= line)
    requires PipeCount(head + "\n" + line) % 2 == 0
    requires WordCount(head + "\n" + line) <= WordLimit
    ensures !IsIncomplete(head + "\n" + line)
  {
    LastLineAfterBreak(head, line);
    assert (head + "\n" + line)[|head + "\n" + line| - 1] == line[|line| - 1];
  }

  /** On a trimmed one-line draft the last line is the draft itself. */
  lemma OneLineVerdict(s: string)
    requires Bordered(s) && '\n' !in s
    ensures IsIncomplete(s) <==>
      || !EndsWithTerminal(s)
      || StartsStructural(s)
      || PipeCount(s) % 2 == 1
      || WordCount(s) > WordLimit
  {
    LastLineOfOneLine(s);
  }

  /** A line whose first character opens no structural prefix. */
  lemma PlainOpening(line: string)
    requires |line| > 0 && line[0] !in {'#', '1', '2', '3', '4', '5', '-', '|'}
    ensures !StartsStructural(line)
  {
  }

  lemma NoPipes(t: string)
    requires '|' !in t
    ensures PipeCount(t) == 0
  {
  }
}
