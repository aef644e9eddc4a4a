/**
 The auditor's verdict on families of drafts: one-line sentences with and
 without closing punctuation, with one or two table pipes, and essays just
 under and just over the 900-word limit.
 */
module AuditorCases {
  import opened Text
  import opened Auditor
  import Words

  /** A one-line sentence opening with an ordinary character, short enough
      to stay under the word limit and free of pipes: it is complete
      exactly when it ends in `.`, `!` or `?` ("The sky is blue." versus
      "The sky is blue"). */
  lemma SentenceVerdict(s: string)
    requires Bordered(s) && '\n' !in s && '|' !in s
    requires |s| > 0 && s[0] !in {'#', '1', '2', '3', '4', '5', '-', '|'}
    requires |s| <= WordLimit
    ensures IsIncomplete(s) <==> !EndsWithTerminal(s)
  {
    OneLineVerdict(s);
    PlainOpening(s);
    NoPipes(s);
  }

  lemma PipeBetween(a: string, b: string)
    requires '|' !in a && '|' !in b
    ensures PipeCount(a + "|" + b) == 1
  {
    assert multiset(a + "|" + b) == multiset(a) + multiset("|") + multiset(b);
  }

  lemma PipesBetween(a: string, b: string, c: string)
    requires '|' !in a && '|' !in b && '|' !in c
    ensures PipeCount(a + "|" + b + "|" + c) == 2
  {
    PipeBetween(a, b);
    assert multiset(a + "|" + b + "|" + c) == multiset(a + "|" + b) + multiset("|") + multiset(c);
  }

  /** One pipe in a draft is a broken table however well it ends
      ("Value | end."). */
  lemma SinglePipeIsIncomplete(a: string, b: string)
    requires '|' !in a && '|' !in b
    ensures IsIncomplete(a + "|" + b)
  {
    PipeBetween(a, b);
    OddPipesIsIncomplete(a + "|" + b);
  }

  /** Two pipes inside an otherwise clean one-line sentence leave it
      complete ("Cost | Value | 10."). */
  lemma TwoPipesCanBeComplete(a: string, b: string, c: string)
    requires '|' !in a && '|' !in b && '|' !in c
    requires '\n' !in a + "|" + b + "|" + c
    requires Bordered(a + "|" + b + "|" + c)
    requires |a| > 0 && a[0] !in {'#', '1', '2', '3', '4', '5', '-', '|'}
    requires |a + "|" + b + "|" + c| <= WordLimit
    requires EndsWithTerminal(a + "|" + b + "|" + c)
    ensures !IsIncomplete(a + "|" + b + "|" + c)
  {
    var s := a + "|" + b + "|" + c;
    PipesBetween(a, b, c);
    OneLineVerdict(s);
    assert s[0] == a[0];
    PlainOpening(s);
  }

  /** `n` words "a" separated by single spaces, the last one closed by a
      period: "a a ... a." */
  function Essay(n: nat): (s: string)
    requires n >= 1
    ensures |s| >= 2 && s[0] == 'a' && s[|s| - 1] == '.'
    ensures '\n' !in s && '|' !in s
    ensures Bordered(s)
  {
    if n == 1 then ['a', '.'] else ['a', ' '] + Essay(n - 1)
  }

  lemma {:induction false} EssayWordCount(n: nat)
    requires n >= 1
    ensures WordCount(Essay(n)) == n
  {
    var s := Essay(n);
    Words.SplitsAgreeOnBordered(s);
    if n > 1 {
      EssayWordCount(n - 1);
      Words.SplitsAgreeOnBordered(Essay(n - 1));
      Words.SplitRunsWordSpace('a', Essay(n - 1));
    } else {
      assert s[1..] == ['.'];
      assert s[1..][1..] == [];
    }
  }

  /** An essay of `n` words is complete exactly when `n` is at most 900. */
  lemma EssayVerdict(n: nat)
    requires n >= 1
    ensures IsIncomplete(Essay(n)) <==> n > WordLimit
  {
    var s := Essay(n);
    EssayWordCount(n);
    OneLineVerdict(s);
    PlainOpening(s);
    NoPipes(s);
  }

  /** A clean 900-word essay is complete; one more word tips it over. */
  lemma WordLimitBoundary()
    ensures !IsIncomplete(Essay(900))
    ensures IsIncomplete(Essay(901))
  {
    EssayVerdict(900);
    EssayVerdict(901);
  }
}
