/**
 The byline clean-up applied to every generated draft (assessment.py:57):
 `re.sub(r"By .?\n+Published: .?\n+", "", blog)`.

 The pattern reads: "By ", at most one character other than a line feed,
 one or more line feeds, "Published: ", at most one character other than a
 line feed, one or more line feeds. `re.sub` replaces every
 non-overlapping match, scanning left to right, with the empty string.
 Because `.` never matches a line feed and each `\n+` is followed either by
 a fixed letter or by nothing, the regular-expression engine has no real
 choice to make: at a given position there is at most one match, and its
 line-feed runs are maximal. `MatchAt` computes that match directly.
 */
module Byline {
  import opened Options
  import Text

  const ByHead := "By "
  const PublishedHead := "Published: "

  /** One stretch of text the pattern matches, by its parts: the (at most
      one-character) name, the number of line feeds after it, the (at most
      one-character) date and the number of line feeds after that. */
  datatype Block = Block(name: string, gap: nat, date: string, trail: nat)

  predicate ValidBlock(b: Block) {
    && |b.name| <= 1 && '\n' !in b.name
    && |b.date| <= 1 && '\n' !in b.date
    && b.gap >= 1 && b.trail >= 1
  }

  function Newlines(n: nat): (s: string)
    ensures |s| == n && forall i :: 0 <= i < n ==> s[i] == '\n'
  {
    if n == 0 then [] else ['\n'] + Newlines(n - 1)
  }

  /** The text a block stands for. */
  function Render(b: Block): string {
    ByHead + b.name + Newlines(b.gap) + PublishedHead + b.date + Newlines(b.trail)
  }

  /** `.?`: the length (0 or 1) of the character that opens `s`, if it is not a
      line feed. */
  function OptionalChar(s: string): (n: nat)
    ensures n <= 1 && n <= |s|
    ensures n == 1 <==> |s| > 0 && s[0] != '\n'
  {
    if |s| > 0 && s[0] != '\n' then 1 else 0
  }

  /** `\n+` taken greedily: the length of the line-feed run opening `s`. */
  function LeadingNewlines(s: string): (n: nat)
    ensures n <= |s|
    ensures forall i :: 0 <= i < n ==> s[i] == '\n'
    ensures n == |s| || s[n] != '\n'
  {
    if |s| == 0 || s[0] != '\n' then 0 else 1 + LeadingNewlines(s[1..])
  }

  /** What `.?\n+` consumes: at most one character other than a line feed,
      then a maximal run of line feeds. */
  datatype Piece = Piece(text: string, run: nat)

  predicate ValidPiece(p: Piece) {
    |p.text| <= 1 && '\n' !in p.text && p.run >= 1
  }

  /** `p` sits at the front of `s` and its run of line feeds is maximal. */
  predicate PieceFits(p: Piece, s: string) {
    && p.text + Newlines(p.run) <= s
    && (|p.text| + p.run == |s| || s[|p.text| + p.run] != '\n')
  }

  /** `.?\n+` at the front of `s`, if it matches there. */
  function DotNewlines(s: string): (m: Option<Piece>)
    ensures m.Some? ==> ValidPiece(m.value) && PieceFits(m.value, s)
  {
    var k := OptionalChar(s);
    var n := LeadingNewlines(s[k..]);
    if n == 0 then None
    else
      assert s[k..][..n] == Newlines(n);
      PrefixThen(s[..k], Newlines(n), s);
      assert k + n == |s| || s[k + n] == s[k..][n];
      Some(Piece(s[..k], n))
  }

  /** `b` is a valid block, laid out at the front of `s`, and its closing
      run of line feeds is not continued in `s`. */
  predicate BlockFits(b: Block, s: string) {
    && ValidBlock(b)
    && Render(b) <= s
    && (|Render(b)| == |s| || s[|Render(b)|] != '\n')
  }

  /** The match of the pattern that starts at the front of `s`, if any. */
  function MatchAt(s: string): (m: Option<Block>)
    ensures m.Some? ==> BlockFits(m.value, s)
    ensures if ByHead <= s && DotNewlines(s[|ByHead|..]).Some?
      then m == MatchAfterName(s, DotNewlines(s[|ByHead|..]).value)
      else m.None?
  {
    if !(ByHead <= s) then None
    else
      match DotNewlines(s[|ByHead|..])
      case None => None
      case Some(p) => MatchAfterName(s, p)
  }

  /** The rest of the match, once "By " and the name's piece `p` have
      been read. */
  function MatchAfterName(s: string, p: Piece): (m: Option<Block>)
    requires ByHead <= s && ValidPiece(p) && PieceFits(p, s[|ByHead|..])
    ensures m.Some? ==> BlockFits(m.value, s)
    ensures var i := |ByHead| + |p.text| + p.run;
      if PublishedHead <= s[i..] then
        var q := DotNewlines(s[i + |PublishedHead|..]);
        && (m.Some? <==> q.Some?)
        && (m.Some? ==> m.value == Block(p.text, p.run, q.value.text, q.value.run))
      else m.None?
  {
    var i := |ByHead| + |p.text| + p.run;
    if !(PublishedHead <= s[i..]) then None
    else
      match DotNewlines(s[i + |PublishedHead|..])
      case None => None
      case Some(q) =>
        MatchAtSound(s, p, q);
        Some(Block(p.text, p.run, q.text, q.run))
  }

  /** Soundness of the matcher's parts: a valid block laid out from the
      two pieces sits at the front of `s`, and its closing run of line
      feeds is maximal. */
  lemma MatchAtSound(s: string, p: Piece, q: Piece)
    requires ByHead <= s
    requires PieceFits(p, s[|ByHead|..])
    requires PublishedHead <= s[|ByHead| + |p.text| + p.run..]
    requires PieceFits(q, s[|ByHead| + |p.text| + p.run + |PublishedHead|..])
    ensures var r := Render(Block(p.text, p.run, q.text, q.run));
      && r <= s
      && (|r| == |s| || s[|r|] != '\n')
  {
    var b := Block(p.text, p.run, q.text, q.run);
    var p1 := p.text + Newlines(p.run);
    var p2 := q.text + Newlines(q.run);
    var i := |ByHead| + |p1|;
    PrefixShift(p2, s, i, |PublishedHead|);
    PrefixThen(PublishedHead, p2, s[i..]);
    PrefixShift(PublishedHead + p2, s, |ByHead|, |p1|);
    PrefixThen(p1, PublishedHead + p2, s[|ByHead|..]);
    PrefixThen(ByHead, p1 + (PublishedHead + p2), s);
    RenderParts(b);
    MatchEndsRun(s, b, i + |PublishedHead|);
  }

  /** The closing run of a block laid over `s` from the front is maximal
      when the date piece's run is maximal where it starts. */
  lemma MatchEndsRun(s: string, b: Block, k: nat)
    requires k == |ByHead| + |b.name| + b.gap + |PublishedHead| <= |s|
    requires PieceFits(Piece(b.date, b.trail), s[k..])
    ensures |Render(b)| == |s| || s[|Render(b)|] != '\n'
  {
    var n := |b.date| + b.trail;
    assert |Render(b)| == k + n;
    if k + n < |s| {
      IndexShift(s, k, n);
    }
  }

  /** A prefix of a suffix, read through a suffix of a suffix. */
  lemma PrefixShift(y: string, s: string, i: nat, j: nat)
    requires i + j <= |s| && y <= s[i + j..]
    ensures y <= s[i..][j..]
  {
    assert s[i..][j..] == s[i + j..];
  }

  lemma IndexShift(s: string, k: nat, j: nat)
    requires k + j < |s|
    ensures s[k..][j] == s[k + j]
  {
  }

  /** A prefix followed by a prefix of what remains is a prefix. */
  lemma PrefixThen(x: string, y: string, s: string)
    requires x <= s && y <= s[|x|..]
    ensures x + y <= s
  {
    assert forall i :: |x| <= i < |x| + |y| ==> (x + y)[i] == y[i - |x|] == s[|x|..][i - |x|];
  }

  /** Completeness of `.?\n+`: one optional character and a run of `n` line
      feeds not followed by another is read back as exactly that piece. */
  lemma DotNewlinesComplete(x: string, n: nat, rest: string)
    requires |x| <= 1 && '\n' !in x && n >= 1
    requires |rest| == 0 || rest[0] != '\n'
    ensures DotNewlines(x + Newlines(n) + rest) == Some(Piece(x, n))
  {
    var s := x + Newlines(n) + rest;
    Text.Assoc(x, Newlines(n), rest);
    Text.Behind(x, Newlines(n) + rest);
    assert OptionalChar(s) == |x|;
    NewlineRun(n, rest);
  }

  /** Completeness of the matcher: a valid block followed by anything that
      does not continue its closing line-feed run is matched as exactly
      that block. */
  lemma MatchAtComplete(b: Block, rest: string)
    requires ValidBlock(b)
    requires |rest| == 0 || rest[0] != '\n'
    ensures MatchAt(Render(b) + rest) == Some(b)
  {
    FirstPiece(b, rest);
    SecondPiece(b, rest);
    MatchAtUnfold(Render(b) + rest, b);
  }

  /** "By " and the name's piece are read back from a rendered block. */
  lemma FirstPiece(b: Block, rest: string)
    requires ValidBlock(b)
    ensures var s := Render(b) + rest;
      && ByHead <= s
      && DotNewlines(s[|ByHead|..]) == Some(Piece(b.name, b.gap))
  {
    var tail := PublishedHead + (b.date + Newlines(b.trail) + rest);
    RenderThen(b, rest);
    Text.Behind(ByHead, b.name + Newlines(b.gap) + tail);
    DotNewlinesComplete(b.name, b.gap, tail);
  }

  /** "Published: " and the date's piece are read back from a rendered
      block. */
  lemma SecondPiece(b: Block, rest: string)
    requires ValidBlock(b)
    requires |rest| == 0 || rest[0] != '\n'
    ensures var s := Render(b) + rest;
      var i := |ByHead| + |b.name| + b.gap;
      && PublishedHead <= s[i..]
      && DotNewlines(s[i + |PublishedHead|..]) == Some(Piece(b.date, b.trail))
  {
    var tail2 := b.date + Newlines(b.trail) + rest;
    var h1 := ByHead + b.name + Newlines(b.gap);
    RenderSplits(b, rest);
    Text.Behind(h1, PublishedHead + tail2);
    Text.Behind(PublishedHead, tail2);
    Text.Behind(h1 + PublishedHead, tail2);
    DotNewlinesComplete(b.date, b.trail, rest);
  }

  /** A rendered block followed by more text, cut before "Published: " and
      before the date. */
  lemma RenderSplits(b: Block, rest: string)
    ensures var h1 := ByHead + b.name + Newlines(b.gap);
      var tail2 := b.date + Newlines(b.trail) + rest;
      && Render(b) + rest == h1 + (PublishedHead + tail2)
      && Render(b) + rest == (h1 + PublishedHead) + tail2
  {
  }

  /** `MatchAt` read off its parts. */
  lemma MatchAtUnfold(s: string, b: Block)
    requires ByHead <= s
    requires DotNewlines(s[|ByHead|..]) == Some(Piece(b.name, b.gap))
    requires PublishedHead <= s[|ByHead| + |b.name| + b.gap..]
    requires DotNewlines(s[|ByHead| + |b.name| + b.gap + |PublishedHead|..]) == Some(Piece(b.date, b.trail))
    ensures MatchAt(s) == Some(b)
  {
    var p := Piece(b.name, b.gap);
    assert MatchAt(s) == MatchAfterName(s, p);
  }

  /** A rendered block, grouped from the right. */
  lemma RenderParts(b: Block)
    ensures Render(b)
      == ByHead + (b.name + Newlines(b.gap) + (PublishedHead + (b.date + Newlines(b.trail))))
  {
  }

  /** A rendered block followed by more text, regrouped piece by piece. */
  lemma RenderThen(b: Block, rest: string)
    ensures Render(b) + rest
      == ByHead + (b.name + Newlines(b.gap) + (PublishedHead + (b.date + Newlines(b.trail) + rest)))
  {
  }

  /** A run of exactly `n` line feeds in front of text that does not start
      with one is read back as `n`. */
  lemma {:induction false} NewlineRun(n: nat, rest: string)
    requires |rest| == 0 || rest[0] != '\n'
    ensures LeadingNewlines(Newlines(n) + rest) == n
  {
    if n > 0 {
      assert (Newlines(n) + rest)[1..] == Newlines(n - 1) + rest;
      NewlineRun(n - 1, rest);
    } else {
      assert Newlines(0) + rest == rest;
    }
  }

  /** `re.sub(pattern, "", s)`: every match, scanning from the left, is cut
      out; everything else is copied. */
  function Strip(s: string): (r: string)
    ensures |r| <= |s|
    decreases |s|
  {
    if |s| == 0 then []
    else
      match MatchAt(s)
      case Some(b) => Strip(s[|Render(b)|..])
      case None => [s[0]] + Strip(s[1..])
  }

  /** `p` occurs somewhere in `s`. */
  predicate Occurs(p: string, s: string) {
    exists i :: 0 <= i <= |s| && p <= s[i..]
  }

  /** Every match contains "Published: ". */
  lemma MatchNeedsPublished(s: string)
    requires MatchAt(s).Some?
    ensures Occurs(PublishedHead, s)
  {
    var b := MatchAt(s).value;
    var i := |ByHead| + |b.name| + b.gap;
    RenderHasPublished(b);
    PrefixOfSlice(Render(b), s, i);
    PrefixTrans(PublishedHead, Render(b)[i..], s[i..]);
  }

  lemma RenderHasPublished(b: Block)
    ensures PublishedHead <= Render(b)[|ByHead| + |b.name| + b.gap..]
  {
    var i := |ByHead| + |b.name| + b.gap;
    assert Render(b)[i..] == PublishedHead + b.date + Newlines(b.trail);
  }

  lemma PrefixOfSlice(x: string, s: string, i: nat)
    requires x <= s && i <= |x|
    ensures x[i..] <= s[i..]
  {
    assert forall k :: 0 <= k < |x[i..]| ==> x[i..][k] == x[i + k] == s[i + k] == s[i..][k];
  }

  lemma PrefixTrans(x: string, y: string, z: string)
    requires x <= y && y <= z
    ensures x <= z
  {
  }

  /** Text without "Published: " is left unchanged. */
  lemma {:induction false} StripWithoutPublished(s: string)
    requires !Occurs(PublishedHead, s)
    ensures Strip(s) == s
    decreases |s|
  {
    if |s| > 0 {
      if MatchAt(s).Some? {
        MatchNeedsPublished(s);
      }
      StripWithoutPublished(s[1..]);
      assert s == [s[0]] + s[1..];
    }
  }

  /** A byline block at the front is removed, and scanning goes on right
      after it. */
  lemma StripRemovesBlock(b: Block, rest: string)
    requires ValidBlock(b)
    requires |rest| == 0 || rest[0] != '\n'
    ensures Strip(Render(b) + rest) == Strip(rest)
  {
    MatchAtComplete(b, rest);
    assert (Render(b) + rest)[|Render(b)|..] == rest;
  }

  lemma ThreeInFront(a: char, b: char, c: char, x: string)
    ensures [a] + ([b] + ([c] + x)) == [a, b, c] + x
  {
  }

  /** Where no match starts, the first character is copied. */
  lemma StripNoMatch(s: string)
    requires |s| > 0 && MatchAt(s) == None
    ensures Strip(s) == [s[0]] + Strip(s[1..])
  {
  }

  /** Text that does not start with "B" keeps its first character. */
  lemma StripCopiesPlainChar(s: string)
    requires |s| > 0 && s[0] != 'B'
    ensures Strip(s) == [s[0]] + Strip(s[1..])
  {
  }

  /** Where no match starts and the next two characters are not "B",
      the first three characters are copied. */
  lemma StripSkipThree(s: string)
    requires |s| >= 3 && MatchAt(s) == None && s[1] != 'B' && s[2] != 'B'
    ensures Strip(s) == s[..3] + Strip(s[3..])
  {
    StripNoMatch(s);
    StripCopiesPlainChar(s[1..]);
    assert s[1..][1..] == s[2..];
    StripCopiesPlainChar(s[2..]);
    assert s[2..][1..] == s[3..];
    ThreeInFront(s[0], s[1], s[2], Strip(s[3..]));
    FirstThree(s);
  }

  lemma FirstThree(s: string)
    requires |s| >= 3
    ensures s[..3] == [s[0], s[1], s[2]]
  {
  }

  /** No match starts at "By " followed by two characters other than a
      line feed. */
  lemma LongNameNoMatch(name: string, rest: string)
    requires |name| >= 2 && name[0] != '\n' && name[1] != '\n'
    ensures MatchAt(ByHead + name + rest) == None
  {
    var s := ByHead + name + rest;
    assert s[|ByHead|..] == name + rest;
    assert OptionalChar(name + rest) == 1;
    assert (name + rest)[1..][0] == name[1];
    assert LeadingNewlines((name + rest)[1..]) == 0;
  }

  /** A byline whose name is longer than one character is not a match:
      "By " is kept and scanning resumes after it. So the typical
      "By Jane Doe\n\nPublished: Jan 1, 2024\n\n" survives the clean-up. */
  lemma LongNameSurvives(name: string, rest: string)
    requires |name| >= 2 && name[0] != '\n' && name[1] != '\n'
    ensures Strip(ByHead + name + rest) == ByHead + Strip(name + rest)
  {
    var s := ByHead + (name + rest);
    Text.Assoc(ByHead, name, rest);
    LongNameNoMatch(name, rest);
    StripSkipThree(s);
    Text.Behind(ByHead, name + rest);
  }

  /** Text without a capital "B" has no match anywhere and is left
      unchanged. */
  lemma {:induction false} StripWithoutB(s: string)
    requires 'B' !in s
    ensures Strip(s) == s
    decreases |s|
  {
    if |s| > 0 {
      StripCopiesPlainChar(s);
      assert 'B' !in s[1..];
      StripWithoutB(s[1..]);
      ConsSlice(s);
    }
  }

  lemma ConsSlice(s: string)
    requires |s| > 0
    ensures [s[0]] + s[1..] == s
  {
  }

  /** The clean-up is not idempotent: cutting a block out can join the
      text around it into a new match. Here "By " is followed by a whole
      block and then by the rest of a second byline; the block goes, and
      what remains is itself a block, which a second pass removes. */
  lemma StripNotIdempotent(x: char)
    requires x != '\n' && x != 'B'
    ensures var tail := [x] + Newlines(1) + PublishedHead + Newlines(1);
      var s := ByHead + (Render(Block([], 1, [], 1)) + tail);
      && Strip(s) == Render(Block([x], 1, [], 1))
      && Strip(Strip(s)) == []
      && Strip(s) != Strip(Strip(s))
  {
    var inner := Block([], 1, [], 1);
    var outer := Block([x], 1, [], 1);
    var tail := [x] + Newlines(1) + PublishedHead + Newlines(1);
    var rendered := Render(inner);
    WitnessParts(x);
    LongNameSurvives(rendered, tail);
    Text.Assoc(ByHead, rendered, tail);
    StripRemovesBlock(inner, tail);
    StripWithoutB(tail);
    StripRemovesBlock(outer, []);
    EmptyTail(Render(outer));
  }

  /** The facts about the pieces of the witness above, apart from `Strip`. */
  lemma WitnessParts(x: char)
    requires x != '\n' && x != 'B'
    ensures var tail := [x] + Newlines(1) + PublishedHead + Newlines(1);
      && |Render(Block([], 1, [], 1))| >= 2
      && Render(Block([], 1, [], 1))[0] == 'B'
      && Render(Block([], 1, [], 1))[1] == 'y'
      && ValidBlock(Block([], 1, [], 1))
      && ValidBlock(Block([x], 1, [], 1))
      && tail[0] != '\n'
      && 'B' !in tail
      && ByHead + tail == Render(Block([x], 1, [], 1))
      && Render(Block([x], 1, [], 1)) != []
  {
  }

  lemma EmptyTail(s: string)
    ensures s + [] == s
  {
  }
}
