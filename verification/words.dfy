/**
 Splitting text into words at runs of whitespace, in the two flavours the
 system uses: JavaScript's `s.split(/\s+/)` (the browser's word counter),
 which keeps an empty piece before a leading and after a trailing run, and
 Python's argument-less `s.split()` (the server's length check), which is
 the same cut with the empty pieces dropped.
 */
module Words {
  import opened Text

  /** The non-whitespace characters of `s`, in order. */
  function Squeeze(s: string): (r: string)
    ensures NoWs(r)
    ensures |r| <= |s|
  {
    if |s| == 0 then []
    else if IsWs(s[0]) then Squeeze(s[1..])
    else [s[0]] + Squeeze(s[1..])
  }

  /** All pieces laid end to end. */
  function Flatten(parts: seq<string>): string {
    if |parts| == 0 then [] else parts[0] + Flatten(parts[1..])
  }

  /** JavaScript's `s.split(/\s+/)`: cut at every maximal whitespace run. */
  function SplitRuns(s: string): (parts: seq<string>)
    ensures 1 <= |parts| <= |s| + 1
    ensures parts == [""] <==> |s| == 0
    ensures forall i :: 0 <= i < |parts| ==> NoWs(parts[i])
    ensures forall i :: 0 < i < |parts| - 1 ==> parts[i] != []
    ensures parts[0] == [] <==> (|s| == 0 || IsWs(s[0]))
    ensures parts[|parts| - 1] == [] <==> (|s| == 0 || IsWs(s[|s| - 1]))
    decreases |s|
  {
    if |s| == 0 then [""]
    else if IsWs(s[0]) then
      var n := LeadingWs(s);
      [""] + SplitRuns(s[n..])
    else
      var rest := SplitRuns(s[1..]);
      [[s[0]] + rest[0]] + rest[1..]
  }

  /** The pieces of `SplitRuns` are exactly the non-whitespace text. */
  lemma {:induction false} SplitRunsKeepsContent(s: string)
    ensures Flatten(SplitRuns(s)) == Squeeze(s)
    decreases |s|
  {
    if |s| == 0 {
    } else if IsWs(s[0]) {
      SplitRunsKeepsContent(s[LeadingWs(s)..]);
      ContentAfterRun(s);
    } else {
      SplitRunsKeepsContent(s[1..]);
      ContentAfterChar(s);
    }
  }

  lemma {:induction false} ContentAfterRun(s: string)
    requires |s| > 0 && IsWs(s[0])
    requires Flatten(SplitRuns(s[LeadingWs(s)..])) == Squeeze(s[LeadingWs(s)..])
    ensures Flatten(SplitRuns(s)) == Squeeze(s)
  {
    var n := LeadingWs(s);
    var rest := SplitRuns(s[n..]);
    assert SplitRuns(s) == [""] + rest;
    FlattenCons([], rest);
    EmptyFront(Flatten(rest));
    Halves(s, n);
    SqueezeAppend(s[..n], s[n..]);
    SqueezeAllWs(s[..n]);
    EmptyFront(Squeeze(s[n..]));
  }

  lemma {:induction false} ContentAfterChar(s: string)
    requires |s| > 0 && !IsWs(s[0])
    requires Flatten(SplitRuns(s[1..])) == Squeeze(s[1..])
    ensures Flatten(SplitRuns(s)) == Squeeze(s)
  {
    var rest := SplitRuns(s[1..]);
    var head := [s[0]] + rest[0];
    assert SplitRuns(s) == [head] + rest[1..];
    FlattenCons(head, rest[1..]);
    Text.Assoc([s[0]], rest[0], Flatten(rest[1..]));
    assert Squeeze(s) == [s[0]] + Squeeze(s[1..]);
  }

  lemma FlattenCons(h: string, t: seq<string>)
    ensures Flatten([h] + t) == h + Flatten(t)
  {
    assert ([h] + t)[1..] == t;
  }

  lemma {:induction false} SqueezeAppend(a: string, b: string)
    ensures Squeeze(a + b) == Squeeze(a) + Squeeze(b)
  {
    if |a| > 0 {
      assert (a + b)[1..] == a[1..] + b;
      SqueezeAppend(a[1..], b);
    } else {
      assert a + b == b;
    }
  }

  lemma {:induction false} SqueezeAllWs(s: string)
    requires AllWs(s)
    ensures Squeeze(s) == []
  {
    if |s| > 0 {
      SqueezeAllWs(s[1..]);
    }
  }

  /** The pieces that are not empty, in order. */
  function NonEmpty(parts: seq<string>): (r: seq<string>)
    ensures |r| <= |parts|
    ensures forall i :: 0 <= i < |r| ==> r[i] != [] && r[i] in parts
    ensures Flatten(r) == Flatten(parts)
    ensures (forall i :: 0 <= i < |parts| ==> parts[i] != []) ==> r == parts
    ensures (forall i :: 0 <= i < |parts| ==> parts[i] == []) ==> r == []
  {
    if |parts| == 0 then []
    else if parts[0] == [] then NonEmpty(parts[1..])
    else [parts[0]] + NonEmpty(parts[1..])
  }

  /** Python's argument-less `s.split()`: the maximal whitespace-free runs. */
  function Split(s: string): (words: seq<string>)
    ensures forall i :: 0 <= i < |words| ==> words[i] != [] && NoWs(words[i])
    ensures Flatten(words) == Squeeze(s)
    ensures |words| <= |s|
    ensures words == [] <==> AllWs(s)
  {
    var parts := SplitRuns(s);
    var words := NonEmpty(parts);
    SplitRunsKeepsContent(s);
    FlattenLength(words);
    SqueezeEmpty(s);
    words
  }

  /** Only whitespace squeezes down to nothing. */
  lemma {:induction false} SqueezeEmpty(s: string)
    ensures Squeeze(s) == [] <==> AllWs(s)
  {
    if |s| > 0 {
      SqueezeEmpty(s[1..]);
      assert AllWs(s) <==> IsWs(s[0]) && AllWs(s[1..]) by {
        assert forall k :: 0 < k < |s| ==> s[k] == s[1..][k - 1];
      }
    }
  }

  /** Laying non-empty pieces end to end gives at least one character each. */
  lemma {:induction false} FlattenLength(parts: seq<string>)
    requires forall i :: 0 <= i < |parts| ==> parts[i] != []
    ensures |Flatten(parts)| >= |parts|
  {
    if |parts| > 0 {
      FlattenLength(parts[1..]);
    }
  }

  /** On bordered text (what trimming produces) the JavaScript cut has no
      empty piece except for the empty text, so the two splits agree
      everywhere but there. */
  lemma {:induction false} SplitsAgreeOnBordered(s: string)
    requires Bordered(s)
    ensures |s| == 0 ==> SplitRuns(s) == [""] && Split(s) == []
    ensures |s| > 0 ==> SplitRuns(s) == Split(s)
  {
    var parts := SplitRuns(s);
    if |s| > 0 {
      assert forall i :: 0 <= i < |parts| ==> parts[i] != [] by {
        forall i | 0 <= i < |parts| ensures parts[i] != [] {
          if i == 0 { } else if i == |parts| - 1 { } else { }
        }
      }
    }
  }

  /** A word character followed by one space splits off as a word of its
      own in front of the pieces of the rest. */
  lemma {:induction false} SplitRunsWordSpace(w: char, e: string)
    requires !IsWs(w) && |e| > 0 && !IsWs(e[0])
    ensures SplitRuns([w, ' '] + e) == [[w]] + SplitRuns(e)
  {
    var s := [w, ' '] + e;
    var t := s[1..];
    assert t == [' '] + e;
    assert t[..1] == [' '];
    LeadingWsUnique(t, 1);
    assert t[1..] == e;
    var rest := SplitRuns(t);
    assert rest == [""] + SplitRuns(e);
    assert s[0] == w && !IsWs(s[0]);
    assert SplitRuns(s) == [[w] + rest[0]] + rest[1..];
    assert rest[1..] == SplitRuns(e);
    assert [w] + rest[0] == [w];
  }

  /** `parts[0] + gaps[0] + parts[1] + … + gaps[|gaps| - 1] + parts[|gaps|]`:
      the pieces laid out with the gaps between them. */
  function Weave(parts: seq<string>, gaps: seq<string>): string
    requires |parts| == |gaps| + 1
    decreases |gaps|
  {
    if |gaps| == 0 then parts[0] else parts[0] + (gaps[0] + Weave(parts[1..], gaps[1..]))
  }

  /** Every gap is a non-empty run of whitespace. */
  predicate Gaps(gaps: seq<string>) {
    forall i :: 0 <= i < |gaps| ==> gaps[i] != [] && AllWs(gaps[i])
  }

  /** Whitespace-free pieces, none of them empty except perhaps the first
      and the last. */
  predicate Pieces(parts: seq<string>) {
    && (forall i :: 0 <= i < |parts| ==> NoWs(parts[i]))
    && (forall i :: 0 < i < |parts| - 1 ==> parts[i] != [])
  }

  /** `s` is `parts` with the whitespace runs `gaps` between them. */
  predicate Layout(parts: seq<string>, gaps: seq<string>, s: string) {
    |parts| == |gaps| + 1 && Gaps(gaps) && Weave(parts, gaps) == s
  }

  /** Length of the whitespace-free run that opens `s`. */
  function LeadingWord(s: string): (n: nat)
    ensures n <= |s|
    ensures NoWs(s[..n])
    ensures n == |s| || IsWs(s[n])
  {
    if |s| == 0 || IsWs(s[0]) then 0
    else
      var m := LeadingWord(s[1..]);
      assert s[..1 + m] == [s[0]] + s[1..][..m];
      1 + m
  }

  lemma {:induction false} LeadingWordUnique(s: string, k: nat)
    requires k <= |s| && NoWs(s[..k])
    requires k == |s| || IsWs(s[k])
    ensures LeadingWord(s) == k
  {
    if k > 0 {
      assert !IsWs(s[..k][0]);
      var t := s[1..];
      var u, v := t[..k - 1], s[..k];
      assert forall i :: 0 <= i < |u| ==> u[i] == v[i + 1];
      assert k - 1 == |t| || t[k - 1] == s[k];
      LeadingWordUnique(t, k - 1);
    }
  }

  /** `split(/\s+/)` cuts exactly at the whitespace runs: its pieces,
      put back together with some non-empty whitespace runs between them,
      give the text back. */
  lemma {:induction false} SplitRunsRebuilds(s: string)
    ensures exists gaps :: Layout(SplitRuns(s), gaps, s)
    decreases |s|
  {
    if |s| == 0 {
      assert Layout(SplitRuns(s), [], s);
    } else if IsWs(s[0]) {
      var n := LeadingWs(s);
      var t := s[n..];
      SplitRunsRebuilds(t);
      var g :| Layout(SplitRuns(t), g, t);
      SplitRunsStep(s);
      LayoutAfterRun(s[..n], t, SplitRuns(t), g);
      Halves(s, n);
      assert Layout(SplitRuns(s), [s[..n]] + g, s);
    } else {
      var t := s[1..];
      SplitRunsRebuilds(t);
      var g :| Layout(SplitRuns(t), g, t);
      SplitRunsStep(s);
      LayoutAfterChar(s[0], t, SplitRuns(t), g);
      assert s == [s[0]] + t;
      assert Layout(SplitRuns(s), g, s);
    }
  }

  /** One step of `SplitRuns`. */
  lemma SplitRunsStep(s: string)
    requires |s| > 0
    ensures IsWs(s[0]) ==>
      LeadingWs(s) > 0 && SplitRuns(s) == [""] + SplitRuns(s[LeadingWs(s)..])
    ensures !IsWs(s[0]) ==>
      SplitRuns(s) == [[s[0]] + SplitRuns(s[1..])[0]] + SplitRuns(s[1..])[1..]
  {
  }

  /** A whitespace run in front of a layout becomes its first gap, after
      an empty first piece. */
  lemma LayoutAfterRun(x: string, t: string, rest: seq<string>, g: seq<string>)
    requires x != [] && AllWs(x) && Layout(rest, g, t)
    ensures Layout([""] + rest, [x] + g, x + t)
  {
    WeavePrepend(x, rest, g);
    assert forall i :: 0 < i < |g| + 1 ==> ([x] + g)[i] == g[i - 1];
  }

  /** A character in front of a layout joins its first piece. */
  lemma LayoutAfterChar(c: char, t: string, rest: seq<string>, g: seq<string>)
    requires Layout(rest, g, t)
    ensures Layout([[c] + rest[0]] + rest[1..], g, [c] + t)
  {
    WeaveFront([c], rest, g);
  }

  /** Text put in front of the first piece goes in front of the layout. */
  lemma WeaveFront(c: string, p: seq<string>, g: seq<string>)
    requires |p| == |g| + 1
    ensures Weave([c + p[0]] + p[1..], g) == c + Weave(p, g)
  {
    var q := [c + p[0]] + p[1..];
    assert q[0] == c + p[0] && q[1..] == p[1..];
    if |g| > 0 {
      Assoc(c, p[0], g[0] + Weave(p[1..], g[1..]));
    }
  }

  /** A layout that opens with a non-empty piece, or is a single piece,
      does not open with whitespace. */
  lemma WeaveStart(p: seq<string>, g: seq<string>)
    requires |p| == |g| + 1 && Pieces(p)
    requires p[0] != [] || |g| == 0
    ensures Weave(p, g) == [] || !IsWs(Weave(p, g)[0])
  {
    if |g| > 0 {
      assert Weave(p, g)[0] == p[0][0];
    }
  }

  /** Dropping the first piece and the first gap keeps a layout's shape. */
  lemma LayoutTail(p: seq<string>, g: seq<string>)
    requires |g| > 0 && |p| == |g| + 1 && Gaps(g) && Pieces(p)
    ensures Gaps(g[1..]) && Pieces(p[1..])
    ensures p[1..][0] != [] || |g[1..]| == 0
  {
    assert forall i :: 0 <= i < |g| - 1 ==> g[1..][i] == g[i + 1];
    assert forall i :: 0 <= i < |p| - 1 ==> p[1..][i] == p[i + 1];
  }

  /** The first piece of a layout is the whitespace-free run opening the
      text. */
  lemma FirstPieceOfLayout(p: seq<string>, g: seq<string>, s: string)
    requires Layout(p, g, s) && Pieces(p)
    ensures |p[0]| <= |s| && s[..|p[0]|] == p[0] && LeadingWord(s) == |p[0]|
    ensures |g| == 0 ==> |s| == |p[0]|
    ensures |g| > 0 ==> s[|p[0]|..] == g[0] + Weave(p[1..], g[1..])
  {
    if |g| == 0 {
      assert s[..|s|] == s;
      LeadingWordUnique(s, |s|);
    } else {
      Behind(p[0], g[0] + Weave(p[1..], g[1..]));
      assert s[|p[0]|] == g[0][0];
      LeadingWordUnique(s, |p[0]|);
    }
  }

  /** After the first piece, the first gap is the whitespace run opening
      what remains. */
  lemma FirstGapOfLayout(p: seq<string>, g: seq<string>, t: string)
    requires |g| > 0 && |p| == |g| + 1 && Gaps(g) && Pieces(p)
    requires t == g[0] + Weave(p[1..], g[1..])
    ensures t[..|g[0]|] == g[0] && t[|g[0]|..] == Weave(p[1..], g[1..])
    ensures LeadingWs(t) == |g[0]|
  {
    Behind(g[0], Weave(p[1..], g[1..]));
    LayoutTail(p, g);
    WeaveStart(p[1..], g[1..]);
    LeadingWsUnique(t, |g[0]|);
  }

  /** A text has only one layout as pieces and whitespace runs. */
  lemma {:induction false} LayoutUnique(p: seq<string>, g: seq<string>, q: seq<string>, h: seq<string>, s: string)
    requires Layout(p, g, s) && Pieces(p)
    requires Layout(q, h, s) && Pieces(q)
    ensures p == q && g == h
    decreases |g|
  {
    FirstPieceOfLayout(p, g, s);
    FirstPieceOfLayout(q, h, s);
    assert p[0] == q[0];
    if |g| == 0 || |h| == 0 {
      assert |g| == 0 && |h| == 0;
      assert p == [p[0]] && q == [q[0]];
    } else {
      var t := s[|p[0]|..];
      FirstGapOfLayout(p, g, t);
      FirstGapOfLayout(q, h, t);
      assert g[0] == h[0];
      LayoutTail(p, g);
      LayoutTail(q, h);
      LayoutUnique(p[1..], g[1..], q[1..], h[1..], t[|g[0]|..]);
      assert p == [p[0]] + p[1..] && q == [q[0]] + q[1..];
      assert g == [g[0]] + g[1..] && h == [h[0]] + h[1..];
    }
  }

  /** Any way of writing `s` as whitespace-free pieces (only the first and
      the last may be empty) separated by non-empty whitespace runs is
      the JavaScript split of `s`. */
  lemma SplitRunsIsTheCut(s: string, p: seq<string>, g: seq<string>)
    requires Layout(p, g, s) && Pieces(p)
    ensures SplitRuns(s) == p
  {
    SplitRunsRebuilds(s);
    var g2 :| Layout(SplitRuns(s), g2, s);
    LayoutUnique(SplitRuns(s), g2, p, g, s);
  }

  /** A last empty piece after a last gap appends that gap. */
  lemma {:induction false} WeaveAppend(w: seq<string>, g: seq<string>, b: string)
    requires |w| == |g| + 1
    ensures Weave(w + [""], g + [b]) == Weave(w, g) + b
    decreases |g|
  {
    var p, h := w + [""], g + [b];
    if |g| == 0 {
      assert p[1..] == [""] && h[1..] == [];
      assert Weave(p, h) == w[0] + (b + "");
      assert b + "" == b;
      Assoc(w[0], b, "");
    } else {
      assert p[1..] == w[1..] + [""] && h[1..] == g[1..] + [b];
      WeaveAppend(w[1..], g[1..], b);
      Assoc(g[0], Weave(w[1..], g[1..]), b);
      Assoc(w[0], g[0] + Weave(w[1..], g[1..]), b);
    }
  }

  /** A first empty piece before a first gap puts that gap in front. */
  lemma WeavePrepend(a: string, w: seq<string>, g: seq<string>)
    requires |w| == |g| + 1
    ensures Weave([""] + w, [a] + g) == a + Weave(w, g)
  {
    var p, h := [""] + w, [a] + g;
    assert p[1..] == w && h[1..] == g;
    EmptyFront(a + Weave(w, g));
  }

  lemma {:induction false} NonEmptyAppend(x: seq<string>, y: seq<string>)
    ensures NonEmpty(x + y) == NonEmpty(x) + NonEmpty(y)
  {
    if |x| == 0 {
      assert x + y == y;
    } else {
      assert (x + y)[0] == x[0] && (x + y)[1..] == x[1..] + y;
      NonEmptyAppend(x[1..], y);
    }
  }

  /** Non-empty, whitespace-free words. */
  predicate WordList(w: seq<string>) {
    forall i :: 0 <= i < |w| ==> w[i] != [] && NoWs(w[i])
  }

  /** Any way of writing `s` as whitespace, then non-empty whitespace-free
      words separated by non-empty whitespace runs, then whitespace, is
      the Python split of `s`: the words are exactly the maximal
      whitespace-free runs. */
  lemma SplitIsTheCut(s: string, a: string, w: seq<string>, g: seq<string>, b: string)
    requires AllWs(a) && AllWs(b)
    requires |w| == |g| + 1 && Gaps(g) && WordList(w)
    requires s == a + Weave(w, g) + b
    ensures Split(s) == w
  {
    var m := Weave(w, g);
    var p1, g1 := PadBack(w, g, b);
    var p2, g2 := PadFront(a, p1, g1, m + b);
    Assoc(a, m, b);
    SplitRunsIsTheCut(s, p2, g2);
  }

  /** Trailing whitespace after words becomes a last gap before an empty
      piece. */
  lemma PadBack(w: seq<string>, g: seq<string>, b: string) returns (p: seq<string>, h: seq<string>)
    requires |w| == |g| + 1 && Gaps(g) && WordList(w) && AllWs(b)
    ensures Layout(p, h, Weave(w, g) + b) && Pieces(p)
    ensures p[0] == w[0] && NonEmpty(p) == w
  {
    if b == [] {
      p, h := w, g;
      assert Weave(w, g) + b == Weave(w, g);
    } else {
      p, h := w + [""], g + [b];
      WeaveAppend(w, g, b);
      EmptyLastPiece(w);
      SnocGap(g, b);
    }
  }

  /** Words followed by an empty last piece are pieces, and dropping the
      empty pieces gives the words back. */
  lemma EmptyLastPiece(w: seq<string>)
    requires WordList(w)
    ensures Pieces(w + [""]) && NonEmpty(w + [""]) == w
  {
    NonEmptyAppend(w, [""]);
    assert forall i :: 0 <= i < |w| ==> (w + [""])[i] == w[i];
  }

  lemma SnocGap(g: seq<string>, b: string)
    requires Gaps(g) && b != [] && AllWs(b)
    ensures Gaps(g + [b])
  {
    assert forall i :: 0 <= i < |g| ==> (g + [b])[i] == g[i];
  }

  /** Leading whitespace before a layout opening with a word becomes a
      first gap after an empty piece. */
  lemma PadFront(a: string, p1: seq<string>, g1: seq<string>, t: string) returns (p: seq<string>, h: seq<string>)
    requires AllWs(a) && Layout(p1, g1, t) && Pieces(p1) && p1[0] != []
    ensures Layout(p, h, a + t) && Pieces(p) && NonEmpty(p) == NonEmpty(p1)
  {
    if a == [] {
      p, h := p1, g1;
      EmptyFront(t);
    } else {
      p, h := [""] + p1, [a] + g1;
      LayoutAfterRun(a, t, p1, g1);
      assert p[1..] == p1;
      assert forall i :: 0 < i < |p| ==> p[i] == p1[i - 1];
    }
  }
}
