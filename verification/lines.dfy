/**
 Splitting a string at every occurrence of one separator character, as
 Python's `str.split(sep)` does for a one-character `sep`, and joining the
 pieces back. The two are mutual inverses.
 */
module Lines {
  import Text

  /** Python's `s.split(sep)`: the pieces between consecutive separators,
      always at least one, empty pieces kept. */
  function SplitOn(s: string, sep: char): (parts: seq<string>)
    ensures |parts| >= 1
    ensures forall i :: 0 <= i < |parts| ==> sep !in parts[i]
    ensures JoinWith(parts, sep) == s
  {
    if |s| == 0 then [""]
    else if s[0] == sep then
      var rest := SplitOn(s[1..], sep);
      assert s == [sep] + s[1..];
      [""] + rest
    else
      var rest := SplitOn(s[1..], sep);
      var parts := [[s[0]] + rest[0]] + rest[1..];
      assert parts[1..] == rest[1..];
      assert s == [s[0]] + s[1..];
      parts
  }

  /** Python's `sep.join(parts)`. */
  function JoinWith(parts: seq<string>, sep: char): string
    requires |parts| >= 1
  {
    if |parts| == 1 then parts[0] else parts[0] + [sep] + JoinWith(parts[1..], sep)
  }

  /** The last piece is the part of `s` after its final separator, or all
      of `s` when there is none. */
  lemma LastPiece(s: string, sep: char)
    ensures var parts := SplitOn(s, sep);
      var r := parts[|parts| - 1];
      && |r| <= |s| && s[|s| - |r|..] == r
      && (|r| == |s| || s[|s| - |r| - 1] == sep)
  {
    var parts := SplitOn(s, sep);
    var r := parts[|parts| - 1];
    if |parts| == 1 {
      assert s[|s| - |r|..] == s;
    } else {
      JoinLast(parts, sep);
      var front := JoinWith(parts[..|parts| - 1], sep) + [sep];
      Text.Behind(front, r);
    }
  }

  /** Joining ends with the separator and the last piece. */
  lemma {:induction false} JoinLast(parts: seq<string>, sep: char)
    requires |parts| > 1
    ensures JoinWith(parts, sep) == JoinWith(parts[..|parts| - 1], sep) + [sep] + parts[|parts| - 1]
  {
    var n := |parts|;
    var init := parts[..n - 1];
    if n > 2 {
      JoinLast(parts[1..], sep);
      assert parts[1..][..n - 2] == init[1..];
      assert init[0] == parts[0];
      var j := JoinWith(init[1..], sep);
      Text.Assoc(parts[0] + [sep], j + [sep], parts[n - 1]);
      Text.Assoc(parts[0] + [sep], j, [sep]);
    }
  }

  /** A string without the separator is a single piece. */
  lemma {:induction false} SplitWithoutSep(s: string, sep: char)
    requires sep !in s
    ensures SplitOn(s, sep) == [s]
  {
    if |s| > 0 {
      assert sep !in s[1..];
      SplitWithoutSep(s[1..], sep);
    }
  }

  /** Splitting distributes over a separator: the pieces of `a + sep + b`
      are the pieces of `a` followed by the pieces of `b`. */
  lemma {:induction false} SplitAtSep(a: string, b: string, sep: char)
    ensures SplitOn(a + [sep] + b, sep) == SplitOn(a, sep) + SplitOn(b, sep)
  {
    var s := a + [sep] + b;
    SplitStep(s, sep);
    if |a| == 0 {
      assert s[1..] == b;
    } else {
      DropFirst(a, [sep] + b);
      Text.Assoc(a, [sep], b);
      Text.Assoc(a[1..], [sep], b);
      SplitAtSep(a[1..], b, sep);
      SplitAtSepStep(a, b, sep);
    }
  }

  /** The inductive step of `SplitAtSep`. */
  lemma SplitAtSepStep(a: string, b: string, sep: char)
    requires |a| > 0
    requires SplitOn(a[1..] + [sep] + b, sep) == SplitOn(a[1..], sep) + SplitOn(b, sep)
    ensures SplitOn(a + [sep] + b, sep) == SplitOn(a, sep) + SplitOn(b, sep)
  {
    var s := a + [sep] + b;
    var sb := SplitOn(b, sep);
    var ra := SplitOn(a[1..], sep);
    SplitStep(s, sep);
    SplitStep(a, sep);
    DropFirst(a, [sep] + b);
    Text.Assoc(a, [sep], b);
    Text.Assoc(a[1..], [sep], b);
    if a[0] == sep {
      AssocParts([""], ra, sb);
    } else {
      var h := [a[0]] + ra[0];
      HeadOfAppend(ra, sb);
      AssocParts([h], ra[1..], sb);
    }
  }

  lemma DropFirst(a: string, y: string)
    requires |a| > 0
    ensures (a + y)[0] == a[0] && (a + y)[1..] == a[1..] + y
  {
  }

  lemma HeadOfAppend(x: seq<string>, y: seq<string>)
    requires |x| > 0
    ensures (x + y)[0] == x[0] && (x + y)[1..] == x[1..] + y
  {
  }

  /** One step of `SplitOn`, for a non-empty string. */
  lemma SplitStep(s: string, sep: char)
    requires |s| > 0
    ensures s[0] == sep ==> SplitOn(s, sep) == [""] + SplitOn(s[1..], sep)
    ensures s[0] != sep ==>
      SplitOn(s, sep) == [[s[0]] + SplitOn(s[1..], sep)[0]] + SplitOn(s[1..], sep)[1..]
  {
  }

  lemma AssocParts(x: seq<string>, y: seq<string>, z: seq<string>)
    ensures x + (y + z) == x + y + z
  {
  }

  /** Joining pieces that hold no separator and splitting again gives the
      same pieces back. */
  lemma {:induction false} SplitJoin(parts: seq<string>, sep: char)
    requires |parts| >= 1
    requires forall i :: 0 <= i < |parts| ==> sep !in parts[i]
    ensures SplitOn(JoinWith(parts, sep), sep) == parts
  {
    SplitWithoutSep(parts[0], sep);
    if |parts| > 1 {
      SplitJoin(parts[1..], sep);
      SplitAtSep(parts[0], JoinWith(parts[1..], sep), sep);
      assert parts == [parts[0]] + parts[1..];
    }
  }
}
