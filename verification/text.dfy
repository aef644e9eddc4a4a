/**
 The character-level vocabulary shared by the server-side auditor and the
 browser-side submit gate: a fixed whitespace set, trimming, and ASCII
 lower-casing.

 Python's `str.strip` and JavaScript's `String.prototype.trim` both remove
 leading and trailing whitespace; they are modelled by one `Trim` over the
 six ASCII whitespace characters that both languages agree on.
 */
module Text {

  /** The whitespace characters recognised by trimming and word splitting:
      space, tab, line feed, vertical tab, form feed and carriage return. */
  predicate IsWs(c: char) {
    c == ' ' || c == '\t' || c == '\n' || c == '\U{B}' || c == '\U{C}' || c == '\r'
  }

  predicate AllWs(s: string) {
    forall k :: 0 <= k < |s| ==> IsWs(s[k])
  }

  predicate NoWs(s: string) {
    forall k :: 0 <= k < |s| ==> !IsWs(s[k])
  }

  /** Neither end of `s` is whitespace (vacuously true of the empty string):
      the shape every trimmed string has. */
  predicate Bordered(s: string) {
    |s| == 0 || (!IsWs(s[0]) && !IsWs(s[|s| - 1]))
  }

  /** Length of the whitespace run that opens `s`. */
  function LeadingWs(s: string): (n: nat)
    ensures n <= |s|
    ensures AllWs(s[..n])
    ensures n == |s| || !IsWs(s[n])
  {
    if |s| == 0 || !IsWs(s[0]) then 0
    else
      var m := LeadingWs(s[1..]);
      assert s[..1 + m] == [s[0]] + s[1..][..m];
      1 + m
  }

  /** Length of the whitespace run that closes `s`. */
  function TrailingWs(s: string): (n: nat)
    ensures n <= |s|
    ensures AllWs(s[|s| - n..])
    ensures n == |s| || !IsWs(s[|s| - n - 1])
  {
    if |s| == 0 || !IsWs(s[|s| - 1]) then 0
    else
      var init := s[..|s| - 1];
      var m := TrailingWs(init);
      assert s[|s| - (1 + m)..] == init[|init| - m..] + [s[|s| - 1]];
      1 + m
  }

  /** The leading run of whitespace has exactly the length `k` when `s[..k]`
      is whitespace and the character at `k`, if any, is not. */
  lemma {:induction false} LeadingWsUnique(s: string, k: nat)
    requires k <= |s| && AllWs(s[..k])
    requires k == |s| || !IsWs(s[k])
    ensures LeadingWs(s) == k
  {
    if k > 0 {
      assert IsWs(s[..k][0]);
      var t := s[1..];
      var u, v := t[..k - 1], s[..k];
      assert forall i :: 0 <= i < |u| ==> u[i] == v[i + 1];
      assert k - 1 == |t| || t[k - 1] == s[k];
      LeadingWsUnique(t, k - 1);
    }
  }

  lemma {:induction false} TrailingWsUnique(s: string, k: nat)
    requires k <= |s| && AllWs(s[|s| - k..])
    requires k == |s| || !IsWs(s[|s| - k - 1])
    ensures TrailingWs(s) == k
  {
    if k > 0 {
      assert IsWs(s[|s| - k..][k - 1]);
      var t := s[..|s| - 1];
      var u, v := t[|t| - (k - 1)..], s[|s| - k..];
      assert forall i :: 0 <= i < |u| ==> u[i] == v[i];
      assert k - 1 == |t| || t[|t| - (k - 1) - 1] == s[|s| - k - 1];
      TrailingWsUnique(t, k - 1);
    }
  }

  /** A whitespace-only string holds no other character. */
  lemma AllWsCount(s: string, c: char)
    requires AllWs(s) && !IsWs(c)
    ensures multiset(s)[c] == 0
  {
  }

  /** Cutting whitespace off both ends keeps every other character. */
  lemma SliceKeepsNonWs(s: string, i: nat, j: nat)
    requires i <= j <= |s|
    requires AllWs(s[..i]) && AllWs(s[j..])
    ensures forall c :: !IsWs(c) ==> multiset(s[i..j])[c] == multiset(s)[c]
  {
    assert s == s[..i] + s[i..j] + s[j..];
    forall c | !IsWs(c) ensures multiset(s[i..j])[c] == multiset(s)[c] {
      AllWsCount(s[..i], c);
      AllWsCount(s[j..], c);
    }
  }

  /** `s` with leading and trailing whitespace removed. */
  function Trim(s: string): (r: string)
    ensures Bordered(r)
    ensures r == [] <==> AllWs(s)
    ensures Bordered(s) ==> r == s
    ensures forall c :: !IsWs(c) ==> multiset(r)[c] == multiset(s)[c]
  {
    var i := LeadingWs(s);
    if i == |s| then
      assert s[..i] == s;
      SliceKeepsNonWs(s, i, i);
      []
    else
      TrailingWsBound(s, i);
      var j := |s| - TrailingWs(s);
      SliceKeepsNonWs(s, i, j);
      BorderedSlice(s, i, j);
      s[i..j]
  }

  lemma BorderedSlice(s: string, i: nat, j: nat)
    requires i < j <= |s| && !IsWs(s[i]) && !IsWs(s[j - 1])
    ensures Bordered(s[i..j])
  {
  }

  /** The closing whitespace run stops short of any other character. */
  lemma {:induction false} TrailingWsBound(s: string, k: nat)
    requires k < |s| && !IsWs(s[k])
    ensures TrailingWs(s) < |s| - k
  {
    if IsWs(s[|s| - 1]) {
      var init := s[..|s| - 1];
      assert init[k] == s[k];
      TrailingWsBound(init, k);
    }
  }

  /** Trimming strips exactly the whitespace borders: whatever whitespace
      surrounds a bordered string, trimming gives back that string. */
  lemma {:induction false} TrimIsUnique(a: string, m: string, b: string)
    requires AllWs(a) && AllWs(b) && Bordered(m)
    ensures Trim(a + m + b) == m
  {
    var s := a + m + b;
    if m == [] {
      assert s == a + b;
      assert AllWs(s) by {
        forall k | 0 <= k < |s| ensures IsWs(s[k]) {
          if k < |a| { assert s[k] == a[k]; } else { assert s[k] == b[k - |a|]; }
        }
      }
    } else {
      assert s[..|a|] == a;
      assert s[|a|] == m[0];
      LeadingWsUnique(s, |a|);
      assert s[|s| - |b|..] == b;
      assert s[|s| - |b| - 1] == m[|m| - 1];
      TrailingWsUnique(s, |b|);
      assert !AllWs(s) by { assert !IsWs(s[|a|]); }
      assert s[|a|..|s| - |b|] == m;
    }
  }

  lemma {:induction false} AllWsAppend(a: string, b: string)
    requires AllWs(a) && AllWs(b)
    ensures AllWs(a + b)
  {
    assert forall k :: 0 <= k < |a + b| ==> (a + b)[k] == if k < |a| then a[k] else b[k - |a|];
  }

  /** Extra whitespace around a string does not change its trimmed form. */
  lemma {:induction false} TrimOfPadded(a: string, s: string, b: string)
    requires AllWs(a) && AllWs(b)
    ensures Trim(a + s + b) == Trim(s)
  {
    if AllWs(s) {
      BlankPadded(a, s, b);
    } else {
      var i := LeadingWs(s);
      var j := |s| - TrailingWs(s);
      var x, m, y := s[..i], Trim(s), s[j..];
      assert i < |s|;
      assert m == s[i..j];
      ThreeSlices(s, i, j);
      Regroup(a, x, m, y, b);
      AllWsAppend(a, x);
      AllWsAppend(y, b);
      TrimIsUnique(a + x, m, y + b);
    }
  }

  lemma BlankPadded(a: string, s: string, b: string)
    requires AllWs(a) && AllWs(s) && AllWs(b)
    ensures Trim(a + s + b) == []
  {
    AllWsAppend(a, s);
    AllWsAppend(a + s, b);
  }

  lemma ThreeSlices(s: string, i: nat, j: nat)
    requires i <= j <= |s|
    ensures s == s[..i] + s[i..j] + s[j..]
  {
  }

  lemma Regroup(a: string, x: string, m: string, y: string, b: string)
    ensures a + (x + m + y) + b == (a + x) + m + (y + b)
  {
  }

  lemma EmptyFront(s: string)
    ensures [] + s == s
  {
  }

  lemma Halves(s: string, n: nat)
    requires n <= |s|
    ensures s == s[..n] + s[n..]
  {
  }

  /** `x` opens `x + y`, and `y` is what follows it. */
  lemma Behind(x: string, y: string)
    ensures x <= x + y && (x + y)[..|x|] == x && (x + y)[|x|..] == y
  {
  }

  /** Concatenation regrouped to the right. */
  lemma Assoc(a: string, b: string, c: string)
    ensures a + b + c == a + (b + c)
  {
  }

  /** Trimming twice is trimming once. */
  lemma TrimIdempotent(s: string)
    ensures Trim(Trim(s)) == Trim(s)
  {
  }

  /** ASCII lower-casing of one character. */
  function LowerChar(c: char): (r: char)
    ensures 'A' <= c <= 'Z' ==> 'a' <= r <= 'z'
    ensures !('A' <= c <= 'Z') ==> r == c
  {
    if 'A' <= c <= 'Z' then (c as int + 32) as char else c
  }

  /** Python's `str.lower()` on ASCII text: no capital letter is left,
      each capital becomes its small letter and every other character is
      kept. */
  function Lower(s: string): (r: string)
    ensures |r| == |s|
    ensures forall k :: 0 <= k < |s| ==> !('A' <= r[k] <= 'Z')
    ensures forall k :: 0 <= k < |s| ==>
      if 'A' <= s[k] <= 'Z' then r[k] as int == s[k] as int + 32 else r[k] == s[k]
  {
    seq(|s|, k requires 0 <= k < |s| => LowerChar(s[k]))
  }

  /** No character of `p` is an ASCII letter, so lower-casing cannot make
      or break a match against it. */
  predicate Caseless(p: string) {
    forall k :: 0 <= k < |p| ==> !('a' <= p[k] <= 'z') && !('A' <= p[k] <= 'Z')
  }

  /** A prefix with no letters matches the lower-cased string exactly when it
      matches the original one. */
  lemma LowerKeepsCaselessPrefix(p: string, s: string)
    requires Caseless(p)
    ensures p <= Lower(s) <==> p <= s
  {
    if p <= s {
      assert forall k :: 0 <= k < |p| ==> Lower(s)[k] == LowerChar(s[k]) == p[k];
    }
    if p <= Lower(s) {
      forall k | 0 <= k < |p| ensures s[k] == p[k] {
        assert LowerChar(s[k]) == p[k];
      }
    }
  }
}
