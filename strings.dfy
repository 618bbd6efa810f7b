/**
 * The character classes and string helpers of Python's `str` that the
 * stylesheet parser and the inline layout rely on: `isspace`, `isalnum`,
 * `lower` and `split()`.
 */
module Strings {

  /** Python's `str.isspace` for a single character. */
  predicate IsSpace(c: char) {
    || c == ' '
    || ('\t' <= c <= '\r')
    || ('\U{1c}' <= c <= '\U{1f}')
    || c == '\U{85}' || c == '\U{a0}' || c == '\U{1680}'
    || ('\U{2000}' <= c <= '\U{200a}')
    || c == '\U{2028}' || c == '\U{2029}' || c == '\U{202f}'
    || c == '\U{205f}' || c == '\U{3000}'
  }

  predicate IsUpper(c: char) { 'A' <= c <= 'Z' }

  /** `str.isalnum`, restricted to ASCII letters and digits. */
  predicate IsAlnum(c: char) { 'a' <= c <= 'z' || IsUpper(c) || '0' <= c <= '9' }

  function LowerChar(c: char): (r: char)
    ensures !IsUpper(r)
    ensures IsAlnum(r) <==> IsAlnum(c)
  {
    if IsUpper(c) then (c as int - 'A' as int + 'a' as int) as char else c
  }

  /** `str.lower`, restricted to ASCII letters. */
  function Lower(s: string): (r: string)
    ensures |r| == |s|
    ensures forall k :: 0 <= k < |s| ==> r[k] == LowerChar(s[k])
  {
    if s == [] then [] else [LowerChar(s[0])] + Lower(s[1..])
  }

  predicate IsLowerCase(s: string) {
    forall k :: 0 <= k < |s| ==> !IsUpper(s[k])
  }

  lemma LowerIsLowerCase(s: string)
    ensures IsLowerCase(Lower(s))
    ensures Lower(Lower(s)) == Lower(s)
  {
  }

  /** `str.lower` leaves a string without capitals as it is. */
  lemma LowerOfLowerCase(s: string)
    requires IsLowerCase(s)
    ensures Lower(s) == s
  {
  }

  /** Index of the first non-space character at or after `i`, or `|s|`. */
  function SpaceEnd(s: string, i: nat): (j: nat)
    requires i <= |s|
    ensures i <= j <= |s|
    ensures j == |s| || !IsSpace(s[j])
    ensures forall k :: i <= k < j ==> IsSpace(s[k])
    decreases |s| - i
  {
    if i < |s| && IsSpace(s[i]) then SpaceEnd(s, i + 1) else i
  }

  /** Index of the first space character at or after `i`, or `|s|`. */
  function RunEnd(s: string, i: nat): (j: nat)
    requires i <= |s|
    ensures i <= j <= |s|
    ensures j == |s| || IsSpace(s[j])
    ensures forall k :: i <= k < j ==> !IsSpace(s[k])
    decreases |s| - i
  {
    if i < |s| && !IsSpace(s[i]) then RunEnd(s, i + 1) else i
  }

  predicate HasNoSpace(w: string) {
    forall k :: 0 <= k < |w| ==> !IsSpace(w[k])
  }

  /**
   * Python's `str.split()` with no separator: the maximal runs of
   * non-space characters, in order.
   */
  function Split(s: string): (ws: seq<string>)
    ensures forall k :: 0 <= k < |ws| ==> ws[k] != [] && HasNoSpace(ws[k])
    decreases |s|
  {
    var i := SpaceEnd(s, 0);
    if i == |s| then
      []
    else
      var j := RunEnd(s, i);
      [s[i..j]] + Split(s[j..])
  }

  /** A string of spaces only splits into nothing; a single run splits into itself. */
  lemma {:induction false} SplitOfRun(s: string)
    ensures (forall k :: 0 <= k < |s| ==> IsSpace(s[k])) ==> Split(s) == []
    ensures s != [] && HasNoSpace(s) ==> Split(s) == [s]
  {
    if s != [] && HasNoSpace(s) {
      assert SpaceEnd(s, 0) == 0;
      var j := RunEnd(s, 0);
      assert j == |s|;
      assert s[j..] == [];
      assert s[0..j] == s;
    }
  }

  /** `lower` applied to each word. */
  function LowerEach(ws: seq<string>): (r: seq<string>)
    ensures |r| == |ws| && forall k :: 0 <= k < |ws| ==> r[k] == Lower(ws[k])
  {
    if ws == [] then [] else [Lower(ws[0])] + LowerEach(ws[1..])
  }

  /** `s` with its space characters taken out. */
  function Unspaced(s: string): string {
    if s == [] then [] else (if IsSpace(s[0]) then [] else [s[0]]) + Unspaced(s[1..])
  }

  /** The words of `ws` written one after the other. */
  function Concat(ws: seq<string>): string {
    if ws == [] then [] else ws[0] + Concat(ws[1..])
  }

  /** A run of non-space characters starts at `k`. */
  predicate RunStartsAt(s: string, k: nat)
    requires k < |s|
  {
    !IsSpace(s[k]) && (k == 0 || IsSpace(s[k - 1]))
  }

  /** The number of runs of non-space characters that start at `lo` or later. */
  function RunsFrom(s: string, lo: nat): nat
    requires lo <= |s|
    decreases |s| - lo
  {
    if lo == |s| then 0 else (if RunStartsAt(s, lo) then 1 else 0) + RunsFrom(s, lo + 1)
  }

  lemma {:induction false} UnspacedAppend(a: string, b: string)
    ensures Unspaced(a + b) == Unspaced(a) + Unspaced(b)
  {
    if a != [] {
      assert (a + b)[0] == a[0] && (a + b)[1..] == a[1..] + b;
      UnspacedAppend(a[1..], b);
    } else {
      assert a + b == b;
    }
  }

  lemma {:induction false} UnspacedOfRun(s: string)
    ensures (forall k :: 0 <= k < |s| ==> IsSpace(s[k])) ==> Unspaced(s) == []
    ensures HasNoSpace(s) ==> Unspaced(s) == s
  {
    if s != [] {
      UnspacedOfRun(s[1..]);
      assert s == [s[0]] + s[1..];
    }
  }

  /** `SpaceEnd` is the only index that ends the run of spaces at `p`. */
  lemma {:induction false} SpaceEndIs(s: string, p: nat, q: nat)
    requires p <= q <= |s|
    requires forall m :: p <= m < q ==> IsSpace(s[m])
    requires q == |s| || !IsSpace(s[q])
    ensures SpaceEnd(s, p) == q
    decreases q - p
  {
    if p < q {
      SpaceEndIs(s, p + 1, q);
    }
  }

  /** `RunEnd` is the only index that ends the run of non-spaces at `p`. */
  lemma {:induction false} RunEndIs(s: string, p: nat, q: nat)
    requires p <= q <= |s|
    requires forall m :: p <= m < q ==> !IsSpace(s[m])
    requires q == |s| || IsSpace(s[q])
    ensures RunEnd(s, p) == q
    decreases q - p
  {
    if p < q {
      RunEndIs(s, p + 1, q);
    }
  }

  /** Leading spaces add nothing to the split: `t` is `s` without them. */
  lemma SplitSkipSpaces(s: string, n: nat, t: string)
    requires n <= |s| && n == SpaceEnd(s, 0) && t == s[n..]
    ensures Split(s) == Split(t)
  {
    if n < |s| {
      SpaceEndIs(t, 0, 0);
      var j := RunEnd(s, n);
      RunEndIs(t, 0, j - n);
      assert t[0..j - n] == s[n..j];
      assert t[j - n..] == s[j..];
    }
  }

  /** The spaces at `j` add nothing to the split of the text from `j` to `k`. */
  lemma SplitAfterSpaces(s: string, j: nat, k: nat)
    requires j <= |s| && SpaceEnd(s, j) <= k <= |s|
    ensures Split(s[j..k]) == Split(s[SpaceEnd(s, j)..k])
  {
    SpaceEndOfSlice(s, j, k);
    SliceOfSlice(s, j, SpaceEnd(s, j) - j, k);
    SplitSkipSpaces(s[j..k], SpaceEnd(s, j) - j, s[SpaceEnd(s, j)..k]);
  }

  lemma SpaceEndOfSlice(s: string, j: nat, k: nat)
    requires j <= |s| && SpaceEnd(s, j) <= k <= |s|
    ensures SpaceEnd(s[j..k], 0) == SpaceEnd(s, j) - j
  {
    var u := s[j..k];
    var d := SpaceEnd(s, j) - j;
    forall m | 0 <= m < d ensures IsSpace(u[m]) {
      assert u[m] == s[j + m];
    }
    if d < |u| {
      assert u[d] == s[j + d];
    }
    SpaceEndIs(u, 0, d);
  }

  lemma SliceOfSlice(s: string, j: nat, d: nat, k: nat)
    requires j + d <= k <= |s|
    ensures s[j..k][d..] == s[j + d..k]
  {
  }

  /**
   * A first run of non-spaces `w` that ends at a space or the end is the
   * first word; `rest` is the text after it.
   */
  lemma SplitCons(s: string, n: nat, w: string, rest: string)
    requires 0 < n <= |s|
    requires forall m :: 0 <= m < n ==> !IsSpace(s[m])
    requires n == |s| || IsSpace(s[n])
    requires w == s[..n] && rest == s[n..]
    ensures Split(s) == [w] + Split(rest)
  {
    SpaceEndIs(s, 0, 0);
    RunEndIs(s, 0, n);
    assert s[0..n] == w;
  }

  lemma LowerEachCons(w: string, ws: seq<string>)
    ensures LowerEach([w] + ws) == [Lower(w)] + LowerEach(ws)
  {
  }

  /**
   * The words of `split()` written one after the other are the text with
   * its spaces taken out: no character but a space is lost or added.
   */
  lemma {:induction false} SplitJoins(s: string)
    ensures Concat(Split(s)) == Unspaced(s)
    decreases |s|
  {
    var i := SpaceEnd(s, 0);
    if i == |s| {
      UnspacedOfRun(s);
    } else {
      var j := RunEnd(s, i);
      var ws := Split(s);
      assert ws[0] == s[i..j] && ws[1..] == Split(s[j..]);
      SplitJoins(s[j..]);
      JoinStep(s, i, j, ws);
    }
  }

  /** One word of the split: the spaces before it, the word, and the rest. */
  lemma JoinStep(s: string, i: nat, j: nat, ws: seq<string>)
    requires i <= j <= |s|
    requires forall k :: 0 <= k < i ==> IsSpace(s[k])
    requires forall k :: i <= k < j ==> !IsSpace(s[k])
    requires |ws| > 0 && ws[0] == s[i..j] && Concat(ws[1..]) == Unspaced(s[j..])
    ensures Concat(ws) == Unspaced(s)
  {
    calc {
      Concat(ws);
      s[i..j] + Unspaced(s[j..]);
      { UnspacedParts(s[..i], s[i..j], s[j..]); }
      Unspaced((s[..i] + s[i..j]) + s[j..]);
      { assert (s[..i] + s[i..j]) + s[j..] == s; }
      Unspaced(s);
    }
  }

  /** Spaces, then a run without spaces, then the rest. */
  lemma UnspacedParts(a: string, b: string, c: string)
    requires forall k :: 0 <= k < |a| ==> IsSpace(a[k])
    requires HasNoSpace(b)
    ensures Unspaced((a + b) + c) == b + Unspaced(c)
  {
    calc {
      Unspaced((a + b) + c);
      { UnspacedAppend(a + b, c); }
      Unspaced(a + b) + Unspaced(c);
      { UnspacedAppend(a, b); }
      (Unspaced(a) + Unspaced(b)) + Unspaced(c);
      { UnspacedOfRun(a); UnspacedOfRun(b); assert [] + b == b; }
      b + Unspaced(c);
    }
  }

  /** Runs starting after a space keep their count when the text before it is cut off. */
  lemma {:induction false} RunsFromShift(s: string, j: nat, p: nat)
    requires j <= p <= |s|
    requires j == |s| || IsSpace(s[j])
    ensures RunsFrom(s, p) == RunsFrom(s[j..], p - j)
    decreases |s| - p
  {
    if p < |s| {
      RunsFromShift(s, j, p + 1);
      assert s[j..][p - j] == s[p];
      if p > j {
        assert s[j..][p - j - 1] == s[p - 1];
      }
    }
  }

  /** Positions where no run starts add nothing to the count. */
  lemma {:induction false} RunsFromSkip(s: string, lo: nat, hi: nat)
    requires lo <= hi <= |s|
    requires forall k :: lo <= k < hi ==> !RunStartsAt(s, k)
    ensures RunsFrom(s, lo) == RunsFrom(s, hi)
    decreases hi - lo
  {
    if lo < hi {
      RunsFromSkip(s, lo + 1, hi);
    }
  }

  /** `split()` yields one word per run of non-space characters. */
  lemma {:induction false} SplitCountsRuns(s: string)
    ensures |Split(s)| == RunsFrom(s, 0)
    decreases |s|
  {
    var i := SpaceEnd(s, 0);
    RunsFromSkip(s, 0, i);
    if i < |s| {
      var j := RunEnd(s, i);
      assert RunStartsAt(s, i);
      assert forall k :: i < k < j ==> !RunStartsAt(s, k) by {
        forall k | i < k < j ensures !RunStartsAt(s, k) {
          assert !IsSpace(s[k - 1]);
        }
      }
      RunsFromSkip(s, i + 1, j);
      RunsFromShift(s, j, j);
      SplitCountsRuns(s[j..]);
    }
  }
}
