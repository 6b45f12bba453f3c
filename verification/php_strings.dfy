/** The few PHP string builtins the menu renderer relies on, with PHP's own
    semantics: truthiness of strings (`empty`, `if ($s)`), `trim` with its
    default character list, `str_replace` with an empty replacement and
    `str_repeat`. */
module PhpStrings {

  /** A string is falsy in PHP when it is empty or exactly "0". */
  predicate Truthy(s: string) {
    s != "" && s != "0"
  }

  /** PHP's `empty()` on a string. */
  predicate IsEmpty(s: string) {
    !Truthy(s)
  }

  /** The characters `trim` removes when no character list is given:
      space, tab, newline, carriage return, NUL and vertical tab. */
  predicate IsTrimChar(c: char) {
    c == ' ' || c == '\t' || c == '\n' || c == '\r' || c == '\0' || c == '\U{0B}'
  }

  function TrimLeft(s: string): (r: string)
    ensures |r| <= |s| && r == s[|s| - |r|..]
    ensures r == [] || !IsTrimChar(r[0])
    ensures forall k :: 0 <= k < |s| - |r| ==> IsTrimChar(s[k])
  {
    if s != [] && IsTrimChar(s[0]) then TrimLeft(s[1..]) else s
  }

  function TrimRight(s: string): (r: string)
    ensures |r| <= |s| && r == s[..|r|]
    ensures r == [] || !IsTrimChar(r[|r| - 1])
    ensures forall k :: |r| <= k < |s| ==> IsTrimChar(s[k])
  {
    if s != [] && IsTrimChar(s[|s| - 1]) then TrimRight(s[..|s| - 1]) else s
  }

  /** `trim($s)`: the longest infix of `s` that neither starts nor ends with
      a trim character. */
  function Trim(s: string): (r: string)
    ensures |r| <= |s|
    ensures r == [] || (!IsTrimChar(r[0]) && !IsTrimChar(r[|r| - 1]))
    ensures s != [] && !IsTrimChar(s[0]) && !IsTrimChar(s[|s| - 1]) ==> r == s
  {
    TrimRight(TrimLeft(s))
  }

  /** `r` is the piece of `s` starting at `i`, with nothing but trim
      characters on either side of it. */
  predicate CutAt(s: string, r: string, i: nat) {
    && i + |r| <= |s| && r == s[i..i + |r|]
    && (forall k :: 0 <= k < i ==> IsTrimChar(s[k]))
    && (forall k :: i + |r| <= k < |s| ==> IsTrimChar(s[k]))
  }

  /** What `trim` keeps is one contiguous piece of `s`, and everything it
      cuts off on either side is trim characters. */
  lemma TrimInfix(s: string)
    ensures exists i: nat :: CutAt(s, Trim(s), i)
  {
    var l := TrimLeft(s);
    var r := TrimRight(l);
    var i := |s| - |l|;
    assert l == s[i..];
    assert r == l[..|r|];
    assert r == s[i..i + |r|];
    forall k | i + |r| <= k < |s|
      ensures IsTrimChar(s[k])
    {
      assert s[k] == l[k - i];
      assert |r| <= k - i < |l|;
    }
    assert Trim(s) == r;
    assert CutAt(s, r, i);
  }

  /** True when `pat` occurs in `s` starting at position `k`. */
  predicate OccursAt(s: string, pat: string, k: nat) {
    k + |pat| <= |s| && s[k..k + |pat|] == pat
  }

  ghost predicate Contains(s: string, pat: string) {
    exists k: nat :: OccursAt(s, pat, k)
  }

  /** `str_replace($pat, '', $s)`: removes the leftmost non-overlapping
      occurrences of `pat`, scanning once from left to right; the text left
      behind is not scanned again. An empty `pat` leaves `s` unchanged. */
  function StripAll(s: string, pat: string): (r: string)
    ensures |r| <= |s|
  {
    StripFrom(s, pat, 0)
  }

  /** The scan of `StripAll` from position `j` of `s` on. */
  function StripFrom(s: string, pat: string, j: nat): (r: string)
    requires j <= |s|
    ensures |r| <= |s| - j
    decreases |s| - j
  {
    if pat == [] || |s| < j + |pat| then
      s[j..]
    else if OccursAt(s, pat, j) then
      StripFrom(s, pat, j + |pat|)
    else
      [s[j]] + StripFrom(s, pat, j + 1)
  }

  /** True when `pat` occurs in `s` at position `j` or later. */
  ghost predicate ContainsFrom(s: string, pat: string, j: nat) {
    exists k: nat :: j <= k && OccursAt(s, pat, k)
  }

  /** The scan from `j` shortens what is left exactly when `pat` occurs
      from `j` on, and without such an occurrence keeps it as it is. */
  lemma {:induction false} StripFromShrinks(s: string, pat: string, j: nat)
    requires j <= |s|
    ensures |StripFrom(s, pat, j)| < |s| - j <==> pat != [] && ContainsFrom(s, pat, j)
    ensures !ContainsFrom(s, pat, j) ==> StripFrom(s, pat, j) == s[j..]
    decreases |s| - j
  {
    if pat == [] || |s| < j + |pat| {
      if ContainsFrom(s, pat, j) {
        var k: nat :| j <= k && OccursAt(s, pat, k);
      }
    } else if OccursAt(s, pat, j) {
      assert ContainsFrom(s, pat, j);
    } else {
      StripFromShrinks(s, pat, j + 1);
      if ContainsFrom(s, pat, j) {
        var k: nat :| j <= k && OccursAt(s, pat, k);
        assert k != j;
        assert ContainsFrom(s, pat, j + 1);
      }
      if !ContainsFrom(s, pat, j) {
        assert !ContainsFrom(s, pat, j + 1);
        assert s[j..] == [s[j]] + s[j + 1..];
      }
    }
  }

  /** The removal shortens `s` exactly when `pat` occurs in it, and leaves
      a string without an occurrence unchanged. */
  lemma StripAllShrinks(s: string, pat: string)
    ensures |StripAll(s, pat)| < |s| <==> pat != [] && Contains(s, pat)
    ensures !Contains(s, pat) ==> StripAll(s, pat) == s
  {
    StripFromShrinks(s, pat, 0);
    assert s[0..] == s;
    assert Contains(s, pat) <==> ContainsFrom(s, pat, 0) by {
      if Contains(s, pat) {
        var k: nat :| OccursAt(s, pat, k);
        assert 0 <= k;
      }
    }
  }

  /** When the first occurrence of `pat` at or after `j` starts at `i`, the
      scan keeps `s[j..i]` and carries on at `after`, right after that
      occurrence. */
  lemma {:induction false} StripFromFirst(s: string, pat: string, j: nat, i: nat, after: nat)
    requires pat != [] && j <= i && OccursAt(s, pat, i) && after == i + |pat|
    requires forall k :: j <= k < i ==> !OccursAt(s, pat, k)
    ensures StripFrom(s, pat, j) == s[j..i] + StripFrom(s, pat, after)
    decreases i - j
  {
    if j < i {
      var next := j + 1;
      StripFromKeep(s, pat, j, next);
      StripFromFirst(s, pat, next, i, after);
      ConsSlice(s, j, next, i, StripFrom(s, pat, after));
    } else {
      StripFromSkip(s, pat, j, after);
    }
  }

  /** `s[j..i]` is `s[j]` followed by `s[j + 1..i]`, also with a tail
      appended. */
  lemma ConsSlice(s: string, j: nat, next: nat, i: nat, tail: string)
    requires j < i <= |s| && next == j + 1
    ensures s[j..i] + tail == [s[j]] + (s[next..i] + tail)
  {
    assert s[j..i] == [s[j]] + s[next..i];
  }

  /** The scan of `a + b` from position `k = |a| + j` is the scan of `b`
      from `j`. */
  lemma {:induction false} StripFromSuffix(a: string, b: string, pat: string, j: nat, k: nat)
    requires j <= |b| && k == |a| + j
    ensures StripFrom(a + b, pat, k) == StripFrom(b, pat, j)
    decreases |b| - j
  {
    SuffixAgrees(a, b, pat, j, k);
    if pat != [] && |b| >= j + |pat| {
      var next := if OccursAt(b, pat, j) then j + |pat| else j + 1;
      var kNext := |a| + next;
      StripFromSuffix(a, b, pat, next, kNext);
      if OccursAt(b, pat, j) {
        StripFromSkip(a + b, pat, k, kNext);
        StripFromSkip(b, pat, j, next);
      } else {
        StripFromKeep(a + b, pat, k, kNext);
        StripFromKeep(b, pat, j, next);
      }
    }
  }

  /** One step of the scan over an occurrence, and over a character that
      does not start one. */
  lemma StripFromSkip(s: string, pat: string, j: nat, next: nat)
    requires pat != [] && OccursAt(s, pat, j) && next == j + |pat|
    ensures StripFrom(s, pat, j) == StripFrom(s, pat, next)
  {
  }

  lemma StripFromKeep(s: string, pat: string, j: nat, next: nat)
    requires pat != [] && j + |pat| <= |s| && !OccursAt(s, pat, j) && next == j + 1
    ensures StripFrom(s, pat, j) == [s[j]] + StripFrom(s, pat, next)
  {
  }

  /** Past `a`, the string `a + b` looks exactly like `b`. */
  lemma SuffixAgrees(a: string, b: string, pat: string, j: nat, k: nat)
    requires j <= |b| && k == |a| + j
    ensures (a + b)[k..] == b[j..]
    ensures OccursAt(a + b, pat, k) <==> OccursAt(b, pat, j)
    ensures j < |b| ==> (a + b)[k] == b[j]
  {
    if j + |pat| <= |b| {
      assert (a + b)[k..k + |pat|] == b[j..j + |pat|];
    }
  }

  /** What the removal leaves: when the first occurrence of `pat` in
      `x + pat + y` is the one right after `x`, the result is `x` kept as
      it is, followed by the removal applied to `y`. */
  lemma StripAllAt(x: string, pat: string, y: string)
    requires pat != []
    requires forall k :: 0 <= k < |x| ==> !OccursAt(x + pat + y, pat, k)
    ensures StripAll(x + pat + y, pat) == x + StripAll(y, pat)
  {
    var s := x + pat + y;
    var after := |x| + |pat|;
    assert s[|x|..after] == pat;
    StripFromFirst(s, pat, 0, |x|, after);
    assert s[0..|x|] == x;
    StripFromSuffix(x + pat, y, pat, 0, after);
  }

  /** A class that is exactly the marker is removed entirely, and a marker
      at the end of a class with no earlier occurrence leaves the rest. */
  lemma StripAllWhole(x: string, pat: string)
    requires pat != []
    requires forall k :: 0 <= k < |x| ==> !OccursAt(x + pat, pat, k)
    ensures StripAll(pat, pat) == ""
    ensures StripAll(x + pat, pat) == x
  {
    assert x + pat == x + pat + [];
    StripAllAt(x, pat, []);
    assert [] + pat + [] == pat;
    StripAllAt([], pat, []);
  }

  /** The one-pass removal can leave a fresh occurrence behind: removing the
      inner `pat` joins the text around it into a new one. For
      `dropdown-menu`, `ddropdown-menuropdown-menu` comes out as
      `dropdown-menu`. */
  lemma StripAllDoesNotRescan(pat: string)
    requires |pat| >= 2 && pat[0] != pat[1]
    ensures StripAll([pat[0]] + pat + pat[1..], pat) == pat
  {
    var s := [pat[0]] + pat + pat[1..];
    assert s[..|pat|][1] == pat[0];
    assert !OccursAt(s, pat, 0);
    StripAllAt([pat[0]], pat, pat[1..]);
    assert pat[1..][0..] == pat[1..];
    assert [pat[0]] + pat[1..] == pat;
  }

  /** `str_repeat($unit, $n)`. */
  function Repeat(unit: string, n: nat): (r: string)
    ensures |r| == n * |unit|
  {
    if n == 0 then "" else
      var rest := Repeat(unit, n - 1);
      assert |unit + rest| == |unit| + (n - 1) * |unit| == n * |unit|;
      unit + rest
  }
}
