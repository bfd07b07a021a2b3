/**
 * The few operations of Python's `str` that the reply parser uses:
 * `isspace`, `strip()` with no argument, the `in` operator and
 * `split(sep, 1)`.
 */
module PyStr {
  import opened Wrappers

  /** Python's `str.isspace` for one character (code points of Unicode
      categories Zs, Zl, Zp and the bidirectional classes WS, B, S). */
  predicate IsSpace(c: char) {
    var n := c as int;
    (0x09 <= n <= 0x0D) || (0x1C <= n <= 0x20) || n == 0x85 || n == 0xA0 ||
    n == 0x1680 || (0x2000 <= n <= 0x200A) || n == 0x2028 || n == 0x2029 ||
    n == 0x202F || n == 0x205F || n == 0x3000
  }

  ghost predicate AllSpace(s: string) {
    forall k :: 0 <= k < |s| ==> IsSpace(s[k])
  }

  ghost predicate NoSpace(s: string) {
    forall k :: 0 <= k < |s| ==> !IsSpace(s[k])
  }

  /** The first index at or after `i` that does not hold whitespace, or
      `|s|` when there is none. */
  function SkipSpaces(s: string, i: nat): (n: nat)
    requires i <= |s|
    ensures i <= n <= |s|
    ensures forall k :: i <= k < n ==> IsSpace(s[k])
    ensures n < |s| ==> !IsSpace(s[n])
    decreases |s| - i
  {
    if i < |s| && IsSpace(s[i]) then SkipSpaces(s, i + 1) else i
  }

  /** The index just past the last non-space character in `s[lo..j]`, or
      `lo` when that slice is all whitespace. */
  function SkipSpacesBack(s: string, lo: nat, j: nat): (n: nat)
    requires lo <= j <= |s|
    ensures lo <= n <= j
    ensures forall k :: n <= k < j ==> IsSpace(s[k])
    ensures n > lo ==> !IsSpace(s[n - 1])
    decreases j
  {
    if j > lo && IsSpace(s[j - 1]) then SkipSpacesBack(s, lo, j - 1) else j
  }

  /** Number of whitespace characters at the start of `s`. */
  function LeadingSpaces(s: string): nat {
    SkipSpaces(s, 0)
  }

  /** Python's `s.strip()`: the slice of `s` left once every leading and
      trailing whitespace character is removed. */
  function Strip(s: string): (r: string)
    ensures LeadingSpaces(s) + |r| <= |s|
    ensures r == s[LeadingSpaces(s)..LeadingSpaces(s) + |r|]
    ensures forall k :: 0 <= k < LeadingSpaces(s) ==> IsSpace(s[k])
    ensures forall k :: LeadingSpaces(s) + |r| <= k < |s| ==> IsSpace(s[k])
    ensures r == [] || (!IsSpace(r[0]) && !IsSpace(r[|r| - 1]))
  {
    var i := LeadingSpaces(s);
    s[i..SkipSpacesBack(s, i, |s|)]
  }

  /** A whitespace run from `i` to `n` that ends the text or a non-space
      character is exactly what SkipSpaces passes over. */
  lemma {:induction false} SkipSpacesOver(s: string, i: nat, n: nat)
    requires i <= n <= |s|
    requires forall k :: i <= k < n ==> IsSpace(s[k])
    requires n == |s| || !IsSpace(s[n])
    ensures SkipSpaces(s, i) == n
    decreases n - i
  {
    if i < n {
      SkipSpacesOver(s, i + 1, n);
    }
  }

  /** The mirror image of SkipSpacesOver for the backward scan. */
  lemma {:induction false} SkipSpacesBackOver(s: string, lo: nat, n: nat, j: nat)
    requires lo <= n <= j <= |s|
    requires forall k :: n <= k < j ==> IsSpace(s[k])
    requires n == lo || !IsSpace(s[n - 1])
    ensures SkipSpacesBack(s, lo, j) == n
    decreases j
  {
    if n < j {
      SkipSpacesBackOver(s, lo, n, j - 1);
    }
  }

  /** Strip is the only trim: any split of `s` into whitespace, a core
      with non-space ends, and whitespace strips to that core. */
  lemma StripUnique(a: string, t: string, b: string)
    requires AllSpace(a) && AllSpace(b)
    requires t == [] || (!IsSpace(t[0]) && !IsSpace(t[|t| - 1]))
    ensures Strip(a + t + b) == t
  {
    var s := a + t + b;
    var i, e := |a|, |a| + |t|;
    if t == [] {
      SkipSpacesOver(s, 0, |s|);
      SkipSpacesBackOver(s, |s|, |s|, |s|);
    } else {
      assert s[i] == t[0];
      SkipSpacesOver(s, 0, i);
      assert s[e - 1] == t[|t| - 1];
      SkipSpacesBackOver(s, i, e, |s|);
      assert s[i..e] == t;
    }
  }

  /** Stripping twice is stripping once. */
  lemma StripIdempotent(s: string)
    ensures Strip(Strip(s)) == Strip(s)
  {
    var r := Strip(s);
    assert [] + r + [] == r;
    StripUnique([], r, []);
  }

  /** `m` occurs in `s` at index `i`. */
  ghost predicate OccursAt(s: string, m: string, i: int) {
    0 <= i && i + |m| <= |s| && s[i..i + |m|] == m
  }

  ghost predicate Contains(s: string, m: string) {
    exists i :: OccursAt(s, m, i)
  }

  /** The first index at or after `from` where `m` occurs in `s` (Python's
      `s.find(m, from)`, with None for -1). */
  function FindFrom(s: string, m: string, from: nat): (r: Option<nat>)
    requires from <= |s|
    ensures r.Some? ==> from <= r.value && OccursAt(s, m, r.value)
    ensures r.Some? ==> forall j :: from <= j < r.value ==> !OccursAt(s, m, j)
    ensures r.None? ==> forall j :: from <= j ==> !OccursAt(s, m, j)
    decreases |s| - from
  {
    if from + |m| > |s| then None
    else if s[from..from + |m|] == m then Some(from)
    else FindFrom(s, m, from + 1)
  }

  function Find(s: string, m: string): (r: Option<nat>)
    ensures r.Some? ==> OccursAt(s, m, r.value) && forall j :: 0 <= j < r.value ==> !OccursAt(s, m, j)
    ensures r.None? <==> !Contains(s, m)
  {
    FindFrom(s, m, 0)
  }

  /** Python's `m in s`. */
  predicate In(m: string, s: string)
    ensures In(m, s) <==> Contains(s, m)
  {
    Find(s, m).Some?
  }

  /** An occurrence inside a prefix or suffix is an occurrence in the whole. */
  lemma OccursInConcat(p: string, q: string, m: string, j: int)
    ensures OccursAt(p, m, j) ==> OccursAt(p + q, m, j)
    ensures OccursAt(q, m, j) ==> OccursAt(p + q, m, |p| + j)
  {
    var s := p + q;
    if OccursAt(p, m, j) {
      assert s[j..j + |m|] == p[j..j + |m|];
    }
    if OccursAt(q, m, j) {
      assert s[|p| + j..|p| + j + |m|] == q[j..j + |m|];
    }
  }

  /** Python's `s.split(sep, 1)` when `sep` occurs: the text before the first
      `sep` and the text after it; None stands for the one-piece result. */
  function SplitOnce(s: string, sep: string): (r: Option<(string, string)>)
    requires |sep| > 0
    ensures r.None? <==> !Contains(s, sep)
    ensures r.Some? ==> s == r.value.0 + sep + r.value.1 && !Contains(r.value.0, sep)
  {
    match Find(s, sep)
    case None => None
    case Some(i) =>
      var p, q := s[..i], s[i + |sep|..];
      assert s == p + sep + q by {
        assert s == s[..i] + s[i..i + |sep|] + s[i + |sep|..];
      }
      assert !Contains(p, sep) by {
        assert p + (sep + q) == s;
        forall j | 0 <= j < i ensures !OccursAt(p, sep, j) {
          OccursInConcat(p, sep + q, sep, j);
        }
      }
      Some((p, q))
  }

  /** Stripping keeps every occurrence of a pattern made of non-space
      characters, shifted by the removed leading whitespace, and adds none. */
  lemma StripKeepsOccurrences(s: string, m: string, k: int)
    requires |m| > 0 && NoSpace(m)
    ensures OccursAt(s, m, k) <==>
      (k >= LeadingSpaces(s) && OccursAt(Strip(s), m, k - LeadingSpaces(s)))
  {
    if OccursAt(s, m, k) {
      StripKeepsOccurrence(s, m, k);
    }
    if k >= LeadingSpaces(s) && OccursAt(Strip(s), m, k - LeadingSpaces(s)) {
      StripAddsNoOccurrence(s, m, k);
    }
  }

  lemma StripKeepsOccurrence(s: string, m: string, k: int)
    requires |m| > 0 && NoSpace(m) && OccursAt(s, m, k)
    ensures k >= LeadingSpaces(s) && OccursAt(Strip(s), m, k - LeadingSpaces(s))
  {
    var i, r := LeadingSpaces(s), Strip(s);
    OccurrenceInsideStrip(s, m, k);
    OccursInSlice(s, i, i + |r|, m, k - i);
  }

  lemma StripAddsNoOccurrence(s: string, m: string, k: int)
    requires k >= LeadingSpaces(s) && OccursAt(Strip(s), m, k - LeadingSpaces(s))
    ensures OccursAt(s, m, k)
  {
    var i, r := LeadingSpaces(s), Strip(s);
    OccursInSlice(s, i, i + |r|, m, k - i);
  }

  /** Occurrences in the slice `s[a..b]` are the occurrences in `s` that lie
      between `a` and `b`, shifted by `a`. */
  lemma OccursInSlice(s: string, a: int, b: int, m: string, j: int)
    requires 0 <= a <= b <= |s|
    ensures OccursAt(s[a..b], m, j) <==> (0 <= j && j + |m| <= b - a && OccursAt(s, m, a + j))
  {
    if 0 <= j && j + |m| <= b - a {
      SliceOfSlice(s, a, b, j, j + |m|);
    }
  }

  lemma SliceOfSlice(s: string, a: int, b: int, c: int, d: int)
    requires 0 <= a <= b <= |s| && 0 <= c <= d <= b - a
    ensures s[a..b][c..d] == s[a + c..a + d]
  {
    var x, y := s[a..b][c..d], s[a + c..a + d];
    assert |x| == |y|;
    forall j | 0 <= j < |x| ensures x[j] == y[j] {
      assert x[j] == s[a..b][c + j] == s[a + c + j];
    }
  }

  /** An occurrence of a non-space pattern lies inside the stripped slice. */
  lemma OccurrenceInsideStrip(s: string, m: string, k: int)
    requires |m| > 0 && NoSpace(m) && OccursAt(s, m, k)
    ensures LeadingSpaces(s) <= k && k + |m| <= LeadingSpaces(s) + |Strip(s)|
  {
    var i, r := LeadingSpaces(s), Strip(s);
    assert s[k] == s[k..k + |m|][0] == m[0];
    assert !IsSpace(s[k]);
    var last := k + |m| - 1;
    assert s[last] == s[k..k + |m|][|m| - 1] == m[|m| - 1];
    assert !IsSpace(s[last]);
  }

  /** Occurrences at or after `j` are the occurrences in the suffix `s[j..]`. */
  lemma OccursInSuffix(s: string, m: string, j: int, k: int)
    requires 0 <= j <= |s| && j <= k
    ensures OccursAt(s, m, k) <==> OccursAt(s[j..], m, k - j)
  {
    if k + |m| <= |s| {
      SliceOfSlice(s, j, |s|, k - j, k - j + |m|);
    }
  }
}
