/**
 * Python's `str.strip()` with no argument: remove the whitespace at both ends
 * of a string. Whitespace is what Python's `str.isspace()` accepts: U+0009 to
 * U+000D, the separators U+001C to U+001F, the space, U+0085, U+00A0, U+1680,
 * U+2000 to U+200A, U+2028, U+2029, U+202F, U+205F and U+3000.
 */
module Text {

  predicate IsSpace(c: char) {
    var u := c as int;
    (0x09 <= u <= 0x0D) || (0x1C <= u <= 0x20) || u == 0x85 || u == 0xA0 || u == 0x1680
    || (0x2000 <= u <= 0x200A) || u == 0x2028 || u == 0x2029 || u == 0x202F || u == 0x205F || u == 0x3000
  }

  predicate AllSpace(s: string) {
    forall k :: 0 <= k < |s| ==> IsSpace(s[k])
  }

  /** Neither end of `s` is whitespace. */
  predicate Trimmed(s: string) {
    s == [] || (!IsSpace(s[0]) && !IsSpace(s[|s| - 1]))
  }

  /** `s` is `r` with the whitespace runs `p` in front and `q` behind. */
  predicate Padded(s: string, p: string, r: string, q: string) {
    s == p + r + q && AllSpace(p) && AllSpace(q)
  }

  /** Length of the longest all-whitespace prefix. */
  function LeadingSpace(s: string): (n: nat)
    ensures n <= |s|
  {
    if s != [] && IsSpace(s[0]) then 1 + LeadingSpace(s[1..]) else 0
  }

  /** Length of the longest all-whitespace suffix. */
  function TrailingSpace(s: string): (n: nat)
    ensures n <= |s|
  {
    if s != [] && IsSpace(s[|s| - 1]) then 1 + TrailingSpace(s[..|s| - 1]) else 0
  }

  /** The prefix `LeadingSpace` measures is all whitespace, and the character after it is not. */
  lemma {:induction false} LeadingSpaceSpan(s: string)
    ensures AllSpace(s[..LeadingSpace(s)])
    ensures LeadingSpace(s) < |s| ==> !IsSpace(s[LeadingSpace(s)])
    decreases |s|
  {
    if s != [] && IsSpace(s[0]) {
      var n := LeadingSpace(s[1..]);
      LeadingSpaceSpan(s[1..]);
      assert s[..n + 1] == [s[0]] + s[1..][..n];
      assert n < |s[1..]| ==> s[n + 1] == s[1..][n];
    }
  }

  /** The suffix `TrailingSpace` measures is all whitespace, and the character before it is not. */
  lemma {:induction false} TrailingSpaceSpan(s: string)
    ensures AllSpace(s[|s| - TrailingSpace(s)..])
    ensures TrailingSpace(s) < |s| ==> !IsSpace(s[|s| - 1 - TrailingSpace(s)])
    decreases |s|
  {
    if s != [] && IsSpace(s[|s| - 1]) {
      var t := s[..|s| - 1];
      var n := TrailingSpace(t);
      TrailingSpaceSpan(t);
      assert s[|s| - (n + 1)..] == t[|t| - n..] + [s[|s| - 1]];
      assert n < |t| ==> s[|s| - 1 - (n + 1)] == t[|t| - 1 - n];
    }
  }

  /** The leading whitespace of `p + t` is exactly `p` when `t` does not start with whitespace. */
  lemma {:induction false} LeadingSpaceOf(p: string, t: string)
    requires AllSpace(p) && (t == [] || !IsSpace(t[0]))
    ensures LeadingSpace(p + t) == |p|
    decreases |p|
  {
    if p != [] {
      assert (p + t)[1..] == p[1..] + t;
      LeadingSpaceOf(p[1..], t);
    } else {
      assert p + t == t;
    }
  }

  /** The trailing whitespace of `t + q` is exactly `q` when `t` does not end with whitespace. */
  lemma {:induction false} TrailingSpaceOf(t: string, q: string)
    requires AllSpace(q) && (t == [] || !IsSpace(t[|t| - 1]))
    ensures TrailingSpace(t + q) == |q|
    decreases |q|
  {
    if q != [] {
      assert (t + q)[..|t + q| - 1] == t + q[..|q| - 1];
      TrailingSpaceOf(t, q[..|q| - 1]);
    } else {
      assert t + q == t;
    }
  }

  /** `s.strip()`: what is left is trimmed, and only whitespace was removed around it. */
  function Strip(s: string): (r: string)
    ensures Trimmed(r)
    ensures exists p, q :: Padded(s, p, r, q)
  {
    var i := LeadingSpace(s);
    LeadingSpaceSpan(s);
    var j := TrailingSpace(s[i..]);
    TrailingSpaceSpan(s[i..]);
    StripParts(s, i, j);
    assert Padded(s, s[..i], s[i..|s| - j], s[|s| - j..]);
    s[i..|s| - j]
  }

  lemma SplitAt(s: string, i: nat, k: nat)
    requires i <= k <= |s|
    ensures s == s[..i] + s[i..k] + s[k..]
  {
  }

  lemma SuffixOfSuffix(s: string, i: nat, j: nat)
    requires i <= |s| && j <= |s| - i
    ensures s[i..][|s[i..]| - j..] == s[|s| - j..]
  {
  }

  lemma StripTrimmed(s: string, i: nat, j: nat)
    requires i <= |s| && (i < |s| ==> !IsSpace(s[i]))
    requires j <= |s[i..]| && (j < |s[i..]| ==> !IsSpace(s[i..][|s[i..]| - 1 - j]))
    ensures i <= |s| - j && Trimmed(s[i..|s| - j])
  {
    if i + j < |s| {
      SuffixIndex(s, i, j);
    }
    TrimmedSlice(s, i, |s| - j);
  }

  lemma SuffixIndex(s: string, i: nat, j: nat)
    requires i + j < |s|
    ensures s[i..][|s[i..]| - 1 - j] == s[|s| - 1 - j]
  {
  }

  lemma TrimmedSlice(s: string, i: nat, k: nat)
    requires i <= k <= |s|
    requires i < k ==> !IsSpace(s[i]) && !IsSpace(s[k - 1])
    ensures Trimmed(s[i..k])
  {
  }

  lemma StripParts(s: string, i: nat, j: nat)
    requires i <= |s| && AllSpace(s[..i]) && (i < |s| ==> !IsSpace(s[i]))
    requires j <= |s[i..]| && AllSpace(s[i..][|s[i..]| - j..]) && (j < |s[i..]| ==> !IsSpace(s[i..][|s[i..]| - 1 - j]))
    ensures i <= |s| - j && Trimmed(s[i..|s| - j])
    ensures Padded(s, s[..i], s[i..|s| - j], s[|s| - j..])
  {
    StripTrimmed(s, i, j);
    SuffixOfSuffix(s, i, j);
    PaddedParts(s, i, j);
  }

  lemma PaddedParts(s: string, i: nat, j: nat)
    requires i <= |s| - j && AllSpace(s[..i]) && AllSpace(s[|s| - j..])
    ensures Padded(s, s[..i], s[i..|s| - j], s[|s| - j..])
  {
    SplitAt(s, i, |s| - j);
  }

  /** `Strip` cuts `a` characters off the front and `b` off the back when those are the whitespace runs it measures. */
  lemma StripOf(s: string, a: nat, b: nat)
    requires a <= |s| && LeadingSpace(s) == a && b <= |s| - a && TrailingSpace(s[a..]) == b
    ensures Strip(s) == s[a..|s| - b]
  {
  }

  /** The decomposition that `Strip` finds is the only one: any trimmed core with whitespace around it is the result. */
  lemma StripUnique(s: string, p: string, r: string, q: string)
    requires Padded(s, p, r, q) && Trimmed(r)
    ensures Strip(s) == r
  {
    if r == [] {
      StripAllSpace(s, p, q);
    } else {
      StripCore(s, p, r, q);
    }
  }

  lemma StripAllSpace(s: string, p: string, q: string)
    requires Padded(s, p, [], q)
    ensures Strip(s) == []
  {
    assert s == (p + q) + [];
    assert AllSpace(p + q) by {
      forall k | 0 <= k < |p + q| ensures IsSpace((p + q)[k]) {
        if k >= |p| { assert (p + q)[k] == q[k - |p|]; }
      }
    }
    LeadingSpaceOf(p + q, []);
    assert s[|s|..] == [];
    StripOf(s, |s|, 0);
  }

  lemma StripCore(s: string, p: string, r: string, q: string)
    requires Padded(s, p, r, q) && r != [] && Trimmed(r)
    ensures Strip(s) == r
  {
    assert s == p + (r + q);
    LeadingSpaceOf(p, r + q);
    assert s[|p|..] == r + q;
    TrailingSpaceOf(r, q);
    assert s[|p|..|s| - |q|] == r;
    StripOf(s, |p|, |q|);
  }

  /** Stripping twice is stripping once. */
  lemma StripIdempotent(s: string)
    ensures Strip(Strip(s)) == Strip(s)
  {
    var r := Strip(s);
    assert Padded(r, [], r, []);
    StripUnique(r, [], r, []);
  }

  /** Worked instance: `"  hello world  ".strip() == "hello world"`. */
  lemma StripExample()
    ensures Strip("  hello world  ") == "hello world"
  {
    assert Padded("  hello world  ", "  ", "hello world", "  ");
    StripUnique("  hello world  ", "  ", "hello world", "  ");
  }

  /** Worked instance beyond ASCII: a no-break space in front and a unit separator behind are stripped. */
  lemma StripExampleUnicode()
    ensures Strip("\U{00A0}a b\U{001F}") == "a b"
  {
    assert Padded("\U{00A0}a b\U{001F}", "\U{00A0}", "a b", "\U{001F}");
    StripUnique("\U{00A0}a b\U{001F}", "\U{00A0}", "a b", "\U{001F}");
  }
}
