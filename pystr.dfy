/**
 * The two Python string operations the update job relies on, on strings
 * as sequences of Unicode code points: `str.strip()` with no argument and
 * `str.split(sep, 1)[-1]`.
 */
module PyStr {
  import opened Wrappers

  /** The code points for which Python's `str.isspace()` holds: the
      characters that `str.strip()` removes when it is given no argument. */
  const Whitespace: set<char> := {'\U{20}', '\U{9}', '\U{A}', '\U{D}', '\U{B}', '\U{C}', '\U{1C}', '\U{1D}',
          '\U{1E}', '\U{1F}', '\U{85}', '\U{A0}', '\U{1680}', '\U{2000}', '\U{2001}', '\U{2002}',
          '\U{2003}', '\U{2004}', '\U{2005}', '\U{2006}', '\U{2007}', '\U{2008}', '\U{2009}', '\U{200A}',
          '\U{2028}', '\U{2029}', '\U{202F}', '\U{205F}', '\U{3000}'}

  predicate IsSpace(c: char)
  {
    c in Whitespace
  }

  predicate AllSpace(s: string)
  {
    forall i :: 0 <= i < |s| ==> IsSpace(s[i])
  }

  /** No whitespace at either end: what `strip()` leaves behind. */
  predicate Trimmed(s: string)
  {
    s == [] || (!IsSpace(s[0]) && !IsSpace(s[|s| - 1]))
  }

  /** Length of the run of whitespace that starts `s`. */
  function LeadingSpaces(s: string): (n: nat)
    ensures n <= |s|
    ensures forall i :: 0 <= i < n ==> IsSpace(s[i])
    ensures n < |s| ==> !IsSpace(s[n])
  {
    if s == [] || !IsSpace(s[0]) then 0
    else 1 + LeadingSpaces(s[1..])
  }

  /** Length of the run of whitespace that ends `s`. */
  function TrailingSpaces(s: string): (n: nat)
    ensures n <= |s|
    ensures forall i :: |s| - n <= i < |s| ==> IsSpace(s[i])
    ensures n < |s| ==> !IsSpace(s[|s| - n - 1])
  {
    if s == [] || !IsSpace(s[|s| - 1]) then 0
    else 1 + TrailingSpaces(s[..|s| - 1])
  }

  /** Python's `s.strip()`: `s` without its leading and trailing whitespace. */
  function Strip(s: string): (r: string)
    ensures |r| <= |s|
    ensures Trimmed(r)
  {
    var t := s[LeadingSpaces(s)..];
    var r := t[..|t| - TrailingSpaces(t)];
    assert r != [] ==> r[0] == s[LeadingSpaces(s)];
    r
  }

  /** A whitespace run of length `a` followed by a non-space is exactly the
      leading whitespace. */
  lemma {:induction false} LeadingSpacesExact(s: string, a: nat)
    requires a <= |s| && AllSpace(s[..a])
    requires a < |s| ==> !IsSpace(s[a])
    ensures LeadingSpaces(s) == a
  {
    if a > 0 {
      assert s[..a][0] == s[0];
      assert s[1..][..a - 1] == s[..a][1..];
      LeadingSpacesExact(s[1..], a - 1);
    }
  }

  /** A whitespace run of length `a` preceded by a non-space is exactly the
      trailing whitespace. */
  lemma {:induction false} TrailingSpacesExact(s: string, a: nat)
    requires a <= |s| && AllSpace(s[|s| - a..])
    requires a < |s| ==> !IsSpace(s[|s| - a - 1])
    ensures TrailingSpaces(s) == a
  {
    if a > 0 {
      var init := s[..|s| - 1];
      assert IsSpace(s[|s| - 1]) by { assert s[|s| - a..][a - 1] == s[|s| - 1]; }
      var run := s[|s| - a..];
      var rest := init[|init| - (a - 1)..];
      assert AllSpace(rest) by {
        forall i | 0 <= i < a - 1 ensures IsSpace(rest[i]) {
          assert rest[i] == run[i];
        }
      }
      if a - 1 < |init| {
        assert init[|init| - (a - 1) - 1] == s[|s| - a - 1];
      }
      TrailingSpacesExact(init, a - 1);
    }
  }

  /** Any split of `s` into whitespace, a trimmed core and whitespace has
      that core as `Strip(s)`: the reference definition of `strip()`. */
  lemma StripUnique(w1: string, m: string, w2: string)
    requires AllSpace(w1) && AllSpace(w2) && Trimmed(m)
    ensures Strip(w1 + m + w2) == m
  {
    var s := w1 + m + w2;
    if m == [] {
      assert s == w1 + w2;
      assert AllSpace(s) by {
        forall i | 0 <= i < |s| ensures IsSpace(s[i]) {
          if i < |w1| { assert s[i] == w1[i]; } else { assert s[i] == w2[i - |w1|]; }
        }
      }
      assert s[..|s|] == s;
      LeadingSpacesExact(s, |s|);
    } else {
      assert s[..|w1|] == w1;
      assert s[|w1|] == m[0];
      LeadingSpacesExact(s, |w1|);
      var t := s[|w1|..];
      assert t == m + w2;
      assert t[|t| - |w2|..] == w2;
      assert t[|t| - |w2| - 1] == m[|m| - 1];
      TrailingSpacesExact(t, |w2|);
      assert t[..|t| - |w2|] == m;
    }
  }

  lemma SplitAt(x: string, i: nat)
    requires i <= |x|
    ensures x == x[..i] + x[i..]
  {
  }

  lemma AllSpaceConcat(x: string, y: string)
    requires AllSpace(x) && AllSpace(y)
    ensures AllSpace(x + y)
  {
    forall i | 0 <= i < |x + y| ensures IsSpace((x + y)[i]) {
      if i < |x| { assert (x + y)[i] == x[i]; } else { assert (x + y)[i] == y[i - |x|]; }
    }
  }

  lemma Regroup(a: string, b: string, c: string, d: string)
    ensures (a + b + c) + d == a + b + (c + d)
  {
  }

  /** `Strip(s)` sits between two runs of whitespace in `s`. */
  lemma StripSplits(s: string)
    ensures LeadingSpaces(s) + |Strip(s)| <= |s|
    ensures s == s[..LeadingSpaces(s)] + Strip(s) + s[LeadingSpaces(s) + |Strip(s)|..]
    ensures AllSpace(s[..LeadingSpaces(s)])
    ensures AllSpace(s[LeadingSpaces(s) + |Strip(s)|..])
  {
    var a := LeadingSpaces(s);
    var t := s[a..];
    var k := TrailingSpaces(t);
    var b := a + |t| - k;
    StripIsSlice(s);
    SliceOfSuffix(s, a, b - a);
    ThreeWaySplit(s, a, b);
    PrefixAllSpace(s, a);
    SuffixAllSpace(t, |t| - k);
  }

  lemma PrefixAllSpace(s: string, a: nat)
    requires a <= |s| && forall i :: 0 <= i < a ==> IsSpace(s[i])
    ensures AllSpace(s[..a])
  {
    assert forall i :: 0 <= i < a ==> s[..a][i] == s[i];
  }

  lemma SuffixAllSpace(s: string, b: nat)
    requires b <= |s| && forall i :: b <= i < |s| ==> IsSpace(s[i])
    ensures AllSpace(s[b..])
  {
    assert forall i :: 0 <= i < |s| - b ==> s[b..][i] == s[b + i];
  }

  /** `Strip(s)` as one slice of `s`. */
  lemma StripIsSlice(s: string)
    ensures var t := s[LeadingSpaces(s)..];
            Strip(s) == t[..|t| - TrailingSpaces(t)]
  {
  }

  lemma SliceOfSuffix(s: string, a: nat, x: nat)
    requires a + x <= |s|
    ensures s[a..][..x] == s[a..a + x] && s[a..][x..] == s[a + x..]
  {
  }

  lemma ThreeWaySplit(s: string, a: nat, b: nat)
    requires a <= b <= |s|
    ensures s == s[..a] + s[a..b] + s[b..]
  {
    SplitAt(s, a);
    SplitAt(s[a..], b - a);
    SliceOfSuffix(s, a, b - a);
  }

  /** `strip()` yields the empty string exactly on all-whitespace input. */
  lemma StripEmptyIffAllSpace(s: string)
    ensures Strip(s) == [] <==> AllSpace(s)
  {
    StripSplits(s);
    var a := LeadingSpaces(s);
    if AllSpace(s) {
      assert s[..|s|] == s;
      LeadingSpacesExact(s, |s|);
    }
    if Strip(s) == [] {
      assert s == s[..a] + s[a..];
      AllSpaceConcat(s[..a], s[a..]);
    }
  }

  /** Stripping twice is stripping once. */
  lemma StripIdempotent(s: string)
    ensures Strip(Strip(s)) == Strip(s)
  {
    StripUnique([], Strip(s), []);
    assert [] + Strip(s) + [] == Strip(s);
  }

  /** Whitespace appended to a string does not change what it strips to. */
  lemma StripIgnoresTrailingSpace(x: string, w: string)
    requires AllSpace(w)
    ensures Strip(x + w) == Strip(x)
  {
    StripSplits(x);
    var a := LeadingSpaces(x);
    var m := Strip(x);
    var tail := x[a + |m|..];
    AllSpaceConcat(tail, w);
    Regroup(x[..a], m, tail, w);
    StripUnique(x[..a], m, tail + w);
  }

  /** `pat` occurs in `s` starting at index `i`. */
  predicate OccursAt(s: string, pat: string, i: nat)
  {
    i + |pat| <= |s| && s[i..i + |pat|] == pat
  }

  /** Python's `pat in s`. */
  predicate Contains(s: string, pat: string)
  {
    exists i: nat :: i <= |s| && OccursAt(s, pat, i)
  }

  /** The first occurrence of `pat` in `s` at index `from` or later. */
  function FindFrom(s: string, pat: string, from: nat): (r: Option<nat>)
    requires from <= |s|
    ensures r.Some? ==> from <= r.value && OccursAt(s, pat, r.value)
    ensures forall j: nat :: from <= j && OccursAt(s, pat, j) ==> r.Some? && r.value <= j
    decreases |s| - from
  {
    if OccursAt(s, pat, from) then Some(from)
    else if from == |s| then None
    else FindFrom(s, pat, from + 1)
  }

  /** Python's `s.find(pat)`: where `pat` first occurs in `s`, if anywhere. */
  function Find(s: string, pat: string): (r: Option<nat>)
    ensures r.Some? ==> OccursAt(s, pat, r.value)
    ensures r.Some? ==> forall j: nat :: j < r.value ==> !OccursAt(s, pat, j)
    ensures r.None? <==> !Contains(s, pat)
  {
    FindFrom(s, pat, 0)
  }

  /** Python's `s.split(sep, 1)[-1]`: the text after the first `sep`, or all
      of `s` when `sep` does not occur. */
  function AfterFirst(s: string, sep: string): (r: string)
    ensures !Contains(s, sep) ==> r == s
    ensures Contains(s, sep) ==>
              |r| + |sep| <= |s| && OccursAt(s, sep, |s| - |r| - |sep|) && r == s[|s| - |r|..] &&
              forall j: nat :: j < |s| - |r| - |sep| ==> !OccursAt(s, sep, j)
  {
    match Find(s, sep)
    case Some(i) => s[i + |sep|..]
    case None => s
  }
}
