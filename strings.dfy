/**
 * The parts of Go's `strings` package that the configuration loader uses:
 * `TrimSpace`, `Index`, `Contains` and `HasPrefix`, on ASCII white space.
 */
module Strings {

  /** The ASCII white space that `strings.TrimSpace` removes: space, and \t, \n, \v, \f, \r (9 to 13). */
  predicate IsSpace(c: char) {
    c == ' ' || '\t' <= c <= '\r'
  }

  predicate AllSpace(s: string) {
    forall i :: 0 <= i < |s| ==> IsSpace(s[i])
  }

  /** Neither end of `s` is white space. */
  predicate Trimmed(s: string) {
    s == [] || (!IsSpace(s[0]) && !IsSpace(s[|s| - 1]))
  }

  /** Two runs of white space make one. */
  lemma AllSpaceConcat(x: string, y: string)
    requires AllSpace(x) && AllSpace(y)
    ensures AllSpace(x + y)
  {
    forall k | 0 <= k < |x + y| ensures IsSpace((x + y)[k]) {
      if k < |x| { assert (x + y)[k] == x[k]; } else { assert (x + y)[k] == y[k - |x|]; }
    }
  }

  /** How many white-space characters `s` starts with. */
  function LeadingSpace(s: string): (n: nat)
    ensures n <= |s| && AllSpace(s[..n]) && (n == |s| || !IsSpace(s[n]))
  {
    if s != [] && IsSpace(s[0]) then
      var m := LeadingSpace(s[1..]);
      assert s[..m + 1] == [s[0]] + s[1..][..m];
      AllSpaceConcat([s[0]], s[1..][..m]);
      m + 1
    else 0
  }

  /** Where the white space that `s` ends with begins. */
  function TrailingStart(s: string): (n: nat)
    ensures n <= |s| && AllSpace(s[n..]) && (n == 0 || !IsSpace(s[n - 1]))
  {
    if s != [] && IsSpace(s[|s| - 1]) then
      var m := TrailingStart(s[..|s| - 1]);
      assert s[m..] == s[..|s| - 1][m..] + [s[|s| - 1]];
      AllSpaceConcat(s[..|s| - 1][m..], [s[|s| - 1]]);
      m
    else |s|
  }

  /**
   * `strings.TrimSpace`: `s` with the white space at both ends cut off;
   * nothing is left of a string that is all white space.
   */
  function TrimSpace(s: string): (r: string)
    ensures Trimmed(r) && |r| <= |s|
  {
    var i, j := LeadingSpace(s), TrailingStart(s);
    if i < j then s[i..j] else ""
  }

  /** Where the result of `TrimSpace` sits in `s`: only white space lies outside it. */
  lemma TrimSpaceCut(s: string) returns (i: nat, j: nat)
    ensures i <= j <= |s| && TrimSpace(s) == s[i..j]
    ensures AllSpace(s[..i]) && AllSpace(s[j..])
  {
    var l, t := LeadingSpace(s), TrailingStart(s);
    if l < t {
      i, j := l, t;
    } else {
      forall k | t <= k < |s| ensures IsSpace(s[k]) {
        assert s[k] == s[t..][k - t];
      }
      i, j := l, l;
    }
  }

  /** `TrimSpace` leaves nothing exactly when `s` is all white space. */
  lemma TrimSpaceBlank(s: string)
    ensures TrimSpace(s) == [] <==> AllSpace(s)
  {
    var i, j := TrimSpaceCut(s);
    if i == j {
      assert s == s[..i] + s[j..];
      AllSpaceConcat(s[..i], s[j..]);
    } else {
      assert s[i] == s[i..j][0];
    }
  }

  /** `LeadingSpace` is the one length of white space that a non-space (or the end) follows. */
  lemma LeadingSpaceAt(s: string, i: nat)
    requires i <= |s| && AllSpace(s[..i]) && (i == |s| || !IsSpace(s[i]))
    ensures LeadingSpace(s) == i
  {
    var l := LeadingSpace(s);
    forall k | 0 <= k < i ensures IsSpace(s[k]) { assert s[..i][k] == s[k]; }
    forall k | 0 <= k < l ensures IsSpace(s[k]) { assert s[..l][k] == s[k]; }
  }

  /** `TrailingStart` is the one start of final white space that a non-space (or the start) precedes. */
  lemma TrailingStartAt(s: string, j: nat)
    requires j <= |s| && AllSpace(s[j..]) && (j == 0 || !IsSpace(s[j - 1]))
    ensures TrailingStart(s) == j
  {
    var t := TrailingStart(s);
    forall k | j <= k < |s| ensures IsSpace(s[k]) { assert s[j..][k - j] == s[k]; }
    forall k | t <= k < |s| ensures IsSpace(s[k]) { assert s[t..][k - t] == s[k]; }
  }

  /** Any cut of `s` into white space, a trimmed middle and white space gives that middle. */
  lemma TrimSpaceUnique(s: string, i: nat, j: nat)
    requires i <= j <= |s| && AllSpace(s[..i]) && AllSpace(s[j..]) && Trimmed(s[i..j])
    ensures TrimSpace(s) == s[i..j]
  {
    if i < j {
      assert s[i] == s[i..j][0] && s[j - 1] == s[i..j][j - i - 1];
      LeadingSpaceAt(s, i);
      TrailingStartAt(s, j);
    } else {
      assert s == s[..i] + s[j..];
      AllSpaceConcat(s[..i], s[j..]);
      assert s[..|s|] == s && s[0..] == s;
      LeadingSpaceAt(s, |s|);
      TrailingStartAt(s, 0);
    }
  }

  /** White space in front of `s` does not change what `TrimSpace` keeps. */
  lemma TrimSpaceLeftPadded(a: string, s: string)
    requires AllSpace(a)
    ensures TrimSpace(a + s) == TrimSpace(s)
  {
    var i, j := TrimSpaceCut(s);
    var t, i', j' := a + s, |a| + i, |a| + j;
    assert AllSpace(t[..i']) by {
      assert t[..i'] == a + s[..i];
      AllSpaceConcat(a, s[..i]);
    }
    assert AllSpace(t[j'..]) by { assert t[j'..] == s[j..]; }
    assert t[i'..j'] == s[i..j];
    TrimSpaceUnique(t, i', j');
  }

  /** White space after `s` does not change what `TrimSpace` keeps. */
  lemma TrimSpaceRightPadded(s: string, b: string)
    requires AllSpace(b)
    ensures TrimSpace(s + b) == TrimSpace(s)
  {
    var i, j := TrimSpaceCut(s);
    var t := s + b;
    assert AllSpace(t[..i]) by { assert t[..i] == s[..i]; }
    assert AllSpace(t[j..]) by {
      assert t[j..] == s[j..] + b;
      AllSpaceConcat(s[j..], b);
    }
    assert t[i..j] == s[i..j];
    TrimSpaceUnique(t, i, j);
  }

  /** White space around `s` does not change what `TrimSpace` keeps. */
  lemma TrimSpacePadded(a: string, s: string, b: string)
    requires AllSpace(a) && AllSpace(b)
    ensures TrimSpace(a + s + b) == TrimSpace(s)
  {
    var sb := s + b;
    assert a + s + b == a + sb;
    TrimSpaceLeftPadded(a, sb);
    TrimSpaceRightPadded(s, b);
  }

  /** A string whose ends are not white space is its own trim. */
  lemma TrimSpaceOfTrimmed(s: string)
    requires Trimmed(s)
    ensures TrimSpace(s) == s
  {
    assert s[..0] == [] && s[|s|..] == [] && s[0..|s|] == s;
    TrimSpaceUnique(s, 0, |s|);
  }

  /** `sub` occurs in `s` starting at index `j`. */
  predicate OccursAt(s: string, sub: string, j: int) {
    0 <= j && j + |sub| <= |s| && s[j..j + |sub|] == sub
  }

  /** The first occurrence of `sub` in `s` at or after index `k`, or -1. */
  function IndexFrom(s: string, sub: string, k: nat): (r: int)
    requires k <= |s|
    ensures r == -1 || (k <= r && OccursAt(s, sub, r))
    ensures forall j :: k <= j && (r == -1 || j < r) ==> !OccursAt(s, sub, j)
    decreases |s| - k
  {
    if k + |sub| > |s| then -1
    else if s[k..k + |sub|] == sub then k
    else IndexFrom(s, sub, k + 1)
  }

  /** `strings.Index`: the index of the first occurrence of `sub` in `s`, or -1 when there is none. */
  function Index(s: string, sub: string): (r: int)
    ensures r == -1 <==> forall j :: !OccursAt(s, sub, j)
    ensures r != -1 ==> OccursAt(s, sub, r) && forall j :: j < r ==> !OccursAt(s, sub, j)
  {
    IndexFrom(s, sub, 0)
  }

  /** `strings.Contains`. */
  predicate Contains(s: string, sub: string) {
    Index(s, sub) >= 0
  }

  /** `strings.HasPrefix`. */
  predicate HasPrefix(s: string, prefix: string) {
    |prefix| <= |s| && s[..|prefix|] == prefix
  }

  /** A one-character pattern occurs exactly where that character stands. */
  lemma OccursAtChar(s: string, c: char, j: int)
    ensures OccursAt(s, [c], j) <==> 0 <= j < |s| && s[j] == c
  {
    if 0 <= j < |s| {
      assert s[j..j + 1] == [s[j]];
    }
  }

  /** For a one-character pattern, `Index` finds the first position of that character. */
  lemma IndexOfChar(s: string, c: char)
    ensures Index(s, [c]) == -1 <==> c !in s
    ensures Index(s, [c]) != -1 ==> 0 <= Index(s, [c]) < |s| && s[Index(s, [c])] == c && c !in s[..Index(s, [c])]
  {
    var r := Index(s, [c]);
    if r == -1 {
      forall j | 0 <= j < |s| ensures s[j] != c {
        OccursAtChar(s, c, j);
      }
    } else {
      OccursAtChar(s, c, r);
      forall j | 0 <= j < r ensures s[j] != c {
        OccursAtChar(s, c, j);
      }
    }
  }

  /** The first `c` in `a + [c] + b` is the one after `a` when `a` has none. */
  lemma IndexAfterPrefix(a: string, c: char, b: string)
    requires c !in a
    ensures Index(a + [c] + b, [c]) == |a|
  {
    var s := a + [c] + b;
    OccursAtChar(s, c, |a|);
    forall j | j < |a| ensures !OccursAt(s, [c], j) {
      OccursAtChar(s, c, j);
      if 0 <= j {
        assert s[j] == a[j];
      }
    }
  }

  /** `s` holds no occurrence of `sub`. */
  ghost predicate Free(s: string, sub: string) {
    forall j :: !OccursAt(s, sub, j)
  }

  /** A slice of a string without `sub` has none either. */
  lemma FreeSlice(s: string, sub: string, i: nat, j: nat)
    requires i <= j <= |s| && Free(s, sub)
    ensures Free(s[i..j], sub)
  {
    forall k ensures !OccursAt(s[i..j], sub, k) {
      if 0 <= k && k + |sub| <= j - i {
        var t, u := s[i..j][k..k + |sub|], s[i + k..i + k + |sub|];
        assert |t| == |u| && forall n :: 0 <= n < |t| ==> t[n] == u[n];
        assert !OccursAt(s, sub, i + k);
      }
    }
  }

  /**
   * Gluing two strings without a two-character pattern `[x, y]` produces
   * none, unless `a` ends with `x` and `b` starts with `y`.
   */
  lemma FreeConcat(a: string, b: string, x: char, y: char)
    requires Free(a, [x, y]) && Free(b, [x, y])
    requires a == [] || b == [] || a[|a| - 1] != x || b[0] != y
    ensures Free(a + b, [x, y])
  {
    var s := a + b;
    forall k ensures !OccursAt(s, [x, y], k) {
      if k < 0 || k + 2 > |s| {
      } else if k + 2 <= |a| {
        assert s[k..k + 2] == a[k..k + 2];
        assert !OccursAt(a, [x, y], k);
      } else if k >= |a| {
        assert s[k..k + 2] == b[k - |a|..k - |a| + 2];
        assert !OccursAt(b, [x, y], k - |a|);
      } else {
        assert s[k..k + 2] == [a[|a| - 1], b[0]];
      }
    }
  }

  /** A string of white space holds no pattern that starts with a non-space. */
  lemma SpaceIsFree(s: string, x: char, y: char)
    requires AllSpace(s) && !IsSpace(x)
    ensures Free(s, [x, y])
  {
    forall k ensures !OccursAt(s, [x, y], k) {
      if 0 <= k && k + 2 <= |s| {
        assert s[k..k + 2][0] == s[k];
      }
    }
  }

  /** A string without the character `x` holds no pattern `[x, y]`. */
  lemma FreeWithout(s: string, x: char, y: char)
    requires x !in s
    ensures Free(s, [x, y])
  {
    forall k ensures !OccursAt(s, [x, y], k) {
      if 0 <= k && k + 2 <= |s| {
        assert s[k..k + 2][0] == s[k];
      }
    }
  }

  /** The text before the first occurrence of `sub` holds none. */
  lemma FreeBeforeIndex(s: string, sub: string)
    requires sub != [] && Index(s, sub) >= 0
    ensures Free(s[..Index(s, sub)], sub)
  {
    var n := Index(s, sub);
    forall k ensures !OccursAt(s[..n], sub, k) {
      if 0 <= k && k + |sub| <= n {
        var t, u := s[..n][k..k + |sub|], s[k..k + |sub|];
        assert |t| == |u| && forall i :: 0 <= i < |t| ==> t[i] == u[i];
        assert !OccursAt(s, sub, k);
      }
    }
  }

  /**
   * After a prefix without `[x, y]` that does not end with `x`, the first
   * `[x, y]` is the one that starts `b`.
   */
  lemma IndexAtJoin(a: string, b: string, x: char, y: char)
    requires Free(a, [x, y]) && (a == [] || a[|a| - 1] != x)
    requires HasPrefix(b, [x, y])
    ensures Index(a + b, [x, y]) == |a|
  {
    var s := a + b;
    assert s[|a|..|a| + 2] == b[..2];
    assert OccursAt(s, [x, y], |a|);
    forall k | k < |a| ensures !OccursAt(s, [x, y], k) {
      if 0 <= k {
        if k + 2 <= |a| {
          assert s[k..k + 2] == a[k..k + 2];
          assert !OccursAt(a, [x, y], k);
        } else {
          assert s[k..k + 2][0] == a[|a| - 1];
        }
      }
    }
  }

  /** Trimming keeps only characters of `s`, in one piece. */
  lemma TrimSpaceKeeps(s: string, c: char, sub: string)
    ensures c !in s ==> c !in TrimSpace(s)
    ensures Free(s, sub) ==> Free(TrimSpace(s), sub)
  {
    var i, j := TrimSpaceCut(s);
    if Free(s, sub) {
      FreeSlice(s, sub, i, j);
    }
  }

  /** `bytes.IndexByte`: the position of the first `c` in `s`, or -1 when there is none. */
  function IndexByte(s: string, c: char): (r: int)
    ensures r == -1 <==> c !in s
    ensures r != -1 ==> 0 <= r < |s| && s[r] == c && c !in s[..r]
  {
    if s == [] then -1
    else if s[0] == c then 0
    else
      var r := IndexByte(s[1..], c);
      if r == -1 then -1
      else
        assert s[..r + 1] == [s[0]] + s[1..][..r];
        r + 1
  }

  /** The first `c` after a run without one is found right after that run. */
  lemma IndexByteAfterPrefix(a: string, c: char, b: string)
    requires c !in a
    ensures IndexByte(a + [c] + b, c) == |a|
  {
    var s := a + [c] + b;
    assert s[..|a|] == a;
    assert s[|a|] == c;
  }

  /** Taking one more element of a sequence appends that element. */
  lemma TakeOneMore<T>(s: seq<T>, i: nat)
    requires i < |s|
    ensures s[..i + 1] == s[..i] + [s[i]]
  {
  }
}
