/** The parts of Go's `strings` package that the service selection uses. */
module Text {

  /** ASCII lower-casing of one character, as `strings.ToLower` does for ASCII. */
  function LowerChar(c: char): char
  {
    if 'A' <= c <= 'Z' then (c as int + 32) as char else c
  }

  /** `strings.ToLower`: every upper-case ASCII letter replaced by its lower-case form. */
  function Lower(s: string): (r: string)
    ensures |r| == |s|
    ensures forall i :: 0 <= i < |s| ==> r[i] == LowerChar(s[i])
  {
    seq(|s|, i requires 0 <= i < |s| => LowerChar(s[i]))
  }

  /** Lower-casing works character by character, so it distributes over concatenation. */
  lemma LowerAppend(a: string, b: string)
    ensures Lower(a + b) == Lower(a) + Lower(b)
  {
  }

  predicate IsLowerCase(s: string)
  {
    forall i :: 0 <= i < |s| ==> !('A' <= s[i] <= 'Z')
  }

  /** Lower-casing leaves no upper-case letter behind and is idempotent. */
  lemma LowerIsLowerCase(s: string)
    ensures IsLowerCase(Lower(s))
    ensures Lower(Lower(s)) == Lower(s)
  {
  }

  /** Go's `unicode.IsSpace`: the Latin-1 white space and the other Unicode
      characters with the White_Space property. */
  predicate IsSpace(c: char)
  {
    c == ' ' || c == '\t' || c == '\n' || c == '\r'
    || c as int == 0x0B || c as int == 0x0C || c as int == 0x85 || c as int == 0xA0
    || c as int == 0x1680 || (0x2000 <= c as int <= 0x200A)
    || c as int == 0x2028 || c as int == 0x2029 || c as int == 0x202F
    || c as int == 0x205F || c as int == 0x3000
  }

  predicate AllSpace(s: string)
  {
    forall k :: 0 <= k < |s| ==> IsSpace(s[k])
  }

  /** The first index at or after `i` that does not hold white space, or `|s|`:
      where `strings.TrimSpace` starts. */
  function TrimStart(s: string, i: nat): (n: nat)
    requires i <= |s|
    ensures i <= n <= |s|
    ensures forall k :: i <= k < n ==> IsSpace(s[k])
    ensures n == |s| || !IsSpace(s[n])
    decreases |s| - i
  {
    if i < |s| && IsSpace(s[i]) then TrimStart(s, i + 1) else i
  }

  /** Walking back from `j` but not below `lo`, the end of the last character
      that is not white space, or `lo`: where `strings.TrimSpace` stops. */
  function TrimStop(s: string, lo: nat, j: nat): (n: nat)
    requires lo <= j <= |s|
    ensures lo <= n <= j
    ensures forall k :: n <= k < j ==> IsSpace(s[k])
    ensures n == lo || !IsSpace(s[n - 1])
    decreases j
  {
    if j > lo && IsSpace(s[j - 1]) then TrimStop(s, lo, j - 1) else j
  }

  /** `strings.TrimSpace`: `s` without its leading and trailing white space. */
  function TrimSpace(s: string): string
  {
    var start := TrimStart(s, 0);
    s[start..TrimStop(s, start, |s|)]
  }

  /** The bounds of what `strings.TrimSpace` keeps are determined by `s`:
      any slice `s[i..j]` with only white space outside it and none at its
      ends (or, when empty, with only white space in `s`) is the result. */
  lemma TrimSpaceBounds(s: string, i: nat, j: nat)
    requires i <= j <= |s|
    requires forall k :: 0 <= k < i ==> IsSpace(s[k])
    requires forall k :: j <= k < |s| ==> IsSpace(s[k])
    requires i == j ==> forall k :: 0 <= k < |s| ==> IsSpace(s[k])
    requires i < j ==> !IsSpace(s[i]) && !IsSpace(s[j - 1])
    ensures TrimSpace(s) == s[i..j]
  {
    var start := TrimStart(s, 0);
    var stop := TrimStop(s, start, |s|);
    if i < j {
      assert start == i;
      assert stop == j;
    } else {
      assert start == |s|;
    }
  }

  /** What `strings.TrimSpace` keeps is the slice of `s` between a run of
      leading and a run of trailing white space, and it neither starts nor
      ends with white space. */
  lemma TrimSpaceSlice(s: string)
    ensures var i := TrimStart(s, 0);
            && OccursAt(s, TrimSpace(s), i)
            && AllSpace(s[..i]) && AllSpace(s[i + |TrimSpace(s)|..])
    ensures TrimSpace(s) == [] || (!IsSpace(TrimSpace(s)[0]) && !IsSpace(TrimSpace(s)[|TrimSpace(s)| - 1]))
  {
    var i := TrimStart(s, 0);
    var j := TrimStop(s, i, |s|);
    var pre, post := s[..i], s[j..];
    assert AllSpace(pre) by {
      forall k | 0 <= k < |pre| ensures IsSpace(pre[k]) {
        assert pre[k] == s[k];
      }
    }
    assert AllSpace(post) by {
      forall k | 0 <= k < |post| ensures IsSpace(post[k]) {
        assert post[k] == s[j + k];
      }
    }
  }

  /** A string without white space at either end is its own trimming. */
  lemma TrimSpaceUnchanged(s: string)
    requires s == [] || (!IsSpace(s[0]) && !IsSpace(s[|s| - 1]))
    ensures TrimSpace(s) == s
  {
    TrimSpaceBounds(s, 0, |s|);
  }

  /** Padding `s` with white space moves the bounds of its trimmed slice
      by the length of the leading padding. */
  lemma PaddedBounds(before: string, s: string, after: string, i: nat, j: nat)
    requires AllSpace(before) && AllSpace(after)
    requires i <= j <= |s|
    requires forall k :: 0 <= k < i ==> IsSpace(s[k])
    requires forall k :: j <= k < |s| ==> IsSpace(s[k])
    ensures var t, b := before + s + after, |before|;
            && (forall k :: 0 <= k < b + i ==> IsSpace(t[k]))
            && (forall k :: b + j <= k < |t| ==> IsSpace(t[k]))
            && (i < j ==> t[b + i] == s[i] && t[b + j - 1] == s[j - 1])
            && t[b + i..b + j] == s[i..j]
  {
    var t := before + s + after;
    var b := |before|;
    forall k | 0 <= k < b + i ensures IsSpace(t[k]) {
      if k < b {
        assert t[k] == before[k];
      } else {
        assert t[k] == s[k - b];
      }
    }
    forall k | b + j <= k < |t| ensures IsSpace(t[k]) {
      if k < b + |s| {
        assert t[k] == s[k - b];
      } else {
        assert t[k] == after[k - b - |s|];
      }
    }
    assert t[b..b + |s|] == s;
  }

  /** `strings.TrimSpace` ignores white space added at either end. */
  lemma TrimSpacePadded(before: string, s: string, after: string)
    requires AllSpace(before) && AllSpace(after)
    ensures TrimSpace(before + s + after) == TrimSpace(s)
  {
    var i := TrimStart(s, 0);
    var j := TrimStop(s, i, |s|);
    PaddedBounds(before, s, after, i, j);
    TrimSpaceBounds(before + s + after, |before| + i, |before| + j);
  }

  /** Lower-casing leaves white space alone. */
  lemma LowerSpace(s: string)
    requires AllSpace(s)
    ensures Lower(s) == s
  {
  }

  /** `sub` occurs in `s` starting at index `i`. */
  predicate OccursAt(s: string, sub: string, i: int)
  {
    0 <= i <= |s| - |sub| && s[i..i + |sub|] == sub
  }

  /** `strings.Contains(s, sub)`: `sub` occurs in `s` at some position. */
  predicate Contains(s: string, sub: string)
  {
    exists i :: 0 <= i <= |s| - |sub| && OccursAt(s, sub, i)
  }

  /** `strings.HasPrefix(s, prefix)`. */
  predicate HasPrefix(s: string, prefix: string)
  {
    |prefix| <= |s| && s[..|prefix|] == prefix
  }
}
