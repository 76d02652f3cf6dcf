/**
 * The parts of C++'s std::string that the controller's message handling
 * relies on: find, find_first_of, find_last_of and substr, with size_t
 * arithmetic written out. A string is a sequence of char; a std::string's
 * size is always below npos, so every operation here asks for that.
 */
module CppString {

  /** std::string::npos, the largest size_t value on a 64-bit target. */
  const NPOS: int := 0xFFFF_FFFF_FFFF_FFFF

  /** The number of size_t values; unsigned arithmetic wraps modulo this. */
  const SIZE_MODULUS: int := NPOS + 1

  /** The size_t value of an integer computation: reduction modulo 2^64. */
  function SizeT(n: int): (r: nat)
    ensures r < SIZE_MODULUS
    ensures 0 <= n < SIZE_MODULUS ==> r == n
    ensures -SIZE_MODULUS <= n < 0 ==> r == n + SIZE_MODULUS
    ensures n == SIZE_MODULUS ==> r == 0
  {
    n % SIZE_MODULUS
  }

  function Min(a: nat, b: nat): nat
  {
    if a <= b then a else b
  }

  /** `pat` occurs in `s` starting at index `i`. */
  predicate OccursAt(s: string, pat: string, i: nat)
  {
    i + |pat| <= |s| && s[i..i + |pat|] == pat
  }

  /** `pat` is a contiguous substring of `s`. */
  ghost predicate Contains(s: string, pat: string)
  {
    exists i: nat :: OccursAt(s, pat, i)
  }

  /** `s.find(pat, i)`: the first occurrence of `pat` at or after `i`, or npos. */
  function FindFrom(s: string, pat: string, i: nat): (r: nat)
    requires i <= |s| < NPOS
    ensures r == NPOS || (i <= r && OccursAt(s, pat, r))
    ensures forall j: nat :: i <= j < r ==> !OccursAt(s, pat, j)
    decreases |s| - i
  {
    if i + |pat| > |s| then NPOS
    else if s[i..i + |pat|] == pat then i
    else FindFrom(s, pat, i + 1)
  }

  /** `s.find(pat)`: the first index at which `pat` occurs, or npos when it does not occur. */
  function Find(s: string, pat: string): (r: nat)
    requires |s| < NPOS
    ensures r == NPOS <==> !Contains(s, pat)
    ensures r != NPOS ==> OccursAt(s, pat, r) && forall j: nat :: j < r ==> !OccursAt(s, pat, j)
  {
    FindFrom(s, pat, 0)
  }

  /** `s.find_first_of(chars, i)`: the first index at or after `i` holding one of `chars`, or npos. */
  function FirstOfFrom(s: string, chars: string, i: nat): (r: nat)
    requires i <= |s| < NPOS
    ensures r == NPOS || (i <= r < |s| && s[r] in chars)
    ensures forall j :: i <= j < |s| && j < r ==> s[j] !in chars
    decreases |s| - i
  {
    if i == |s| then NPOS
    else if s[i] in chars then i
    else FirstOfFrom(s, chars, i + 1)
  }

  /** `s.find_first_of(chars)`. */
  function FindFirstOf(s: string, chars: string): (r: nat)
    requires |s| < NPOS
    ensures r == NPOS <==> forall j :: 0 <= j < |s| ==> s[j] !in chars
    ensures r != NPOS ==> r < |s| && s[r] in chars && forall j :: 0 <= j < r ==> s[j] !in chars
  {
    FirstOfFrom(s, chars, 0)
  }

  /** The last index below `n` holding one of `chars`, or npos. */
  function LastOfBelow(s: string, chars: string, n: nat): (r: nat)
    requires n <= |s| < NPOS
    ensures r == NPOS ==> forall j :: 0 <= j < n ==> s[j] !in chars
    ensures r != NPOS ==> r < n && s[r] in chars && forall j :: r < j < n ==> s[j] !in chars
  {
    if n == 0 then NPOS
    else if s[n - 1] in chars then n - 1
    else LastOfBelow(s, chars, n - 1)
  }

  /** `s.find_last_of(chars)`. */
  function FindLastOf(s: string, chars: string): (r: nat)
    requires |s| < NPOS
    ensures r == NPOS <==> forall j :: 0 <= j < |s| ==> s[j] !in chars
    ensures r != NPOS ==> r < |s| && s[r] in chars && forall j :: r < j < |s| ==> s[j] !in chars
  {
    LastOfBelow(s, chars, |s|)
  }

  /**
   * `s.substr(pos, count)`: at most `count` characters starting at `pos`;
   * a count reaching past the end is clamped to what remains.
   */
  function Substr(s: string, pos: nat, count: nat): (r: string)
    requires pos <= |s|
    ensures |r| == Min(count, |s| - pos)
    ensures OccursAt(s, r, pos)
  {
    s[pos..pos + Min(count, |s| - pos)]
  }

  /** The empty string is a substring of every string. */
  lemma ContainsEmpty(s: string)
    ensures Contains(s, "")
  {
    assert OccursAt(s, "", 0);
  }

  /** A substring of a substring of `s` is a substring of `s`. */
  lemma ContainsTransitive(s: string, r: string, pat: string)
    ensures Contains(s, r) && Contains(r, pat) ==> Contains(s, pat)
  {
    if Contains(s, r) && Contains(r, pat) {
      var i: nat :| OccursAt(s, r, i);
      var k: nat :| OccursAt(r, pat, k);
      forall t | 0 <= t < |pat|
        ensures s[i + k + t] == pat[t]
      {
        assert pat[t] == r[k + t] == s[i..i + |r|][k + t];
      }
      assert OccursAt(s, pat, i + k);
    }
  }

  /**
   * Joining two strings that lack `pat` around a character that `pat` does
   * not use cannot create an occurrence of `pat`.
   */
  lemma JoinAvoids(a: string, c: char, b: string, pat: string)
    requires c !in pat
    requires !Contains(a, pat) && !Contains(b, pat)
    ensures !Contains(a + [c] + b, pat)
  {
    var m := a + [c] + b;
    forall i: nat
      ensures !OccursAt(m, pat, i)
    {
      if i + |pat| <= |a| {
        assert m[i..i + |pat|] == a[i..i + |pat|];
        assert !OccursAt(a, pat, i);
      } else if i > |a| {
        var j: nat := i - |a| - 1;
        if i + |pat| <= |m| {
          assert m[i..i + |pat|] == b[j..j + |pat|];
        }
        assert !OccursAt(b, pat, j);
      } else if i + |pat| <= |m| {
        assert m[|a|] == c;
        assert m[i..i + |pat|][|a| - i] == m[|a|];
      }
    }
  }

  /** A string that lacks the first character of `pat` does not contain `pat`. */
  lemma LacksFirstChar(s: string, pat: string)
    requires pat != [] && pat[0] !in s
    ensures !Contains(s, pat)
  {
    forall i: nat
      ensures !OccursAt(s, pat, i)
    {
      if i + |pat| <= |s| {
        assert s[i..i + |pat|][0] == s[i];
      }
    }
  }
}
