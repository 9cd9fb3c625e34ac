/** The two string operations the library relies on: the ordering of
    `std::string` (dates are strings compared with `<` and `>`) and
    `std::string::find` (author search).

    A string is a `seq<char>`; each byte of the original string is modelled
    by the character with the same unsigned value, which is how
    `std::char_traits<char>` compares bytes. Dafny's own `<` on sequences
    means "proper prefix", so the lexicographic order is defined here. */
module Strings {

  import opened Wrappers

  /** Lexicographic strict order: `a < b` on `std::string`. A string is
      below another when it is a proper prefix of it or when, at the first
      position where they differ, its character is the smaller one
      (`LexLessIsLexicographic`). */
  predicate LexLess(a: string, b: string)
    ensures LexLess(a, b) ==> a != b
  {
    if |a| == 0 then |b| > 0
    else if |b| == 0 then false
    else if a[0] < b[0] then true
    else if b[0] < a[0] then false
    else LexLess(a[1..], b[1..])
  }

  /** `a <= b` on `std::string`, that is `!(b < a)`: reflexive, and
      implied by the strict order. */
  predicate LexLessEq(a: string, b: string)
    ensures a == b ==> LexLessEq(a, b)
    ensures LexLess(a, b) ==> LexLessEq(a, b)
  {
    LexLessAsymmetric(a, b);
    !LexLess(b, a)
  }

  /** No string is below itself. */
  lemma LexLessIrreflexive(a: string)
    ensures !LexLess(a, a)
  {
  }

  /** Two strings are never each below the other. */
  lemma {:induction false} LexLessAsymmetric(a: string, b: string)
    ensures !(LexLess(a, b) && LexLess(b, a))
  {
    if |a| > 0 && |b| > 0 && a[0] == b[0] {
      LexLessAsymmetric(a[1..], b[1..]);
    }
  }

  lemma {:induction false} LexLessTransitive(a: string, b: string, c: string)
    requires LexLess(a, b) && LexLess(b, c)
    ensures LexLess(a, c)
  {
    if |a| > 0 && |b| > 0 && |c| > 0 && a[0] == b[0] && b[0] == c[0] {
      LexLessTransitive(a[1..], b[1..], c[1..]);
    }
  }

  /** Any two different strings are ordered one way or the other, so
      `LexLess` is a strict total order. */
  lemma {:induction false} LexLessTotal(a: string, b: string)
    requires a != b
    ensures LexLess(a, b) || LexLess(b, a)
  {
    if |a| > 0 && |b| > 0 && a[0] == b[0] {
      assert a == [a[0]] + a[1..] && b == [b[0]] + b[1..];
      LexLessTotal(a[1..], b[1..]);
    }
  }

  /** `LexLessEq` is a total relation: one of `a <= b`, `b <= a` holds. */
  lemma LexLessEqTotal(a: string, b: string)
    ensures LexLessEq(a, b) || LexLessEq(b, a)
  {
  }

  /** Two strings that agree on their first `k` characters and differ at
      position `k` are ordered by that character. */
  lemma {:induction false} LexLessCommonPrefix(a: string, b: string, k: nat)
    requires k < |a| && k < |b| && a[..k] == b[..k] && a[k] < b[k]
    ensures LexLess(a, b)
  {
    if k > 0 {
      assert a[0] == a[..k][0] == b[..k][0] == b[0];
      assert a[1..][..k - 1] == a[..k][1..] == b[..k][1..] == b[1..][..k - 1];
      LexLessCommonPrefix(a[1..], b[1..], k - 1);
    }
  }

  /** `a` is a proper prefix of `b`. */
  predicate IsProperPrefix(a: string, b: string)
  {
    |a| < |b| && b[..|a|] == a
  }

  /** `a` and `b` agree before position `k`, and there `a` has the smaller
      character. */
  predicate FirstDiffersBelow(a: string, b: string, k: nat)
  {
    k < |a| && k < |b| && a[..k] == b[..k] && a[k] < b[k]
  }

  /** A proper prefix sorts before the string it begins. */
  lemma {:induction false} LexLessProperPrefix(a: string, b: string)
    requires IsProperPrefix(a, b)
    ensures LexLess(a, b)
  {
    if |a| > 0 {
      assert a[0] == b[..|a|][0] == b[0];
      assert b[1..][..|a| - 1] == b[..|a|][1..] == a[1..];
      LexLessProperPrefix(a[1..], b[1..]);
    }
  }

  /** Every string sorts before its one-character extensions. */
  lemma LexLessExtend(a: string, c: char)
    ensures LexLess(a, a + [c])
  {
    assert (a + [c])[..|a|] == a;
    LexLessProperPrefix(a, a + [c]);
  }

  /** The two ways `LexLess` can hold, read off its recursion. */
  lemma {:induction false} LexLessCases(a: string, b: string)
    requires LexLess(a, b)
    ensures IsProperPrefix(a, b) || exists k: nat :: FirstDiffersBelow(a, b, k)
  {
    if |a| == 0 {
      assert b[..0] == a;
    } else if a[0] < b[0] {
      assert FirstDiffersBelow(a, b, 0);
    } else {
      LexLessCases(a[1..], b[1..]);
      if IsProperPrefix(a[1..], b[1..]) {
        assert b[..|a|] == [b[0]] + b[1..][..|a| - 1];
        assert a == [a[0]] + a[1..];
      } else {
        var k: nat :| FirstDiffersBelow(a[1..], b[1..], k);
        assert a[..k + 1] == [a[0]] + a[1..][..k];
        assert b[..k + 1] == [b[0]] + b[1..][..k];
        assert FirstDiffersBelow(a, b, k + 1);
      }
    }
  }

  /** `LexLess` is the lexicographic order: `a < b` exactly when `a` is a
      proper prefix of `b` or the first differing character of `a` is
      smaller. */
  lemma LexLessIsLexicographic(a: string, b: string)
    ensures LexLess(a, b) <==> IsProperPrefix(a, b) || exists k: nat :: FirstDiffersBelow(a, b, k)
  {
    if IsProperPrefix(a, b) {
      LexLessProperPrefix(a, b);
    }
    forall k: nat | FirstDiffersBelow(a, b, k)
      ensures LexLess(a, b)
    {
      LexLessCommonPrefix(a, b, k);
    }
    if LexLess(a, b) {
      LexLessCases(a, b);
    }
  }

  /** `pat` occurs in `text` starting at position `i`. */
  predicate OccursAt(text: string, pat: string, i: nat)
  {
    i + |pat| <= |text| && text[i..i + |pat|] == pat
  }

  /** `text.find(pat, from)`: the first position at or after `from` where
      `pat` occurs, or `None` for `std::string::npos`. An empty pattern
      occurs at every position up to `|text|`. */
  function FindFrom(text: string, pat: string, from: nat): (r: Option<nat>)
    ensures r.Some? ==> from <= r.value && OccursAt(text, pat, r.value)
    ensures r.Some? ==> forall j :: from <= j < r.value ==> !OccursAt(text, pat, j)
    ensures r.None? <==> forall j :: from <= j ==> !OccursAt(text, pat, j)
    decreases |text| - from
  {
    if from + |pat| > |text| then None
    else if OccursAt(text, pat, from) then Some(from)
    else FindFrom(text, pat, from + 1)
  }

  /** `text.find(pat) != std::string::npos`: `pat` is a contiguous
      substring of `text`. */
  function Contains(text: string, pat: string): (r: bool)
    ensures r <==> exists i :: OccursAt(text, pat, i)
  {
    FindFrom(text, pat, 0).Some?
  }

  /** The empty pattern is found in every string. */
  lemma ContainsEmpty(text: string)
    ensures Contains(text, "")
  {
    assert OccursAt(text, "", 0);
  }

  /** A pattern whose first character never appears in the text is not found. */
  lemma ContainsNeedsFirstChar(text: string, pat: string)
    requires |pat| > 0
    requires forall k :: 0 <= k < |text| ==> text[k] != pat[0]
    ensures !Contains(text, pat)
  {
    forall i: nat | i + |pat| <= |text|
      ensures !OccursAt(text, pat, i)
    {
      assert text[i..i + |pat|][0] == text[i] != pat[0];
    }
  }

}
