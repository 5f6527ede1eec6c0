/** The two string tests the containment variant relies on: Rust's
    `str::starts_with` and `str::contains` with a string pattern. */
module Text {

  /** `needle` occurs in `s` starting at index `k`. */
  predicate OccursAt(s: string, needle: string, k: int) {
    0 <= k && k + |needle| <= |s| && s[k..k + |needle|] == needle
  }

  /** `s.starts_with(prefix)`: `s` is `prefix` followed by something. */
  predicate StartsWith(s: string, prefix: string)
    ensures StartsWith(s, prefix) <==> exists t :: s == prefix + t
  {
    assert |prefix| <= |s| && s[..|prefix|] == prefix ==> s == prefix + s[|prefix|..];
    assert forall t :: s == prefix + t ==> s[..|prefix|] == prefix;
    |prefix| <= |s| && s[..|prefix|] == prefix
  }

  /** `s.contains(needle)`: some suffix of `s` starts with `needle`
      (the empty needle is contained in every string). The scan agrees with
      the positional reading: the needle occurs at some index of `s`. */
  predicate Contains(s: string, needle: string)
    ensures Contains(s, needle) <==> exists k :: OccursAt(s, needle, k)
    decreases |s|
  {
    assert (exists k :: OccursAt(s, needle, k))
      <==> StartsWith(s, needle) || (|s| > 0 && exists k :: OccursAt(s[1..], needle, k)) by {
      if exists k :: OccursAt(s, needle, k) {
        var k :| OccursAt(s, needle, k);
        if k > 0 {
          assert s[1..][k - 1..k - 1 + |needle|] == s[k..k + |needle|];
          assert OccursAt(s[1..], needle, k - 1);
        }
      }
      if |s| > 0 && exists k :: OccursAt(s[1..], needle, k) {
        var k :| OccursAt(s[1..], needle, k);
        assert s[1..][k..k + |needle|] == s[k + 1..k + 1 + |needle|];
        assert OccursAt(s, needle, k + 1);
      }
      if StartsWith(s, needle) {
        assert OccursAt(s, needle, 0);
      }
    }
    StartsWith(s, needle) || (|s| > 0 && Contains(s[1..], needle))
  }

  /** A string contains whatever stands in its middle. */
  lemma ContainsMiddle(a: string, b: string, c: string)
    ensures Contains(a + b + c, b)
  {
    assert (a + b + c)[|a|..|a| + |b|] == b;
    assert OccursAt(a + b + c, b, |a|);
  }

  /** Substrings compose: a string containing `m` contains everything `m` contains. */
  lemma ContainsTransitive(s: string, m: string, needle: string)
    requires Contains(s, m) && Contains(m, needle)
    ensures Contains(s, needle)
  {
    var i :| OccursAt(s, m, i);
    var j :| OccursAt(m, needle, j);
    forall t | 0 <= t < |needle| ensures s[i + j + t] == needle[t] {
      assert m[j + t] == needle[t];
      assert s[i..i + |m|][j + t] == s[i + j + t];
    }
    assert s[i + j..i + j + |needle|] == needle;
    assert OccursAt(s, needle, i + j);
  }

  /** A string contains each of its prefixes. */
  lemma StartsWithContains(s: string, prefix: string)
    requires StartsWith(s, prefix)
    ensures Contains(s, prefix)
  {
  }
}
