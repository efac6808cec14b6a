/**
 * Recipient address validation: `is_valid_email`, which applies
 * `re.match(r"[^@]+@[^@]+\.[^@]+", email)`. `re.match` anchors only at the
 * start of the string, so an address is accepted as soon as some PREFIX of it
 * matches the pattern; whatever follows that prefix is ignored.
 */
module Address {

  /** Index of the first occurrence of `c` in `s`, or `|s|` when there is none. */
  function IndexOf(s: string, c: char): (r: nat)
    ensures r <= |s|
    ensures r < |s| ==> s[r] == c
    ensures forall k :: 0 <= k < r ==> s[k] != c
  {
    if s == [] then 0
    else if s[0] == c then 0
    else 1 + IndexOf(s[1..], c)
  }

  /** The run of non-'@' characters right after the first '@' of `s` (empty when there is no '@'). */
  function Domain(s: string): string
  {
    var at := IndexOf(s, '@');
    if at == |s| then []
    else
      var rest := s[at + 1..];
      rest[..IndexOf(rest, '@')]
  }

  /**
   * The executable check: the first '@' is not at index 0, and the '@'-free run
   * after it holds a '.' that is neither its first nor its last character.
   */
  predicate IsValidEmail(s: string)
  {
    var at := IndexOf(s, '@');
    var d := Domain(s);
    0 < at < |s| && 3 <= |d| && '.' in d[1..|d| - 1]
  }

  // ---------------------------------------------------------------------------
  // Reference semantics: what it means for the regular expression to match.
  // ---------------------------------------------------------------------------

  /** No '@' among `s[lo..hi]`. */
  ghost predicate AtFree(s: string, lo: int, hi: int)
    requires 0 <= lo <= hi <= |s|
  {
    forall k :: lo <= k < hi ==> s[k] != '@'
  }

  /**
   * `s[..k]` is matched by `[^@]+@[^@]+\.[^@]+` with the '@' at `i` and the
   * escaped '.' at `j`: three non-empty '@'-free runs around them.
   */
  ghost predicate MatchAt(s: string, i: int, j: int, k: int)
  {
    && 0 < i && i + 1 < j && j + 1 < k <= |s|
    && s[i] == '@' && s[j] == '.'
    && AtFree(s, 0, i) && AtFree(s, i + 1, j) && AtFree(s, j + 1, k)
  }

  /** `re.match` succeeds: some prefix of `s` is matched by the pattern. */
  ghost predicate RegexMatches(s: string)
  {
    exists i, j, k :: MatchAt(s, i, j, k)
  }

  /** Every accepted string is matched by the regular expression at its start. */
  lemma ValidEmailMatches(s: string)
    requires IsValidEmail(s)
    ensures RegexMatches(s)
  {
    var at := IndexOf(s, '@');
    var rest := s[at + 1..];
    var e := IndexOf(rest, '@');
    var d := rest[..e];
    assert d == Domain(s);
    var x :| 1 <= x < |d| - 1 && d[x] == '.';
    assert AtFree(s, at + 1, at + 1 + e) by {
      forall m | at + 1 <= m < at + 1 + e
        ensures s[m] != '@'
      {
        assert s[m] == rest[m - at - 1];
      }
    }
    assert s[at + 1 + x] == d[x];
    assert MatchAt(s, at, at + 1 + x, at + 1 + e);
  }

  /** In a match, the whole stretch between the '@' and the end of the prefix is '@'-free. */
  lemma MatchDomainAtFree(s: string, i: int, j: int, k: int)
    requires MatchAt(s, i, j, k)
    ensures AtFree(s, i + 1, k)
  {
    forall m | i + 1 <= m < k
      ensures s[m] != '@'
    {
      if m < j {
        assert AtFree(s, i + 1, j);
      } else if m > j {
        assert AtFree(s, j + 1, k);
      }
    }
  }

  /** Every string the regular expression matches at its start is accepted. */
  lemma MatchIsValidEmail(s: string, i: int, j: int, k: int)
    requires MatchAt(s, i, j, k)
    ensures IsValidEmail(s)
  {
    assert IndexOf(s, '@') == i;
    MatchDomainAtFree(s, i, j, k);
    var rest := s[i + 1..];
    var n := k - i - 1;
    assert forall m :: 0 <= m < n ==> rest[m] == s[i + 1 + m];
    var e := IndexOf(rest, '@');
    assert e >= n;
    var d := rest[..e];
    assert Domain(s) == d;
    var x := j - i - 1;
    assert d[x] == '.';
    assert d[1..|d| - 1][x - 1] == '.';
  }

  /** The executable check accepts exactly the strings the regular expression matches at the start. */
  lemma IsValidEmailIsRegexMatch(s: string)
    ensures IsValidEmail(s) <==> RegexMatches(s)
  {
    if IsValidEmail(s) {
      ValidEmailMatches(s);
    }
    if RegexMatches(s) {
      var i, j, k :| MatchAt(s, i, j, k);
      MatchIsValidEmail(s, i, j, k);
    }
  }

  /** Text after a matching prefix is ignored: `a@b.c@d` is accepted because `a@b.c` is. */
  lemma TrailingTextAccepted(s: string, t: string)
    requires IsValidEmail(s)
    ensures IsValidEmail(s + t)
  {
    IsValidEmailIsRegexMatch(s);
    var i, j, k :| MatchAt(s, i, j, k);
    assert MatchAt(s + t, i, j, k);
    IsValidEmailIsRegexMatch(s + t);
  }

  /** Every `local@domain.tld` with three non-empty '@'-free parts is accepted. */
  lemma WellShapedAccepted(local: string, domain: string, tld: string)
    requires |local| > 0 && |domain| > 0 && |tld| > 0
    requires '@' !in local && '@' !in domain && '@' !in tld
    ensures IsValidEmail(local + "@" + domain + "." + tld)
  {
    var s := local + "@" + domain + "." + tld;
    var i, j := |local|, |local| + 1 + |domain|;
    assert forall m :: 0 <= m < i ==> s[m] == local[m];
    assert forall m :: i + 1 <= m < j ==> s[m] == domain[m - i - 1];
    assert forall m :: j + 1 <= m < |s| ==> s[m] == tld[m - j - 1];
    assert MatchAt(s, i, j, |s|);
    IsValidEmailIsRegexMatch(s);
  }

  /** A string without '@' is rejected. */
  lemma NoAtRejected(s: string)
    requires '@' !in s
    ensures !IsValidEmail(s)
  {
    assert IndexOf(s, '@') == |s|;
  }

  /** A string with no '.' anywhere after its first '@' is rejected. */
  lemma NoDotAfterAtRejected(s: string)
    requires forall m :: IndexOf(s, '@') < m < |s| ==> s[m] != '.'
    ensures !IsValidEmail(s)
  {
  }

  /** The '@' must have a non-empty local part before it. */
  lemma LeadingAtRejected(s: string)
    requires |s| > 0 && s[0] == '@'
    ensures !IsValidEmail(s)
  {
  }

  /** Text after a valid prefix is accepted even when it holds another '@'. */
  lemma SecondAtAccepted()
    ensures IsValidEmail("a@b.c@d")
  {
    var s := "a@b.c@d";
    assert MatchAt(s, 1, 3, 5);
    MatchIsValidEmail(s, 1, 3, 5);
  }

  /** A '.' right after the '@' or at the very end does not count, nor does a missing '.'. */
  lemma MisplacedDotRejected()
    ensures !IsValidEmail("a@.c")
    ensures !IsValidEmail("a@b.")
    ensures !IsValidEmail("a@bc")
  {
    assert IndexOf("a@.c", '@') == 1;
    assert IndexOf("a@b.", '@') == 1;
    assert IndexOf("a@bc", '@') == 1;
  }
}
