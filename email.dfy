/** The form's e-mail shape check, `isValidEmail`: the JavaScript regular
    expression `^[^\s@]+@[^\s@]+\.[^\s@]+$` matched against the trimmed input. */
module Email {
  import opened Wrappers
  import opened JsStrings

  /** The first index of `c` in `s`, or `None` when `c` does not occur. */
  function IndexOf(s: string, c: char): (r: Option<nat>)
    ensures r.None? ==> forall k | 0 <= k < |s| :: s[k] != c
    ensures r.Some? ==> r.value < |s| && s[r.value] == c &&
                        forall k | 0 <= k < r.value :: s[k] != c
  {
    if s == [] then None
    else if s[0] == c then Some(0)
    else match IndexOf(s[1..], c)
      case None => None
      case Some(k) => Some(k + 1)
  }

  /** The domain part has a dot with at least one character on each side. */
  predicate HasInnerDot(domain: string)
  {
    exists k | 0 < k < |domain| - 1 :: domain[k] == '.'
  }

  /** `isValidEmail`: no white space anywhere, a non-empty part before the
      first `@`, no second `@`, and an inner dot after the `@`. */
  predicate IsValidEmail(email: string)
  {
    (forall k | 0 <= k < |email| :: !IsJsSpace(email[k])) &&
    match IndexOf(email, '@')
    case None => false
    case Some(at) =>
      var domain := email[at + 1..];
      at > 0 &&
      (forall k | 0 <= k < |domain| :: domain[k] != '@') &&
      HasInnerDot(domain)
  }

  /** A run matched by the character class `[^\s@]+`. */
  predicate Segment(x: string)
  {
    |x| > 0 && forall k | 0 <= k < |x| :: !IsJsSpace(x[k]) && x[k] != '@'
  }

  /** The language of `^[^\s@]+@[^\s@]+\.[^\s@]+$`, read off the pattern:
      three segments joined by the `@` at index `i` and the dot at index `j`. */
  ghost predicate MatchesEmailPattern(s: string)
  {
    exists i, j | 0 <= i < j < |s| ::
      s[i] == '@' && s[j] == '.' &&
      Segment(s[..i]) && Segment(s[i + 1..j]) && Segment(s[j + 1..])
  }

  /** `isValidEmail` accepts exactly the strings the regular expression matches. */
  lemma EmailCheckMatchesPattern(s: string)
    ensures IsValidEmail(s) <==> MatchesEmailPattern(s)
  {
    if IsValidEmail(s) {
      ValidEmailMatches(s);
    }
    if MatchesEmailPattern(s) {
      var i, j :| 0 <= i < j < |s| &&
        s[i] == '@' && s[j] == '.' &&
        Segment(s[..i]) && Segment(s[i + 1..j]) && Segment(s[j + 1..]);
      MatchIsValidEmail(s, i, j);
    }
  }

  lemma ValidEmailMatches(s: string)
    requires IsValidEmail(s)
    ensures MatchesEmailPattern(s)
  {
    var at := IndexOf(s, '@').value;
    var domain := s[at + 1..];
    var k :| 0 < k < |domain| - 1 && domain[k] == '.';
    var j := at + 1 + k;
    assert s[j] == '.';
    assert Segment(s[..at]);
    assert s[at + 1..j] == domain[..k];
    assert Segment(s[at + 1..j]);
    assert s[j + 1..] == domain[k + 1..];
    assert Segment(s[j + 1..]);
  }

  lemma MatchIsValidEmail(s: string, i: nat, j: nat)
    requires i < j < |s| && s[i] == '@' && s[j] == '.'
    requires Segment(s[..i]) && Segment(s[i + 1..j]) && Segment(s[j + 1..])
    ensures IsValidEmail(s)
  {
    forall k | 0 <= k < |s| ensures !IsJsSpace(s[k]) && (s[k] == '@' ==> k == i) {
      if k < i {
        assert s[k] == s[..i][k];
      } else if i < k < j {
        assert s[k] == s[i + 1..j][k - i - 1];
      } else if j < k {
        assert s[k] == s[j + 1..][k - j - 1];
      }
    }
    assert IndexOf(s, '@') == Some(i);
    var domain := s[i + 1..];
    assert domain[j - i - 1] == '.';
  }

  /** An accepted address contains exactly one `@`. */
  lemma ValidEmailHasOneAt(s: string)
    requires IsValidEmail(s)
    ensures exists i | 0 <= i < |s| :: s[i] == '@'
    ensures forall i, j | 0 <= i < |s| && 0 <= j < |s| && s[i] == '@' && s[j] == '@' :: i == j
  {
    var at := IndexOf(s, '@').value;
    var domain := s[at + 1..];
    forall i | 0 <= i < |s| && s[i] == '@' ensures i == at {
      assert i >= at;
    }
  }

  /** A minimal address of the accepted shape. */
  lemma EmailSamples()
    ensures IsValidEmail("a@b.c")
  {
    assert IndexOf("a@b.c", '@') == Some(1);
    assert "a@b.c"[2..][1] == '.';
  }

  /** Addresses without an `@`, without a dot after it, with white space or
      with a second `@` are rejected. */
  lemma EmailSamplesRejected()
    ensures !IsValidEmail("a@b") && !IsValidEmail("ab.com")
    ensures !IsValidEmail("a b@c.d") && !IsValidEmail("a@b@c.d")
  {
    assert IndexOf("a@b", '@') == Some(1);
    assert IndexOf("ab.com", '@') == None;
    assert "a b@c.d"[1] == ' ';
    assert IndexOf("a@b@c.d", '@') == Some(1);
    assert "a@b@c.d"[2..][1] == '@';
  }

  /** Addresses with an empty segment are rejected. */
  lemma EmailSamplesEmptySegment()
    ensures !IsValidEmail("@b.c") && !IsValidEmail("a@.c") && !IsValidEmail("a@b.")
  {
    assert IndexOf("@b.c", '@') == Some(0);
    assert IndexOf("a@.c", '@') == Some(1);
    assert IndexOf("a@b.", '@') == Some(1);
  }
}
