/** The pieces of JavaScript string semantics the registration form relies on:
    the white-space class shared by `String.prototype.trim` and the regular
    expression escape `\s`, `trim` itself, and `length`, which counts UTF-16
    code units rather than characters. */
module JsStrings {

  /** ECMAScript WhiteSpace and LineTerminator code points: exactly the set
      that `trim` strips and that `\s` matches. */
  predicate IsJsSpace(c: char)
  {
    c == '\t' || c == '\n' || c == '\U{B}' || c == '\U{C}' || c == '\r' ||
    c == ' ' || c == '\U{A0}' || c == '\U{1680}' ||
    ('\U{2000}' <= c <= '\U{200A}') ||
    c == '\U{2028}' || c == '\U{2029}' || c == '\U{202F}' || c == '\U{205F}' ||
    c == '\U{3000}' || c == '\U{FEFF}'
  }

  predicate AllSpace(s: string)
  {
    forall i | 0 <= i < |s| :: IsJsSpace(s[i])
  }

  /** The end of the run of white space that starts at index `i`. */
  function SpaceRunEnd(s: string, i: nat): (k: nat)
    requires i <= |s|
    ensures i <= k <= |s|
    ensures forall j | i <= j < k :: IsJsSpace(s[j])
    ensures k == |s| || !IsJsSpace(s[k])
    decreases |s| - i
  {
    if i < |s| && IsJsSpace(s[i]) then SpaceRunEnd(s, i + 1) else i
  }

  /** The start of the run of white space that ends just before index `j`. */
  function SpaceRunStart(s: string, j: nat): (k: nat)
    requires j <= |s|
    ensures k <= j
    ensures forall i | k <= i < j :: IsJsSpace(s[i])
    ensures k == 0 || !IsJsSpace(s[k - 1])
  {
    if j > 0 && IsJsSpace(s[j - 1]) then SpaceRunStart(s, j - 1) else j
  }

  /** Drops leading white space. The result is the suffix of `s` that starts
      at its first non-space character (empty if there is none). */
  function TrimStart(s: string): (r: string)
    ensures |r| <= |s| && r == s[|s| - |r|..]
    ensures AllSpace(s[..|s| - |r|])
    ensures r == [] || !IsJsSpace(r[0])
  {
    s[SpaceRunEnd(s, 0)..]
  }

  /** Drops trailing white space. The result is the prefix of `s` that ends
      at its last non-space character (empty if there is none). */
  function TrimEnd(s: string): (r: string)
    ensures |r| <= |s| && r == s[..|r|]
    ensures AllSpace(s[|r|..])
    ensures r == [] || !IsJsSpace(r[|r| - 1])
  {
    s[..SpaceRunStart(s, |s|)]
  }

  /** `String.prototype.trim`: the slice between the leading and the
      trailing run of white space. */
  function Trim(s: string): (r: string)
  {
    var i := SpaceRunEnd(s, 0);
    if i == |s| then [] else s[i..SpaceRunStart(s, |s|)]
  }

  /** `trim` is dropping leading and then trailing white space. */
  lemma TrimIsTrimStartThenEnd(s: string)
    ensures Trim(s) == TrimEnd(TrimStart(s))
  {
  }

  /** The trimmed string is the slice of `s` obtained by cutting off white
      space only, on either side. */
  lemma TrimIsInnerSlice(s: string)
    ensures exists i, j | 0 <= i <= j <= |s| ::
      Trim(s) == s[i..j] && AllSpace(s[..i]) && AllSpace(s[j..])
  {
    var t := TrimStart(s);
    var r := TrimEnd(t);
    var i := |s| - |t|;
    var j := i + |r|;
    assert r == s[i..j] && AllSpace(s[..i]) by {
      assert t == s[i..];
    }
    assert AllSpace(s[j..]) by {
      assert s[j..] == t[|r|..];
    }
    assert Trim(s) == s[i..j] && AllSpace(s[..i]) && AllSpace(s[j..]);
  }

  /** The trimmed string neither starts nor ends with white space. */
  lemma TrimHasNoOuterSpace(s: string)
    ensures Trim(s) == [] || (!IsJsSpace(Trim(s)[0]) && !IsJsSpace(Trim(s)[|Trim(s)| - 1]))
  {
    var t := TrimStart(s);
    var r := TrimEnd(t);
    if r != [] {
      assert r[0] == t[0];
    }
  }

  /** Trimming is empty exactly when the input is all white space. */
  lemma TrimEmptyIffAllSpace(s: string)
    ensures Trim(s) == [] <==> AllSpace(s)
  {
    var t := TrimStart(s);
    assert s == s[..|s| - |t|] + t;
    if t != [] {
      var r := TrimEnd(t);
      assert AllSpace(t[|r|..]);
      assert !IsJsSpace(t[0]);
      assert !IsJsSpace(s[|s| - |t|]);
    }
  }

  /** Trimming an already trimmed string changes nothing. */
  lemma TrimIdempotent(s: string)
    ensures Trim(Trim(s)) == Trim(s)
  {
    var r := Trim(s);
    TrimHasNoOuterSpace(s);
    if r != [] {
      assert TrimStart(r) == r;
      assert TrimEnd(r) == r;
    }
  }

  /** The number of UTF-16 code units a code point occupies. */
  function CodeUnits(c: char): (n: nat)
  {
    if c as int >= 0x10000 then 2 else 1
  }

  /** JavaScript `length`: the number of UTF-16 code units of `s`. */
  function Utf16Length(s: string): (n: nat)
    ensures |s| <= n <= 2 * |s|
  {
    if s == [] then 0 else Utf16Length(s[..|s| - 1]) + CodeUnits(s[|s| - 1])
  }

  predicate AllBmp(s: string)
  {
    forall i | 0 <= i < |s| :: s[i] as int < 0x10000
  }

  /** `length` adds up over concatenation. */
  lemma {:induction false} Utf16LengthAppend(a: string, b: string)
    ensures Utf16Length(a + b) == Utf16Length(a) + Utf16Length(b)
    decreases |b|
  {
    if b != [] {
      var b' := b[..|b| - 1];
      assert (a + b)[..|a + b| - 1] == a + b';
      assert (a + b)[|a + b| - 1] == b[|b| - 1];
      Utf16LengthAppend(a, b');
    } else {
      assert a + b == a;
    }
  }

  /** `length` equals the number of characters exactly when every character
      lies in the Basic Multilingual Plane; otherwise it is larger. */
  lemma {:induction false} Utf16LengthIsCountIffBmp(s: string)
    ensures Utf16Length(s) == |s| <==> AllBmp(s)
  {
    if s != [] {
      var p := s[..|s| - 1];
      Utf16LengthIsCountIffBmp(p);
      assert AllBmp(s) <==> AllBmp(p) && s[|s| - 1] as int < 0x10000 by {
        if AllBmp(p) && s[|s| - 1] as int < 0x10000 {
          forall i | 0 <= i < |s| ensures s[i] as int < 0x10000 {
            if i < |s| - 1 { assert s[i] == p[i]; }
          }
        }
      }
    }
  }
}
