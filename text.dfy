/**
 * The Python string primitives that the input normaliser of core.py relies on:
 * `str.strip()` with no argument, and `str.replace(old, new)` with a non-empty `old`.
 * Strings are `seq<char>`, one element per Unicode scalar value. A Python 3 `str` is a
 * sequence of code points and can also hold lone surrogates, which a `char` cannot.
 */
module Text {

  /** Python's `str.isspace` on one character: the whitespace that `str.strip()` removes.
      This is the complete list (ASCII controls 9-13 and 28-31, the space, NEL,
      NO-BREAK SPACE, OGHAM SPACE MARK, the U+2000 block of spaces, the line and
      paragraph separators, NARROW NO-BREAK SPACE, MEDIUM MATHEMATICAL SPACE and the
      ideographic space). */
  predicate IsSpace(c: char) {
    ('\t' <= c <= '\r') || ('\U{1C}' <= c <= '\U{1F}') || c == ' '
    || c == '\U{85}' || c == '\U{A0}' || c == '\U{1680}'
    || ('\U{2000}' <= c <= '\U{200A}') || c == '\U{2028}' || c == '\U{2029}'
    || c == '\U{202F}' || c == '\U{205F}' || c == '\U{3000}'
  }

  /** Among the ASCII characters, `str.isspace` holds exactly for tab, line feed,
      vertical tab, form feed, carriage return, the four information separators
      (28-31) and the space. */
  lemma AsciiSpaces(c: char)
    ensures c < '\U{80}' ==> (IsSpace(c) <==> c in "\t\n\U{0B}\U{0C}\r\U{1C}\U{1D}\U{1E}\U{1F} ")
  {
  }

  /** Every character of `s` is whitespace (in particular, the empty string). */
  predicate Blank(s: string) {
    forall k :: 0 <= k < |s| ==> IsSpace(s[k])
  }

  /** Neither end of `s` is whitespace: what `str.strip()` leaves. */
  predicate Trimmed(s: string) {
    s == [] || (!IsSpace(s[0]) && !IsSpace(s[|s| - 1]))
  }

  /** Length of the leading run of whitespace of `s`. */
  function LeadingSpaces(s: string): (n: nat)
    ensures n <= |s|
    ensures forall k :: 0 <= k < n ==> IsSpace(s[k])
    ensures n < |s| ==> !IsSpace(s[n])
  {
    if s != [] && IsSpace(s[0]) then 1 + LeadingSpaces(s[1..]) else 0
  }

  /** Length of the trailing run of whitespace of `s`. */
  function TrailingSpaces(s: string): (n: nat)
    ensures n <= |s|
    ensures forall k :: |s| - n <= k < |s| ==> IsSpace(s[k])
    ensures n < |s| ==> !IsSpace(s[|s| - 1 - n])
  {
    if s != [] && IsSpace(s[|s| - 1]) then 1 + TrailingSpaces(s[..|s| - 1]) else 0
  }

  /** `str.strip()`: the slice of `s` between its leading and its trailing run of
      whitespace, or nothing when `s` is all whitespace. Only the surrounding
      whitespace is removed: the result is a slice `s[a..b]` with nothing but
      whitespace before and after it. */
  function Strip(s: string): (r: string)
    ensures Trimmed(r)
    ensures r == [] <==> Blank(s)
    ensures Trimmed(s) ==> r == s
    ensures exists a, b :: (0 <= a <= b <= |s| && r == s[a..b] &&
      (forall k :: 0 <= k < a ==> IsSpace(s[k])) && (forall k :: b <= k < |s| ==> IsSpace(s[k])))
  {
    var a := LeadingSpaces(s);
    assert a == |s| ==> [] == s[a..a];
    if a == |s| then [] else s[a..|s| - TrailingSpaces(s)]
  }

  /** `pat` is a prefix of `s`, compared character by character. */
  predicate StartsWith(s: string, pat: string)
    ensures StartsWith(s, pat) <==> pat <= s
  {
    pat == [] || (s != [] && s[0] == pat[0] && StartsWith(s[1..], pat[1..]))
  }

  /** `s.replace(pat, sub)` for a non-empty `pat`: scan from the left, and at each
      position where `pat` starts, emit `sub` and resume after that occurrence
      (occurrences never overlap); elsewhere copy one character. */
  function Replace(s: string, pat: string, sub: string): string
    requires pat != []
    decreases |s|
  {
    if s == [] then []
    else if StartsWith(s, pat) then sub + Replace(s[|pat|..], pat, sub)
    else [s[0]] + Replace(s[1..], pat, sub)
  }

  /** Reference definition of replacing one character: every `c` becomes `sub`,
      every other character stays where it is. */
  ghost function Subst(s: string, c: char, sub: string): string
  {
    if s == [] then []
    else
      (if s[0] == c then sub else [s[0]]) + Subst(s[1..], c, sub)
  }

  /** A character that is absent from the replacement and either absent from `s` or
      the replaced one is absent from the substitution. */
  lemma {:induction false} SubstOmits(s: string, c: char, sub: string, d: char)
    requires d !in sub && (d == c || d !in s)
    ensures d !in Subst(s, c, sub)
  {
    if s != [] {
      SubstOmits(s[1..], c, sub, d);
    }
  }

  /** Substitution works character by character, so it distributes over concatenation. */
  lemma {:induction false} SubstConcat(a: string, b: string, c: char, sub: string)
    ensures Subst(a + b, c, sub) == Subst(a, c, sub) + Subst(b, c, sub)
  {
    if a == [] {
      assert a + b == b;
    } else {
      var head := if a[0] == c then sub else [a[0]];
      calc {
        Subst(a + b, c, sub);
        { assert (a + b)[0] == a[0] && (a + b)[1..] == a[1..] + b; }
        head + Subst(a[1..] + b, c, sub);
        { SubstConcat(a[1..], b, c, sub); }
        head + (Subst(a[1..], c, sub) + Subst(b, c, sub));
        Subst(a, c, sub) + Subst(b, c, sub);
      }
    }
  }

  /** The substitution of a non-empty string, split at its first and at its last
      character. */
  lemma SubstEnds(s: string, c: char, sub: string)
    requires s != []
    ensures Subst(s, c, sub) == Subst([s[0]], c, sub) + Subst(s[1..], c, sub)
    ensures Subst(s, c, sub) == Subst(s[..|s| - 1], c, sub) + Subst([s[|s| - 1]], c, sub)
  {
    assert [s[0]] + s[1..] == s;
    SubstConcat([s[0]], s[1..], c, sub);
    assert s[..|s| - 1] + [s[|s| - 1]] == s;
    SubstConcat(s[..|s| - 1], [s[|s| - 1]], c, sub);
  }

  /** Substitution of a single character. */
  lemma SubstOne(d: char, c: char, sub: string)
    ensures Subst([d], c, sub) == if d == c then sub else [d]
  {
    assert [d][1..] == [];
  }

  /** With a one-character pattern, `str.replace` is plain character substitution. */
  lemma {:induction false} ReplaceOneChar(s: string, c: char, sub: string)
    ensures Replace(s, [c], sub) == Subst(s, c, sub)
  {
    if s != [] {
      ReplaceOneChar(s[1..], c, sub);
    }
  }

  /** A character that occurs in neither the subject nor the replacement does not
      occur in the result. */
  lemma {:induction false} ReplaceKeepsAbsent(s: string, pat: string, sub: string, d: char)
    requires pat != []
    requires d !in s && d !in sub
    ensures d !in Replace(s, pat, sub)
  {
    if s != [] {
      if pat <= s {
        ReplaceKeepsAbsent(s[|pat|..], pat, sub, d);
      } else {
        ReplaceKeepsAbsent(s[1..], pat, sub, d);
      }
    }
  }

  /** Replacing a single character: everything before its first occurrence is kept,
      that occurrence becomes `sub`, and the scan resumes right after it. */
  lemma {:induction false} ReplaceFirst(a: string, c: char, b: string, sub: string)
    requires c !in a
    ensures Replace(a + [c] + b, [c], sub) == a + sub + Replace(b, [c], sub)
  {
    var s := a + [c] + b;
    if a == [] {
      assert StartsWith(s, [c]) && s[1..] == b;
    } else {
      calc {
        Replace(s, [c], sub);
        { assert !StartsWith(s, [c]) && s[0] == a[0] && s[1..] == a[1..] + [c] + b; }
        [a[0]] + Replace(a[1..] + [c] + b, [c], sub);
        { ReplaceFirst(a[1..], c, b, sub); }
        [a[0]] + (a[1..] + sub + Replace(b, [c], sub));
        { assert [a[0]] + a[1..] == a; }
        a + sub + Replace(b, [c], sub);
      }
    }
  }

  /** A pattern holding a character the subject lacks never matches, so nothing is replaced. */
  lemma {:induction false} ReplaceWithoutMatch(s: string, pat: string, sub: string, d: char)
    requires pat != [] && d in pat && d !in s
    ensures Replace(s, pat, sub) == s
  {
    if s != [] {
      assert !(pat <= s);
      ReplaceWithoutMatch(s[1..], pat, sub, d);
      assert [s[0]] + s[1..] == s;
    }
  }

  /** Replacing `pat` by a marker that starts with a character absent from the
      subject, and the marker back by `pat`, gives the subject back: scanning left
      to right, the first marker character found always opens a marker inserted by
      the first pass. */
  lemma {:induction false} ReplaceRoundTrip(s: string, pat: string, marker: string)
    requires pat != [] && marker != [] && marker[0] !in s
    ensures Replace(Replace(s, pat, marker), marker, pat) == s
  {
    if s != [] {
      if pat <= s {
        var rest := Replace(s[|pat|..], pat, marker);
        assert marker[0] !in s[|pat|..] by {
          forall k | 0 <= k < |s[|pat|..]| ensures s[|pat|..][k] != marker[0] {
            assert s[|pat|..][k] == s[|pat| + k];
          }
        }
        ReplaceRoundTrip(s[|pat|..], pat, marker);
        assert (marker + rest)[|marker|..] == rest;
        assert Replace(marker + rest, marker, pat) == pat + Replace(rest, marker, pat);
        assert pat + s[|pat|..] == s;
      } else {
        var rest := Replace(s[1..], pat, marker);
        assert marker[0] !in s[1..];
        ReplaceRoundTrip(s[1..], pat, marker);
        assert !(marker <= [s[0]] + rest);
        assert ([s[0]] + rest)[1..] == rest;
        assert [s[0]] + s[1..] == s;
      }
    }
  }
}
