/**
 * The input normaliser `limpiar_input` of core.py: it rewrites the user's
 * shorthand for f(x) into the syntax the symbolic engine reads.
 *   1. strip surrounding whitespace;
 *   2. turn every `^` into `**`;
 *   3. delete every ASCII space;
 *   4. scan left to right and insert `*` into each gap between two characters
 *      that form an implicit product;
 *   5. run a chain of replacements that looks meant to repair a split `**`; step 4
 *      never splits one, and the chain is proved below to change nothing.
 */
module Normalizer {
  import opened Text

  /** `str.isdigit` on one character, restricted to the ASCII digits. */
  predicate IsDigit(c: char) {
    '0' <= c <= '9'
  }

  /** First insertion rule: a digit or `)` followed by the variable `x` or by `(`. */
  predicate ClosesFactor(a: char, b: char) {
    (IsDigit(a) || a == ')') && (b == 'x' || b == '(')
  }

  /** Second insertion rule: the variable `x` followed by a digit, by `x` or by `(`.
      Any identifier that ends in `x` triggers it too: `max(x)` becomes `max*(x)`. */
  predicate FollowsVariable(a: char, b: char) {
    a == 'x' && (IsDigit(b) || b == 'x' || b == '(')
  }

  /** The gap between adjacent characters `a` and `b` receives a `*`. */
  predicate NeedsStar(a: char, b: char) {
    ClosesFactor(a, b) || FollowsVariable(a, b)
  }

  /** No gap of `s` needs a `*`. */
  predicate Gapless(s: string) {
    forall k :: 0 <= k < |s| - 1 ==> !NeedsStar(s[k], s[k + 1])
  }

  /** The two rules never fire on the same gap, so a gap receives at most one `*`. */
  lemma RulesDisjoint(a: char, b: char)
    ensures !(ClosesFactor(a, b) && FollowsVariable(a, b))
  {
  }

  /** The insertion rule as a table of characters: a digit or `)` before `x` or `(`,
      or `x` before a digit, `x` or `(`. */
  lemma NeedsStarTable(a: char, b: char)
    ensures IsDigit(a) <==> a in "0123456789"
    ensures NeedsStar(a, b) <==> (a in "0123456789)" && b in "x(") || (a == 'x' && b in "0123456789x(")
  {
  }

  /** What step 4 inserts between `a` and `b`. */
  function Gap(a: char, b: char): string {
    if NeedsStar(a, b) then "*" else ""
  }

  /** Step 4 after its first `i` iterations: each of `s[0]`, ..., `s[i - 1]` copied,
      each followed by the `*` its right-hand gap needs. */
  ghost function Scan(s: string, i: nat): string
    requires i <= |s|
  {
    if i == 0 then ""
    else Scan(s, i - 1) + [s[i - 1]] + (if i < |s| then Gap(s[i - 1], s[i]) else "")
  }

  /** Specification of step 4: `s` with a `*` in every gap that needs one. */
  ghost function Explicit(s: string): string {
    Scan(s, |s|)
  }

  /** Number of gaps after `s[0]`, ..., `s[i - 1]` that need a `*`. */
  ghost function StarsBefore(s: string, i: nat): nat
    requires i <= |s|
  {
    if i == 0 then 0
    else StarsBefore(s, i - 1) + (if i < |s| && NeedsStar(s[i - 1], s[i]) then 1 else 0)
  }

  /** Number of gaps of `s` that need a `*`. */
  ghost function Stars(s: string): nat {
    StarsBefore(s, |s|)
  }

  /** Where the character `s[i]` lands after step 4. */
  ghost function Offset(s: string, i: nat): nat
    requires i < |s|
  {
    i + StarsBefore(s, i)
  }

  /** The first `i` iterations emit `i` characters and one `*` per gap they decide on. */
  lemma {:induction false} ScanLength(s: string, i: nat)
    requires i <= |s|
    ensures |Scan(s, i)| == i + StarsBefore(s, i)
  {
    if i > 0 {
      ScanLength(s, i - 1);
    }
  }

  /** Later iterations only append. */
  lemma {:induction false} ScanGrows(s: string, i: nat, j: nat)
    requires i <= j <= |s|
    ensures Scan(s, i) <= Scan(s, j)
    decreases j
  {
    if i < j {
      ScanGrows(s, i, j - 1);
    }
  }

  /** Step 4 adds no character other than `*`. */
  lemma {:induction false} ScanOmits(s: string, i: nat, d: char)
    requires i <= |s| && d != '*' && d !in s
    ensures d !in Scan(s, i)
  {
    if i > 0 {
      ScanOmits(s, i - 1, d);
    }
  }

  /** Step 4 adds one character per gap that needs a `*`. */
  lemma ExplicitLength(s: string)
    ensures |Explicit(s)| == |s| + Stars(s)
  {
    ScanLength(s, |s|);
  }

  /** After step 4, `s[i]` sits at `Offset(s, i)`. */
  lemma ExplicitAt(s: string, i: nat)
    requires i < |s|
    ensures Offset(s, i) < |Explicit(s)| && Explicit(s)[Offset(s, i)] == s[i]
  {
    ScanLength(s, i);
    ScanGrows(s, i + 1, |s|);
    assert Scan(s, i + 1)[Offset(s, i)] == s[i];
  }

  /** After step 4, a `*` directly follows `s[i]` when the gap after `s[i]` needs one. */
  lemma ExplicitStarAt(s: string, i: nat)
    requires i + 1 < |s| && NeedsStar(s[i], s[i + 1])
    ensures Offset(s, i) + 1 < |Explicit(s)| && Explicit(s)[Offset(s, i) + 1] == '*'
  {
    ScanLength(s, i);
    ScanGrows(s, i + 1, |s|);
    assert Scan(s, i + 1)[Offset(s, i) + 1] == '*';
  }

  /** Layout of step 4's output: it has one `*` more than `s` per gap that needs one;
      every character of `s` sits, in order, at its `Offset`; and directly after
      `s[i]` there is a `*` whenever the gap after `s[i]` needs one. Since offsets grow
      by one plus the star of the gap in between, this fixes every position: nothing
      but those stars is added, and nothing is lost or reordered. */
  lemma ExplicitLayout(s: string)
    ensures |Explicit(s)| == |s| + Stars(s)
    ensures forall i :: 0 <= i < |s| ==> Offset(s, i) < |Explicit(s)| && Explicit(s)[Offset(s, i)] == s[i]
    ensures forall i :: 0 <= i < |s| - 1 && NeedsStar(s[i], s[i + 1]) ==>
              Offset(s, i) + 1 < |Explicit(s)| && Explicit(s)[Offset(s, i) + 1] == '*'
  {
    ExplicitLength(s);
    forall i | 0 <= i < |s| ensures Offset(s, i) < |Explicit(s)| && Explicit(s)[Offset(s, i)] == s[i] {
      ExplicitAt(s, i);
    }
    forall i | 0 <= i < |s| - 1 && NeedsStar(s[i], s[i + 1])
      ensures Offset(s, i) + 1 < |Explicit(s)| && Explicit(s)[Offset(s, i) + 1] == '*'
    {
      ExplicitStarAt(s, i);
    }
  }

  /** Every position of the first `n` iterations' output is the offset of one of
      `s[0]`, ..., `s[n - 1]`, or the `*` right after one whose gap needs it. */
  lemma {:induction false} ScanCovers(s: string, n: nat, j: nat)
    requires n <= |s| && j < |Scan(s, n)|
    ensures exists i :: 0 <= i < n &&
              (j == Offset(s, i) || (j == Offset(s, i) + 1 && i + 1 < |s| && NeedsStar(s[i], s[i + 1])))
  {
    ScanLength(s, n - 1);
    if j < |Scan(s, n - 1)| {
      ScanCovers(s, n - 1, j);
    } else {
      assert j == Offset(s, n - 1) || (j == Offset(s, n - 1) + 1 && n < |s| && NeedsStar(s[n - 1], s[n]));
    }
  }

  /** Conversely to `ExplicitLayout`, step 4's output holds nothing but the characters
      of `s` at their offsets and the `*`s of the gaps that need one. */
  lemma ExplicitCovers(s: string, j: nat)
    requires j < |Explicit(s)|
    ensures exists i :: 0 <= i < |s| &&
              (j == Offset(s, i) || (j == Offset(s, i) + 1 && i + 1 < |s| && NeedsStar(s[i], s[i + 1])))
  {
    ScanCovers(s, |s|, j);
  }

  /** After `i > 0` iterations, the output ends either with a `*` or with `s[i - 1]`
      followed by a gap that needs none, and none of its own gaps needs a `*`. */
  lemma {:induction false} ScanLeavesNoGap(s: string, i: nat)
    requires i <= |s|
    ensures Gapless(Scan(s, i))
    ensures 0 < i ==>
              var out := Scan(s, i);
              |out| > 0 && (out[|out| - 1] == '*' ||
                (out[|out| - 1] == s[i - 1] && (i < |s| ==> !NeedsStar(s[i - 1], s[i]))))
  {
    if i > 0 {
      ScanLeavesNoGap(s, i - 1);
      var prev, out := Scan(s, i - 1), Scan(s, i);
      assert out == prev + [s[i - 1]] + (if i < |s| then Gap(s[i - 1], s[i]) else "");
      forall k | 0 <= k < |out| - 1 ensures !NeedsStar(out[k], out[k + 1]) {
        if k < |prev| - 1 {
          assert out[k] == prev[k] && out[k + 1] == prev[k + 1];
        }
      }
    }
  }

  /** No gap of step 4's output needs a `*`. */
  lemma ExplicitLeavesNoGap(s: string)
    ensures Gapless(Explicit(s))
  {
    ScanLeavesNoGap(s, |s|);
  }

  /** A string in which no gap needs a `*` is left unchanged by step 4. */
  lemma {:induction false} ScanFixesGapless(s: string, i: nat)
    requires i <= |s| && Gapless(s)
    ensures Scan(s, i) == s[..i]
  {
    if i > 0 {
      ScanFixesGapless(s, i - 1);
      assert s[..i - 1] + [s[i - 1]] == s[..i];
    }
  }

  /** Step 2 on a stripped string: no `^` is left, both ends stay free of
      whitespace, and only the empty string becomes empty. */
  lemma CaretsExpanded(t: string)
    requires Trimmed(t)
    ensures var u := Replace(t, "^", "**"); '^' !in u && Trimmed(u) && (u == [] <==> t == [])
  {
    var u := Replace(t, "^", "**");
    ReplaceOneChar(t, '^', "**");
    SubstOmits(t, '^', "**", '^');
    if t != [] {
      SubstEnds(t, '^', "**");
      SubstOne(t[0], '^', "**");
      SubstOne(t[|t| - 1], '^', "**");
    }
  }

  /** Step 3 on a string with no whitespace at either end: no space is left, the
      ends are unchanged, and only the empty string becomes empty. */
  lemma SpacesDeleted(u: string)
    requires Trimmed(u)
    ensures var v := Replace(u, " ", ""); ' ' !in v && Trimmed(v) && (v == [] <==> u == [])
  {
    ReplaceOneChar(u, ' ', "");
    SubstOmits(u, ' ', "", ' ');
    if u != [] {
      SubstEnds(u, ' ', "");
      SubstOne(u[0], ' ', "");
      SubstOne(u[|u| - 1], ' ', "");
    }
  }

  /** Steps 1-3 (core.py lines 15-17): strip, `^` to `**`, delete spaces. */
  function Prepare(raw: string): string {
    Replace(Replace(Strip(raw), "^", "**"), " ", "")
  }

  /** After steps 1-3 no `^` and no space is left, neither end is whitespace, and
      the result is empty exactly when the input is blank. */
  lemma PreparedShape(raw: string)
    ensures var s := Prepare(raw);
      '^' !in s && ' ' !in s && Trimmed(s) && (s == [] <==> Blank(raw))
  {
    var t := Strip(raw);
    var u := Replace(t, "^", "**");
    CaretsExpanded(t);
    SpacesDeleted(u);
    ReplaceKeepsAbsent(u, " ", "", '^');
  }

  /** Step 5 (core.py line 27): a chain that looks meant to repair a split `**`.
      Step 4 only appends `*` after a digit, `)` or `x`, so it never splits one. */
  function Repair(t: string): string {
    Replace(Replace(Replace(t, "**", "^TEMP^"), "* *", "*"), "^TEMP^", "**")
  }

  /** Step 5 changes nothing once steps 1-4 have run: `* *` needs a space, and
      `**` to `^TEMP^` and back is the identity when no `^` is present. */
  lemma RepairIsIdentity(t: string)
    requires '^' !in t && ' ' !in t
    ensures Repair(t) == t
  {
    var marked := Replace(t, "**", "^TEMP^");
    ReplaceKeepsAbsent(t, "**", "^TEMP^", ' ');
    ReplaceWithoutMatch(marked, "* *", "*", ' ');
    ReplaceRoundTrip(t, "**", "^TEMP^");
  }

  /** The whole normaliser as a function of the raw input. */
  ghost function Normalized(raw: string): string {
    Explicit(Prepare(raw))
  }

  /** The normaliser's output holds no `^` and no space, has no whitespace at
      either end, and no gap of it needs a `*`. */
  lemma NormalizedShape(raw: string)
    ensures var n := Normalized(raw);
      '^' !in n && ' ' !in n && Trimmed(n) && Gapless(n)
  {
    var s := Prepare(raw);
    PreparedShape(raw);
    ExplicitLength(s);
    if s != [] {
      ExplicitAt(s, 0);
      ExplicitAt(s, |s| - 1);
    }
    ExplicitLeavesNoGap(s);
    ScanOmits(s, |s|, '^');
    ScanOmits(s, |s|, ' ');
  }

  /** Step 4 (core.py lines 18-26): copy `s` character by character, appending a
      `*` after each character whose right-hand gap needs one. */
  method InsertStars(s: string) returns (out: string)
    ensures out == Explicit(s)
  {
    out := "";
    var i := 0;
    while i < |s|
      invariant 0 <= i <= |s|
      invariant out == Scan(s, i)
    {
      var ch := s[i];
      out := out + [ch];
      if i + 1 < |s| {
        var a, b := ch, s[i + 1];
        RulesDisjoint(a, b);
        if ClosesFactor(a, b) {
          out := out + "*";
        }
        if FollowsVariable(a, b) {
          out := out + "*";
        }
      }
      i := i + 1;
    }
  }

  /** `limpiar_input` (core.py lines 10-28). */
  method Normalize(raw: string) returns (out: string)
    ensures out == Normalized(raw)
    ensures '^' !in out && ' ' !in out
    ensures Trimmed(out) && Gapless(out)
  {
    var s := Prepare(raw);
    out := InsertStars(s);
    NormalizedShape(raw);
    RepairIsIdentity(out);
    out := Repair(out);
  }

  /** A string the normaliser could have produced is its own normal form. */
  lemma NormalFormFixed(n: string)
    requires '^' !in n && ' ' !in n && Trimmed(n) && Gapless(n)
    ensures Normalized(n) == n
  {
    ReplaceWithoutMatch(n, "^", "**", '^');
    ReplaceWithoutMatch(n, " ", "", ' ');
    assert Prepare(n) == n;
    ScanFixesGapless(n, |n|);
  }

  /** Normalising a normalised string returns it unchanged: it is already stripped,
      holds no `^` and no space, and no gap of it needs a `*`. */
  lemma NormalizeIdempotent(raw: string)
    ensures Normalized(Normalized(raw)) == Normalized(raw)
  {
    NormalizedShape(raw);
    NormalFormFixed(Normalized(raw));
  }

  /** The normaliser returns the empty string exactly for blank input. */
  lemma NormalizedEmptyIffBlank(raw: string)
    ensures Normalized(raw) == [] <==> Blank(raw)
  {
    PreparedShape(raw);
    ExplicitLength(Prepare(raw));
  }
}
