/**
 * Worked examples of the normaliser on inputs from the application's input
 * placeholder and help text. For each input, one lemma evaluates each
 * `str.replace` pass, one evaluates the star scan position by position, and the
 * last two chain them (the inputs carry no surrounding whitespace, so the strip
 * leaves them as they are). Splitting the evaluation this way keeps each proof small.
 */
module NormalizerExamples {
  import opened Text
  import opened Normalizer

  // The input field's placeholder, " Ejemplo: 2x^2 + 4".

  lemma PlaceholderCarets()
    ensures Replace("2x^2 + 4", "^", "**") == "2x**2 + 4"
  {
    assert "2x^2 + 4" == "2x" + "^" + "2 + 4";
    assert "2x" + "**" + "2 + 4" == "2x**2 + 4";
    ReplaceFirst("2x", '^', "2 + 4", "**");
    ReplaceWithoutMatch("2 + 4", "^", "**", '^');
  }

  lemma PlaceholderSpaces()
    ensures Replace("2x**2 + 4", " ", "") == "2x**2+4"
  {
    assert "2x**2 + 4" == "2x**2" + " " + ("+" + " " + "4");
    assert "2x**2" + "" + ("+" + "" + "4") == "2x**2+4";
    ReplaceFirst("2x**2", ' ', "+" + " " + "4", "");
    ReplaceFirst("+", ' ', "4", "");
    ReplaceWithoutMatch("4", " ", "", ' ');
  }

  lemma PlaceholderStars()
    ensures Explicit("2x**2+4") == "2*x**2+4"
  {
    var s := "2x**2+4";
    assert Scan(s, 1) == "2*";
    assert Scan(s, 2) == "2*x";
    assert Scan(s, 3) == "2*x*";
    assert Scan(s, 4) == "2*x**";
    assert Scan(s, 5) == "2*x**2";
    assert Scan(s, 6) == "2*x**2+";
  }

  lemma PlaceholderPrepared()
    ensures Prepare("2x^2 + 4") == "2x**2+4"
  {
    assert Trimmed("2x^2 + 4");
    PlaceholderCarets();
    PlaceholderSpaces();
  }

  lemma PlaceholderExample()
    ensures Normalized("2x^2 + 4") == "2*x**2+4"
  {
    PlaceholderPrepared();
    PlaceholderStars();
  }

  // The help text's examples: "x^2 - 4", "2x^2+3x-1", "1/(x-2)", "(x+1)/(x-1)",
  // "2x^3 - x" and "sin(x)".

  lemma SquareCarets()
    ensures Replace("x^2 - 4", "^", "**") == "x**2 - 4"
  {
    assert "x^2 - 4" == "x" + "^" + "2 - 4";
    assert "x" + "**" + "2 - 4" == "x**2 - 4";
    ReplaceFirst("x", '^', "2 - 4", "**");
    ReplaceWithoutMatch("2 - 4", "^", "**", '^');
  }

  lemma SquareSpaces()
    ensures Replace("x**2 - 4", " ", "") == "x**2-4"
  {
    assert "x**2 - 4" == "x**2" + " " + ("-" + " " + "4");
    assert "x**2" + "" + ("-" + "" + "4") == "x**2-4";
    ReplaceFirst("x**2", ' ', "-" + " " + "4", "");
    ReplaceFirst("-", ' ', "4", "");
    ReplaceWithoutMatch("4", " ", "", ' ');
  }

  lemma SquareStars()
    ensures Explicit("x**2-4") == "x**2-4"
  {
    var s := "x**2-4";
    assert Scan(s, 1) == "x";
    assert Scan(s, 2) == "x*";
    assert Scan(s, 3) == "x**";
    assert Scan(s, 4) == "x**2";
    assert Scan(s, 5) == "x**2-";
  }

  lemma SquarePrepared()
    ensures Prepare("x^2 - 4") == "x**2-4"
  {
    assert Trimmed("x^2 - 4");
    SquareCarets();
    SquareSpaces();
  }

  lemma SquareExample()
    ensures Normalized("x^2 - 4") == "x**2-4"
  {
    SquarePrepared();
    SquareStars();
  }

  lemma QuadraticCarets()
    ensures Replace("2x^2+3x-1", "^", "**") == "2x**2+3x-1"
  {
    assert "2x^2+3x-1" == "2x" + "^" + "2+3x-1";
    assert "2x" + "**" + "2+3x-1" == "2x**2+3x-1";
    ReplaceFirst("2x", '^', "2+3x-1", "**");
    ReplaceWithoutMatch("2+3x-1", "^", "**", '^');
  }

  lemma QuadraticSpaces()
    ensures Replace("2x**2+3x-1", " ", "") == "2x**2+3x-1"
  {
    ReplaceWithoutMatch("2x**2+3x-1", " ", "", ' ');
  }

  lemma QuadraticStars()
    ensures Explicit("2x**2+3x-1") == "2*x**2+3*x-1"
  {
    var s := "2x**2+3x-1";
    assert Scan(s, 1) == "2*";
    assert Scan(s, 2) == "2*x";
    assert Scan(s, 3) == "2*x*";
    assert Scan(s, 4) == "2*x**";
    assert Scan(s, 5) == "2*x**2";
    assert Scan(s, 6) == "2*x**2+";
    assert Scan(s, 7) == "2*x**2+3*";
    assert Scan(s, 8) == "2*x**2+3*x";
    assert Scan(s, 9) == "2*x**2+3*x-";
  }

  lemma QuadraticPrepared()
    ensures Prepare("2x^2+3x-1") == "2x**2+3x-1"
  {
    assert Trimmed("2x^2+3x-1");
    QuadraticCarets();
    QuadraticSpaces();
  }

  lemma QuadraticExample()
    ensures Normalized("2x^2+3x-1") == "2*x**2+3*x-1"
  {
    QuadraticPrepared();
    QuadraticStars();
  }

  lemma ReciprocalCarets()
    ensures Replace("1/(x-2)", "^", "**") == "1/(x-2)"
  {
    ReplaceWithoutMatch("1/(x-2)", "^", "**", '^');
  }

  lemma ReciprocalSpaces()
    ensures Replace("1/(x-2)", " ", "") == "1/(x-2)"
  {
    ReplaceWithoutMatch("1/(x-2)", " ", "", ' ');
  }

  lemma ReciprocalStars()
    ensures Explicit("1/(x-2)") == "1/(x-2)"
  {
    var s := "1/(x-2)";
    assert Scan(s, 1) == "1";
    assert Scan(s, 2) == "1/";
    assert Scan(s, 3) == "1/(";
    assert Scan(s, 4) == "1/(x";
    assert Scan(s, 5) == "1/(x-";
    assert Scan(s, 6) == "1/(x-2";
  }

  lemma ReciprocalPrepared()
    ensures Prepare("1/(x-2)") == "1/(x-2)"
  {
    assert Trimmed("1/(x-2)");
    ReciprocalCarets();
    ReciprocalSpaces();
  }

  lemma ReciprocalExample()
    ensures Normalized("1/(x-2)") == "1/(x-2)"
  {
    ReciprocalPrepared();
    ReciprocalStars();
  }

  lemma QuotientCarets()
    ensures Replace("(x+1)/(x-1)", "^", "**") == "(x+1)/(x-1)"
  {
    ReplaceWithoutMatch("(x+1)/(x-1)", "^", "**", '^');
  }

  lemma QuotientSpaces()
    ensures Replace("(x+1)/(x-1)", " ", "") == "(x+1)/(x-1)"
  {
    ReplaceWithoutMatch("(x+1)/(x-1)", " ", "", ' ');
  }

  lemma QuotientStars()
    ensures Explicit("(x+1)/(x-1)") == "(x+1)/(x-1)"
  {
    var s := "(x+1)/(x-1)";
    assert Scan(s, 1) == "(";
    assert Scan(s, 2) == "(x";
    assert Scan(s, 3) == "(x+";
    assert Scan(s, 4) == "(x+1";
    assert Scan(s, 5) == "(x+1)";
    assert Scan(s, 6) == "(x+1)/";
    assert Scan(s, 7) == "(x+1)/(";
    assert Scan(s, 8) == "(x+1)/(x";
    assert Scan(s, 9) == "(x+1)/(x-";
    assert Scan(s, 10) == "(x+1)/(x-1";
  }

  lemma QuotientPrepared()
    ensures Prepare("(x+1)/(x-1)") == "(x+1)/(x-1)"
  {
    assert Trimmed("(x+1)/(x-1)");
    QuotientCarets();
    QuotientSpaces();
  }

  lemma QuotientExample()
    ensures Normalized("(x+1)/(x-1)") == "(x+1)/(x-1)"
  {
    QuotientPrepared();
    QuotientStars();
  }

  lemma CubicCarets()
    ensures Replace("2x^3 - x", "^", "**") == "2x**3 - x"
  {
    assert "2x^3 - x" == "2x" + "^" + "3 - x";
    assert "2x" + "**" + "3 - x" == "2x**3 - x";
    ReplaceFirst("2x", '^', "3 - x", "**");
    ReplaceWithoutMatch("3 - x", "^", "**", '^');
  }

  lemma CubicSpaces()
    ensures Replace("2x**3 - x", " ", "") == "2x**3-x"
  {
    assert "2x**3 - x" == "2x**3" + " " + ("-" + " " + "x");
    assert "2x**3" + "" + ("-" + "" + "x") == "2x**3-x";
    ReplaceFirst("2x**3", ' ', "-" + " " + "x", "");
    ReplaceFirst("-", ' ', "x", "");
    ReplaceWithoutMatch("x", " ", "", ' ');
  }

  lemma CubicStars()
    ensures Explicit("2x**3-x") == "2*x**3-x"
  {
    var s := "2x**3-x";
    assert Scan(s, 1) == "2*";
    assert Scan(s, 2) == "2*x";
    assert Scan(s, 3) == "2*x*";
    assert Scan(s, 4) == "2*x**";
    assert Scan(s, 5) == "2*x**3";
    assert Scan(s, 6) == "2*x**3-";
  }

  lemma CubicPrepared()
    ensures Prepare("2x^3 - x") == "2x**3-x"
  {
    assert Trimmed("2x^3 - x");
    CubicCarets();
    CubicSpaces();
  }

  lemma CubicExample()
    ensures Normalized("2x^3 - x") == "2*x**3-x"
  {
    CubicPrepared();
    CubicStars();
  }

  lemma SineCarets()
    ensures Replace("sin(x)", "^", "**") == "sin(x)"
  {
    ReplaceWithoutMatch("sin(x)", "^", "**", '^');
  }

  lemma SineSpaces()
    ensures Replace("sin(x)", " ", "") == "sin(x)"
  {
    ReplaceWithoutMatch("sin(x)", " ", "", ' ');
  }

  lemma SineStars()
    ensures Explicit("sin(x)") == "sin(x)"
  {
    var s := "sin(x)";
    assert Scan(s, 1) == "s";
    assert Scan(s, 2) == "si";
    assert Scan(s, 3) == "sin";
    assert Scan(s, 4) == "sin(";
    assert Scan(s, 5) == "sin(x";
  }

  lemma SinePrepared()
    ensures Prepare("sin(x)") == "sin(x)"
  {
    assert Trimmed("sin(x)");
    SineCarets();
    SineSpaces();
  }

  lemma SineExample()
    ensures Normalized("sin(x)") == "sin(x)"
  {
    SinePrepared();
    SineStars();
  }

  // A power written with `^` keeps its `**` through the repair chain.

  lemma PowerCarets()
    ensures Replace("2^x", "^", "**") == "2**x"
  {
    assert "2^x" == "2" + "^" + "x";
    assert "2" + "**" + "x" == "2**x";
    ReplaceFirst("2", '^', "x", "**");
    ReplaceWithoutMatch("x", "^", "**", '^');
  }

  lemma PowerSpaces()
    ensures Replace("2**x", " ", "") == "2**x"
  {
    ReplaceWithoutMatch("2**x", " ", "", ' ');
  }

  lemma PowerStars()
    ensures Explicit("2**x") == "2**x"
  {
    var s := "2**x";
    assert Scan(s, 1) == "2";
    assert Scan(s, 2) == "2*";
    assert Scan(s, 3) == "2**";
  }

  lemma PowerPrepared()
    ensures Prepare("2^x") == "2**x"
  {
    assert Trimmed("2^x");
    PowerCarets();
    PowerSpaces();
  }

  lemma PowerExample()
    ensures Normalized("2^x") == "2**x"
  {
    PowerPrepared();
    PowerStars();
  }

  // The variable rule looks only at the character `x`, so a function name ending
  // in `x` is read as a product with its parenthesised argument.

  lemma NameEndingInXCarets()
    ensures Replace("max(x)", "^", "**") == "max(x)"
  {
    ReplaceWithoutMatch("max(x)", "^", "**", '^');
  }

  lemma NameEndingInXSpaces()
    ensures Replace("max(x)", " ", "") == "max(x)"
  {
    ReplaceWithoutMatch("max(x)", " ", "", ' ');
  }

  lemma NameEndingInXStars()
    ensures Explicit("max(x)") == "max*(x)"
  {
    var s := "max(x)";
    assert Scan(s, 1) == "m";
    assert Scan(s, 2) == "ma";
    assert Scan(s, 3) == "max*";
    assert Scan(s, 4) == "max*(";
    assert Scan(s, 5) == "max*(x";
  }

  lemma NameEndingInXPrepared()
    ensures Prepare("max(x)") == "max(x)"
  {
    assert Trimmed("max(x)");
    NameEndingInXCarets();
    NameEndingInXSpaces();
  }

  lemma NameEndingInXExample()
    ensures Normalized("max(x)") == "max*(x)"
  {
    NameEndingInXPrepared();
    NameEndingInXStars();
  }
}
