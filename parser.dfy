/**
 * `parsear_funcion`: the guard that refuses an empty or whitespace-only entry
 * before anything else happens, then the normaliser, then the computer-algebra
 * parser. The parser (SymPy's `sympify` followed by `simplify`) is not modelled;
 * it is a parameter `engine` that either yields an expression or fails with a
 * description of what it could not read.
 */
module Parser {
  import opened Text
  import opened Normalizer

  datatype Result<T, E> = Success(value: T) | Failure(error: E)

  /** The two ways `parsear_funcion` raises `ValueError`. */
  datatype ParseError =
    | NoFunction              // nothing but whitespace was entered
    | Unparsable(detail: string)  // the engine rejected the normalised text

  /** The text of the `ValueError` raised for `e`: the two cases are told apart by
      their first character, and the engine's description is kept whole at the end. */
  function Message(e: ParseError): (m: string)
    ensures m != [] && (m[0] == 'N' <==> e.NoFunction?)
    ensures e.Unparsable? ==> |e.detail| < |m| && m[|m| - |e.detail|..] == e.detail
  {
    match e
    case NoFunction => "No ingresaste ninguna función."
    case Unparsable(detail) => "Sympy no pudo interpretar la función: " + detail
  }

  /** The guard: the entry is empty, or stripping it leaves nothing. */
  function IsBlank(text: string): (b: bool)
    ensures b <==> Blank(text)
  {
    text == [] || Strip(text) == []
  }

  /** What `parsear_funcion` returns or raises for `text`. */
  ghost function Parsed<E>(text: string, engine: string -> Result<E, string>): Result<E, ParseError> {
    if Blank(text) then Failure(NoFunction)
    else
      match engine(Normalized(text))
      case Success(expr) => Success(expr)
      case Failure(detail) => Failure(Unparsable(detail))
  }

  method ParseFunction<E>(text: string, engine: string -> Result<E, string>) returns (r: Result<E, ParseError>)
    ensures r == Parsed(text, engine)
    ensures r == Failure(NoFunction) <==> Blank(text)
    ensures Blank(text) ==> r.Failure? && Message(r.error) == "No ingresaste ninguna función."
    ensures !Blank(text) && engine(Normalized(text)).Failure? ==>
              r.Failure? && Message(r.error) == "Sympy no pudo interpretar la función: " + engine(Normalized(text)).error
  {
    if IsBlank(text) {
      return Failure(NoFunction);
    }
    var s := Normalize(text);
    match engine(s)
    case Success(expr) => r := Success(expr);
    case Failure(detail) => r := Failure(Unparsable(detail));
  }

  /** Past the guard, the engine is always handed a non-empty string with no `^`,
      no space, no surrounding whitespace and no implicit product left. */
  lemma EngineInput(text: string)
    requires !Blank(text)
    ensures var s := Normalized(text);
      s != [] && '^' !in s && ' ' !in s && Trimmed(s) && Gapless(s)
  {
    NormalizedEmptyIffBlank(text);
    NormalizedShape(text);
  }
}
