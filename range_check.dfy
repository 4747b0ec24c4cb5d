/** is_in_range and validate_expression (utils.py:104-134), and the check
    the settings page makes with them (hammock_settings.py:118).  Python's
    parser and `re.compile` are parameters: `parse` gives the syntax tree of
    a text, or `None` for a `SyntaxError`; `compiles` says whether a text is
    a valid regular expression. */
module RangeCheck {
  import opened Chars
  import opened Skeleton
  import opened Results
  import opened PyEval
  import opened CleanExpression
  import opened CleanBlanks
  import opened CleanTheorems

  /** The environment of utils.py:111: `x` as the only local, and globals
      holding nothing but an empty `__builtins__`. */
  function RangeEnv(x: real): (env: Env)
    ensures forall n :: Bound(n, env) <==> n == "x" || n == "__builtins__"
    ensures Lookup("x", env) == Ok(Num(x)) && Lookup("__builtins__", env) == Ok(EmptyDict)
    ensures env.builtins == map[]
  {
    Env(map["x" := Num(x)], map["__builtins__" := EmptyDict], map[])
  }

  /** `eval(text, globals, locals)`. */
  function EvalText(text: string, env: Env, parse: string -> Option<Expr>): Result<Value, PyError> {
    match parse(text)
    case None => Err(SyntaxError)
    case Some(a) => Eval(a, env)
  }

  const InvalidPrefix: string := "Invalid expression: '"

  /** The message of the `ValueError` of utils.py:113. */
  function InvalidMessage(cleaned: string): (m: string)
    ensures |m| == |InvalidPrefix| + |cleaned| + 1
    ensures m[..|InvalidPrefix|] == InvalidPrefix && m[|m| - 1] == '\''
    ensures m[|InvalidPrefix|..|m| - 1] == cleaned
  {
    InvalidPrefix + cleaned + "'"
  }

  /** is_in_range(x, expr): evaluates the cleaned text, never `expr` itself,
      and turns every failure into a `ValueError` naming the cleaned text. */
  function IsInRange(x: real, expr: string, parse: string -> Option<Expr>): (r: Result<Value, Exception>)
    ensures r.Ok? <==> EvalText(Clean(expr), RangeEnv(x), parse).Ok?
    ensures r.Ok? ==> r.value == EvalText(Clean(expr), RangeEnv(x), parse).value
    ensures r.Err? ==> r.error == ValueError(InvalidMessage(Clean(expr)))
  {
    var cleaned := Clean(expr);
    match EvalText(cleaned, RangeEnv(x), parse)
    case Ok(v) => Ok(v)
    case Err(_) => Err(ValueError(InvalidMessage(cleaned)))
  }

  /** The message of a failure quotes a text with the non-blank characters
      of `expr`, in order, canonically spaced. */
  lemma IsInRangeMessage(x: real, expr: string, parse: string -> Option<Expr>)
    requires IsInRange(x, expr, parse).Err?
    ensures IsInRange(x, expr, parse).error.ValueError?
    ensures var m := IsInRange(x, expr, parse).error.message;
      |m| > |InvalidPrefix| && m[..|InvalidPrefix|] == InvalidPrefix && m[|m| - 1] == '\'' &&
      NonBlank(m[|InvalidPrefix|..|m| - 1]) == NonBlank(expr) &&
      Canonical(m[|InvalidPrefix|..|m| - 1])
  {
    CleanKeepsNonBlank(expr);
    CleanCanonical(expr);
  }

  /** A range expression that parses (after cleaning) to a tree with no call
      and no `{}`, and mentions no name but `x`, is accepted, and its value
      is a number or a boolean. */
  lemma IsInRangeAccepts(x: real, expr: string, parse: string -> Option<Expr>, a: Expr)
    requires parse(Clean(expr)) == Some(a) && Plain(a) && Names(a) <= {"x"}
    ensures IsInRange(x, expr, parse).Ok? && !IsInRange(x, expr, parse).value.EmptyDict?
  {
    EvalPlain(a, RangeEnv(x));
  }

  /** A name lookup fails exactly for the names other than `x` and
      `__builtins__`; when evaluation fails that way, `is_in_range` raises. */
  lemma IsInRangeNameError(x: real, expr: string, parse: string -> Option<Expr>, a: Expr, n: string)
    requires parse(Clean(expr)) == Some(a) && Eval(a, RangeEnv(x)) == Err(NameError(n))
    ensures n in Names(a) && n != "x" && n != "__builtins__"
    ensures IsInRange(x, expr, parse) == Err(ValueError(InvalidMessage(Clean(expr))))
  {
    EvalNameError(a, RangeEnv(x), n);
  }

  /** validate_expression(expr): true when `is_in_range(0, expr)` raises
      nothing, otherwise whether `expr` (uncleaned) compiles as a regular
      expression. */
  function ValidateExpression(expr: string, parse: string -> Option<Expr>, compiles: string -> bool): (r: bool)
    ensures IsInRange(0.0, expr, parse).Ok? ==> r
    ensures IsInRange(0.0, expr, parse).Err? ==> (r <==> compiles(expr))
  {
    match IsInRange(0.0, expr, parse)
    case Ok(_) => true
    case Err(_) => compiles(expr)
  }

  /** hammock_settings.py:118: the error shown under the expression box. */
  function ShowsExpressionError(hiValue: string, parse: string -> Option<Expr>, compiles: string -> bool): (r: bool)
    ensures r ==> hiValue != ""
    ensures r ==> !compiles(hiValue)
  {
    hiValue != "" && !ValidateExpression(hiValue, parse, compiles)
  }

  /** The empty pattern compiles, so the empty text always validates and the
      `hi_value != ""` test only spares a call. */
  lemma EmptyValidates(parse: string -> Option<Expr>, compiles: string -> bool)
    requires compiles("")
    ensures ValidateExpression("", parse, compiles)
    ensures forall h :: ShowsExpressionError(h, parse, compiles) <==> !ValidateExpression(h, parse, compiles)
  {
  }
}
