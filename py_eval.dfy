/** A subset of Python's `eval`, enough for the range expressions that
    utils.py:104-113 evaluates: numeric and boolean constants, names,
    unary minus, `not`, `and`, `or`, chained comparisons and calls.  The
    expression is given as a syntax tree: turning the text into the tree
    (Python's parser) is a parameter of the model, not part of it. */
module PyEval {
  import opened Results

  /** The values an expression of the subset can produce.  `EmptyDict` is
      the `{}` that utils.py:111 passes as `__builtins__`. */
  datatype Value = Num(n: real) | Bool(b: bool) | EmptyDict

  datatype CmpOp = Lt | Gt | Le | Ge | Eq | NotEq

  datatype Expr =
    | Const(v: Value)
    | Name(id: string)
    | Neg(operand: Expr)
    | Not(operand: Expr)
    | And(left: Expr, right: Expr)
    | Or(left: Expr, right: Expr)
      /** `left op1 e1 op2 e2 ...`, a non-empty chain of comparisons. */
    | Compare(left: Expr, chain: Chain)
    | Call(func: string, args: seq<Expr>)

  datatype Chain =
    | Last(op: CmpOp, right: Expr)
    | Link(op: CmpOp, right: Expr, next: Chain)

  datatype PyError = SyntaxError | NameError(name: string) | TypeError

  /** The name spaces `eval(expr, globals, locals)` looks a name up in, in
      this order; `builtins` is the `__builtins__` entry of `globals`. */
  datatype Env = Env(locals: map<string, Value>, globals: map<string, Value>, builtins: map<string, Value>)

  predicate Bound(n: string, env: Env) {
    n in env.locals || n in env.globals || n in env.builtins
  }

  function Lookup(n: string, env: Env): (r: Result<Value, PyError>)
    ensures r.Ok? <==> Bound(n, env)
    ensures r.Err? ==> r.error == NameError(n)
    ensures n in env.locals ==> r == Ok(env.locals[n])
    ensures n !in env.locals && n in env.globals ==> r == Ok(env.globals[n])
    ensures n !in env.locals && n !in env.globals && n in env.builtins ==> r == Ok(env.builtins[n])
  {
    if n in env.locals then Ok(env.locals[n])
    else if n in env.globals then Ok(env.globals[n])
    else if n in env.builtins then Ok(env.builtins[n])
    else Err(NameError(n))
  }

  /** Python truthiness: zero, `False` and `{}` are false. */
  predicate Truthy(v: Value) {
    match v
    case Num(n) => n != 0.0
    case Bool(b) => b
    case EmptyDict => false
  }

  /** `bool` is a subclass of `int`: `True` compares as 1, `False` as 0. */
  function AsNum(v: Value): real
    requires !v.EmptyDict?
  {
    if v.Num? then v.n else if v.b then 1.0 else 0.0
  }

  predicate Equal(a: Value, b: Value) {
    if a.EmptyDict? || b.EmptyDict? then a == b else AsNum(a) == AsNum(b)
  }

  /** One comparison; ordering a dict against anything raises `TypeError`. */
  function CompareValues(op: CmpOp, a: Value, b: Value): (r: Result<bool, PyError>)
    ensures r.Err? <==> !(op.Eq? || op.NotEq?) && (a.EmptyDict? || b.EmptyDict?)
    ensures r.Err? ==> r.error == TypeError
  {
    match op
    case Eq => Ok(Equal(a, b))
    case NotEq => Ok(!Equal(a, b))
    case _ =>
      if a.EmptyDict? || b.EmptyDict? then Err(TypeError)
      else
        var x, y := AsNum(a), AsNum(b);
        Ok(match op case Lt => x < y case Gt => x > y case Le => x <= y case _ => x >= y)
  }

  /** Evaluation; `and` and `or` return one of their operands and do not
      evaluate the right one when the left decides; calls evaluate the
      callee, then the arguments, then fail, since no value here is
      callable. */
  function Eval(e: Expr, env: Env): Result<Value, PyError>
    decreases e
  {
    match e
    case Const(v) => Ok(v)
    case Name(n) => Lookup(n, env)
    case Neg(a) =>
      (match Eval(a, env)
       case Err(x) => Err(x)
       case Ok(v) => if v.EmptyDict? then Err(TypeError) else Ok(Num(-AsNum(v))))
    case Not(a) =>
      (match Eval(a, env)
       case Err(x) => Err(x)
       case Ok(v) => Ok(Bool(!Truthy(v))))
    case And(l, r) =>
      (match Eval(l, env)
       case Err(x) => Err(x)
       case Ok(v) => if !Truthy(v) then Ok(v) else Eval(r, env))
    case Or(l, r) =>
      (match Eval(l, env)
       case Err(x) => Err(x)
       case Ok(v) => if Truthy(v) then Ok(v) else Eval(r, env))
    case Compare(l, c) =>
      (match Eval(l, env)
       case Err(x) => Err(x)
       case Ok(v) => EvalChain(v, c, env))
    case Call(f, args) =>
      (match Lookup(f, env)
       case Err(x) => Err(x)
       case Ok(_) =>
         (match EvalArgs(args, env)
          case Err(x) => Err(x)
          case Ok(_) => Err(TypeError)))
  }

  /** A chain `lv op1 e1 op2 e2 ...`: stops at the first comparison that
      fails, without evaluating the rest. */
  function EvalChain(lv: Value, c: Chain, env: Env): (r: Result<Value, PyError>)
    ensures r.Ok? ==> r.value.Bool?
    decreases c
  {
    match Eval(c.right, env)
    case Err(x) => Err(x)
    case Ok(rv) =>
      (match CompareValues(c.op, lv, rv)
       case Err(x) => Err(x)
       case Ok(b) =>
         if !b || c.Last? then Ok(Bool(b)) else EvalChain(rv, c.next, env))
  }

  /** Call arguments, left to right; the first failure wins. */
  function EvalArgs(args: seq<Expr>, env: Env): Result<seq<Value>, PyError>
    decreases args
  {
    if args == [] then Ok([])
    else
      match Eval(args[0], env)
      case Err(x) => Err(x)
      case Ok(v) =>
        (match EvalArgs(args[1..], env)
         case Err(x) => Err(x)
         case Ok(vs) => Ok([v] + vs))
  }

  /** The names an expression mentions, callees included. */
  function Names(e: Expr): set<string>
    decreases e
  {
    match e
    case Const(_) => {}
    case Name(n) => {n}
    case Neg(a) => Names(a)
    case Not(a) => Names(a)
    case And(l, r) => Names(l) + Names(r)
    case Or(l, r) => Names(l) + Names(r)
    case Compare(l, c) => Names(l) + ChainNames(c)
    case Call(f, args) => {f} + ArgsNames(args)
  }

  function ChainNames(c: Chain): set<string>
    decreases c
  {
    if c.Last? then Names(c.right) else Names(c.right) + ChainNames(c.next)
  }

  function ArgsNames(args: seq<Expr>): set<string>
    decreases args
  {
    if args == [] then {} else Names(args[0]) + ArgsNames(args[1..])
  }

  /** No call and no `{}` constant. */
  predicate Plain(e: Expr)
    decreases e
  {
    match e
    case Const(v) => !v.EmptyDict?
    case Name(_) => true
    case Neg(a) => Plain(a)
    case Not(a) => Plain(a)
    case And(l, r) => Plain(l) && Plain(r)
    case Or(l, r) => Plain(l) && Plain(r)
    case Compare(l, c) => Plain(l) && PlainChain(c)
    case Call(_, _) => false
  }

  predicate PlainChain(c: Chain)
    decreases c
  {
    Plain(c.right) && (c.Link? ==> PlainChain(c.next))
  }

  /** Every name in `names` is bound to a number or a boolean. */
  predicate NamesPlain(names: set<string>, env: Env) {
    forall n :: n in names ==> Lookup(n, env).Ok? && !Lookup(n, env).value.EmptyDict?
  }

  /** A `NameError` is only ever raised for a name the expression mentions
      and the environment does not bind. */
  lemma {:induction false} EvalNameError(e: Expr, env: Env, n: string)
    requires Eval(e, env) == Err(NameError(n))
    ensures n in Names(e) && !Bound(n, env)
    decreases e
  {
    match e
    case Const(_) =>
    case Name(_) =>
    case Neg(a) => EvalNameError(a, env, n);
    case Not(a) => EvalNameError(a, env, n);
    case And(l, r) =>
      if Eval(l, env).Err? { EvalNameError(l, env, n); } else { EvalNameError(r, env, n); }
    case Or(l, r) =>
      if Eval(l, env).Err? { EvalNameError(l, env, n); } else { EvalNameError(r, env, n); }
    case Compare(l, c) =>
      if Eval(l, env).Err? { EvalNameError(l, env, n); }
      else { ChainNameError(Eval(l, env).value, c, env, n); }
    case Call(f, args) =>
      if Lookup(f, env).Ok? { ArgsNameError(args, env, n); }
  }

  lemma {:induction false} ChainNameError(lv: Value, c: Chain, env: Env, n: string)
    requires EvalChain(lv, c, env) == Err(NameError(n))
    ensures n in ChainNames(c) && !Bound(n, env)
    decreases c
  {
    if Eval(c.right, env).Err? {
      EvalNameError(c.right, env, n);
    } else {
      ChainNameError(Eval(c.right, env).value, c.next, env, n);
    }
  }

  lemma {:induction false} ArgsNameError(args: seq<Expr>, env: Env, n: string)
    requires EvalArgs(args, env) == Err(NameError(n))
    ensures n in ArgsNames(args) && !Bound(n, env)
    decreases args
  {
    if Eval(args[0], env).Err? {
      EvalNameError(args[0], env, n);
    } else {
      ArgsNameError(args[1..], env, n);
    }
  }

  /** A plain expression whose names are all bound to numbers or booleans
      evaluates without raising, to a number or a boolean. */
  lemma {:induction false} EvalPlain(e: Expr, env: Env)
    requires Plain(e) && NamesPlain(Names(e), env)
    ensures Eval(e, env).Ok? && !Eval(e, env).value.EmptyDict?
    decreases e
  {
    match e
    case Const(_) =>
    case Name(_) =>
    case Neg(a) => EvalPlain(a, env);
    case Not(a) => EvalPlain(a, env);
    case And(l, r) => EvalPlain(l, env); EvalPlain(r, env);
    case Or(l, r) => EvalPlain(l, env); EvalPlain(r, env);
    case Compare(l, c) =>
      EvalPlain(l, env);
      ChainPlain(Eval(l, env).value, c, env);
  }

  lemma {:induction false} ChainPlain(lv: Value, c: Chain, env: Env)
    requires !lv.EmptyDict? && PlainChain(c) && NamesPlain(ChainNames(c), env)
    ensures EvalChain(lv, c, env).Ok?
    decreases c
  {
    EvalPlain(c.right, env);
    if c.Link? {
      ChainPlain(Eval(c.right, env).value, c.next, env);
    }
  }
}
