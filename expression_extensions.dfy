/**
 * Predicate expression trees and `ExpressionExtensions.AndAlso`, which
 * conjoins two one-parameter lambdas by rewriting both bodies over one new
 * shared parameter.
 *
 * Parameters are compared by identity in expression trees; here a parameter
 * is a number, and a new parameter is a number no body mentions.
 */
module ExpressionExtensions {
  import opened Common

  type ParamId = nat

  /**
   * The body of a predicate lambda. `Call(test, p)` stands for a member test
   * on parameter `p` such as `x.UserId == userId`; the boolean connectives are
   * the short-circuiting `AndAlso` / `OrElse` nodes and `Not`.
   */
  datatype Expr<!T> =
    | Call(Test: T -> bool, Param: ParamId)
    | Constant(Value: bool)
    | Not(Operand: Expr<T>)
    | AndAlsoNode(Left: Expr<T>, Right: Expr<T>)
    | OrElseNode(Left: Expr<T>, Right: Expr<T>)

  /** `Expression<Func<T, bool>>`: one parameter and a body. */
  datatype Lambda<!T> = Lambda(Parameter: ParamId, Body: Expr<T>)

  /** Short-circuit conjunction of two evaluations: the right one matters only when the left is true. */
  function Conj(a: Option<bool>, b: Option<bool>): Option<bool> {
    match a
    case None => None
    case Some(false) => Some(false)
    case Some(true) => b
  }

  /** Evaluation under an environment binding parameters; `None` when the body mentions an unbound parameter. */
  function Eval<T>(e: Expr<T>, env: map<ParamId, T>): Option<bool> {
    match e
    case Call(f, p) => if p in env then Some(f(env[p])) else None
    case Constant(b) => Some(b)
    case Not(a) => (var v := Eval(a, env); if v.Some? then Some(!v.value) else None)
    case AndAlsoNode(l, r) => Conj(Eval(l, env), Eval(r, env))
    case OrElseNode(l, r) =>
      (var v := Eval(l, env);
       match v
       case None => None
       case Some(true) => Some(true)
       case Some(false) => Eval(r, env))
  }

  /** Applying the compiled lambda to an argument. */
  function Invoke<T>(f: Lambda<T>, x: T): Option<bool> {
    Eval(f.Body, map[f.Parameter := x])
  }

  /** The argument satisfies the predicate (what `Where` keeps). */
  predicate Holds<T>(f: Lambda<T>, x: T) {
    Invoke(f, x) == Some(true)
  }

  /** The parameters a body mentions. */
  function Params<T>(e: Expr<T>): set<ParamId> {
    match e
    case Call(_, p) => {p}
    case Constant(_) => {}
    case Not(a) => Params(a)
    case AndAlsoNode(l, r) => Params(l) + Params(r)
    case OrElseNode(l, r) => Params(l) + Params(r)
  }

  /** A lambda whose body mentions only its own parameter, as every C# lambda literal does. */
  predicate Closed<T>(f: Lambda<T>) {
    Params(f.Body) <= {f.Parameter}
  }

  /** An upper bound of the parameters a body mentions. */
  function MaxParam<T>(e: Expr<T>): (m: ParamId)
    ensures forall p :: p in Params(e) ==> p <= m
  {
    match e
    case Call(_, p) => p
    case Constant(_) => 0
    case Not(a) => MaxParam(a)
    case AndAlsoNode(l, r) => Max(MaxParam(l), MaxParam(r))
    case OrElseNode(l, r) => Max(MaxParam(l), MaxParam(r))
  }

  function Max(a: nat, b: nat): nat {
    if a < b then b else a
  }

  /** `ReplaceParameterVisitor`: every occurrence of parameter `from` becomes `to`, the rest is rebuilt unchanged. */
  function Replace<T>(e: Expr<T>, from: ParamId, to: ParamId): (r: Expr<T>)
    ensures Params(r) <= Params(e) - {from} + {to}
  {
    match e
    case Call(f, p) => Call(f, if p == from then to else p)
    case Constant(b) => Constant(b)
    case Not(a) => Not(Replace(a, from, to))
    case AndAlsoNode(l, r) => AndAlsoNode(Replace(l, from, to), Replace(r, from, to))
    case OrElseNode(l, r) => OrElseNode(Replace(l, from, to), Replace(r, from, to))
  }

  /**
   * Rewriting a body over a parameter it does not mention and binding that
   * parameter to `x` evaluates exactly as the original body with its own
   * parameter bound to `x`.
   */
  lemma {:induction false} ReplaceEval<T>(e: Expr<T>, from: ParamId, to: ParamId, x: T)
    requires to !in Params(e)
    ensures Eval(Replace(e, from, to), map[to := x]) == Eval(e, map[from := x])
  {
    match e
    case Call(f, p) =>
    case Constant(b) =>
    case Not(a) =>
      ReplaceEval(a, from, to, x);
    case AndAlsoNode(l, r) =>
      ReplaceEval(l, from, to, x);
      ReplaceEval(r, from, to, x);
    case OrElseNode(l, r) =>
      ReplaceEval(l, from, to, x);
      ReplaceEval(r, from, to, x);
  }

  /** The shared parameter `Expression.Parameter(typeof(T), "x")`: distinct from every parameter of both lambdas. */
  function SharedParameter<T>(f: Lambda<T>, g: Lambda<T>): (p: ParamId)
    ensures p !in Params(f.Body) && p !in Params(g.Body)
  {
    1 + Max(MaxParam(f.Body), MaxParam(g.Body))
  }

  /**
   * `AndAlso(expr1, expr2)`: rejects a null argument (the first one first);
   * otherwise a lambda over one shared parameter whose value, for every
   * argument, is the short-circuit conjunction of the two lambdas applied
   * to that same argument. It holds exactly where both hold, and two closed
   * lambdas give a closed lambda.
   */
  function AndAlso<T(!new)>(expr1: Option<Lambda<T>>, expr2: Option<Lambda<T>>): (r: Result<Lambda<T>>)
    ensures expr1.None? ==> r == Failure(ArgumentNullException("expr1"))
    ensures expr1.Some? && expr2.None? ==> r == Failure(ArgumentNullException("expr2"))
    ensures expr1.Some? && expr2.Some? ==> r.Success?
    ensures expr1.Some? && expr2.Some? ==>
      forall x :: Invoke(r.value, x) == Conj(Invoke(expr1.value, x), Invoke(expr2.value, x))
    ensures expr1.Some? && expr2.Some? ==>
      forall x :: Holds(r.value, x) <==> Holds(expr1.value, x) && Holds(expr2.value, x)
    ensures expr1.Some? && expr2.Some? && Closed(expr1.value) && Closed(expr2.value) ==> Closed(r.value)
  {
    if expr1.None? then Failure(ArgumentNullException("expr1"))
    else if expr2.None? then Failure(ArgumentNullException("expr2"))
    else
      var f, g := expr1.value, expr2.value;
      var parameter := SharedParameter(f, g);
      var left := Replace(f.Body, f.Parameter, parameter);
      var right := Replace(g.Body, g.Parameter, parameter);
      var combined := Lambda(parameter, AndAlsoNode(left, right));
      AndAlsoEval(f, g, parameter);
      Success(combined)
  }

  lemma AndAlsoEval<T>(f: Lambda<T>, g: Lambda<T>, parameter: ParamId)
    requires parameter !in Params(f.Body) && parameter !in Params(g.Body)
    ensures forall x :: Invoke(Lambda(parameter, AndAlsoNode(Replace(f.Body, f.Parameter, parameter),
                                                           Replace(g.Body, g.Parameter, parameter))), x)
                        == Conj(Invoke(f, x), Invoke(g, x))
  {
    forall x
      ensures Invoke(Lambda(parameter, AndAlsoNode(Replace(f.Body, f.Parameter, parameter),
                                                   Replace(g.Body, g.Parameter, parameter))), x)
              == Conj(Invoke(f, x), Invoke(g, x))
    {
      ReplaceEval(f.Body, f.Parameter, parameter, x);
      ReplaceEval(g.Body, g.Parameter, parameter, x);
    }
  }

  /** A body whose parameters are all bound always evaluates. */
  lemma {:induction false} EvalBound<T>(e: Expr<T>, env: map<ParamId, T>)
    requires Params(e) <= env.Keys
    ensures Eval(e, env).Some?
  {
    match e
    case Call(f, p) =>
    case Constant(b) =>
    case Not(a) =>
      EvalBound(a, env);
    case AndAlsoNode(l, r) =>
      EvalBound(l, env);
      EvalBound(r, env);
    case OrElseNode(l, r) =>
      EvalBound(l, env);
      EvalBound(r, env);
  }

  /** A closed lambda evaluates on every argument: its predicate is total. */
  lemma ClosedIsTotal<T>(f: Lambda<T>, x: T)
    requires Closed(f)
    ensures Invoke(f, x).Some?
  {
    EvalBound(f.Body, map[f.Parameter := x]);
  }

  /**
   * Short circuit: when the first lambda is false the second is not
   * evaluated, so even a second body over a parameter that is never bound
   * (whose evaluation would fail) does not make the conjunction fail.
   */
  lemma ShortCircuit<T(!new)>(test: T -> bool, x: T)
    ensures var r := AndAlso(Some(Lambda(0, Constant(false))), Some(Lambda(0, Call(test, 7))));
      Invoke(r.value, x) == Some(false)
  {
  }
}
