/** Dependency expressions, their symbols, and their value in an environment (expr.h, expr.c). */
module Exprs {
  import opened Tristates

  datatype SymbolType = UnknownType | BooleanType | TristateType | IntType | HexType | StringType

  /** Looking up "y", "m" or "n" always returns the three built-in symbols. */
  type ConstName = s: string | s != "y" && s != "m" && s != "n" witness ""

  datatype Symbol =
    | YesSym
    | ModSym
    | NoSym
    | Const(name: ConstName)
    | Config(id: nat, typ: SymbolType)
  {
    function Type(): SymbolType {
      if Config? then typ else UnknownType
    }

    predicate IsLogical() {
      Type() == BooleanType || Type() == TristateType
    }

    predicate IsConst() {
      !Config?
    }

    /** The flag test `SYMBOL_YES | SYMBOL_NO`; constants made by name carry all three flag bits. */
    predicate IsYesNoConst() {
      YesSym? || NoSym? || Const?
    }
  }

  datatype Expr =
    | Sym(s: Symbol)
    | Not(e: Expr)
    | Bin(op: Op, l: Expr, r: Expr)
    | Eq(a: Symbol, b: Symbol)
    | Ne(a: Symbol, b: Symbol)

  /** A calculated symbol table: tristate values and string values of configuration symbols. */
  datatype Env = Env(tri: Symbol -> Tristate, str: Symbol -> string)

  function TriOf(env: Env, s: Symbol): Tristate {
    match s
    case YesSym => YES
    case ModSym => MOD
    case NoSym => NO
    case Const(_) => NO
    case Config(_, _) => if s.IsLogical() then env.tri(s) else NO
  }

  function StrOf(env: Env, s: Symbol): string {
    match s
    case YesSym => "y"
    case ModSym => "m"
    case NoSym => "n"
    case Const(name) => name
    case Config(_, _) => if s.IsLogical() then TriString(env.tri(s)) else env.str(s)
  }

  /** Boolean symbols are never m: calculation promotes them to y. */
  ghost predicate TwoValued(env: Env) {
    forall s: Symbol :: s.Config? && s.typ == BooleanType ==> env.tri(s) != MOD
  }

  function Eval(e: Expr, env: Env): Tristate {
    match e
    case Sym(s) => TriOf(env, s)
    case Not(x) => Neg(Eval(x, env))
    case Bin(op, l, r) => Apply(op, Eval(l, env), Eval(r, env))
    case Eq(a, b) => FromBool(StrOf(env, a) == StrOf(env, b))
    case Ne(a, b) => FromBool(StrOf(env, a) != StrOf(env, b))
  }

  /** A missing expression counts as y. */
  function EvalOpt(e: Option<Expr>, env: Env): Tristate {
    if e.None? then YES else Eval(e.value, env)
  }

  function Size(e: Expr): (n: nat)
    ensures n >= 1
  {
    match e
    case Not(x) => 1 + Size(x)
    case Bin(_, l, r) => 1 + Size(l) + Size(r)
    case _ => 1
  }

  function Neutral(op: Op): Expr {
    Sym(if op == AndOp then YesSym else NoSym)
  }

  function Absorbing(op: Op): Expr {
    Sym(if op == AndOp then NoSym else YesSym)
  }

  predicate IsYesNo(e: Expr) {
    e == Sym(YesSym) || e == Sym(NoSym)
  }

  predicate IsNode(op: Op, e: Expr) {
    e.Bin? && e.op == op
  }

  /** expr_alloc_and: a missing operand is dropped. */
  function AllocAnd(a: Option<Expr>, b: Option<Expr>): Option<Expr> {
    if a.None? then b else if b.None? then a else Some(Bin(AndOp, a.value, b.value))
  }

  predicate ContainsSymbol(e: Expr, s: Symbol) {
    match e
    case Sym(x) => x == s
    case Not(x) => ContainsSymbol(x, s)
    case Bin(_, l, r) => ContainsSymbol(l, s) || ContainsSymbol(r, s)
    case Eq(a, b) => a == s || b == s
    case Ne(a, b) => a == s || b == s
  }

  /** expr_depends_symbol: a conjunct that forces `s` to differ from n. */
  predicate DependsOnSymbol(e: Expr, s: Symbol) {
    match e
    case Bin(AndOp, l, r) => DependsOnSymbol(l, s) || DependsOnSymbol(r, s)
    case Sym(x) => x == s
    case Eq(a, b) => a == s && (b == YesSym || b == ModSym)
    case Ne(a, b) => a == s && b == NoSym
    case _ => false
  }

  /** What the syntactic test is for: a non-n value of `e` needs a non-n value of the logical symbol `s`. */
  lemma {:induction false} DependsOnSymbolSound(e: Expr, s: Symbol, env: Env)
    requires DependsOnSymbol(e, s)
    requires s.IsLogical() && Eval(e, env) != NO
    ensures TriOf(env, s) != NO
  {
    match e
    case Bin(AndOp, l, r) =>
      if DependsOnSymbol(l, s) {
        DependsOnSymbolSound(l, s, env);
      } else {
        DependsOnSymbolSound(r, s, env);
      }
    case _ =>
  }

  lemma {:induction false} DependsImpliesContains(e: Expr, s: Symbol)
    requires DependsOnSymbol(e, s)
    ensures ContainsSymbol(e, s)
  {
    match e
    case Bin(AndOp, l, r) =>
      if DependsOnSymbol(l, s) {
        DependsImpliesContains(l, s);
      } else {
        DependsImpliesContains(r, s);
      }
    case _ =>
  }

  /** An expression reads nothing but the symbols it contains. */
  lemma {:induction false} EvalReadsContained(e: Expr, env: Env, env': Env)
    requires forall s :: ContainsSymbol(e, s) ==> TriOf(env, s) == TriOf(env', s) && StrOf(env, s) == StrOf(env', s)
    ensures Eval(e, env) == Eval(e, env')
  {
    match e
    case Sym(x) => assert ContainsSymbol(e, x);
    case Not(x) =>
      forall s | ContainsSymbol(x, s) ensures TriOf(env, s) == TriOf(env', s) && StrOf(env, s) == StrOf(env', s) {
        assert ContainsSymbol(e, s);
      }
      EvalReadsContained(x, env, env');
    case Bin(_, l, r) =>
      forall s | ContainsSymbol(l, s) || ContainsSymbol(r, s)
        ensures TriOf(env, s) == TriOf(env', s) && StrOf(env, s) == StrOf(env', s)
      {
        assert ContainsSymbol(e, s);
      }
      EvalReadsContained(l, env, env');
      EvalReadsContained(r, env, env');
    case Eq(a, b) => assert ContainsSymbol(e, a) && ContainsSymbol(e, b);
    case Ne(a, b) => assert ContainsSymbol(e, a) && ContainsSymbol(e, b);
  }
}
