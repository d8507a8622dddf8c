/** The evaluator of the debugger (nemu/src/monitor/expr.c): it splits a token range at its
    dominant operator, and this is parsing by precedence. */
module ExprEval {
  import opened MachineInts
  import opened Basics
  import opened ExprSyntax

  // ---------- the token range as the evaluator sees it ----------

  function Side(t: Token): int { if t.LParen? then 1 else if t.RParen? then -1 else 0 }

  /** Left minus right parentheses. */
  function Depth(ts: seq<Token>): int {
    if ts == [] then 0 else Depth(ts[..|ts| - 1]) + Side(ts[|ts| - 1])
  }

  /** check_parentheses: an enclosing pair, and no excess of right parentheses inside. */
  ghost predicate Enclosed(ts: seq<Token>) {
    && |ts| >= 2 && ts[0].LParen? && ts[|ts| - 1].RParen?
    && (forall i | 1 <= i <= |ts| - 1 :: Depth(ts[1..i]) >= 0)
    && Depth(ts[1..|ts| - 1]) == 0
  }

  /** An operator outside all parentheses, by the counts of both kinds. */
  predicate TopLevel(ts: seq<Token>, i: nat) {
    i < |ts| && IsOperator(ts[i]) && Depth(ts[..i]) == 0
  }

  /** The last of the weakest top-level operators among the first k tokens. */
  function Dominant(ts: seq<Token>, k: nat): (d: Option<nat>)
    requires k <= |ts|
    ensures d.Some? ==> d.value < k && TopLevel(ts, d.value)
  {
    if k == 0 then None
    else
      var d := Dominant(ts, k - 1);
      if TopLevel(ts, k - 1) && (d.None? || Priority(ts[k - 1]) <= Priority(ts[d.value])) then Some(k - 1) else d
  }

  /** eval, on the range as a sequence; None where *success becomes false. */
  ghost function Eval(ts: seq<Token>, env: Env): Option<uint32>
    decreases |ts|
  {
    if ts == [] then None
    else if |ts| == 1 then if ts[0].Operand? then env.operand(ts[0]) else None
    else if Enclosed(ts) then Eval(ts[1..|ts| - 1], env)
    else if Depth(ts) != 0 then None
    else
      var d := Dominant(ts, |ts|);
      if d.None? then None
      else
        var op := ts[d.value];
        var y := Eval(ts[d.value + 1..], env);
        if IsUnary(op) then
          if y.None? then None else ApplyUnary(op, y.value, env)
        else
          Combine(op, Eval(ts[..d.value], env), y)
  }

  function Combine(op: Token, x: Option<uint32>, y: Option<uint32>): Option<uint32>
    requires IsBinary(op)
  {
    if x.None? || y.None? then None else ApplyBinary(op, x.value, y.value)
  }

  // ---------- depths ----------

  lemma {:induction false} DepthConcat(a: seq<Token>, b: seq<Token>)
    ensures Depth(a + b) == Depth(a) + Depth(b)
  {
    if b == [] {
      assert a + b == a;
    } else {
      assert (a + b)[..|a + b| - 1] == a + b[..|b| - 1];
      DepthConcat(a, b[..|b| - 1]);
    }
  }

  /** Every prefix has at least as many left as right parentheses, and all of it equally many. */
  ghost predicate Balanced(ts: seq<Token>) {
    Depth(ts) == 0 && forall i | 0 <= i <= |ts| :: Depth(ts[..i]) >= 0
  }

  lemma {:induction false} DepthOfConcat(a: seq<Token>, b: seq<Token>, i: nat)
    requires i <= |a| + |b|
    ensures Depth((a + b)[..i]) == if i <= |a| then Depth(a[..i]) else Depth(a) + Depth(b[..i - |a|])
  {
    if i <= |a| {
      assert (a + b)[..i] == a[..i];
    } else {
      assert (a + b)[..i] == a + b[..i - |a|];
      DepthConcat(a, b[..i - |a|]);
    }
  }

  lemma BalancedConcat(a: seq<Token>, b: seq<Token>)
    requires Balanced(a) && Balanced(b)
    ensures Balanced(a + b)
  {
    DepthConcat(a, b);
    forall i | 0 <= i <= |a + b| ensures Depth((a + b)[..i]) >= 0 { DepthOfConcat(a, b, i); }
  }

  lemma BalancedToken(t: Token)
    requires Side(t) == 0
    ensures Balanced([t])
  {
  }

  /** Inside an enclosing pair every depth is one more. */
  lemma {:induction false} DepthInside(ts: seq<Token>, i: nat)
    requires i <= |ts| + 2
    ensures Depth(([LParen] + ts + [RParen])[..i])
         == if i == 0 then 0 else if i <= |ts| + 1 then 1 + Depth(ts[..i - 1]) else Depth(ts)
  {
    DepthOfConcat([LParen] + ts, [RParen], i);
    if i <= |ts| + 1 { DepthOfConcat([LParen], ts, i); } else { DepthConcat([LParen], ts); }
    assert [LParen][..1] == [LParen] && [RParen][..1] == [RParen];
    assert [LParen][..0] == [];
  }

  lemma BalancedParen(ts: seq<Token>)
    requires Balanced(ts)
    ensures Balanced([LParen] + ts + [RParen])
  {
    var w := [LParen] + ts + [RParen];
    forall i | 0 <= i <= |w| ensures Depth(w[..i]) >= 0 { DepthInside(ts, i); }
    DepthInside(ts, |w|);
    assert w[..|w|] == w;
  }

  lemma {:induction false} UnparseIsBalanced(e: Expr)
    requires Grammatical(e)
    ensures Balanced(Unparse(e))
  {
    match e
    case Leaf(t) => BalancedToken(t);
    case Paren(i) =>
      UnparseIsBalanced(i);
      BalancedParen(Unparse(i));
    case Un(op, a) =>
      UnparseIsBalanced(a);
      BalancedToken(op);
      BalancedConcat([op], Unparse(a));
    case Bin(op, l, r) =>
      UnparseIsBalanced(l);
      UnparseIsBalanced(r);
      BalancedToken(op);
      BalancedConcat(Unparse(l), [op]);
      BalancedConcat(Unparse(l) + [op], Unparse(r));
  }

  // ---------- the dominant operator of an expression is its root ----------

  lemma {:induction false} TopLevelOfConcat(a: seq<Token>, b: seq<Token>, i: nat)
    requires Depth(a) == 0
    ensures TopLevel(a + b, i) <==> if i < |a| then TopLevel(a, i) else TopLevel(b, i - |a|)
  {
    if i < |a| + |b| { DepthOfConcat(a, b, i); }
  }

  lemma {:induction false} TopLevelOfBin(a: seq<Token>, op: Token, b: seq<Token>, i: nat)
    requires Depth(a) == 0 && IsBinary(op)
    ensures TopLevel(a + [op] + b, i) <==> if i < |a| then TopLevel(a, i) else i == |a| || TopLevel(b, i - |a| - 1)
    ensures TopLevel(a + [op] + b, i) ==>
              i <= |a| + |b| && (a + [op] + b)[i] == if i < |a| then a[i] else if i == |a| then op else b[i - |a| - 1]
  {
    DepthConcat(a, [op]);
    BalancedToken(op);
    TopLevelOfConcat(a + [op], b, i);
    if i <= |a| { TopLevelOfConcat(a, [op], i); }
    assert [op][..0] == [];
  }

  /** Outside all parentheses there is nothing weaker than the root of the expression. */
  lemma {:induction false} TopLevelBinds(e: Expr, i: nat)
    requires Grammatical(e) && TopLevel(Unparse(e), i)
    ensures Priority(Unparse(e)[i]) >= Level(e)
    ensures Level(e) <= 6
  {
    match e
    case Leaf(t) =>
    case Paren(u) => NothingTopLevel(u, i);
    case Un(op, a) =>
      hide TopLevel, Depth;
      TopLevelOfUnary(op, Unparse(a), i);
      if i > 0 { TopLevelBinds(a, i - 1); }
    case Bin(op, l, r) =>
      hide TopLevel, Depth, Priority;
      UnparseIsBalanced(l);
      TopLevelOfBin(Unparse(l), op, Unparse(r), i);
      if i < |Unparse(l)| { TopLevelBinds(l, i); } else if i > |Unparse(l)| { TopLevelBinds(r, i - |Unparse(l)| - 1); }
  }

  lemma NothingTopLevel(u: Expr, i: nat)
    requires Grammatical(u)
    ensures !TopLevel(Unparse(Paren(u)), i)
  {
    UnparseIsBalanced(u);
    if i < |Unparse(u)| + 2 { DepthInside(Unparse(u), i); }
  }

  lemma TopLevelOfUnary(op: Token, ts: seq<Token>, i: nat)
    requires IsUnary(op)
    ensures TopLevel([op] + ts, i) ==> i <= |ts| && (i > 0 ==> TopLevel(ts, i - 1))
  {
    BalancedToken(op);
    TopLevelOfConcat([op], ts, i);
  }

  /** m is the last of the weakest operators outside parentheses. */
  ghost predicate LastWeakest(ts: seq<Token>, m: nat) {
    && TopLevel(ts, m)
    && forall i: nat | TopLevel(ts, i) ::
         if i > m then Priority(ts[i]) > Priority(ts[m]) else Priority(ts[i]) >= Priority(ts[m])
  }

  lemma {:induction false} DominantIs(ts: seq<Token>, k: nat, m: nat)
    requires LastWeakest(ts, m) && k <= |ts|
    ensures if k > m then Dominant(ts, k) == Some(m)
            else Dominant(ts, k).None? || Priority(ts[Dominant(ts, k).value]) >= Priority(ts[m])
  {
    if k > 0 { DominantIs(ts, k - 1, m); }
  }

  /** The scan returns such an operator whenever there is one at all. */
  lemma {:induction false} DominantFinds(ts: seq<Token>, k: nat)
    requires k <= |ts|
    ensures var d := Dominant(ts, k); d.None? ==> forall i: nat | i < k :: !TopLevel(ts, i)
    ensures var d := Dominant(ts, k); d.Some? ==> forall i: nat | i < k && TopLevel(ts, i) ::
        if i > d.value then Priority(ts[i]) > Priority(ts[d.value]) else Priority(ts[i]) >= Priority(ts[d.value])
  {
    if k > 0 { DominantFinds(ts, k - 1); }
  }

  lemma {:induction false} RootIsLastWeakest(op: Token, l: Expr, r: Expr)
    requires Grammatical(Bin(op, l, r))
    ensures LastWeakest(Unparse(Bin(op, l, r)), |Unparse(l)|)
  {
    hide TopLevel, Depth, Priority;
    var ts, m := Unparse(Bin(op, l, r)), |Unparse(l)|;
    UnparseIsBalanced(l);
    TopLevelOfBin(Unparse(l), op, Unparse(r), m);
    forall i: nat | TopLevel(ts, i)
      ensures i < |ts| && if i > m then Priority(ts[i]) > Priority(op) else Priority(ts[i]) >= Priority(op)
    {
      TopLevelOfBin(Unparse(l), op, Unparse(r), i);
      if i < m { TopLevelBinds(l, i); } else if i > m { TopLevelBinds(r, i - m - 1); }
    }
  }

  /** Two balanced parts with an operator between them are never taken for one parenthesis. */
  lemma SplitIsNotEnclosed(a: seq<Token>, b: seq<Token>)
    requires Balanced(a) && |a| >= 1 && |b| >= 1
    ensures !Enclosed(a + b)
  {
    if a[0].LParen? {
      var n := |a|;
      assert a == [a[0]] + a[1..];
      DepthConcat([a[0]], a[1..]);
      assert Depth([LParen]) == 1 by { assert [LParen][..0] == []; }
      assert (a + b)[1..n] == a[1..];
    }
  }

  lemma ParenIsEnclosed(ts: seq<Token>)
    requires Balanced(ts)
    ensures Enclosed([LParen] + ts + [RParen])
  {
    var w := [LParen] + ts + [RParen];
    forall i | 1 <= i <= |w| - 1 ensures Depth(w[1..i]) >= 0 { assert w[1..i] == ts[..i - 1]; }
    assert w[1..|w| - 1] == ts;
  }

  /** Evaluating a printed expression gives its value. */
  lemma {:induction false} EvalOfUnparse(e: Expr, env: Env)
    requires Grammatical(e)
    ensures Eval(Unparse(e), env) == Value(e, env)
  {
    var ts := Unparse(e);
    UnparseIsBalanced(e);
    match e
    case Leaf(t) =>
    case Paren(i) =>
      UnparseIsBalanced(i);
      ParenIsEnclosed(Unparse(i));
      assert ts[1..|ts| - 1] == Unparse(i);
      EvalOfUnparse(i, env);
    case Un(op, a) =>
      UnaryDominates(op, a);
      assert ts[1..] == Unparse(a);
      EvalOfUnparse(a, env);
    case Bin(op, l, r) =>
      EvalOfUnparse(l, env);
      EvalOfUnparse(r, env);
      BinarySplits(op, l, r, env);
  }

  lemma {:induction false} BinarySplits(op: Token, l: Expr, r: Expr, env: Env)
    requires Grammatical(Bin(op, l, r))
    ensures Eval(Unparse(Bin(op, l, r)), env) == Combine(op, Eval(Unparse(l), env), Eval(Unparse(r), env))
  {
    hide Eval, Enclosed, Dominant, Combine, Unparse, Depth;
    BinaryShape(op, l, r);
    EvalSplit(Unparse(Bin(op, l, r)), |Unparse(l)|, env);
  }

  lemma {:induction false} BinaryShape(op: Token, l: Expr, r: Expr)
    requires Grammatical(Bin(op, l, r))
    ensures var ts, m := Unparse(Bin(op, l, r)), |Unparse(l)|;
      && |ts| >= 2 && !Enclosed(ts) && Depth(ts) == 0 && Dominant(ts, |ts|) == Some(m)
      && ts[m] == op && ts[..m] == Unparse(l) && ts[m + 1..] == Unparse(r)
  {
    var ts, m := Unparse(Bin(op, l, r)), |Unparse(l)|;
    UnparseParts(op, l, r);
    assert Grammatical(l);
    hide Enclosed, LastWeakest, Dominant, Grammatical, Unparse, TopLevel;
    UnparseIsBalanced(Bin(op, l, r));
    UnparseIsBalanced(l);
    RootIsLastWeakest(op, l, r);
    SplitIsNotEnclosed(Unparse(l), [op] + Unparse(r));
    DominantIs(ts, |ts|, m);
  }

  lemma UnparseParts(op: Token, l: Expr, r: Expr)
    ensures var ts, m := Unparse(Bin(op, l, r)), |Unparse(l)|;
      && ts == Unparse(l) + ([op] + Unparse(r)) && |ts| >= m + 2
      && ts[m] == op && ts[..m] == Unparse(l) && ts[m + 1..] == Unparse(r)
  {
  }

  lemma EvalSplit(ts: seq<Token>, d: nat, env: Env)
    requires !Enclosed(ts) && Depth(ts) == 0 && Dominant(ts, |ts|) == Some(d)
    ensures d < |ts|
    ensures var y := Eval(ts[d + 1..], env);
            Eval(ts, env) ==
              if IsUnary(ts[d]) then if y.None? then None else ApplyUnary(ts[d], y.value, env)
              else if IsBinary(ts[d]) then Combine(ts[d], Eval(ts[..d], env), y) else None
  {
    hide Enclosed, Depth, Dominant, ApplyUnary, ApplyBinary;
    if |ts| == 1 { assert ts[..0] == [] && ts[1..] == []; }
  }

  lemma UnaryDominates(op: Token, a: Expr)
    requires Grammatical(Un(op, a))
    ensures Dominant(Unparse(Un(op, a)), |Unparse(Un(op, a))|) == Some(0)
  {
    var ts := Unparse(Un(op, a));
    forall i: nat ensures TopLevel(ts, i) <==> i == 0 { UnaryTopLevel(op, a, i); }
    DominantIs(ts, |ts|, 0);
  }

  /** For every expression tree: printed with the fewest parentheses and evaluated, it gives its
      value, and fails exactly when the value is undefined. */
  lemma {:induction false} PrintThenEval(e: Expr, env: Env)
    requires Operators(e)
    ensures Eval(Unparse(Parenthesize(e)), env) == Value(e, env)
  {
    ParenthesizeIsGrammatical(e);
    EvalOfUnparse(Parenthesize(e), env);
    ParenthesizeKeepsValue(e, env);
  }

  // ---------- success means the range was an expression ----------

  predicate NoUnary(ts: seq<Token>) { forall t | t in ts :: !IsUnary(t) }

  /** Every unary operator is at the front, or after a binary operator or a left parenthesis. */
  predicate UnaryPlaced(ts: seq<Token>) {
    forall i | 1 <= i < |ts| && IsUnary(ts[i]) :: IsBinary(ts[i - 1]) || ts[i - 1].LParen?
  }

  ghost predicate Parsable(ts: seq<Token>) { NoUnary(ts) || (Balanced(ts) && UnaryPlaced(ts)) }

  /** The range is an expression that has a value. */
  ghost predicate IsExpression(ts: seq<Token>, env: Env) {
    exists e :: Grammatical(e) && Unparse(e) == ts && Value(e, env).Some?
  }

  /** The root operator of a printed expression can be found in it. */
  lemma RootToken(e: Expr) returns (i: nat)
    requires Grammatical(e) && Level(e) <= 6
    ensures TopLevel(Unparse(e), i) && Priority(Unparse(e)[i]) == Level(e)
  {
    if e.Un? {
      i := 0;
    } else {
      i := |Unparse(e.left)|;
      RootIsLastWeakest(e.bop, e.left, e.right);
    }
  }

  lemma {:induction false} LeftLevel(ts: seq<Token>, d: nat, l: Expr)
    requires Dominant(ts, |ts|) == Some(d) && Grammatical(l) && Unparse(l) == ts[..d]
    ensures Level(l) >= Priority(ts[d])
  {
    DominantFinds(ts, |ts|);
    hide Grammatical, Dominant;
    if Level(l) <= 6 {
      var i := RootToken(l);
      assert ts[..d][..i] == ts[..i];
      assert TopLevel(ts, i);
    }
  }

  lemma {:induction false} RightLevel(ts: seq<Token>, d: nat, r: Expr)
    requires Dominant(ts, |ts|) == Some(d) && Grammatical(r) && Unparse(r) == ts[d + 1..]
    ensures Level(r) > Priority(ts[d])
  {
    DominantFinds(ts, |ts|);
    hide Grammatical, Dominant;
    if Level(r) <= 6 {
      var i := RootToken(r);
      TopLevelRight(ts, d, i);
    }
  }

  lemma TopLevelRight(ts: seq<Token>, d: nat, i: nat)
    requires TopLevel(ts, d) && TopLevel(ts[d + 1..], i)
    ensures TopLevel(ts, d + 1 + i) && ts[d + 1 + i] == ts[d + 1..][i]
  {
    assert ts[..d + 1] + ts[d + 1..] == ts;
    DepthOfConcat(ts[..d + 1], ts[d + 1..], d + 1 + i);
    assert ts[..d + 1][..d] == ts[..d];
  }

  lemma SplitAt(ts: seq<Token>, d: nat)
    requires d < |ts|
    ensures ts == ts[..d] + [ts[d]] + ts[d + 1..]
  {
  }

  /** Splitting at the dominant operator respects precedence and left association. */
  lemma {:induction false} SplitIsGrammatical(ts: seq<Token>, d: nat, l: Expr, r: Expr)
    requires Dominant(ts, |ts|) == Some(d) && IsBinary(ts[d])
    requires Grammatical(l) && Unparse(l) == ts[..d] && Grammatical(r) && Unparse(r) == ts[d + 1..]
    ensures Grammatical(Bin(ts[d], l, r)) && Unparse(Bin(ts[d], l, r)) == ts
  {
    LeftLevel(ts, d, l);
    RightLevel(ts, d, r);
    SplitAt(ts, d);
  }

  lemma ParsableInside(ts: seq<Token>)
    requires Parsable(ts) && Enclosed(ts)
    ensures ts == [LParen] + ts[1..|ts| - 1] + [RParen] && Parsable(ts[1..|ts| - 1])
  {
    hide Depth;
    var inner := ts[1..|ts| - 1];
    assert inner[..|inner|] == inner;
    forall i | 0 <= i <= |inner| ensures Depth(inner[..i]) >= 0 { assert inner[..i] == ts[1..i + 1]; }
  }

  lemma ParsableParts(ts: seq<Token>, d: nat)
    requires Parsable(ts) && TopLevel(ts, d) && Depth(ts) == 0
    ensures Parsable(ts[..d]) && Parsable(ts[d + 1..])
  {
    if Balanced(ts) {
      BalancedParts(ts, d);
      hide Balanced, TopLevel;
      assert UnaryPlaced(ts) ==> UnaryPlaced(ts[..d]) && UnaryPlaced(ts[d + 1..]);
    }
  }

  lemma BalancedParts(ts: seq<Token>, d: nat)
    requires Balanced(ts) && TopLevel(ts, d)
    ensures Balanced(ts[..d]) && Balanced(ts[d + 1..])
  {
    var l, r := ts[..d], ts[d + 1..];
    forall i | 0 <= i <= |l| ensures Depth(l[..i]) >= 0 { assert l[..i] == ts[..i]; }
    forall i: nat | i <= |r| ensures Depth(ts[..d + 1 + i]) == Depth(r[..i]) { DepthAfter(ts, d, i); }
    assert r[..|r|] == r && ts[..d + 1 + |r|] == ts;
  }

  lemma DepthAfter(ts: seq<Token>, d: nat, i: nat)
    requires TopLevel(ts, d) && i <= |ts| - d - 1
    ensures Depth(ts[..d + 1 + i]) == Depth(ts[d + 1..][..i])
  {
    assert ts[..d + 1] == ts[..d] + [ts[d]];
    assert ts[..d + 1 + i] == ts[..d + 1] + ts[d + 1..][..i];
    DepthConcat(ts[..d + 1], ts[d + 1..][..i]);
  }

  /** Before a well placed unary operator outside parentheses stands a binary one outside them. */
  lemma BinaryBefore(ts: seq<Token>, d: nat)
    requires Balanced(ts) && UnaryPlaced(ts) && TopLevel(ts, d) && IsUnary(ts[d]) && d > 0
    ensures TopLevel(ts, d - 1) && IsBinary(ts[d - 1])
  {
    assert ts[..d] == ts[..d - 1] + [ts[d - 1]];
    assert Depth(ts[..d]) == Depth(ts[..d - 1]) + Side(ts[d - 1]);
  }

  lemma {:induction false} NothingWeaker(ts: seq<Token>, d: nat, i: nat)
    requires Dominant(ts, |ts|) == Some(d) && TopLevel(ts, i)
    ensures d < |ts| && i < |ts| && Priority(ts[i]) >= Priority(ts[d])
  {
    DominantFinds(ts, |ts|);
  }

  /** A unary operator that dominates stands at the front: what would stand before it is a weaker
      operator, or an unmatched parenthesis. */
  lemma {:induction false} UnaryIsFirst(ts: seq<Token>, d: nat)
    requires Parsable(ts) && Dominant(ts, |ts|) == Some(d) && IsUnary(ts[d])
    ensures d == 0
  {
    hide Dominant, TopLevel, Depth, Balanced, UnaryPlaced;
    if d > 0 && !NoUnary(ts) {
      BinaryBefore(ts, d);
      NothingWeaker(ts, d, d - 1);
    }
  }

  /** A range that evaluates is an expression, if it has no unary operators, or its parentheses
      match and its unary operators are well placed; the result is the value of the expression. */
  lemma {:induction false} EvalIsParse(ts: seq<Token>, env: Env) returns (e: Expr)
    requires Parsable(ts) && Eval(ts, env).Some?
    ensures Grammatical(e) && Unparse(e) == ts && Value(e, env) == Eval(ts, env)
    decreases |ts|
  {
    if |ts| == 1 {
      e := Leaf(ts[0]);
    } else if Enclosed(ts) {
      ParsableInside(ts);
      hide Enclosed, Dominant, TopLevel, Parsable;
      var inner := EvalIsParse(ts[1..|ts| - 1], env);
      e := Paren(inner);
    } else {
      var d := Dominant(ts, |ts|).value;
      ParsableParts(ts, d);
      if IsUnary(ts[d]) {
        UnaryIsFirst(ts, d);
        EvalSplit(ts, d, env);
        hide Eval, Enclosed, Dominant, TopLevel, Grammatical, Parsable;
        var r := EvalIsParse(ts[d + 1..], env);
        e := Un(ts[d], r);
        UnaryIsGrammatical(ts, r);
      } else {
        EvalSplit(ts, d, env);
        hide Eval, Enclosed, Dominant, TopLevel, Grammatical, Parsable;
        var l := EvalIsParse(ts[..d], env);
        var r := EvalIsParse(ts[d + 1..], env);
        e := Bin(ts[d], l, r);
        SplitIsGrammatical(ts, d, l, r);
      }
    }
  }

  lemma UnaryParts(op: Token, r: Expr)
    requires IsUnary(op) && Grammatical(r) && Level(r) > 6
    ensures Grammatical(Un(op, r)) && Unparse(Un(op, r)) == [op] + Unparse(r)
  {
  }

  lemma UnaryIsGrammatical(ts: seq<Token>, r: Expr)
    requires Dominant(ts, |ts|) == Some(0) && IsUnary(ts[0])
    requires Grammatical(r) && Unparse(r) == ts[1..]
    ensures Grammatical(Un(ts[0], r)) && Unparse(Un(ts[0], r)) == ts
  {
    hide Dominant, TopLevel, Depth, Grammatical, Unparse, Level;
    RightLevel(ts, 0, r);
    UnaryParts(ts[0], r);
    HeadAndTail(ts);
  }

  /** For any range of tokens: it is an expression with a value exactly when it evaluates, its
      parentheses match and its unary operators are well placed.  Without unary operators,
      evaluating is enough. */
  lemma {:induction false} EvalExactly(ts: seq<Token>, env: Env)
    ensures Eval(ts, env).Some? && Balanced(ts) && UnaryPlaced(ts) <==> IsExpression(ts, env)
    ensures NoUnary(ts) ==> (Eval(ts, env).Some? <==> IsExpression(ts, env))
  {
    if Eval(ts, env).Some? && Parsable(ts) { var e := EvalIsParse(ts, env); }
    if e :| Grammatical(e) && Unparse(e) == ts && Value(e, env).Some? {
      EvalOfUnparse(e, env);
      UnparseIsBalanced(e);
      UnparseIsWellPlaced(e);
    }
  }

  /** Blanks are no part of an expression, so a range that keeps some fails. */
  lemma {:induction false} SpaceFails(ts: seq<Token>, env: Env)
    requires Space in ts
    ensures NoUnary(ts) || (Balanced(ts) && UnaryPlaced(ts)) ==> Eval(ts, env) == None
  {
    if Eval(ts, env).Some? && Parsable(ts) {
      var e := EvalIsParse(ts, env);
      UnparseHasNoSpace(e);
    }
  }

  lemma {:induction false} UnparseHasNoSpace(e: Expr)
    requires Grammatical(e)
    ensures Space !in Unparse(e)
  {
    match e
    case Leaf(_) =>
    case Paren(i) => UnparseHasNoSpace(i);
    case Un(_, a) => UnparseHasNoSpace(a);
    case Bin(_, l, r) =>
      UnparseHasNoSpace(l);
      UnparseHasNoSpace(r);
  }

  // ---------- what unary operators spoil ----------

  /** Tokens before a unary expression are not looked at, if their parentheses come out even and
      no binary operator among them is outside parentheses: a chain of unary operators of any
      length, or no expression at all. */
  lemma IgnoredPrefix(pre: seq<Token>, op: Token, a: Expr, env: Env)
    requires Depth(pre) == 0 && forall i: nat | TopLevel(pre, i) :: IsUnary(pre[i])
    requires Grammatical(Un(op, a))
    ensures Eval(pre + Unparse(Un(op, a)), env) == Value(Un(op, a), env)
  {
    hide TopLevel, Dominant, Eval, Enclosed, Depth, Unparse, Combine, ApplyUnary;
    PrefixShape(pre, op, a);
    EvalOfUnparse(a, env);
    EvalSplit(pre + Unparse(Un(op, a)), |pre|, env);
  }

  lemma PrefixShape(pre: seq<Token>, op: Token, a: Expr)
    requires Depth(pre) == 0 && forall i: nat | TopLevel(pre, i) :: IsUnary(pre[i])
    requires Grammatical(Un(op, a))
    ensures var ts := pre + Unparse(Un(op, a));
            && !Enclosed(ts) && Depth(ts) == 0 && Dominant(ts, |ts|) == Some(|pre|)
            && |ts| > |pre| && ts[|pre|] == op && ts[|pre| + 1..] == Unparse(a)
  {
    var u := Unparse(Un(op, a));
    assert u == [op] + Unparse(a);
    hide TopLevel, Dominant, Enclosed, Depth, Unparse;
    UnparseIsLevel(Un(op, a));
    DepthConcat(pre, u);
    PrefixDominates(pre, op, a);
    PrefixNotEnclosed(pre, u);
    PrefixParts(pre, op, Unparse(a));
  }

  lemma UnparseIsLevel(e: Expr)
    requires Grammatical(e)
    ensures Depth(Unparse(e)) == 0
  {
    UnparseIsBalanced(e);
  }

  lemma PrefixParts(pre: seq<Token>, op: Token, rest: seq<Token>)
    ensures var ts := pre + ([op] + rest); |ts| > |pre| && ts[|pre|] == op && ts[|pre| + 1..] == rest
  {
  }

  lemma PrefixDominates(pre: seq<Token>, op: Token, a: Expr)
    requires Depth(pre) == 0 && forall i: nat | TopLevel(pre, i) :: IsUnary(pre[i])
    requires Grammatical(Un(op, a))
    ensures var ts := pre + Unparse(Un(op, a)); Dominant(ts, |ts|) == Some(|pre|)
  {
    hide Dominant, Depth, Grammatical, Unparse, TopLevel;
    var ts := pre + Unparse(Un(op, a));
    forall i: nat
      ensures TopLevel(ts, i) ==> i <= |pre| && i < |ts| && IsUnary(ts[i])
      ensures TopLevel(ts, |pre|)
    {
      PrefixTopLevel(pre, op, a, i);
      PrefixTopLevel(pre, op, a, |pre|);
    }
    DominantIs(ts, |ts|, |pre|);
  }

  lemma {:induction false} PrefixTopLevel(pre: seq<Token>, op: Token, a: Expr, i: nat)
    requires Depth(pre) == 0 && forall i: nat | TopLevel(pre, i) :: IsUnary(pre[i])
    requires Grammatical(Un(op, a))
    ensures var ts := pre + Unparse(Un(op, a));
            && (TopLevel(ts, i) ==> i <= |pre| && IsUnary(ts[i]))
            && (i == |pre| ==> TopLevel(ts, i))
  {
    TopLevelOfConcat(pre, Unparse(Un(op, a)), i);
    if i >= |pre| { UnaryTopLevel(op, a, i - |pre|); }
  }

  lemma PrefixNotEnclosed(pre: seq<Token>, u: seq<Token>)
    requires Depth(pre) == 0 && |u| >= 1 && IsUnary(u[0])
    ensures !Enclosed(pre + u)
  {
    if pre != [] && pre[0].LParen? {
      assert pre == [pre[0]] + pre[1..];
      DepthConcat([pre[0]], pre[1..]);
      assert Depth([LParen]) == 1 by { assert [LParen][..0] == []; }
      assert (pre + u)[1..|pre|] == pre[1..];
    }
  }

  lemma UnaryTopLevel(op: Token, a: Expr, i: nat)
    requires Grammatical(Un(op, a))
    ensures TopLevel(Unparse(Un(op, a)), i) <==> i == 0
  {
    hide TopLevel, Depth, Priority;
    TopLevelOfUnary(op, Unparse(a), i);
    if i > 0 && TopLevel(Unparse(a), i - 1) { TopLevelBinds(a, i - 1); }
    FirstIsTopLevel(op, Unparse(a));
  }

  lemma FirstIsTopLevel(op: Token, ts: seq<Token>)
    requires IsUnary(op)
    ensures TopLevel([op] + ts, 0)
  {
    assert ([op] + ts)[..0] == [];
  }
}
