/** Blanks among the tokens of the debugger's evaluator (nemu/src/monitor/expr.c): the tokeniser
    keeps each stretch of blanks as a token, and the evaluator has no rule for it. */
module ExprBlanks {
  import opened MachineInts
  import opened Basics
  import opened ExprSyntax
  import opened ExprEval

  // ---------- a blank before a unary operator is not seen ----------

  /** The index in a + b of what is at i in a + [Space] + b. */
  function Down(a: seq<Token>, i: nat): nat { if i <= |a| then i else i - 1 }

  lemma DepthBlank(a: seq<Token>, b: seq<Token>, i: nat)
    requires i <= |a| + 1 + |b|
    ensures Depth((a + [Space] + b)[..i]) == Depth((a + b)[..Down(a, i)])
  {
    DepthOfConcat(a + [Space], b, i);
    DepthOfConcat(a, b, Down(a, i));
    DepthConcat(a, [Space]);
    assert Depth([Space]) == 0 by { BalancedToken(Space); }
    if i <= |a| { assert (a + [Space])[..i] == a[..i]; }
    if i == |a| + 1 { assert b[..0] == [] && (a + [Space])[..i] == a + [Space] && a[..|a|] == a; }
  }

  lemma TopLevelBlank(a: seq<Token>, b: seq<Token>, i: nat)
    ensures TopLevel(a + [Space] + b, i) <==> i != |a| && TopLevel(a + b, Down(a, i))
  {
    if i < |a| + 1 + |b| { DepthBlank(a, b, i); }
  }

  /** The index in a + [Space] + b of what is at i in a + b. */
  function Up(a: seq<Token>, i: nat): nat { if i < |a| then i else i + 1 }

  lemma DominantBlank(a: seq<Token>, b: seq<Token>)
    ensures var x, y := a + [Space] + b, a + b;
            match Dominant(y, |y|)
            case None => Dominant(x, |x|) == None
            case Some(m) => Dominant(x, |x|) == Some(Up(a, m))
  {
    hide TopLevel, Dominant, Depth;
    var x, y := a + [Space] + b, a + b;
    DominantFinds(y, |y|);
    if Dominant(y, |y|).Some? {
      var m := Dominant(y, |y|).value;
      DominantIsLast(y, m);
      LastWeakestBlank(a, b, m);
      DominantIs(x, |x|, Up(a, m));
    } else if Dominant(x, |x|).Some? {
      var n := Dominant(x, |x|).value;
      TopLevelBlank(a, b, n);
      InRange(y, Down(a, n));
    }
  }

  lemma {:induction false} DominantIsLast(ts: seq<Token>, m: nat)
    requires Dominant(ts, |ts|) == Some(m)
    ensures LastWeakest(ts, m)
  {
    DominantFinds(ts, |ts|);
  }

  lemma InRange(ts: seq<Token>, i: nat)
    ensures TopLevel(ts, i) ==> i < |ts|
  {
  }

  lemma LastWeakestBlank(a: seq<Token>, b: seq<Token>, m: nat)
    requires LastWeakest(a + b, m)
    ensures LastWeakest(a + [Space] + b, Up(a, m))
  {
    var x, y := a + [Space] + b, a + b;
    TopLevelBlank(a, b, Up(a, m));
    InRange(y, m);
    hide TopLevel;
    forall i: nat | TopLevel(x, i)
      ensures i < |x| && if i > Up(a, m) then Priority(x[i]) > Priority(y[m]) else Priority(x[i]) >= Priority(y[m])
    {
      TopLevelBlank(a, b, i);
      InRange(x, i);
      assert x[i] == y[Down(a, i)];
    }
  }

  /** Up to the blank or past it, the inner parentheses count the same. */
  lemma InnerDepthBlank(a: seq<Token>, b: seq<Token>, i: nat)
    requires a != [] && 1 <= i <= |a| + 1 + |b|
    ensures Depth((a + [Space] + b)[1..i]) == Depth((a + b)[1..Down(a, i)])
  {
    DepthBlank(a[1..], b, i - 1);
    assert (a + [Space] + b)[1..i] == (a[1..] + [Space] + b)[..i - 1];
    assert (a + b)[1..Down(a, i)] == (a[1..] + b)[..Down(a[1..], i - 1)];
  }

  lemma EnclosedWithBlank(a: seq<Token>, b: seq<Token>)
    requires |b| >= 1 && IsUnary(b[0])
    ensures Enclosed(a + [Space] + b) <==> Enclosed(a + b)
  {
    var x, y := a + [Space] + b, a + b;
    if a != [] {
      hide Depth;
      InnerDepthBlank(a, b, |x| - 1);
      if Enclosed(y) {
        forall i | 1 <= i <= |x| - 1 ensures Depth(x[1..i]) >= 0 { InnerDepthBlank(a, b, i); }
      }
      if Enclosed(x) {
        forall j | 1 <= j <= |y| - 1 ensures Depth(y[1..j]) >= 0 { InnerDepthBlank(a, b, Up(a, j)); }
      }
    }
  }

  lemma InsideBlank(a: seq<Token>, b: seq<Token>)
    requires |b| >= 1 && IsUnary(b[0]) && Enclosed(a + b)
    ensures |a| >= 1 && |b| >= 2
    ensures var y := a + b; y[1..|y| - 1] == a[1..] + b[..|b| - 1]
    ensures var x := a + [Space] + b; x[1..|x| - 1] == a[1..] + [Space] + b[..|b| - 1]
  {
  }

  lemma PartsBlank(a: seq<Token>, b: seq<Token>, m: nat)
    requires m < |a| + |b|
    ensures var x, y, n := a + [Space] + b, a + b, Up(a, m);
            && x[n] == y[m]
            && (m < |a| ==> x[..n] == y[..m] && x[n + 1..] == a[m + 1..] + [Space] + b && y[m + 1..] == a[m + 1..] + b)
            && (m >= |a| ==> x[n + 1..] == y[m + 1..])
            && (m > |a| ==> x[..n] == a + [Space] + b[..m - |a|] && y[..m] == a + b[..m - |a|])
  {
  }

  /** A blank right before a unary operator changes nothing, whatever stands around it. */
  lemma {:induction false} BlankBeforeUnary(a: seq<Token>, b: seq<Token>, env: Env)
    requires |b| >= 1 && IsUnary(b[0])
    ensures Eval(a + [Space] + b, env) == Eval(a + b, env)
    decreases |a| + |b|
  {
    hide Enclosed, Depth, Dominant, TopLevel, Eval;
    var x, y := a + [Space] + b, a + b;
    EnclosedWithBlank(a, b);
    DominantBlank(a, b);
    DepthBlank(a, b, |x|);
    assert x[..|x|] == x && y[..|y|] == y;
    if Enclosed(y) {
      InsideBlank(a, b);
      EvalEnclosed(x, env);
      EvalEnclosed(y, env);
      BlankBeforeUnary(a[1..], b[..|b| - 1], env);
    } else if Depth(y) != 0 || Dominant(y, |y|).None? {
      NoValue(x, env);
      NoValue(y, env);
    } else {
      var m := Dominant(y, |y|).value;
      PartsBlank(a, b, m);
      EvalSplit(x, Up(a, m), env);
      EvalSplit(y, m, env);
      if m < |a| { BlankBeforeUnary(a[m + 1..], b, env); }
      if m > |a| { BlankBeforeUnary(a, b[..m - |a|], env); }
    }
  }

  lemma EvalEnclosed(ts: seq<Token>, env: Env)
    requires Enclosed(ts)
    ensures |ts| >= 2 && Eval(ts, env) == Eval(ts[1..|ts| - 1], env)
  {
    hide Depth, Dominant, Combine, ApplyUnary;
  }

  lemma {:induction false} NoValue(ts: seq<Token>, env: Env)
    requires !Enclosed(ts) && (Depth(ts) != 0 || Dominant(ts, |ts|).None?)
    ensures Eval(ts, env).None? || (|ts| == 1 && ts[0].Operand?)
  {
    hide Enclosed, Depth, Dominant, Combine, ApplyUnary;
  }

  // ---------- which blanks are harmless ----------

  function Despace(cs: seq<Token>): (ts: seq<Token>)
    ensures |ts| <= |cs|
  {
    if cs == [] then [] else (if cs[0].Space? then [] else [cs[0]]) + Despace(cs[1..])
  }

  /** Every stretch of blanks stands directly before a unary operator. */
  predicate Harmless(cs: seq<Token>) {
    forall i | 0 <= i < |cs| && cs[i].Space? :: i + 1 < |cs| && (cs[i + 1].Space? || IsUnary(cs[i + 1]))
  }

  lemma HarmlessCons(cs: seq<Token>)
    requires cs != []
    ensures Harmless(cs) <==>
              (cs[0].Space? ==> |cs| > 1 && (cs[1].Space? || IsUnary(cs[1]))) && Harmless(cs[1..])
  {
    if Harmless(cs) {
      forall i | 0 <= i < |cs[1..]| && cs[1..][i].Space?
        ensures i + 1 < |cs[1..]| && (cs[1..][i + 1].Space? || IsUnary(cs[1..][i + 1]))
      {
        assert cs[i + 1].Space?;
      }
    }
    if Harmless(cs[1..]) {
      forall i | 1 <= i < |cs| && cs[i].Space? ensures i + 1 < |cs| && (cs[i + 1].Space? || IsUnary(cs[i + 1])) {
        assert cs[1..][i - 1].Space?;
      }
    }
  }

  /** The tokens without the blanks that stand before unary operators. */
  function Trim(cs: seq<Token>): seq<Token> {
    if cs == [] then []
    else
      var rest := Trim(cs[1..]);
      if cs[0].Space? && rest != [] && IsUnary(rest[0]) then rest else [cs[0]] + rest
  }

  lemma {:induction false} EvalTrim(pre: seq<Token>, cs: seq<Token>, env: Env)
    ensures Eval(pre + cs, env) == Eval(pre + Trim(cs), env)
    decreases |cs|
  {
    if cs != [] {
      var rest := Trim(cs[1..]);
      assert Trim(cs) == if cs[0].Space? && rest != [] && IsUnary(rest[0]) then rest else [cs[0]] + rest;
      hide Eval, Trim, IsUnary;
      EvalTrim(pre + [cs[0]], cs[1..], env);
      HeadAndTail(cs);
      ConcatAssoc(pre, [cs[0]], cs[1..]);
      ConcatAssoc(pre, [cs[0]], rest);
      if cs[0].Space? && rest != [] && IsUnary(rest[0]) {
        BlankBeforeUnary(pre, rest, env);
      }
    }
  }

  /** No blank right before a unary operator. */
  predicate Trimmed(cs: seq<Token>) { forall i | 1 <= i < |cs| && IsUnary(cs[i]) :: !cs[i - 1].Space? }

  lemma {:induction false} TrimKeeps(cs: seq<Token>)
    ensures Trimmed(Trim(cs)) && Despace(Trim(cs)) == Despace(cs)
  {
    if cs != [] {
      TrimKeeps(cs[1..]);
      var rest := Trim(cs[1..]);
      assert ([cs[0]] + rest)[1..] == rest;
    }
  }

  /** Trimming leaves a blank exactly when one of them was not harmless. */
  lemma {:induction false} TrimClears(cs: seq<Token>)
    ensures Space !in Trim(cs) <==> Harmless(cs)
    ensures Harmless(cs) ==> Trim(cs) == Despace(cs)
    ensures Harmless(cs) && cs != [] && (cs[0].Space? || IsUnary(cs[0])) ==> Trim(cs) != [] && IsUnary(Trim(cs)[0])
    ensures Harmless(cs) && cs != [] && !cs[0].Space? ==> Trim(cs)[0] == cs[0]
  {
    if cs != [] {
      TrimClears(cs[1..]);
      HarmlessCons(cs);
      hide Harmless;
      assert cs[1..] != [] ==> cs[1..][0] == cs[1];
    }
  }

  lemma DespaceCons(t: Token, cs: seq<Token>)
    ensures Despace([t] + cs) == if t.Space? then Despace(cs) else [t] + Despace(cs)
  {
  }

  lemma {:induction false} DespaceConcat(a: seq<Token>, b: seq<Token>)
    ensures Despace(a + b) == Despace(a) + Despace(b)
  {
    if a == [] {
      assert a + b == b;
    } else {
      hide Despace;
      var t, rest := [a[0]], a[1..];
      DespaceConcat(rest, b);
      DespaceCons(a[0], rest);
      DespaceCons(a[0], rest + b);
      HeadAndTail(a);
      ConcatAssoc(t, rest, b);
      ConcatAssoc(t, Despace(rest), Despace(b));
    }
  }

  lemma {:induction false} DepthDespace(cs: seq<Token>)
    ensures Depth(Despace(cs)) == Depth(cs)
  {
    if cs != [] {
      DepthDespace(cs[1..]);
      DepthConcat([cs[0]], cs[1..]);
      assert cs == [cs[0]] + cs[1..];
      if cs[0].Space? {
        BalancedToken(cs[0]);
        assert [] + Despace(cs[1..]) == Despace(cs[1..]);
      } else {
        DepthConcat([cs[0]], Despace(cs[1..]));
      }
    }
  }

  lemma SpacedBalanced(cs: seq<Token>)
    requires Balanced(Despace(cs))
    ensures Balanced(cs)
  {
    DepthDespace(cs);
    forall i | 0 <= i <= |cs| ensures Depth(cs[..i]) >= 0 {
      DespaceConcat(cs[..i], cs[i..]);
      assert cs == cs[..i] + cs[i..];
      DepthDespace(cs[..i]);
      assert Despace(cs)[..|Despace(cs[..i])|] == Despace(cs[..i]);
    }
  }

  /** Neighbours without a blank between them stay neighbours. */
  lemma DespacePair(cs: seq<Token>, i: nat) returns (j: nat)
    requires 1 <= i < |cs| && !cs[i - 1].Space? && !cs[i].Space?
    ensures 1 <= j < |Despace(cs)| && Despace(cs)[j - 1] == cs[i - 1] && Despace(cs)[j] == cs[i]
  {
    var pair := [cs[i - 1], cs[i]];
    assert cs == cs[..i - 1] + pair + cs[i + 1..];
    DespaceConcat(cs[..i - 1] + pair, cs[i + 1..]);
    DespaceConcat(cs[..i - 1], pair);
    assert Despace(pair) == pair by { assert pair[1..] == [cs[i]] && [cs[i]][1..] == []; }
    j := |Despace(cs[..i - 1])| + 1;
  }

  lemma SpacedPlaced(cs: seq<Token>)
    requires UnaryPlaced(Despace(cs)) && Trimmed(cs)
    ensures UnaryPlaced(cs)
  {
    forall i | 1 <= i < |cs| && IsUnary(cs[i]) ensures IsBinary(cs[i - 1]) || cs[i - 1].LParen? {
      var j := DespacePair(cs, i);
    }
  }

  /** For any range whose parentheses match and whose unary operators are well placed but for
      blanks: with harmless blanks it evaluates as without them, and with any other it fails. */
  lemma {:induction false} SpacedEval(cs: seq<Token>, env: Env)
    requires Balanced(Despace(cs)) && UnaryPlaced(Despace(cs))
    ensures Eval(cs, env) == if Harmless(cs) then Eval(Despace(cs), env) else None
  {
    hide Depth, Eval, Despace, Trim;
    var trimmed := Trim(cs);
    EvalTrim([], cs, env);
    assert [] + cs == cs && [] + trimmed == trimmed;
    TrimClears(cs);
    TrimKeeps(cs);
    if !Harmless(cs) {
      SpacedBalanced(trimmed);
      SpacedPlaced(trimmed);
      SpaceFails(trimmed, env);
    }
  }

  /** However blanks are put among the tokens of an expression, it has its value if every stretch
      of them stands directly before a unary operator, and fails otherwise. */
  lemma {:induction false} BlanksExactly(e: Expr, cs: seq<Token>, env: Env)
    requires Grammatical(e) && Despace(cs) == Unparse(e)
    ensures Eval(cs, env) == if Harmless(cs) then Value(e, env) else None
  {
    UnparseIsBalanced(e);
    UnparseIsWellPlaced(e);
    EvalOfUnparse(e, env);
    hide Depth, Eval, Despace, Harmless;
    SpacedEval(cs, env);
  }
}
