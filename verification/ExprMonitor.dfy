/** check_parentheses and eval as the loops they are (nemu/src/monitor/expr.c), proved against the
    recursive evaluator. */
module ExprMonitor {
  import opened MachineInts
  import opened Basics
  import opened ExprSyntax
  import opened ExprEval

  const MAX_TOKENS: nat := 32

  /** Line 145. */
  method CheckParentheses(tokens: seq<Token>, p: nat, q: nat) returns (b: bool)
    requires p < q < |tokens|
    ensures b <==> Enclosed(tokens[p..q + 1])
  {
    ghost var ts := tokens[p..q + 1];
    if !tokens[p].LParen? || !tokens[q].RParen? { return false; }
    var left, right := 0, 0;
    var i := p + 1;
    while i < q
      invariant p + 1 <= i <= q
      invariant left - right == Depth(ts[1..i - p])
      invariant forall k | 1 <= k <= i - p :: Depth(ts[1..k]) >= 0
    {
      SliceGrows(ts, 1, i - p);
      DepthAppend(ts[1..i - p], ts[i - p]);
      if tokens[i].LParen? {
        left := left + 1;
      } else if tokens[i].RParen? {
        right := right + 1;
      }
      if left < right { return false; }
      i := i + 1;
    }
    if left != right { return false; }
    return true;
  }

  lemma SliceGrows(ts: seq<Token>, a: nat, k: nat)
    requires a <= k < |ts|
    ensures ts[a..k + 1] == ts[a..k] + [ts[k]]
  {
  }

  lemma SliceTake(ts: seq<Token>, p: nat, n: nat, j: nat)
    requires p <= n <= |ts| && j <= n - p
    ensures ts[p..n][..j] == ts[p..p + j]
  {
  }

  lemma SliceDrop(ts: seq<Token>, p: nat, n: nat, i: nat)
    requires p <= n <= |ts| && i <= n - p
    ensures ts[p..n][i..] == ts[p + i..n]
  {
  }

  lemma DepthAppend(ts: seq<Token>, t: Token)
    ensures Depth(ts + [t]) == Depth(ts) + Side(t)
  {
  }

  /** An entry of dominate_op. */
  datatype DominateOperand = DominateOperand(place: int, priority: nat)

  predicate Below(ops: seq<nat>, n: nat) { forall k | 0 <= k < |ops| :: ops[k] < n }

  /** The top-level operators among the first k tokens, in order. */
  function TopLevels(ts: seq<Token>, k: nat): (ops: seq<nat>)
    requires k <= |ts|
    ensures |ops| <= k && Below(ops, k)
  {
    if k == 0 then [] else if TopLevel(ts, k - 1) then TopLevels(ts, k - 1) + [k - 1] else TopLevels(ts, k - 1)
  }

  /** The last of the weakest among the first n operators of a list. */
  function Weakest(ts: seq<Token>, ops: seq<nat>, n: nat): (d: nat)
    requires 1 <= n <= |ops| && Below(ops, |ts|)
    ensures d < |ts|
  {
    if n == 1 then ops[0]
    else
      var d := Weakest(ts, ops, n - 1);
      if Priority(ts[ops[n - 1]]) <= Priority(ts[d]) then ops[n - 1] else d
  }

  lemma {:induction false} WeakestOfPrefix(ts: seq<Token>, ops: seq<nat>, more: seq<nat>, n: nat)
    requires 1 <= n <= |ops| && Below(ops, |ts|) && Below(ops + more, |ts|)
    ensures Weakest(ts, ops + more, n) == Weakest(ts, ops, n)
  {
    if n > 1 { WeakestOfPrefix(ts, ops, more, n - 1); }
  }

  /** Choosing from the list afterwards is choosing during the scan. */
  lemma {:induction false} WeakestIsDominant(ts: seq<Token>, k: nat)
    requires k <= |ts|
    ensures var ops := TopLevels(ts, k);
      Dominant(ts, k) == if ops == [] then None else Some(Weakest(ts, ops, |ops|))
  {
    hide TopLevel, Priority;
    if k > 0 {
      WeakestIsDominant(ts, k - 1);
      var ops := TopLevels(ts, k - 1);
      if TopLevel(ts, k - 1) && ops != [] { WeakestOfPrefix(ts, ops, [k - 1], |ops|); }
    }
  }

  /** The array holds these operators of the range that starts at p, and nothing after them. */
  ghost predicate Lists(dominateOp: seq<DominateOperand>, p: nat, ts: seq<Token>, ops: seq<nat>) {
    && Below(ops, |ts|) && |ops| <= |dominateOp|
    && (forall k | 0 <= k < |ops| :: dominateOp[k] == DominateOperand(p + ops[k], Priority(ts[ops[k]])))
    && (forall k | |ops| <= k < |dominateOp| :: dominateOp[k].place == -1)
  }

  /** Lines 263-268. */
  method ClearOperators(dominateOp: array<DominateOperand>)
    requires dominateOp.Length == MAX_TOKENS
    modifies dominateOp
    ensures forall k | 0 <= k < MAX_TOKENS :: dominateOp[k] == DominateOperand(-1, 7)
  {
    var i := 0;
    while i < 32
      invariant i <= 32 && forall k | 0 <= k < i :: dominateOp[k] == DominateOperand(-1, 7)
    {
      dominateOp[i] := DominateOperand(-1, 7);
      i := i + 1;
    }
  }

  /** Lines 262-318: collect the operators outside parentheses, counting both kinds. */
  method CollectOperators(tokens: seq<Token>, p: nat, q: nat, dominateOp: array<DominateOperand>)
    returns (left: nat, right: nat, t: nat)
    requires p < q < |tokens| <= MAX_TOKENS && dominateOp.Length == MAX_TOKENS
    modifies dominateOp
    ensures left - right == Depth(tokens[p..q + 1])
    ensures var ops := TopLevels(tokens[p..q + 1], q + 1 - p);
      t == |ops| && Lists(dominateOp[..], p, tokens[p..q + 1], ops)
  {
    hide Collected, Priority, Lists, TopLevels, Depth, IsOperator;
    ghost var ts := tokens[p..q + 1];
    ClearOperators(dominateOp);
    left, right, t := 0, 0, 0;
    var i := p;
    CollectNothing(dominateOp[..], p, ts);
    while i <= q
      invariant p <= i <= q + 1 && Collected(dominateOp[..], left, right, t, p, ts, i - p)
    {
      CollectStep(dominateOp[..], left, right, t, p, ts, i - p);
      if tokens[i].LParen? {
        left := left + 1;
      } else if tokens[i].RParen? {
        right := right + 1;
      } else if left == right {
        if Priority(tokens[i]) <= 6 {
          ghost var before := dominateOp[..];
          dominateOp[t] := DominateOperand(i, Priority(tokens[i]));
          assert dominateOp[..] == before[t := DominateOperand(i, Priority(tokens[i]))];
          t := t + 1;
        }
      }
      i := i + 1;
    }
    CollectedAll(dominateOp[..], left, right, t, p, ts);
  }

  /** The state of the scan after k tokens of the range. */
  ghost predicate Collected(s: seq<DominateOperand>, left: nat, right: nat, t: nat, p: nat, ts: seq<Token>, k: nat) {
    && k <= |ts| && left - right == Depth(ts[..k])
    && t == |TopLevels(ts, k)| && Lists(s, p, ts, TopLevels(ts, k))
  }

  lemma CollectNothing(s: seq<DominateOperand>, p: nat, ts: seq<Token>)
    requires forall k | 0 <= k < |s| :: s[k].place == -1
    ensures Collected(s, 0, 0, 0, p, ts, 0)
  {
  }

  lemma CollectedAll(s: seq<DominateOperand>, left: nat, right: nat, t: nat, p: nat, ts: seq<Token>)
    requires Collected(s, left, right, t, p, ts, |ts|)
    ensures left - right == Depth(ts) && t == |TopLevels(ts, |ts|)| && Lists(s, p, ts, TopLevels(ts, |ts|))
  {
    assert ts[..|ts|] == ts;
  }

  lemma CollectStep(s: seq<DominateOperand>, left: nat, right: nat, t: nat, p: nat, ts: seq<Token>, k: nat)
    requires Collected(s, left, right, t, p, ts, k) && k < |ts| <= |s|
    ensures ts[k].LParen? ==> Collected(s, left + 1, right, t, p, ts, k + 1)
    ensures ts[k].RParen? ==> Collected(s, left, right + 1, t, p, ts, k + 1)
    ensures !ts[k].LParen? && !ts[k].RParen? ==>
              if left == right && Priority(ts[k]) <= 6
                then t < |s| &&
                     Collected(s[t := DominateOperand(p + k, Priority(ts[k]))], left, right, t + 1, p, ts, k + 1)
                else Collected(s, left, right, t, p, ts, k + 1)
  {
    hide Lists, TopLevels, Depth, Priority, IsOperator;
    SliceGrows(ts, 0, k);
    DepthAppend(ts[..k], ts[k]);
    PriorityOfOperator(ts[k]);
    ListsGrow(s, p, ts, k);
  }

  lemma {:induction false} ListsGrow(s: seq<DominateOperand>, p: nat, ts: seq<Token>, k: nat)
    requires k < |ts| <= |s| && Lists(s, p, ts, TopLevels(ts, k))
    ensures var t := |TopLevels(ts, k)|;
      if TopLevel(ts, k)
        then t < |s| && |TopLevels(ts, k + 1)| == t + 1
          && Lists(s[t := DominateOperand(p + k, Priority(ts[k]))], p, ts, TopLevels(ts, k + 1))
      else TopLevels(ts, k + 1) == TopLevels(ts, k)
  {
    hide TopLevel, Priority, Lists;
    if TopLevel(ts, k) { ListsAppend(s, p, ts, TopLevels(ts, k), k); }
  }

  lemma ListsAppend(s: seq<DominateOperand>, p: nat, ts: seq<Token>, ops: seq<nat>, k: nat)
    requires |ops| < |s| && k < |ts| && Lists(s, p, ts, ops)
    ensures Lists(s[|ops| := DominateOperand(p + k, Priority(ts[k]))], p, ts, ops + [k])
  {
  }

  lemma PriorityOfOperator(t: Token)
    ensures Priority(t) <= 6 <==> IsOperator(t)
    ensures IsOperator(t) ==> Side(t) == 0
    ensures t.LParen? || t.RParen? || Side(t) == 0
  {
  }

  /** Lines 319-340: the dominant operator of tokens[p..q+1]; ok is false when the parentheses
      do not match or there is no operator. */
  method FindDominant(tokens: seq<Token>, p: nat, q: nat) returns (ok: bool, op: int)
    requires p < q < |tokens| <= MAX_TOKENS
    ensures ok <==> Depth(tokens[p..q + 1]) == 0 && Dominant(tokens[p..q + 1], q + 1 - p).Some?
    ensures ok ==> op == p + Dominant(tokens[p..q + 1], q + 1 - p).value
  {
    ghost var ts := tokens[p..q + 1];
    var dominateOp := new DominateOperand[MAX_TOKENS];
    var left, right, t := CollectOperators(tokens, p, q, dominateOp);
    WeakestIsDominant(ts, |ts|);
    hide TopLevels, Dominant, Depth, Weakest;
    op := -1;
    if left != right { return false, op; }
    if dominateOp[0].place == -1 { return false, op; }
    op := PickWeakest(dominateOp, t, p, ts, TopLevels(ts, |ts|));
    ok := true;
  }

  /** Lines 331-340: the last of the weakest operators of the list. */
  method PickWeakest(dominateOp: array<DominateOperand>, t: nat, ghost p: nat, ghost ts: seq<Token>,
                     ghost ops: seq<nat>)
    returns (op: int)
    requires 1 <= t == |ops| && Lists(dominateOp[..], p, ts, ops)
    ensures op == p + Weakest(ts, ops, t)
  {
    hide Priority;
    var min := dominateOp[0].priority;
    op := dominateOp[0].place;
    var i := 1;
    while i < t
      invariant 1 <= i <= t
      invariant op == p + Weakest(ts, ops, i) && min == Priority(ts[Weakest(ts, ops, i)])
    {
      if dominateOp[i].priority <= min {
        min := dominateOp[i].priority;
        op := dominateOp[i].place;
      }
      i := i + 1;
    }
  }

  /** Line 167: the result and the success flag. */
  method EvalRange(tokens: seq<Token>, p: nat, q: int, env: Env, success0: bool) returns (value: uint32, success: bool)
    requires |tokens| <= MAX_TOKENS && p - 1 <= q < |tokens|
    ensures Returns(if success0 then Eval(tokens[p..q + 1], env) else None, value, success)
    ensures success ==> success0 && Eval(tokens[p..q + 1], env) == Some(value)
    ensures !success ==> !success0 || Eval(tokens[p..q + 1], env) == None
    decreases q + 1 - p, 1
  {
    hide Depth, Dominant, Enclosed, TopLevel, Combine, ApplyUnary, IsOperator;
    ghost var ts := tokens[p..q + 1];
    if !success0 { return 0xffff_ffff, false; }
    if p > q {
      assert ts == [];
      return 0xffff_ffff, false;
    } else if p == q {
      assert ts == [tokens[p]];
      if tokens[p].Operand? {
        var num := env.operand(tokens[p]);
        if num.Some? { return num.value, true; }
      }
      return 0xffff_ffff, false;
    }
    var enclosed := CheckParentheses(tokens, p, q);
    if enclosed {
      SliceOfSlice(tokens, p, q + 1, 1, q - p);
      value, success := EvalRange(tokens, p + 1, q - 1, env, true);
      return;
    }
    var ok, op := FindDominant(tokens, p, q);
    if !ok { return 0xffff_ffff, false; }
    DominantIsOperator(ts, op - p);
    assert ts[op - p] == tokens[op];
    assert SplitsAt(tokens, p, q, op);
    if IsUnary(tokens[op]) {
      value, success := EvalUnary(tokens, p, q, op, env);
    } else {
      value, success := EvalBinary(tokens, p, q, op, env);
    }
  }

  lemma DominantIsOperator(ts: seq<Token>, d: nat)
    requires Dominant(ts, |ts|) == Some(d)
    ensures d < |ts| && IsOperator(ts[d]) && (IsUnary(ts[d]) || IsBinary(ts[d]))
  {
  }

  /** The value and the success flag together say what the result is. */
  predicate Returns(result: Option<uint32>, value: uint32, success: bool) {
    if success then result == Some(value) else result.None?
  }

  /** The range splits at op. */
  ghost predicate SplitsAt(tokens: seq<Token>, p: nat, q: nat, op: nat) {
    && |tokens| <= MAX_TOKENS && p < q < |tokens| && p <= op <= q && IsOperator(tokens[op])
    && var ts := tokens[p..q + 1];
      !Enclosed(ts) && Depth(ts) == 0 && Dominant(ts, |ts|) == Some(op - p)
  }

  /** Lines 341-361. */
  method EvalUnary(tokens: seq<Token>, p: nat, q: nat, op: nat, env: Env) returns (value: uint32, success: bool)
    requires SplitsAt(tokens, p, q, op) && IsUnary(tokens[op])
    ensures Returns(Eval(tokens[p..q + 1], env), value, success)
    decreases q + 1 - p, 0
  {
    hide SplitsAt, Eval, ApplyUnary, Returns;
    UnaryPart(tokens, p, q, op, env);
    var val, s := EvalRange(tokens, op + 1, q, env, true);
    value, success := Unary(tokens[op], val, s, env);
    UnaryReturns(tokens[op], Eval(tokens[op + 1..q + 1], env), val, s, value, success, env);
  }

  lemma UnaryReturns(op: Token, y: Option<uint32>, val: uint32, s: bool, value: uint32, success: bool, env: Env)
    requires IsUnary(op) && Returns(y, val, s) && Returns(if s then ApplyUnary(op, val, env) else None, value, success)
    ensures Returns(if y.None? then None else ApplyUnary(op, y.value, env), value, success)
  {
  }

  lemma {:induction false} UnaryPart(tokens: seq<Token>, p: nat, q: nat, op: nat, env: Env)
    requires SplitsAt(tokens, p, q, op) && IsUnary(tokens[op])
    ensures |tokens| <= MAX_TOKENS && p < q < |tokens| && p <= op <= q
    ensures var y := Eval(tokens[op + 1..q + 1], env);
      Eval(tokens[p..q + 1], env) == if y.None? then None else ApplyUnary(tokens[op], y.value, env)
  {
    hide Eval, Enclosed, Depth, Dominant, ApplyUnary, TopLevel;
    var ts := tokens[p..q + 1];
    var m := op - p;
    SliceDrop(tokens, p, q + 1, m + 1);
    assert ts[m] == tokens[op] && tokens[p + (m + 1)..q + 1] == tokens[op + 1..q + 1];
    EvalSplit(ts, m, env);
  }

  /** Lines 362-387. */
  method EvalBinary(tokens: seq<Token>, p: nat, q: nat, op: nat, env: Env) returns (value: uint32, success: bool)
    requires SplitsAt(tokens, p, q, op) && IsBinary(tokens[op])
    ensures Returns(Eval(tokens[p..q + 1], env), value, success)
    decreases q + 1 - p, 0
  {
    BinaryParts(tokens, p, q, op, env);
    hide SplitsAt, Eval, ApplyBinary, Combine, Returns;
    var val1, s1 := EvalRange(tokens, p, op - 1, env, true);
    var val2, s2 := EvalRange(tokens, op + 1, q, env, s1);
    value, success := Binary(tokens[op], val1, val2, s2);
    BothReturn(tokens[op], Eval(tokens[p..op], env), Eval(tokens[op + 1..q + 1], env), val1, s1, val2, s2,
               value, success);
  }

  /** Evaluation stops mattering once one side has failed. */
  lemma BothReturn(op: Token, x: Option<uint32>, y: Option<uint32>, val1: uint32, s1: bool, val2: uint32, s2: bool,
                   value: uint32, success: bool)
    requires IsBinary(op) && Returns(x, val1, s1) && Returns(if s1 then y else None, val2, s2)
    requires Returns(if s2 then ApplyBinary(op, val1, val2) else None, value, success)
    ensures Returns(Combine(op, x, y), value, success)
  {
  }

  lemma {:induction false} BinaryParts(tokens: seq<Token>, p: nat, q: nat, op: nat, env: Env)
    requires SplitsAt(tokens, p, q, op) && IsBinary(tokens[op])
    ensures |tokens| <= MAX_TOKENS && p < q < |tokens| && p <= op <= q
    ensures Eval(tokens[p..q + 1], env) ==
        Combine(tokens[op], Eval(tokens[p..op], env), Eval(tokens[op + 1..q + 1], env))
  {
    hide Eval, Enclosed, Depth, Dominant, Combine, TopLevel;
    var ts := tokens[p..q + 1];
    var m := op - p;
    SliceDrop(tokens, p, q + 1, m + 1);
    SliceTake(tokens, p, q + 1, m);
    assert ts[m] == tokens[op] && tokens[p..p + m] == tokens[p..op] &&
        tokens[p + (m + 1)..q + 1] == tokens[op + 1..q + 1];
    assert ts[..m] == tokens[p..op] && ts[m + 1..] == tokens[op + 1..q + 1];
    EvalSplit(ts, m, env);
  }

  /** Lines 341-361. */
  method Unary(op: Token, val: uint32, success0: bool, env: Env) returns (value: uint32, success: bool)
    requires IsUnary(op)
    ensures Returns(if success0 then ApplyUnary(op, val, env) else None, value, success)
  {
    if op.Neg? {
      return ToU32(-(val as int)), success0;
    } else if op.Deref? {
      if val >= 128 * 1024 * 1024 { return 0xffff_ffff, false; }
      return env.memory(val), success0;
    } else {
      return Truth(val == 0), success0;
    }
  }

  /** Lines 364-387. */
  method Binary(op: Token, val1: uint32, val2: uint32, success0: bool) returns (value: uint32, success: bool)
    requires IsBinary(op)
    ensures Returns(if success0 then ApplyBinary(op, val1, val2) else None, value, success)
  {
    success := success0;
    match op {
      case Plus => value := ToU32(val1 + val2);
      case Minus => value := ToU32(val1 as int - val2);
      case Star => value := ToU32(val1 * val2);
      case Slash =>
        if val2 == 0 {
          value, success := 0xffff_ffff, false;
        } else {
          value := ToU32(val1 / val2);
        }
      case Eq => value := Truth(val1 == val2);
      case Neq => value := Truth(val1 != val2);
      case And => value := Truth(val1 != 0 && val2 != 0);
      case Or => value := Truth(val1 != 0 || val2 != 0);
    }
  }
}
