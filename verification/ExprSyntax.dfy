/** Tokens, expression trees and their meaning for the debugger's evaluator
    (nemu/src/monitor/expr.c). */
module ExprSyntax {
  import opened MachineInts
  import opened Basics

  datatype OperandKind = Zero | Num | HexNum | Reg | Symb

  datatype Token =
    | Operand(kind: OperandKind, text: string)
    | LParen | RParen
    | Or | And | Eq | Neq | Plus | Minus | Star | Slash
    | Neg | Deref | Not
    | Space                             // a stretch of blanks, which make_token keeps (lines 44, 126-128)

  /** What the evaluator looks up elsewhere: operands (digits, registers, the symbol table; None
      for an unknown symbol) and four bytes of memory. */
  datatype Env = Env(operand: Token -> Option<uint32>, memory: uint32 -> uint32)

  predicate IsUnary(t: Token) { t.Neg? || t.Deref? || t.Not? }

  predicate IsBinary(t: Token) {
    t.Or? || t.And? || t.Eq? || t.Neq? || t.Plus? || t.Minus? || t.Star? || t.Slash?
  }

  predicate IsOperator(t: Token) { IsUnary(t) || IsBinary(t) }

  /** Lines 280-315: a smaller number binds weaker. */
  function Priority(t: Token): nat {
    match t
    case Or => 1
    case And => 2
    case Eq | Neq => 3
    case Plus | Minus => 4
    case Star | Slash => 5
    case Neg | Deref | Not => 6
    case _ => 7
  }

  /** An expression; Paren keeps the parentheses that were written. */
  datatype Expr =
    | Leaf(token: Token)
    | Paren(inner: Expr)
    | Un(uop: Token, arg: Expr)
    | Bin(bop: Token, left: Expr, right: Expr)

  function Level(e: Expr): nat {
    match e
    case Bin(op, _, _) => Priority(op)
    case Un(_, _) => 6
    case _ => 7
  }

  /** Expressions of the grammar: binary operators associate to the left by precedence, and a
      unary operator stands before an operand or a parenthesis. */
  predicate Grammatical(e: Expr) {
    match e
    case Leaf(t) => t.Operand?
    case Paren(i) => Grammatical(i)
    case Un(op, a) => IsUnary(op) && Grammatical(a) && Level(a) == 7
    case Bin(op, l, r) =>
      IsBinary(op) && Grammatical(l) && Grammatical(r) && Level(l) >= Priority(op) && Level(r) > Priority(op)
  }

  function Unparse(e: Expr): (ts: seq<Token>)
    ensures |ts| > 0
  {
    match e
    case Leaf(t) => [t]
    case Paren(i) => [LParen] + Unparse(i) + [RParen]
    case Un(op, a) => [op] + Unparse(a)
    case Bin(op, l, r) => Unparse(l) + [op] + Unparse(r)
  }

  // ---------- values, in 32 bits ----------

  function Truth(b: bool): uint32 { if b then 1 else 0 }

  function ApplyUnary(op: Token, v: uint32, env: Env): Option<uint32>
    requires IsUnary(op)
  {
    match op
    case Neg => Some(ToU32(-(v as int)))
    case Deref => if v >= 128 * 1024 * 1024 then None else Some(env.memory(v))
    case Not => Some(Truth(v == 0))
  }

  function ApplyBinary(op: Token, x: uint32, y: uint32): Option<uint32>
    requires IsBinary(op)
  {
    match op
    case Plus => Some(ToU32(x + y))
    case Minus => Some(ToU32(x as int - y))
    case Star => Some(ToU32(x * y))
    case Slash => if y == 0 then None else Some(ToU32(x / y))
    case Eq => Some(Truth(x == y))
    case Neq => Some(Truth(x != y))
    case And => Some(Truth(x != 0 && y != 0))
    case Or => Some(Truth(x != 0 || y != 0))
  }

  /** The meaning of an expression; None where an operand is unknown, a divisor is zero or an
      address is out of range.  && and || evaluate both sides. */
  function Value(e: Expr, env: Env): Option<uint32> {
    match e
    case Leaf(t) => if t.Operand? then env.operand(t) else None
    case Paren(i) => Value(i, env)
    case Un(op, a) =>
      if !IsUnary(op) then None
      else
        var v := Value(a, env);
        if v.None? then None else ApplyUnary(op, v.value, env)
    case Bin(op, l, r) =>
      if !IsBinary(op) then None
      else
        var x, y := Value(l, env), Value(r, env);
        if x.None? || y.None? then None else ApplyBinary(op, x.value, y.value)
  }

  // ---------- the printer with the fewest parentheses ----------

  predicate Operators(e: Expr) {
    match e
    case Leaf(t) => t.Operand?
    case Paren(i) => Operators(i)
    case Un(op, a) => IsUnary(op) && Operators(a)
    case Bin(op, l, r) => IsBinary(op) && Operators(l) && Operators(r)
  }

  function Enclose(e: Expr, level: nat): Expr { if Level(e) >= level then e else Paren(e) }

  /** Parentheses exactly where the grammar asks for them. */
  function Parenthesize(e: Expr): (p: Expr)
    ensures Level(p) == Level(e)
  {
    match e
    case Leaf(_) => e
    case Paren(i) => Paren(Parenthesize(i))
    case Un(op, a) => Un(op, Enclose(Parenthesize(a), 7))
    case Bin(op, l, r) => Bin(op, Enclose(Parenthesize(l), Priority(op)), Enclose(Parenthesize(r), Priority(op) + 1))
  }

  lemma {:induction false} ParenthesizeIsGrammatical(e: Expr)
    requires Operators(e)
    ensures Grammatical(Parenthesize(e))
  {
    match e
    case Leaf(_) =>
    case Paren(i) => ParenthesizeIsGrammatical(i);
    case Un(_, a) => ParenthesizeIsGrammatical(a);
    case Bin(_, l, r) =>
      ParenthesizeIsGrammatical(l);
      ParenthesizeIsGrammatical(r);
  }

  lemma {:induction false} ParenthesizeKeepsValue(e: Expr, env: Env)
    ensures Value(Parenthesize(e), env) == Value(e, env)
  {
    match e
    case Leaf(_) =>
    case Paren(i) => ParenthesizeKeepsValue(i, env);
    case Un(_, a) => ParenthesizeKeepsValue(a, env);
    case Bin(_, l, r) =>
      ParenthesizeKeepsValue(l, env);
      ParenthesizeKeepsValue(r, env);
  }

  /** The tree without the parentheses that were written. */
  function Strip(e: Expr): Expr {
    match e
    case Leaf(_) => e
    case Paren(i) => Strip(i)
    case Un(op, a) => Un(op, Strip(a))
    case Bin(op, l, r) => Bin(op, Strip(l), Strip(r))
  }

  /** Pairs of parentheses. */
  function Parens(e: Expr): nat {
    match e
    case Leaf(_) => 0
    case Paren(i) => 1 + Parens(i)
    case Un(_, a) => Parens(a)
    case Bin(_, l, r) => Parens(l) + Parens(r)
  }

  function Occurrences(ts: seq<Token>, t: Token): nat { multiset(ts)[t] }

  /** They are the parentheses among the tokens. */
  lemma {:induction false} ParensAreTokens(e: Expr, t: Token)
    requires Grammatical(e) && (t == LParen || t == RParen)
    ensures Occurrences(Unparse(e), t) == Parens(e)
  {
    hide Occurrences;
    match e
    case Leaf(operand) => CountSingle(operand, t);
    case Paren(i) =>
      ParensAreTokens(i, t);
      CountInside(Unparse(i), t);
    case Un(op, a) =>
      ParensAreTokens(a, t);
      CountAfter(op, Unparse(a), t);
    case Bin(op, l, r) =>
      ParensAreTokens(l, t);
      ParensAreTokens(r, t);
      CountAround(Unparse(l), op, Unparse(r), t);
  }

  lemma CountSingle(u: Token, t: Token)
    requires u != t
    ensures Occurrences([u], t) == 0
  {
  }

  lemma CountInside(a: seq<Token>, t: Token)
    requires t == LParen || t == RParen
    ensures Occurrences([LParen] + a + [RParen], t) == Occurrences(a, t) + 1
  {
    assert multiset([LParen] + a + [RParen]) == multiset{LParen} + multiset(a) + multiset{RParen};
  }

  lemma CountAfter(op: Token, a: seq<Token>, t: Token)
    requires t != op
    ensures Occurrences([op] + a, t) == Occurrences(a, t)
  {
    assert multiset([op] + a) == multiset{op} + multiset(a);
  }

  lemma CountAround(a: seq<Token>, op: Token, b: seq<Token>, t: Token)
    requires t != op
    ensures Occurrences(a + [op] + b, t) == Occurrences(a, t) + Occurrences(b, t)
  {
    assert multiset(a + [op] + b) == multiset(a) + multiset{op} + multiset(b);
  }

  /** Raising the level of a tree costs a pair of parentheses, whoever places them. */
  lemma {:induction false} ParensNeeded(p: Expr)
    requires Grammatical(p)
    ensures Level(p) >= Level(Strip(p))
    ensures Parens(p) >= Parens(Parenthesize(Strip(p))) + (if Level(p) > Level(Strip(p)) then 1 else 0)
  {
    match p
    case Leaf(_) =>
    case Paren(i) => ParensNeeded(i);
    case Un(_, a) => ParensNeeded(a);
    case Bin(_, l, r) =>
      ParensNeeded(l);
      ParensNeeded(r);
  }

  /** No grammatical way of writing a tree has fewer parentheses than the printed one, and the
      printed one is that tree. */
  lemma {:induction false} ParenthesizeIsMinimal(e: Expr, p: Expr)
    requires Grammatical(p) && Strip(p) == e
    ensures Parens(Parenthesize(e)) <= Parens(p)
    ensures Strip(Parenthesize(e)) == e
  {
    ParensNeeded(p);
    StripTwice(p);
    StripParenthesize(e);
  }

  lemma {:induction false} StripTwice(e: Expr)
    ensures Strip(Strip(e)) == Strip(e)
  {
    match e
    case Leaf(_) =>
    case Paren(i) => StripTwice(i);
    case Un(_, a) => StripTwice(a);
    case Bin(_, l, r) =>
      StripTwice(l);
      StripTwice(r);
  }

  lemma {:induction false} StripParenthesize(e: Expr)
    ensures Strip(Parenthesize(e)) == Strip(e)
  {
    match e
    case Leaf(_) =>
    case Paren(i) => StripParenthesize(i);
    case Un(_, a) => StripParenthesize(a);
    case Bin(_, l, r) =>
      StripParenthesize(l);
      StripParenthesize(r);
  }

  /** An expression that needs no further parentheses is printed as it is. */
  lemma {:induction false} ParenthesizeKeepsGrammatical(e: Expr)
    requires Grammatical(e)
    ensures Parenthesize(e) == e
  {
    match e
    case Leaf(_) =>
    case Paren(i) => ParenthesizeKeepsGrammatical(i);
    case Un(_, a) => ParenthesizeKeepsGrammatical(a);
    case Bin(_, l, r) =>
      ParenthesizeKeepsGrammatical(l);
      ParenthesizeKeepsGrammatical(r);
  }

  // ---------- which tokens stand next to each other ----------

  predicate Ends(t: Token) { t.Operand? || t.RParen? }

  /** Which tokens may stand next to each other in a printed expression. */
  predicate Adjacent(prev: Token, cur: Token) {
    && (IsBinary(cur) ==> Ends(prev))
    && (IsUnary(cur) ==> IsBinary(prev) || prev.LParen?)
  }

  predicate WellPlaced(ts: seq<Token>) {
    && |ts| > 0 && !IsBinary(ts[0]) && Ends(ts[|ts| - 1])
    && forall i | 1 <= i < |ts| :: Adjacent(ts[i - 1], ts[i])
  }

  lemma JoinPlaced(a: seq<Token>, b: seq<Token>)
    requires WellPlaced(a) && |b| > 0 && Ends(b[|b| - 1]) && Adjacent(a[|a| - 1], b[0])
    requires forall i | 1 <= i < |b| :: Adjacent(b[i - 1], b[i])
    ensures WellPlaced(a + b)
  {
  }

  /** Putting a token in front of a printed expression. */
  lemma PrefixPlaced(t: Token, a: seq<Token>)
    requires WellPlaced(a) && Adjacent(t, a[0])
    ensures forall i | 1 <= i < |[t] + a| :: Adjacent(([t] + a)[i - 1], ([t] + a)[i])
    ensures Ends(([t] + a)[|a|])
    ensures !IsBinary(t) ==> WellPlaced([t] + a)
  {
  }

  /** After a unary operator stands an operand or a left parenthesis. */
  predicate UnaryFollowed(ts: seq<Token>) {
    forall i | 0 <= i < |ts| && IsUnary(ts[i]) :: i + 1 < |ts| && (ts[i + 1].Operand? || ts[i + 1].LParen?)
  }

  lemma FollowedConcat(a: seq<Token>, b: seq<Token>)
    requires UnaryFollowed(a) && UnaryFollowed(b)
    ensures UnaryFollowed(a + b)
  {
  }

  lemma {:induction false} UnparseUnaryFollowed(e: Expr)
    requires Grammatical(e)
    ensures UnaryFollowed(Unparse(e)) && (Level(e) == 7 ==> Unparse(e)[0].Operand? || Unparse(e)[0].LParen?)
  {
    match e
    case Leaf(_) =>
    case Paren(i) =>
      UnparseUnaryFollowed(i);
      FollowedConcat([LParen], Unparse(i));
      FollowedConcat([LParen] + Unparse(i), [RParen]);
    case Un(op, a) =>
      UnparseUnaryFollowed(a);
    case Bin(op, l, r) =>
      UnparseUnaryFollowed(l);
      UnparseUnaryFollowed(r);
      FollowedConcat(Unparse(l), [op]);
      FollowedConcat(Unparse(l) + [op], Unparse(r));
  }

  lemma BinPlaced(a: seq<Token>, op: Token, b: seq<Token>)
    requires WellPlaced(a) && IsBinary(op) && WellPlaced(b)
    ensures WellPlaced(a + [op] + b)
  {
    PrefixPlaced(op, b);
    JoinPlaced(a, [op] + b);
    assert a + [op] + b == a + ([op] + b);
  }

  lemma {:induction false} UnparseIsWellPlaced(e: Expr)
    requires Grammatical(e)
    ensures WellPlaced(Unparse(e)) && (Level(e) == 7 ==> !IsUnary(Unparse(e)[0]))
  {
    match e
    case Leaf(t) =>
    case Paren(i) =>
      UnparseIsWellPlaced(i);
      PrefixPlaced(LParen, Unparse(i));
      JoinPlaced([LParen] + Unparse(i), [RParen]);
    case Un(op, a) =>
      UnparseIsWellPlaced(a);
      PrefixPlaced(op, Unparse(a));
    case Bin(op, l, r) =>
      UnparseIsWellPlaced(l);
      UnparseIsWellPlaced(r);
      BinPlaced(Unparse(l), op, Unparse(r));
  }
}
