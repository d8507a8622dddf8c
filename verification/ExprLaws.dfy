/** What the debugger's evaluator computes (nemu/src/monitor/expr.c), in the operators' own names:
    the arithmetic of each operator, and which operators bind tighter. */
module ExprLaws {
  import opened MachineInts
  import opened Basics
  import opened ExprSyntax
  import opened ExprEval

  const WORD: int := 0x1_0000_0000

  predicate Congruent(a: int, b: int) { (a - b) % WORD == 0 }

  // ---------- the operators ----------

  lemma WrapCongruent(n: int)
    ensures Congruent(ToU32(n), n)
  {
    var q, r := n / WORD, n % WORD;
    assert ToU32(n) == r;
    ModUnique(r - n, WORD, -q, 0);
  }

  /** v is what op makes of x and y: sum, difference and product modulo 2^32, the whole quotient,
      comparison and logic. */
  predicate Computes(op: Token, x: uint32, y: uint32, v: Option<uint32>) {
    && (op.Plus? ==> v.Some? && Congruent(v.value - y, x))
    && (op.Minus? ==> v.Some? && Congruent(v.value + y, x))
    && (op.Star? ==> v.Some? && Congruent(v.value, x * y))
    && (op.Slash? ==> if y == 0 then v == None else v.Some? && v.value * y <= x < v.value * y + y)
    && (op.Eq? ==> v == Some(if x == y then 1 else 0))
    && (op.Neq? ==> v == Some(if x == y then 0 else 1))
    && (op.And? ==> v == Some(if x == 0 || y == 0 then 0 else 1))
    && (op.Or? ==> v == Some(if x == 0 && y == 0 then 0 else 1))
  }

  /** An expression with a binary operator, by the values of its two sides. */
  lemma BinaryLaws(op: Token, l: Expr, r: Expr, x: uint32, y: uint32, env: Env)
    requires Grammatical(Bin(op, l, r)) && Eval(Unparse(l), env) == Some(x) && Eval(Unparse(r), env) == Some(y)
    ensures Computes(op, x, y, Eval(Unparse(Bin(op, l, r)), env))
  {
    EvalOfUnparse(l, env);
    EvalOfUnparse(r, env);
    EvalOfUnparse(Bin(op, l, r), env);
    hide Eval, Unparse, Computes, ApplyBinary;
    AppliedComputes(op, x, y);
  }

  lemma AppliedComputes(op: Token, x: uint32, y: uint32)
    requires IsBinary(op)
    ensures Computes(op, x, y, ApplyBinary(op, x, y))
  {
    match op
    case Plus => WrapCongruent(x + y);
    case Minus => WrapCongruent(x as int - y);
    case Star => WrapCongruent(x * y);
    case Slash => if y > 0 { QuotientFits(x, y); }
    case _ =>
  }

  lemma QuotientFits(x: uint32, y: uint32)
    requires y > 0
    ensures var q := ToU32(x / y); q * y <= x < q * y + y
  {
    var q := x / y;
    DivMod(x, y);
    TimesOrder(1, y, q);
    assert q <= x;
  }

  /** If a side fails, so does the whole. */
  lemma BinaryFails(op: Token, l: Expr, r: Expr, env: Env)
    requires Grammatical(Bin(op, l, r)) && (Eval(Unparse(l), env).None? || Eval(Unparse(r), env).None?)
    ensures Eval(Unparse(Bin(op, l, r)), env).None?
  {
    EvalOfUnparse(l, env);
    EvalOfUnparse(r, env);
    EvalOfUnparse(Bin(op, l, r), env);
  }

  /** An expression with a unary operator, by the value of its argument: two's complement negation,
      the word in memory below 128 MB, and being zero. */
  lemma UnaryLaws(op: Token, a: Expr, v: uint32, env: Env)
    requires Grammatical(Un(op, a)) && Eval(Unparse(a), env) == Some(v)
    ensures var r := Eval(Unparse(Un(op, a)), env);
            && (op.Neg? ==> r.Some? && Congruent(r.value + v, 0))
            && (op.Deref? ==> r == if v < 0x800_0000 then Some(env.memory(v)) else None)
            && (op.Not? ==> r == Some(if v == 0 then 1 else 0))
  {
    EvalOfUnparse(a, env);
    EvalOfUnparse(Un(op, a), env);
    hide Eval, Unparse, Grammatical;
    WrapCongruent(-(v as int));
  }

  // ---------- which operators bind tighter ----------

  /** The binary operators from the weakest to the tightest. */
  const CLASSES: seq<set<Token>> := [{Or}, {And}, {Eq, Neq}, {Plus, Minus}, {Star, Slash}]

  lemma ClassIs(i: nat, op: Token)
    requires i < 5 && op in CLASSES[i]
    ensures IsBinary(op) && Priority(op) == i + 1
  {
  }

  lemma ClassesAreAll(op: Token)
    ensures IsBinary(op) <==> exists i | 0 <= i < 5 :: op in CLASSES[i]
  {
    if IsBinary(op) {
      assert op in CLASSES[Priority(op) - 1];
    }
  }

  /** An operand, a pair of parentheses, or a unary operator before one of these. */
  predicate NoBinary(e: Expr) { Grammatical(e) && !e.Bin? }

  /** Three parts and two operators without parentheses, ... */
  function Flat(x: Expr, o1: Token, y: Expr, o2: Token, z: Expr): seq<Token> {
    Unparse(x) + [o1] + Unparse(y) + [o2] + Unparse(z)
  }

  /** ... with the first two parts in parentheses, ... */
  function FirstGrouped(x: Expr, o1: Token, y: Expr, o2: Token, z: Expr): seq<Token> {
    [LParen] + (Unparse(x) + [o1] + Unparse(y)) + [RParen] + [o2] + Unparse(z)
  }

  /** ... and with the last two. */
  function LastGrouped(x: Expr, o1: Token, y: Expr, o2: Token, z: Expr): seq<Token> {
    Unparse(x) + [o1] + ([LParen] + (Unparse(y) + [o2] + Unparse(z)) + [RParen])
  }

  lemma FlatTrees(i: nat, j: nat, x: Expr, o1: Token, y: Expr, o2: Token, z: Expr)
    requires i < 5 && j < 5 && o1 in CLASSES[i] && o2 in CLASSES[j]
    requires NoBinary(x) && NoBinary(y) && NoBinary(z)
    ensures var e := if i < j then Bin(o1, x, Bin(o2, y, z)) else Bin(o2, Bin(o1, x, y), z);
            Grammatical(e) && Unparse(e) == Flat(x, o1, y, o2, z)
  {
    hide Unparse, Flat;
    FlatTokens(x, o1, y, o2, z);
    ClassIs(i, o1);
    ClassIs(j, o2);
    hide Priority, IsBinary;
    if i < j { assert Grammatical(Bin(o2, y, z)); } else { assert Grammatical(Bin(o1, x, y)); }
  }

  /** Either tree is written without parentheses. */
  lemma FlatTokens(x: Expr, o1: Token, y: Expr, o2: Token, z: Expr)
    ensures Unparse(Bin(o1, x, Bin(o2, y, z))) == Flat(x, o1, y, o2, z) == Unparse(Bin(o2, Bin(o1, x, y), z))
  {
    var first, last := Bin(o1, x, y), Bin(o2, y, z);
    UnparseBin(o1, x, y);
    UnparseBin(o2, y, z);
    UnparseBin(o1, x, last);
    UnparseBin(o2, first, z);
    hide Unparse;
    FlatFromRight(Unparse(x) + [o1], Unparse(y), o2, Unparse(z));
  }

  lemma UnparseBin(op: Token, l: Expr, r: Expr)
    ensures Unparse(Bin(op, l, r)) == Unparse(l) + [op] + Unparse(r)
  {
  }

  lemma FlatFromRight(a: seq<Token>, b: seq<Token>, op: Token, c: seq<Token>)
    ensures a + (b + [op] + c) == a + b + [op] + c
  {
    ConcatAssoc(a, b + [op], c);
    ConcatAssoc(a, b, [op]);
  }

  lemma GroupedTrees(i: nat, j: nat, x: Expr, o1: Token, y: Expr, o2: Token, z: Expr)
    requires i < 5 && j < 5 && o1 in CLASSES[i] && o2 in CLASSES[j]
    requires NoBinary(x) && NoBinary(y) && NoBinary(z)
    ensures var first, last := Bin(o2, Paren(Bin(o1, x, y)), z), Bin(o1, x, Paren(Bin(o2, y, z)));
            && Grammatical(first) && Unparse(first) == FirstGrouped(x, o1, y, o2, z)
            && Grammatical(last) && Unparse(last) == LastGrouped(x, o1, y, o2, z)
  {
    ClassIs(i, o1);
    ClassIs(j, o2);
    hide Priority;
    assert Grammatical(Bin(o1, x, y)) && Grammatical(Bin(o2, y, z));
    assert Unparse(Paren(Bin(o1, x, y))) == [LParen] + Unparse(Bin(o1, x, y)) + [RParen];
    assert Unparse(Paren(Bin(o2, y, z))) == [LParen] + Unparse(Bin(o2, y, z)) + [RParen];
  }

  /** Without parentheses, a tighter second operator takes its two sides first, and otherwise the
      first operator does: a * b + c, a + b * c, and a - b - c to the left. */
  lemma Precedence(i: nat, j: nat, x: Expr, o1: Token, y: Expr, o2: Token, z: Expr, env: Env)
    requires i < 5 && j < 5 && o1 in CLASSES[i] && o2 in CLASSES[j]
    requires NoBinary(x) && NoBinary(y) && NoBinary(z)
    ensures Eval(Flat(x, o1, y, o2, z), env) ==
              Eval(if i < j then LastGrouped(x, o1, y, o2, z) else FirstGrouped(x, o1, y, o2, z), env)
  {
    hide Eval, Unparse, Flat, FirstGrouped, LastGrouped, Grammatical, NoBinary, ApplyBinary;
    FlatTrees(i, j, x, o1, y, o2, z);
    GroupedTrees(i, j, x, o1, y, o2, z);
    EvalOfUnparse(if i < j then Bin(o1, x, Bin(o2, y, z)) else Bin(o2, Bin(o1, x, y), z), env);
    EvalOfUnparse(if i < j then Bin(o1, x, Paren(Bin(o2, y, z))) else Bin(o2, Paren(Bin(o1, x, y)), z), env);
  }

  /** The printer writes parentheses just where this would group otherwise. */
  lemma PrintedGrouping(i: nat, j: nat, x: Expr, o1: Token, y: Expr, o2: Token, z: Expr)
    requires i < 5 && j < 5 && o1 in CLASSES[i] && o2 in CLASSES[j]
    requires NoBinary(x) && NoBinary(y) && NoBinary(z)
    ensures Unparse(Parenthesize(Bin(o1, x, Bin(o2, y, z)))) ==
              if i < j then Flat(x, o1, y, o2, z) else LastGrouped(x, o1, y, o2, z)
    ensures Unparse(Parenthesize(Bin(o2, Bin(o1, x, y), z))) ==
              if i < j then FirstGrouped(x, o1, y, o2, z) else Flat(x, o1, y, o2, z)
  {
    FlatTrees(i, j, x, o1, y, o2, z);
    GroupedTrees(i, j, x, o1, y, o2, z);
    ClassIs(i, o1);
    ClassIs(j, o2);
    hide Unparse, Priority, Flat, FirstGrouped, LastGrouped;
    ParenthesizeKeepsGrammatical(x);
    ParenthesizeKeepsGrammatical(y);
    ParenthesizeKeepsGrammatical(z);
  }

  /** a + b * c and a - b - c in numbers. */
  lemma SumOfProduct(a: Token, b: Token, c: Token, x: uint32, y: uint32, z: uint32, env: Env)
    requires a.Operand? && b.Operand? && c.Operand?
    requires env.operand(a) == Some(x) && env.operand(b) == Some(y) && env.operand(c) == Some(z)
    ensures Eval([a, Plus, b, Star, c], env) == Some((x + y * z) % 0x1_0000_0000)
    ensures Eval([a, Minus, b, Minus, c], env) == Some((x as int - y - z) % 0x1_0000_0000)
  {
    hide Eval, ApplyBinary, Value;
    EvalFlat(3, 4, a, Plus, b, Star, c, env);
    EvalFlat(3, 3, a, Minus, b, Minus, c, env);
    WrappedTwice(x, y, z);
    ValueOfLeaf(a, env);
    ValueOfLeaf(b, env);
    ValueOfLeaf(c, env);
    ValueOfBin(Star, Leaf(b), Leaf(c), env);
    ValueOfBin(Plus, Leaf(a), Bin(Star, Leaf(b), Leaf(c)), env);
    ValueOfBin(Minus, Leaf(a), Leaf(b), env);
    ValueOfBin(Minus, Bin(Minus, Leaf(a), Leaf(b)), Leaf(c), env);
  }

  lemma ValueOfLeaf(a: Token, env: Env)
    requires a.Operand?
    ensures Value(Leaf(a), env) == env.operand(a)
  {
  }

  lemma ValueOfBin(op: Token, l: Expr, r: Expr, env: Env)
    requires IsBinary(op) && Value(l, env).Some? && Value(r, env).Some?
    ensures Value(Bin(op, l, r), env) == ApplyBinary(op, Value(l, env).value, Value(r, env).value)
  {
    hide ApplyBinary, ApplyUnary, IsUnary;
  }

  lemma WrappedTwice(x: uint32, y: uint32, z: uint32)
    ensures ApplyBinary(Star, y, z).Some? && ApplyBinary(Minus, x, y).Some?
    ensures ApplyBinary(Plus, x, ApplyBinary(Star, y, z).value) == Some((x + y * z) % WORD)
    ensures ApplyBinary(Minus, ApplyBinary(Minus, x, y).value, z) == Some((x as int - y - z) % WORD)
  {
    var product := y * z;
    ModOfWrapped(x, product);
    ModOfWrapped(-(z as int), x as int - y);
  }

  lemma EvalFlat(i: nat, j: nat, a: Token, o1: Token, b: Token, o2: Token, c: Token, env: Env)
    requires i < 5 && j < 5 && o1 in CLASSES[i] && o2 in CLASSES[j] && a.Operand? && b.Operand? && c.Operand?
    ensures var e := if i < j then Bin(o1, Leaf(a), Bin(o2, Leaf(b), Leaf(c)))
                     else Bin(o2, Bin(o1, Leaf(a), Leaf(b)), Leaf(c));
            Eval([a, o1, b, o2, c], env) == Value(e, env)
  {
    FlatTrees(i, j, Leaf(a), o1, Leaf(b), o2, Leaf(c));
    assert Flat(Leaf(a), o1, Leaf(b), o2, Leaf(c)) == [a, o1, b, o2, c];
    hide Eval, Unparse, Flat;
    EvalOfUnparse(if i < j then Bin(o1, Leaf(a), Bin(o2, Leaf(b), Leaf(c)))
                  else Bin(o2, Bin(o1, Leaf(a), Leaf(b)), Leaf(c)), env);
  }

  lemma ModOfWrapped(n: int, m: int)
    ensures (n + ToU32(m)) % WORD == (n + m) % WORD
  {
    var q, s := m / WORD, n + ToU32(m);
    ModUnique(n + m, WORD, q + s / WORD, s % WORD);
  }
}
