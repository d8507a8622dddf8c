/** The loop of expr that tells unary from binary '-' and '*' (nemu/src/monitor/expr.c), and the
    whole way from printed tokens to a value. */
module ExprTokens {
  import opened MachineInts
  import opened Basics
  import opened ExprSyntax
  import opened ExprEval
  import opened ExprBlanks
  import opened ExprMonitor

  /** What the loop accepts after a unary operator: not a register, and not the number 0. */
  predicate Starts(next: Token) {
    next.LParen? || (next.Operand? && (next.kind.Num? || next.kind.HexNum? || next.kind.Symb?))
  }

  /** What it accepts before a unary minus; before a dereference also a unary minus. */
  predicate NegBefore(prev: Token) {
    || prev.Plus? || prev.Minus? || prev.Star? || prev.Slash? || prev.LParen?
    || prev.And? || prev.Or? || prev.Not? || prev.Eq? || prev.Neq?
  }

  predicate DerefBefore(prev: Token) { NegBefore(prev) || prev.Neg? }

  /** Lines 404-467, for one token; prev has been classified already. */
  function ClassifyOne(prev: Token, cur: Token, next: Token, i: nat): Token {
    if cur.Star? && (i == 0 || (Starts(next) && DerefBefore(prev))) then Deref
    else if cur.Minus? && (i == 0 || (Starts(next) && NegBefore(prev))) then Neg
    else cur
  }

  /** The first k tokens after the loop; the last token of all is never looked at. */
  function Classified(raw: seq<Token>, k: nat): (ts: seq<Token>)
    requires k <= |raw|
    ensures |ts| == k
  {
    if k == 0 then []
    else
      var ts := Classified(raw, k - 1);
      var prev := if k == 1 then raw[0] else ts[k - 2];
      ts + [if k < |raw| then ClassifyOne(prev, raw[k - 1], raw[k], k - 1) else raw[k - 1]]
  }

  /** Line 402, in place. */
  method Classify(tokens: array<Token>, nr: nat)
    requires nr <= tokens.Length
    modifies tokens
    ensures tokens[..] == Classified(old(tokens[..nr]), nr) + old(tokens[nr..])
  {
    ghost var raw := tokens[..nr];
    hide Starts, NegBefore, DerefBefore, Classified;
    var i := 0;
    while i < nr - 1
      invariant 0 <= i && (i <= nr - 1 || nr == 0 == i)
      invariant forall j | 0 <= j < i :: tokens[j] == Classified(raw, i)[j]
      invariant forall j | i <= j < tokens.Length :: tokens[j] == old(tokens[j])
    {
      ghost var before, prev := Classified(raw, i), if i == 0 then raw[0] else tokens[i - 1];
      ClassifiedStep(raw, i);
      assert i > 0 ==> prev == before[i - 1];
      var unary := false;
      if tokens[i].Star? {
        if i == 0 {
          unary := true;
        } else if Starts(tokens[i + 1]) {
          unary := DerefBefore(tokens[i - 1]);
        }
        if unary { tokens[i] := Deref; }
      } else if tokens[i].Minus? {
        if i == 0 {
          unary := true;
        } else if Starts(tokens[i + 1]) {
          unary := NegBefore(tokens[i - 1]);
        }
        if unary { tokens[i] := Neg; }
      }
      i := i + 1;
    }
    if nr > 0 { ClassifiedStep(raw, nr - 1); }
    assert forall j | 0 <= j < nr :: tokens[j] == Classified(raw, nr)[j];
  }

  lemma ClassifiedStep(raw: seq<Token>, k: nat)
    requires k < |raw|
    ensures var ts := Classified(raw, k);
            var prev := if k == 0 then raw[0] else ts[k - 1];
            Classified(raw, k + 1) ==
              ts + [if k + 1 < |raw| then ClassifyOne(prev, raw[k], raw[k + 1], k) else raw[k]]
  {
  }

  lemma {:induction false} ClassifiedPrefix(raw: seq<Token>, i: nat, k: nat)
    requires i < k <= |raw|
    ensures Classified(raw, k)[i] == Classified(raw, i + 1)[i]
  {
    if i + 1 < k {
      ClassifiedStep(raw, k - 1);
      ClassifiedPrefix(raw, i, k - 1);
    }
  }

  /** Which minus signs and stars become unary, token by token.  The last token never does, and the
      first one always.  In between, a left parenthesis or an operand other than a register and the
      number 0 has to follow, and what was made of the token before must not be an operand, a right
      parenthesis, a blank or a unary star, and before a minus no unary minus. */
  lemma ClassifiedToken(raw: seq<Token>, i: nat)
    requires i < |raw|
    ensures var cs := Classified(raw, |raw|);
            var follows := i + 1 < |raw| && var next := raw[i + 1];
                           next.LParen? || (next.Operand? && !next.kind.Reg? && !next.kind.Zero?);
            var free := i > 0 && var prev := cs[i - 1];
                        !prev.Operand? && !prev.RParen? && !prev.Space? && !prev.Deref?;
            cs[i] ==
              if raw[i].Minus? && i + 1 < |raw| && (i == 0 || (follows && free && !cs[i - 1].Neg?)) then Neg
              else if raw[i].Star? && i + 1 < |raw| && (i == 0 || (follows && free)) then Deref
              else raw[i]
  {
    hide Classified, ClassifyOne;
    ClassifiedStep(raw, i);
    ClassifiedPrefix(raw, i, |raw|);
    if i > 0 {
      ClassifiedPrefix(raw, i - 1, |raw|);
      ClassifiedPrefix(raw, i - 1, i);
    }
    if i + 1 < |raw| { ClassifyOneIs(if i == 0 then raw[0] else Classified(raw, i)[i - 1], raw[i], raw[i + 1], i); }
  }

  lemma ClassifyOneIs(prev: Token, cur: Token, next: Token, i: nat)
    ensures var follows := next.LParen? || (next.Operand? && !next.kind.Reg? && !next.kind.Zero?);
            var free := !prev.Operand? && !prev.RParen? && !prev.Space? && !prev.Deref?;
            ClassifyOne(prev, cur, next, i) ==
              if cur.Minus? && (i == 0 || (follows && free && !prev.Neg?)) then Neg
              else if cur.Star? && (i == 0 || (follows && free)) then Deref
              else cur
  {
  }

  // ---------- printed tokens ----------

  /** The token as it is typed: both minus signs and both stars look the same. */
  function Typed(t: Token): Token { if t.Neg? then Minus else if t.Deref? then Star else t }

  function Type(ts: seq<Token>): (raw: seq<Token>)
    ensures |raw| == |ts| && forall i | 0 <= i < |ts| :: raw[i] == Typed(ts[i])
  {
    if ts == [] then [] else [Typed(ts[0])] + Type(ts[1..])
  }

  /** Every unary minus and star, except a first token, is followed by something the loop accepts. */
  predicate StartsFrom(first: bool, ts: seq<Token>) {
    forall i | (if first then 1 else 0) <= i < |ts| - 1 && (ts[i].Neg? || ts[i].Deref?) :: Starts(ts[i + 1])
  }

  predicate UnaryStarts(ts: seq<Token>) { StartsFrom(true, ts) }

  /** A unary minus or star after the first token stands before a register or the number 0. */
  predicate BeforeRegOrZero(ts: seq<Token>) {
    exists i | 1 <= i < |ts| - 1 ::
      (ts[i].Neg? || ts[i].Deref?) && ts[i + 1].Operand? && (ts[i + 1].kind.Reg? || ts[i + 1].kind.Zero?)
  }

  /** In a printed expression these are the operators before which the loop looks for nothing else. */
  lemma UnaryStartsMeans(e: Expr)
    requires Grammatical(e)
    ensures UnaryStarts(Unparse(e)) <==> !BeforeRegOrZero(Unparse(e))
  {
    UnparseUnaryFollowed(e);
    hide Unparse;
    var ts := Unparse(e);
    forall i | 1 <= i < |ts| - 1 && (ts[i].Neg? || ts[i].Deref?)
      ensures Starts(ts[i + 1]) <==> !(ts[i + 1].Operand? && (ts[i + 1].kind.Reg? || ts[i + 1].kind.Zero?))
    {
      assert IsUnary(ts[i]);
    }
    hide Starts;
  }

  // ---------- the loop from the front ----------

  /** The loop's result for what is left of the tokens, after prev. */
  function Scan(prev: Token, first: bool, raw: seq<Token>): (cs: seq<Token>)
    ensures |cs| == |raw|
    decreases |raw|
  {
    if raw == [] then []
    else
      var c := if |raw| == 1 then raw[0] else ClassifyOne(prev, raw[0], raw[1], if first then 0 else 1);
      [c] + Scan(c, false, raw[1..])
  }

  lemma {:induction false} ClassifiedIsScan(raw: seq<Token>, k: nat)
    requires k <= |raw| && raw != []
    ensures var cs := Classified(raw, k);
            Classified(raw, |raw|) == cs + Scan(if k == 0 then raw[0] else cs[k - 1], k == 0, raw[k..])
    decreases |raw| - k
  {
    hide ClassifyOne;
    var cs := Classified(raw, k);
    if k == |raw| {
      assert raw[k..] == [];
    } else {
      ClassifiedIsScan(raw, k + 1);
      ScanStep(raw, k, if k == 0 then raw[0] else cs[k - 1]);
    }
  }

  lemma ScanStep(raw: seq<Token>, k: nat, prev: Token)
    requires k < |raw|
    ensures var c := if k + 1 < |raw| then ClassifyOne(prev, raw[k], raw[k + 1], k) else raw[k];
            Scan(prev, k == 0, raw[k..]) == [c] + Scan(c, false, raw[k + 1..])
  {
    assert raw[k..][1..] == raw[k + 1..];
  }

  // ---------- printed tokens, typed with blanks ----------

  /** c is t, or t misread as a binary operator. */
  predicate Reads(t: Token, c: Token) { c == t || ((t.Neg? || t.Deref?) && c == Typed(t)) }

  predicate Reading(ts: seq<Token>, cs: seq<Token>) {
    |cs| == |ts| && forall i | 0 <= i < |ts| :: Reads(ts[i], cs[i])
  }

  /** ts may follow p in a printed expression; at its start p is a left parenthesis. */
  predicate Follows(p: Token, ts: seq<Token>) {
    && (ts != [] ==> Adjacent(p, ts[0]))
    && forall i | 1 <= i < |ts| :: Adjacent(ts[i - 1], ts[i])
  }

  lemma FollowsTail(p: Token, ts: seq<Token>)
    requires Follows(p, ts) && ts != []
    ensures Adjacent(p, ts[0]) && Follows(ts[0], ts[1..])
  {
  }

  lemma TypeTail(ts: seq<Token>)
    requires ts != []
    ensures Type(ts)[0] == Typed(ts[0]) && Type(ts)[1..] == Type(ts[1..])
  {
  }

  /** The state of the scan: what comes before, as it was typed or printed, and the token prev that
      the loop left there. */
  predicate After(prev: Token, first: bool, p: Token) { if first then p.LParen? else prev.Space? || Reads(p, prev) }

  /** One token, with next typed after it. */
  lemma ReadOne(prev: Token, first: bool, p: Token, t: Token, next: Token)
    requires After(prev, first, p) && Adjacent(p, t)
    ensures var c := ClassifyOne(prev, Typed(t), next, if first then 0 else 1);
            && Reads(t, c)
            && (!prev.Space? || first ==> (c == t <==> (t.Neg? || t.Deref?) && !first ==> Starts(next)))
  {
  }

  /** Whatever the blanks, the loop reads each token of a printed expression as itself or as the
      binary operator that looks like it. */
  lemma {:induction false} ScanReads(prev: Token, first: bool, raw: seq<Token>, p: Token, ts: seq<Token>)
    requires Despace(raw) == Type(ts) && Follows(p, ts) && After(prev, first, p)
    ensures Reading(ts, Despace(Scan(prev, first, raw)))
    decreases |raw|
  {
    hide ClassifyOne, Adjacent, Follows, Reading, Despace, Type, Scan;
    if raw == [] {
      NothingRead(prev, first, ts);
    } else {
      var c, cs := ScanCons(prev, first, raw);
      if raw[0].Space? {
        ScanReads(c, false, raw[1..], p, ts);
      } else {
        TypeTail(ts);
        FollowsTail(p, ts);
        if |raw| > 1 { ReadOne(prev, first, p, ts[0], raw[1]); }
        ScanReads(c, false, raw[1..], ts[0], ts[1..]);
        ReadingCons(c, ts, Despace(cs));
      }
    }
  }

  /** One step of the scan, and of taking the blanks out before and after it. */
  lemma {:induction false} ScanCons(prev: Token, first: bool, raw: seq<Token>) returns (c: Token, cs: seq<Token>)
    requires raw != []
    ensures c == if |raw| == 1 then raw[0] else ClassifyOne(prev, raw[0], raw[1], if first then 0 else 1)
    ensures cs == Scan(c, false, raw[1..]) && Scan(prev, first, raw) == [c] + cs
    ensures raw[0].Space? ==> c == Space && Despace(raw) == Despace(raw[1..]) && Despace([c] + cs) == Despace(cs)
    ensures !raw[0].Space? ==>
              Despace(raw) == [raw[0]] + Despace(raw[1..]) && Despace([c] + cs) == [c] + Despace(cs)
  {
    c := if |raw| == 1 then raw[0] else ClassifyOne(prev, raw[0], raw[1], if first then 0 else 1);
    cs := Scan(c, false, raw[1..]);
    assert raw == [raw[0]] + raw[1..];
    DespaceCons(raw[0], raw[1..]);
    DespaceCons(c, cs);
  }

  lemma NothingRead(prev: Token, first: bool, ts: seq<Token>)
    requires Despace([]) == Type(ts)
    ensures ts == [] && Reading(ts, Despace(Scan(prev, first, [])))
  {
  }

  lemma ReadingCons(c: Token, ts: seq<Token>, cs: seq<Token>)
    requires ts != [] && Reads(ts[0], c) && Reading(ts[1..], cs)
    ensures Reading(ts, [c] + cs)
  {
  }

  // ---------- which blanks and operators survive the loop ----------

  /** Every stretch of blanks is typed directly before a '!'. */
  predicate BeforeNot(raw: seq<Token>) {
    forall i | 0 <= i < |raw| && raw[i].Space? :: i + 1 < |raw| && (raw[i + 1].Space? || raw[i + 1].Not?)
  }

  predicate IsTyped(raw: seq<Token>) { forall i | 0 <= i < |raw| :: !raw[i].Neg? && !raw[i].Deref? }

  lemma {:induction false} TypedAreTyped(raw: seq<Token>, ts: seq<Token>)
    requires Despace(raw) == Type(ts)
    ensures IsTyped(raw)
    decreases |raw|
  {
    if raw != [] {
      if raw[0].Space? {
        TypedAreTyped(raw[1..], ts);
      } else {
        TypeTail(ts);
        TypedAreTyped(raw[1..], ts[1..]);
      }
      assert raw == [raw[0]] + raw[1..];
    }
  }

  /** Blanks stay where they are, and after one only a '!' is unary. */
  lemma {:induction false} ScanAt(prev: Token, first: bool, raw: seq<Token>, i: nat)
    requires IsTyped(raw) && i < |raw|
    ensures var cs := Scan(prev, first, raw);
            && (cs[i].Space? <==> raw[i].Space?)
            && ((if i == 0 then !first && prev.Space? else cs[i - 1].Space?) ==> (IsUnary(cs[i]) <==> raw[i].Not?))
    decreases |raw|
  {
    var c := Scan(prev, first, raw)[0];
    if i > 0 { ScanAt(c, false, raw[1..], i - 1); }
  }

  lemma ScanHarmless(prev: Token, first: bool, raw: seq<Token>)
    requires IsTyped(raw)
    ensures Harmless(Scan(prev, first, raw)) <==> BeforeNot(raw)
  {
    var cs := Scan(prev, first, raw);
    forall i: nat | i < |raw|
      ensures cs[i].Space? <==> raw[i].Space?
      ensures i > 0 && cs[i - 1].Space? ==> (IsUnary(cs[i]) <==> raw[i].Not?)
    {
      ScanAt(prev, first, raw, i);
    }
    hide Scan;
    if BeforeNot(raw) {
      forall i | 0 <= i < |cs| && cs[i].Space? ensures i + 1 < |cs| && (cs[i + 1].Space? || IsUnary(cs[i + 1])) {}
    }
    if Harmless(cs) {
      forall i | 0 <= i < |raw| && raw[i].Space? ensures i + 1 < |raw| && (raw[i + 1].Space? || raw[i + 1].Not?) {}
    }
  }

  lemma BeforeNotTail(raw: seq<Token>)
    requires BeforeNot(raw) && raw != []
    ensures BeforeNot(raw[1..])
  {
    forall i | 0 <= i < |raw[1..]| && raw[1..][i].Space?
      ensures i + 1 < |raw[1..]| && (raw[1..][i + 1].Space? || raw[1..][i + 1].Not?)
    {
      assert raw[i + 1].Space?;
    }
  }

  lemma {:induction false} NextIsNot(raw: seq<Token>, ts: seq<Token>)
    requires raw != [] && raw[0].Space? && BeforeNot(raw) && Despace(raw) == Type(ts)
    ensures ts != [] && ts[0].Not?
    decreases |raw|
  {
    BeforeNotTail(raw);
    assert raw[1..][0] == raw[1];
    if raw[1].Space? { NextIsNot(raw[1..], ts); }
  }

  lemma {:induction false} NextStarts(raw: seq<Token>, ts: seq<Token>)
    requires BeforeNot(raw) && Despace(raw) == Type(ts) && raw != [] && !raw[0].Space?
    requires |ts| > 1 && IsUnary(ts[0]) && Adjacent(ts[0], ts[1])
    ensures |raw| > 1 && (Starts(raw[1]) <==> Starts(ts[1]))
  {
    TypeTail(ts);
    TypeTail(ts[1..]);
    BeforeNotTail(raw);
    assert Despace(raw[1..]) == Type(ts[1..]);
    assert raw[1..] != [] by { assert Despace([]) == []; }
    assert raw[1..][0] == raw[1];
    if raw[1].Space? { NextIsNot(raw[1..], ts[1..]); }
  }

  lemma StartsTail(first: bool, ts: seq<Token>)
    requires ts != []
    ensures StartsFrom(first, ts) <==>
              (!first && |ts| > 1 && (ts[0].Neg? || ts[0].Deref?) ==> Starts(ts[1])) && StartsFrom(false, ts[1..])
  {
    hide Starts;
    var tail := ts[1..];
    if StartsFrom(first, ts) {
      forall i | 0 <= i < |tail| - 1 && (tail[i].Neg? || tail[i].Deref?) ensures Starts(tail[i + 1]) {
        assert tail[i] == ts[i + 1];
      }
    }
    if StartsFrom(false, tail) {
      forall i | 1 <= i < |ts| - 1 && (ts[i].Neg? || ts[i].Deref?) ensures Starts(ts[i + 1]) {
        assert ts[i] == tail[i - 1];
      }
    }
  }

  /** With blanks before '!' only, the loop recovers the printed tokens exactly when it accepts
      what follows their unary operators. */
  lemma {:induction false} ScanExact(prev: Token, first: bool, raw: seq<Token>, p: Token, ts: seq<Token>)
    requires Despace(raw) == Type(ts) && Follows(p, ts) && After(prev, first, p) && BeforeNot(raw)
    requires (ts != [] ==> Ends(ts[|ts| - 1])) && (prev.Space? && !first ==> ts != [] && ts[0].Not?)
    ensures Despace(Scan(prev, first, raw)) == ts <==> StartsFrom(first, ts)
    decreases |raw|
  {
    hide ClassifyOne, Adjacent, Starts, BeforeNot, StartsFrom, Follows, Despace, Type, Scan;
    if raw == [] {
      NothingRead(prev, first, ts);
      NothingStarts(first);
    } else {
      BeforeNotTail(raw);
      if raw[0].Space? {
        NextIsNot(raw, ts);
        var c, _ := ScanCons(prev, first, raw);
        ScanExact(c, false, raw[1..], p, ts);
        StartsTail(first, ts);
        StartsTail(false, ts);
      } else {
        ReadFirst(prev, first, raw, p, ts);
        var c, cs := ScanCons(prev, first, raw);
        TypeTail(ts);
        FollowsTail(p, ts);
        StartsTail(first, ts);
        ScanExact(c, false, raw[1..], ts[0], ts[1..]);
        SameCons(c, Despace(cs), ts);
      }
    }
  }

  lemma SameCons(c: Token, cs: seq<Token>, ts: seq<Token>)
    requires ts != []
    ensures [c] + cs == ts <==> c == ts[0] && cs == ts[1..]
  {
    assert ts == [ts[0]] + ts[1..];
    assert ([c] + cs)[1..] == cs;
  }

  lemma NothingStarts(first: bool)
    ensures StartsFrom(first, [])
  {
  }

  lemma {:induction false} ReadFirst(prev: Token, first: bool, raw: seq<Token>, p: Token, ts: seq<Token>)
    requires Despace(raw) == Type(ts) && Follows(p, ts) && After(prev, first, p) && BeforeNot(raw)
    requires raw != [] && !raw[0].Space?
    requires (ts != [] ==> Ends(ts[|ts| - 1])) && (prev.Space? && !first ==> ts != [] && ts[0].Not?)
    ensures ts != [] && !ts[0].Space?
    ensures var c := Scan(prev, first, raw)[0];
            Reads(ts[0], c) && (c == ts[0] <==> (!first && |ts| > 1 && (ts[0].Neg? || ts[0].Deref?) ==> Starts(ts[1])))
  {
    TypeTail(ts);
    FollowsTail(p, ts);
    if |raw| > 1 {
      ReadOne(prev, first, p, ts[0], raw[1]);
      if |ts| > 1 && IsUnary(ts[0]) { NextStarts(raw, ts); }
    } else {
      assert raw[1..] == [];
    }
    hide ClassifyOne, Starts, BeforeNot;
  }

  lemma SameSides(ts: seq<Token>, cs: seq<Token>)
    requires |cs| == |ts| && Balanced(ts) && forall i | 0 <= i < |ts| :: Side(cs[i]) == Side(ts[i])
    ensures Balanced(cs)
  {
    assert ts[..|ts|] == ts && cs[..|cs|] == cs;
    forall i: nat | i <= |ts| ensures Depth(cs[..i]) == Depth(ts[..i]) { SameDepth(ts, cs, i); }
  }

  lemma {:induction false} SameDepth(ts: seq<Token>, cs: seq<Token>, i: nat)
    requires |cs| == |ts| && i <= |ts| && forall i | 0 <= i < |ts| :: Side(cs[i]) == Side(ts[i])
    ensures Depth(cs[..i]) == Depth(ts[..i])
  {
    if i > 0 {
      SameDepth(ts, cs, i - 1);
      assert cs[..i][..i - 1] == cs[..i - 1] && ts[..i][..i - 1] == ts[..i - 1];
    }
  }

  /** A misread operator leaves parentheses matched and unary operators placed, but is a binary one
      where no operand ends. */
  lemma MisreadSpoils(ts: seq<Token>, cs: seq<Token>)
    requires WellPlaced(ts) && Balanced(ts) && Reading(ts, cs)
    ensures Balanced(cs) && UnaryPlaced(cs) && (cs != ts ==> !WellPlaced(cs))
  {
    hide Depth;
    SameSides(ts, cs);
    StillPlaced(ts, cs);
    if cs != ts {
      var i :| 0 <= i < |ts| && cs[i] != ts[i];
      MisreadAt(ts, cs, i);
    }
  }

  lemma StillPlaced(ts: seq<Token>, cs: seq<Token>)
    requires WellPlaced(ts) && Reading(ts, cs)
    ensures UnaryPlaced(cs)
  {
    forall i | 1 <= i < |cs| && IsUnary(cs[i]) ensures IsBinary(cs[i - 1]) || cs[i - 1].LParen? {
      assert Adjacent(ts[i - 1], ts[i]) && Reads(ts[i], cs[i]) && Reads(ts[i - 1], cs[i - 1]);
    }
  }

  lemma MisreadAt(ts: seq<Token>, cs: seq<Token>, i: nat)
    requires WellPlaced(ts) && Reading(ts, cs) && i < |ts| && cs[i] != ts[i]
    ensures !WellPlaced(cs)
  {
    assert Reads(ts[i], cs[i]) && IsBinary(cs[i]);
    if i > 0 {
      assert Adjacent(ts[i - 1], ts[i]) && Reads(ts[i - 1], cs[i - 1]);
      assert !Adjacent(cs[i - 1], cs[i]);
    }
  }

  // ---------- the whole way ----------

  /** Line 392 after tokenising: classify, then evaluate all tokens. */
  method ExprValue(tokens: array<Token>, nr: nat, env: Env) returns (value: uint32, success: bool)
    requires nr <= tokens.Length == MAX_TOKENS
    modifies tokens
    ensures var result := Eval(Classified(old(tokens[..nr]), nr), env);
            if success then result == Some(value) else result == None
  {
    Classify(tokens, nr);
    assert tokens[..nr] == Classified(old(tokens[..nr]), nr);
    assert tokens[..][0..nr] == tokens[..nr];
    value, success := EvalRange(tokens[..], 0, nr - 1, env, true);
  }

  /** What the loop makes of a printed expression typed with blanks. */
  lemma {:induction false} ClassifiedTyped(e: Expr, raw: seq<Token>)
    requires Grammatical(e) && Despace(raw) == Type(Unparse(e))
    ensures var ts, cs := Unparse(e), Classified(raw, |raw|);
            && Reading(ts, Despace(cs))
            && (Harmless(cs) <==> BeforeNot(raw))
            && (BeforeNot(raw) ==> (Despace(cs) == ts <==> !BeforeRegOrZero(ts)))
  {
    var ts := Unparse(e);
    UnparseIsWellPlaced(e);
    assert Follows(LParen, ts);
    assert raw != [] by { TypeTail(ts); assert Despace([]) == []; }
    hide Unparse, WellPlaced, Classified, Despace, Type, Scan;
    ClassifiedIsScan(raw, 0);
    ClassifiedNone(raw);
    assert raw[0..] == raw && [] + Scan(raw[0], true, raw) == Scan(raw[0], true, raw);
    TypedAreTyped(raw, ts);
    ScanReads(raw[0], true, raw, LParen, ts);
    ScanHarmless(raw[0], true, raw);
    if BeforeNot(raw) { ScanExact(raw[0], true, raw, LParen, ts); }
    UnaryStartsMeans(e);
  }

  lemma ClassifiedNone(raw: seq<Token>)
    ensures Classified(raw, 0) == []
  {
  }

  lemma {:induction false} NothingToDespace(cs: seq<Token>)
    requires Space !in cs
    ensures Despace(cs) == cs && BeforeNot(cs)
  {
    if cs != [] { NothingToDespace(cs[1..]); }
  }

  lemma TypeHasNoSpace(ts: seq<Token>)
    requires Space !in ts
    ensures Space !in Type(ts)
  {
    forall i | 0 <= i < |ts| ensures Type(ts)[i] != Space { assert ts[i] in ts; }
  }

  /** Typed without blanks, the loop recovers the operators of a printed expression exactly when
      none of its unary operators, except at the very start, stands before a register or the
      number 0. */
  lemma {:induction false} ClassifyRecovers(e: Expr)
    requires Grammatical(e)
    ensures var ts := Unparse(e); Classified(Type(ts), |ts|) == ts <==> !BeforeRegOrZero(ts)
  {
    var ts := Unparse(e);
    var raw := Type(ts);
    UnparseHasNoSpace(e);
    hide *;
    TypeHasNoSpace(ts);
    NothingToDespace(raw);
    ClassifiedTyped(e, raw);
    var cs := Classified(raw, |raw|);
    NoNewSpace(raw);
    NothingToDespace(cs);
  }

  lemma {:induction false} NoNewSpace(raw: seq<Token>)
    requires Space !in raw
    ensures Space !in Classified(raw, |raw|)
  {
    if raw != [] { NoSpaceUpTo(raw, |raw|); }
  }

  lemma {:induction false} NoSpaceUpTo(raw: seq<Token>, k: nat)
    requires Space !in raw && k <= |raw|
    ensures Space !in Classified(raw, k)
  {
    if k > 0 {
      NoSpaceUpTo(raw, k - 1);
      assert raw[k - 1] in raw;
    }
  }

  /** From any expression tree, printed with the fewest parentheses and typed with blanks anywhere:
      the value of the tree, if every stretch of blanks stands directly before a '!' and the loop
      misreads no operator, and failure otherwise. */
  lemma {:induction false} TypedWithBlanks(e: Expr, raw: seq<Token>, env: Env)
    requires Operators(e) && Despace(raw) == Type(Unparse(Parenthesize(e)))
    ensures var ts := Unparse(Parenthesize(e));
            Eval(Classified(raw, |raw|), env) == if BeforeRegOrZero(ts) || !BeforeNot(raw) then None else Value(e, env)
  {
    hide Eval, Value, Despace, Classified, Type, Unparse, Parenthesize, Reading, WellPlaced, Harmless, BeforeNot,
        BeforeRegOrZero, Depth;
    var p := Parenthesize(e);
    var ts, cs := Unparse(p), Classified(raw, |raw|);
    ParenthesizeIsGrammatical(e);
    PrintThenEval(e, env);
    ClassifiedTyped(p, raw);
    UnparseIsWellPlaced(p);
    UnparseIsBalanced(p);
    MisreadSpoils(ts, Despace(cs));
    SpacedEval(cs, env);
    if Despace(cs) != ts && Eval(Despace(cs), env).Some? {
      var parse := EvalIsParse(Despace(cs), env);
      UnparseIsWellPlaced(parse);
    }
  }

  /** The same without blanks. */
  lemma {:induction false} TypedExpression(e: Expr, env: Env)
    requires Operators(e)
    ensures var ts := Unparse(Parenthesize(e));
            Eval(Classified(Type(ts), |ts|), env) == if BeforeRegOrZero(ts) then None else Value(e, env)
  {
    hide *;
    var ts := Unparse(Parenthesize(e));
    ParenthesizeIsGrammatical(e);
    UnparseHasNoSpace(Parenthesize(e));
    TypeHasNoSpace(ts);
    NothingToDespace(Type(ts));
    TypedWithBlanks(e, Type(ts), env);
  }

  /** "!-5": the loop makes the minus unary before a number or a name, and the evaluator then ignores
      the '!' before it; before a register or the number 0 the minus stays binary and nothing comes out. */
  lemma MinusAfterNot(n: Token, env: Env)
    requires n.Operand?
    ensures var cs := Classified([Not, Minus, n], 3);
            && cs == (if n.kind.Reg? || n.kind.Zero? then [Not, Minus, n] else [Not, Neg, n])
            && Eval(cs, env) == if n.kind.Reg? || n.kind.Zero? then None else Eval([Neg, n], env)
  {
    var raw := [Not, Minus, n];
    ClassifiedToken(raw, 0);
    ClassifiedToken(raw, 1);
    ClassifiedToken(raw, 2);
    hide Classified, ClassifyOne;
    var cs := Classified(raw, 3);
    assert cs == [cs[0], cs[1], cs[2]];
    if n.kind.Reg? || n.kind.Zero? {
      NothingBefore(n, env);
    } else {
      NotIsIgnored(n, env);
    }
  }

  lemma NotIsIgnored(n: Token, env: Env)
    requires n.Operand?
    ensures Eval([Not, Neg, n], env) == Eval([Neg, n], env)
  {
    assert Unparse(Un(Neg, Leaf(n))) == [Neg, n];
    assert [Not] + [Neg, n] == [Not, Neg, n] && [] + [Neg, n] == [Neg, n];
    BalancedToken(Not);
    hide Eval, Unparse, Value;
    assert forall i: nat | TopLevel([Not], i) :: IsUnary([Not][i]);
    IgnoredPrefix([Not], Neg, Leaf(n), env);
    EvalOfUnparse(Un(Neg, Leaf(n)), env);
  }

  /** A binary minus with only a '!' on its left. */
  lemma NothingBefore(n: Token, env: Env)
    requires n.Operand?
    ensures Eval([Not, Minus, n], env) == None
  {
    var ts := [Not, Minus, n];
    DepthOfConcat([Not, Minus], [n], 3);
    BalancedToken(Not);
    BalancedToken(Minus);
    BalancedToken(n);
    assert [Not] + [Minus] == [Not, Minus] && [Not, Minus] + [n] == ts;
    BalancedConcat([Not], [Minus]);
    BalancedConcat([Not, Minus], [n]);
    assert ts[0] == Not && ts[1] == Minus && !Adjacent(Not, Minus);
    hide Eval, Depth;
    if Eval(ts, env).Some? {
      var e := EvalIsParse(ts, env);
      UnparseIsWellPlaced(e);
    }
  }

  /** "1+ !x" has its value, and "1 + !x" fails. */
  lemma {:induction false} BlankExamples(one: Token, x: Token, env: Env)
    requires one.Operand? && x.Operand?
    ensures Eval(Classified([one, Plus, Space, Not, x], 5), env) == Value(Bin(Plus, Leaf(one), Un(Not, Leaf(x))), env)
    ensures Eval(Classified([one, Space, Plus, Space, Not, x], 6), env) == None
  {
    var e := Bin(Plus, Leaf(one), Un(Not, Leaf(x)));
    var good, bad := [one, Plus] + [Space] + [Not, x], [one] + [Space] + ([Plus] + [Space] + [Not, x]);
    assert good == [one, Plus, Space, Not, x] && bad == [one, Space, Plus, Space, Not, x];
    hide *;
    BlanksOfExamples(one, x);
    ExampleIsPrinted(one, x);
    DespaceExamples(one, x);
    TypedWithBlanks(e, good, env);
    TypedWithBlanks(e, bad, env);
  }

  lemma DespaceExamples(one: Token, x: Token)
    requires one.Operand? && x.Operand?
    ensures Despace([one, Plus] + [Space] + [Not, x]) == [one, Plus, Not, x]
    ensures Despace([one] + [Space] + ([Plus] + [Space] + [Not, x])) == [one, Plus, Not, x]
  {
    hide *;
    DespaceExample([one, Plus], [Not, x]);
    DespaceExample([Plus], [Not, x]);
    DespaceExample([one], [Plus] + [Space] + [Not, x]);
    NothingToDespace([Not, x]);
    assert [one, Plus] + [Not, x] == [one, Plus, Not, x] == [one] + ([Plus] + [Not, x]);
  }

  lemma BlanksOfExamples(one: Token, x: Token)
    requires one.Operand? && x.Operand?
    ensures BeforeNot([one, Plus, Space, Not, x]) && !BeforeNot([one, Space, Plus, Space, Not, x])
    ensures !BeforeRegOrZero([one, Plus, Not, x])
  {
    var bad := [one, Space, Plus, Space, Not, x];
    assert bad[1] == Space && bad[2] == Plus;
  }

  lemma ExampleIsPrinted(one: Token, x: Token)
    requires one.Operand? && x.Operand?
    ensures var e := Bin(Plus, Leaf(one), Un(Not, Leaf(x)));
            && Operators(e)
            && Unparse(Parenthesize(e)) == [one, Plus, Not, x] == Type([one, Plus, Not, x])
  {
    var e := Bin(Plus, Leaf(one), Un(Not, Leaf(x)));
    assert Grammatical(e.left) && Grammatical(e.right.arg) && Grammatical(e.right);
    ParenthesizeKeepsGrammatical(e);
    assert Unparse(e.right) == [Not, x];
  }

  lemma DespaceExample(a: seq<Token>, b: seq<Token>)
    requires Space !in a
    ensures Despace(a + [Space] + b) == a + Despace(b)
  {
    hide *;
    BlankIsDropped();
    DespaceConcat(a + [Space], b);
    DespaceConcat(a, [Space]);
    NothingToDespace(a);
  }

  lemma BlankIsDropped()
    ensures Despace([Space]) == []
  {
  }
}
