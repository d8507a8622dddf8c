# NEMU: what its hard parts compute

NEMU is an i386 emulator written in C, with a small kernel that runs on it. This project models the
parts of both whose correctness is not visible in a single function, and proves what they compute.
Machine integers are written out (`MachineInts`); every reduction modulo 2^32 in the C is a
reduction in the model. Loops of the C are loops here, objects and arrays that the C updates are
classes and arrays, and each method is proved against a specification. Most of these say outright what
is promised. A few are the code again as a function on values (`Classified`, `Mask`, `Resume`, `AtTop`,
`OddPart`, `Entered`, `Returned`), and what they mean is proved in lemmas of their own.

**Floating point** (`Ieee754`, `Normalize`, `StickyShift`, `FloatFormat`, `FloatAdd`, `FloatMul`,
`FloatDiv`). `Ieee754` says on the real numbers what a bit pattern means and what "rounded to
nearest, ties to even" is (sections 3.4, 4.3.1 and 6.3 of IEEE 754-2008): a result is nearer to the
exact number than every other finite number, and infinite from the overflow threshold on; at most one
result meets this. Addition and subtraction meet it for all finite operands. Multiplication and
division meet it exactly under a condition on the operands, and the model says which wrong result they
give otherwise.

**Memory** (`Bytes`, `HwMem`, `Cache`, `Paging`). Flat little-endian memory is the specification.
The write-through cache cannot be told from it by any run of reads and writes, for any choice of
replaced lines. Linear accesses, also across a page, are the individually translated bytes.

**Arithmetic** (`Alu`). Results and flags are integer arithmetic on the operands; the condition
codes after a comparison are the signed and unsigned order; chains of add and adc, sub and sbb are
arithmetic on numbers of any length.

**Debugger expressions** (`ExprSyntax`, `ExprEval`, `ExprLaws`, `ExprMonitor`, `ExprBlanks`,
`ExprTokens`). Expression trees with a meaning, a printer with the fewest parentheses, and the
evaluator between them: printing and evaluating gives the meaning back, and what evaluates was an
expression exactly when its parentheses match and each of its unary operators is first or follows a
binary operator or a left parenthesis. `ExprLaws` says in integers what each operator computes, and on
the tokens alone which operators bind tighter. The tokeniser keeps blanks as tokens; which of them the
evaluator does not mind is proved as well.

**Debugger breakpoints** (`BreakpointPoints`, `BreakpointPool`). The two linked lists over 32
nodes, and what masking, re-arming, deleting and stopping at a breakpoint do to the bytes of the program.

**Interrupts** (`PicLatch`, `Interrupts`). The latch between any number of device threads and the
CPU as a state machine over single reads and writes; the kernel's gates, the frame, and the return.

**Page tables** (`PageTables`). The kernel stores its tables in the emulator's memory word by word;
what the emulator's own two-level walk then finds is proved for every linear address.

Run `dafny verify dfyconfig.toml` to check everything.

## Where the code does less than its documentation promises

In each case the model keeps the code as it is, and a lemma says exactly when the promise holds.

- A product below 2^-126 comes out as the rounding of twice the product when the exponent handed to
  normalisation is zero, because a zero exponent is taken for the subnormals' (nemu/src/cpu/fpu.c:39-47, 76-79); and a product that
  rounds up to 2^-126 becomes zero, because the carry into the hidden bit is masked off
  (nemu/src/cpu/fpu.c:94-100). `FloatMul.InternalFloatMul`, `FloatMul.MulCounterexamples`.
- A quotient whose first bits are an exact tie above an even number loses the remainder and comes
  out one unit too low (nemu/src/cpu/fpu.c:327), and a quotient that rounds up to 2^-126 becomes
  zero. `FloatDiv.InternalFloatDiv`, `FloatDiv.TieLostExactly`, `FloatDiv.DivCounterexamples`.
- The overflow flag of a signed multiplication is set whatever the product is
  (nemu/src/cpu/alu.c:157-170), so it is right exactly for products that do not fit; the carry flag,
  which should equal it, is left as it was.
  `Alu.Cpu.SetOfImul`, `Alu.Cpu.AluImul`.
- The overflow flag of an 8-bit or 16-bit left shift by one is wrong exactly when the two top bits
  of the operand are set (nemu/src/cpu/alu.c:399-405). `Alu.ShlOverflowExact`.
- Of directly chained unary operators only the last is applied, and other tokens before a unary
  operator are ignored too (nemu/src/monitor/expr.c:341-361), so ranges that are no expressions
  evaluate. `ExprEval.IgnoredPrefix`, `ExprEval.EvalExactly`.
- Blanks stay among the tokens (nemu/src/monitor/expr.c:44, 126-128). However they are put among the
  tokens of an expression, it has its value if every stretch of them stands directly before a unary
  operator, and fails otherwise. Typed, the operator has to be a `!`, because the loop takes a minus or
  star after a blank for a binary one: `1+ !x` has its value and `1 + !x` fails.
  `ExprBlanks.BlanksExactly`, `ExprTokens.TypedWithBlanks`, `ExprTokens.BlankExamples`.
- A unary minus or star before a register or before the number 0 is taken for a binary one
  (nemu/src/monitor/expr.c:409, 442). `ExprTokens.ClassifyRecovers`.
- A page-crossing write goes to memory past the cache (nemu/src/memory/memory.c:96-97).
  `Cache.CacheUnit.BypassKeeps`.
- A request raised between the query and the acknowledge of a lower one is lost
  (nemu/src/cpu/cpu.c:96-98), so every acknowledge delivers the highest request exactly when no two
  different requests occur; and request 223 latches the reserved number 255.
  `PicLatch.RequestLost`, `PicLatch.AlwaysDelivers`, `PicLatch.PendingHasNumber`.
- Deleting the oldest breakpoint of an address leaves 0xf1 in the program, and re-arming reads 0xf1
  as the original byte wherever a breakpoint is still armed (nemu/src/monitor/breakpoint.c:94-106,
  167), so stopping at one breakpoint and going on loses the bytes of all others.
  `BreakpointPoints.RunRestores`, `BreakpointPoints.ResumeKeeps`, `BreakpointPoints.HitKeeps`.

## Model

| member | source | states |
|---|---|---|
| Normalize.JamStepJams | nemu/src/cpu/fpu.c:22-24 | one sticky shift of a significand that stands for x stands for x / 2, whatever was lost before |
| StickyShift.StickyShiftIsNeutral | nemu/src/cpu/fpu.c:180-192 | for every shift amount, rounding a sum or difference with the sticky-shifted operand equals rounding the exact one in whole-number arithmetic |
| StickyShift.JamShiftIs | nemu/src/cpu/fpu.c:180-186 | k sticky shifts keep the quotient by 2^k and remember in the last bit whether there was a remainder |
| Normalize.RoundOffIsRne | nemu/src/cpu/fpu.c:85-98 | rounding the three guard bits away puts the exact magnitude between the two halfway points around the result |
| Ieee754.MidRoundsToEven | nemu/src/cpu/fpu.c:85-93 | what rounding asks for halfway between two neighbours is the even one |
| Normalize.RoundUp | nemu/src/cpu/fpu.c:85-93 | the significand is rounded to the nearest multiple of eight, ties to an even one, and the only possible carry is to the next power of two |
| Normalize.NormalizeRight | nemu/src/cpu/fpu.c:15-56 | terminates; leaves a significand that still decides the rounding of the exact magnitude, or reports a magnitude past the overflow threshold or below half the smallest subnormal |
| Normalize.NormalizeLeft | nemu/src/cpu/fpu.c:57-75 | terminates; brings the leading bit up, or stops at the subnormals, and keeps what rounding needs |
| Normalize.BringIntoRange | nemu/src/cpu/fpu.c:12-79 | all three branches leave a magnitude ready for rounding, or the final zero or infinity |
| Normalize.RoundedResult | nemu/src/cpu/fpu.c:81-100 | rounding a normalised significand gives the rounded magnitude, and the carry out of the subnormals happens exactly for magnitudes that round up to 2^-126 |
| Normalize.InternalNormalize | nemu/src/cpu/fpu.c:10-108 | terminates and re-enters itself at most once; the result is the correctly rounded magnitude if and only if it does not round up to 2^-126 from below, and is zero then |
| FloatFormat.FindCorner | nemu/src/cpu/fpu.c:128-132 | the result of a table entry for the two operands, or none exactly when there is no such entry |
| FloatAdd.CornerAddRules | nemu/src/cpu/fpu.c:110-122 | what the table settles: the signs of zero sums, opposite infinities, infinities with NaNs |
| FloatAdd.AlignmentShift | nemu/src/cpu/fpu.c:156-170 | the distance between the effective exponents, with zero and one at the same scale |
| FloatAdd.Align | nemu/src/cpu/fpu.c:180-186 | at the larger exponent the shifted significand stands for the operand, exactly unless two places or more were lost |
| FloatAdd.AddSigned | nemu/src/cpu/fpu.c:188-195 | 32-bit wrap-around arithmetic gives the sign and magnitude of the signed sum |
| FloatAdd.AlignedSum | nemu/src/cpu/fpu.c:176-197 | the sum of the aligned significands stands for the exact sum and has its sign |
| FloatAdd.SumKeepsCarry | nemu/src/cpu/fpu.c:94-100 | no sum of two finite numbers rounds up to 2^-126 from below |
| FloatAdd.AddFinite | nemu/src/cpu/fpu.c:136-198 | for finite nonzero operands, normal or subnormal, the correctly rounded exact sum |
| FloatAdd.InternalFloatAdd | nemu/src/cpu/fpu.c:125-199 | for all finite operands the correctly rounded exact sum with the right sign of zero and overflow to infinity; infinities and NaNs as the standard asks |
| FloatAdd.SumCommutes | nemu/src/cpu/fpu.c:144-147 | exchanging finite operands never changes the sum, down to the sign of zero |
| FloatAdd.CornerSubRules | nemu/src/cpu/fpu.c:201-210 | what the table settles: the signs of zero differences, and NaNs |
| FloatAdd.InternalFloatSub | nemu/src/cpu/fpu.c:213-226 | for all finite operands the correctly rounded exact difference with the right sign of zero; infinities and NaNs as the standard asks |
| FloatMul.CornerMulRules | nemu/src/cpu/fpu.c:228-237 | the table holds exactly the products of a zero and an infinity |
| FloatMul.InternalFloatMul | nemu/src/cpu/fpu.c:240-278 | for finite nonzero operands the correctly rounded product if and only if the exact product has magnitude 2^-126 or more, or is smaller, does not round up to 2^-126, and has a nonzero exponent sum; otherwise zero, or for exponent zero the rounding of twice the product; the other cases of the standard always |
| FloatMul.MulFinite | nemu/src/cpu/fpu.c:271-277 | normalising the product of the significands with the sum of the exponents gives the rounding of the exact product, or of twice the product beside exponent zero |
| FloatMul.DoubledIsWrong | nemu/src/cpu/fpu.c:39-79 | beside exponent zero the rounding of twice the product is never the rounding of the product |
| FloatMul.MulCounterexamples | nemu/src/cpu/fpu.c:39-100 | one pair of finite nonzero operands for each way a product can come out wrong |
| FloatDiv.CornerDivRules | nemu/src/cpu/fpu.c:280-293 | what the table settles: zero by zero, infinities by zeros and by infinities |
| FloatDiv.ShiftUp | nemu/src/cpu/fpu.c:324 | terminates with bit 63 set, and counts the places |
| FloatDiv.ShiftDown | nemu/src/cpu/fpu.c:325 | terminates with an odd number, and counts the places |
| FloatDiv.QuotientCutOff | nemu/src/cpu/fpu.c:322-331 | the integer quotient has at least 40 bits, and the exact quotient lies less than one of its units above it |
| FloatDiv.CutOffRounds | nemu/src/cpu/fpu.c:327-332 | rounding the cut-off quotient rounds the exact one, unless the cut-off made a tie that went down; then the right result is the next one up |
| FloatDiv.DivNonzero | nemu/src/cpu/fpu.c:314-332 | for finite nonzero operands the correctly rounded quotient if and only if no remainder was dropped at a tie and the quotient does not round up to 2^-126; otherwise the number below, or zero |
| FloatDiv.InternalFloatDiv | nemu/src/cpu/fpu.c:295-333 | the same for every pair of operands, with infinities, zeros and NaNs as the standard asks |
| FloatDiv.DivIsFaithful | nemu/src/cpu/fpu.c:322-332 | the result is one of the two numbers around the exact quotient, and is exact whenever the quotient is representable |
| FloatDiv.TieLostExactly | nemu/src/cpu/fpu.c:327-332 | the quotients that come out too low are those with a remainder beside cut-off bits that are exactly half of the last place kept, above an even number: a test on integers |
| FloatDiv.DivCounterexamples | nemu/src/cpu/fpu.c:94-100 | one pair of finite nonzero operands whose quotient becomes zero, and one whose quotient comes out one unit too low |
| HwMem.HwMemRead | nemu/src/memory/memory.c:12-16 | the little-endian value of the bytes at the address |
| HwMem.HwMemWrite | nemu/src/memory/memory.c:18-20 | the low bytes of the data at the address, and nothing else changed |
| HwMem.CutToKeeps | nemu/src/memory/memory.c:64 | shifting out and back in 32 bits keeps the low len bytes |
| HwMem.JoinParts | nemu/src/memory/memory.c:62-64 | two parts of an access joined by 32-bit shifts are the value of the whole access |
| Bytes.ReadBack | nemu/src/memory/memory.c:12-20 | what is written to flat memory is read back cut to the length written |
| Cache.CacheUnit.InitCache | nemu/src/memory/cache.c:12-16 | establishes the cache invariant with no line valid |
| Cache.CacheUnit.FindWay | nemu/src/memory/cache.c:25-29 | the first way of the set that holds the address, and none exactly when the address is not cached |
| Cache.CacheUnit.ReadLine | nemu/src/memory/cache.c:38-43 | the little-endian value of bytes of a line |
| Cache.CacheUnit.Fill | nemu/src/memory/cache.c:61-84 | for every random victim the address is cached afterwards and the invariant is kept |
| Cache.CacheUnit.FillKeeps | nemu/src/memory/cache.c:61-84 | replacing a line keeps every valid line equal to memory and no two valid ways of a set with one mark |
| Cache.CacheUnit.CacheRead | nemu/src/memory/cache.c:18-88 | the value flat memory has, for every line crossing, miss and victim; the recursion terminates |
| Cache.CacheUnit.WriteLine | nemu/src/memory/cache.c:104-110 | the bytes of the data in the line, and nothing else changed |
| Cache.CacheUnit.WriteThrough | nemu/src/memory/cache.c:98-115 | memory changes as flat memory does, and the cache stays equal to it |
| Cache.CacheUnit.WriteKeeps | nemu/src/memory/cache.c:98-115 | updating only the first matching way keeps the invariant, because no second way can match |
| Cache.CacheUnit.CacheWrite | nemu/src/memory/cache.c:90-141 | memory changes as flat memory does, for every line crossing, and the cache invariant is kept |
| Cache.CacheUnit.BypassKeeps | nemu/src/memory/memory.c:96-97 | a write past the cache keeps the invariant if and only if the line is not cached or no byte changes |
| Cache.CacheUnit.RunAccesses | nemu/src/memory/cache.c:18-141 | every interleaved run of reads and writes returns the values flat memory would and leaves memory as flat memory would be |
| Paging.PageTranslate | nemu/src/memory/mmu/page.c:5-22 | the two table reads and the offset give the physical address of the two-level translation |
| Paging.BitTestIsExact | nemu/src/memory/memory.c:52-55 | for up to four bytes, comparing bit 12 finds exactly the accesses that leave their page, also around the end of the address space |
| Paging.Crossing | nemu/src/memory/memory.c:57-64 | an access that leaves its page is two accesses within pages, for reading and for writing, also when the two pages share a frame |
| Paging.LaddrRead | nemu/src/memory/memory.c:47-77 | the little-endian value of the individually translated bytes |
| Paging.LaddrWrite | nemu/src/memory/memory.c:79-110 | the bytes of the data at their individually translated addresses, and nothing else changed |
| Paging.AddressesDistinct | nemu/src/memory/memory.c:57-63 | no two bytes of an access share a physical address, even when its two pages share a frame |
| Paging.LinearReadBack | nemu/src/memory/memory.c:47-110 | writing and then reading gives the data cut to the length, whenever the write leaves the translation of its own bytes as it was |
| Paging.ClearKeepsTranslation | nemu/src/memory/memory.c:47-110 | a write outside the table entries that its own translation reads leaves that translation as it was |
| Alu.SignExtOrder | nemu/include/cpu/alu.h:42-49 | sign extension keeps the unsigned order of operands, and its top bit is their sign |
| Alu.ModulusIsPow2 | nemu/include/cpu/alu.h:42-50 | operands of n bits are reduced modulo 2^n |
| Alu.Cpu.SetCfAdd | nemu/src/cpu/alu.c:3-8 | CF is the unsigned comparison of the operands at their width |
| Alu.Cpu.SetCfAdc | nemu/src/cpu/alu.c:10-18 | CF is the comparison that includes the incoming carry |
| Alu.Cpu.SetCfSub | nemu/src/cpu/alu.c:20-25 | CF is the unsigned comparison of the operands at their width |
| Alu.Cpu.SetCfSbb | nemu/src/cpu/alu.c:27-35 | CF is the comparison that includes the incoming borrow |
| Alu.Cpu.SetSf | nemu/src/cpu/alu.c:43-47 | SF says that the result is negative at its width |
| Alu.Cpu.SetPf | nemu/src/cpu/alu.c:49-62 | PF says that the low byte has an even number of ones |
| Alu.OnesCountsBits | nemu/src/cpu/alu.c:49-58 | what the parity loop counts is the number of positions whose bit is set |
| Alu.ParityOfResult | nemu/src/cpu/alu.c:49-62 | PF of a result says whether its low byte has an even number of set bits |
| Alu.ParityFlips | nemu/src/cpu/alu.c:49-58 | turning over any one of the low eight bits turns the parity over |
| Alu.Cpu.SetOfAdd | nemu/src/cpu/alu.c:64-88 | OF compares the signs of the operands and of the sum at their width |
| Alu.Cpu.SetOfSub | nemu/src/cpu/alu.c:90-116 | OF compares the signs of the operands and of the difference at their width |
| Alu.SumByFlags | nemu/src/cpu/alu.c:3-18 | the comparison of sum and operand is the unsigned carry and the comparison of signs the signed overflow of the exact sum, with and without an incoming carry |
| Alu.DifferenceByFlags | nemu/src/cpu/alu.c:20-35 | the comparisons are the borrow and the signed overflow of the exact difference |
| Alu.Cpu.AluAdd | nemu/src/cpu/alu.c:177-193 | the sum at the operand width, CF and OF the overflow of the exact unsigned and signed sum |
| Alu.Cpu.AluAdc | nemu/src/cpu/alu.c:195-210 | the same with the incoming carry |
| Alu.Cpu.AluSub | nemu/src/cpu/alu.c:213-228 | the difference at the operand width, CF the borrow and OF the overflow of the exact signed difference |
| Alu.Cpu.AluSbb | nemu/src/cpu/alu.c:230-245 | the same with the incoming borrow |
| Alu.Cpu.AddLimbs | nemu/src/cpu/alu.c:177-210 | add and then adc over limbs of any number and width compute the sum of the whole numbers, with CF as the carry |
| Alu.Cpu.SubLimbs | nemu/src/cpu/alu.c:213-245 | sub and then sbb over limbs compute the difference of the whole numbers, with CF as the borrow |
| Alu.ConditionsAreOrder | nemu/include/cpu/instr_helper.h:160-209 | after a comparison the conditions e, a, ae, b, be hold exactly for the unsigned and g, ge, l, le exactly for the signed order of the operands, whatever their unused high bits |
| Alu.Cpu.ShlLoop | nemu/src/cpu/alu.c:391-398 | k doublings give dest * 2^k at the width, with the last bit pushed out in CF |
| Alu.Cpu.AluShl | nemu/src/cpu/alu.c:385-414 | for every count, dest * 2^k at the width, CF the last bit shifted out, OF only for a count of one |
| Alu.Cpu.AluShr | nemu/src/cpu/alu.c:416-439 | for every count, the floor of dest / 2^k, CF the last bit shifted out, OF unchanged |
| Alu.Cpu.AluSar | nemu/src/cpu/alu.c:441-463 | for every count, the floor of the signed dest / 2^k at the width, CF the last bit shifted out, OF unchanged |
| Alu.ShlOverflowExact | nemu/src/cpu/alu.c:399-405 | OF says whether doubling leaves the signed range if and only if the width is 32 or the two top bits are not both set |
| Alu.Cpu.SetOfMul | nemu/src/cpu/alu.c:118-137 | CF and OF say whether the upper half of the product is used |
| Alu.Cpu.AluMul | nemu/src/cpu/alu.c:248-261 | the full unsigned product, and whether it needs its upper half |
| Alu.Cpu.SetOfImul | nemu/src/cpu/alu.c:139-173 | OF is always set |
| Alu.Cpu.AluImul | nemu/src/cpu/alu.c:263-276 | the exact signed product, which always fits 64 bits; OF is right if and only if the product does not fit the operand width |
| ExprSyntax.ParenthesizeIsGrammatical | nemu/src/monitor/expr.c:280-315 | the printer's parentheses suffice for the precedences and the left association of the evaluator |
| ExprSyntax.ParenthesizeKeepsValue | nemu/src/monitor/expr.c:256-259 | added parentheses never change the value |
| ExprSyntax.ParenthesizeIsMinimal | nemu/src/monitor/expr.c:280-315 | no way of writing a tree that the evaluator's precedences allow has fewer parentheses than the printed one |
| ExprSyntax.ParensAreTokens | nemu/src/monitor/expr.c:261-318 | the pairs that are counted there are the left, and the right, parentheses among the tokens |
| ExprEval.DominantFinds | nemu/src/monitor/expr.c:270-340 | the scan finds an operator outside all parentheses whenever there is one, and then the last of the weakest |
| ExprEval.TopLevelBinds | nemu/src/monitor/expr.c:270-340 | outside the parentheses of a printed expression nothing binds weaker than its root |
| ExprEval.RootIsLastWeakest | nemu/src/monitor/expr.c:331-340 | the root of a binary expression is the last of the weakest operators of its tokens |
| ExprEval.EvalOfUnparse | nemu/src/monitor/expr.c:167-389 | evaluating the tokens of any expression gives its value in 32 bits, with failure exactly where the value is undefined |
| ExprEval.PrintThenEval | nemu/src/monitor/expr.c:167-389 | for every expression tree, printing with the fewest parentheses and evaluating gives the value of the tree |
| ExprEval.SplitIsGrammatical | nemu/src/monitor/expr.c:331-363 | splitting at the dominant operator respects precedence and left association |
| ExprEval.UnaryIsFirst | nemu/src/monitor/expr.c:331-361 | a dominant unary operator among matched parentheses and well placed unary operators has nothing before it |
| ExprEval.EvalIsParse | nemu/src/monitor/expr.c:167-389 | a token range that evaluates is an expression and the result is its value, if its parentheses match and its unary operators are well placed, or it has no unary operators |
| ExprEval.EvalExactly | nemu/src/monitor/expr.c:167-389 | for every token range: it is an expression with a value if and only if it evaluates, its parentheses match and each unary operator is first or follows a binary operator or a left parenthesis; without unary operators, if and only if it evaluates |
| ExprEval.IgnoredPrefix | nemu/src/monitor/expr.c:331-361 | every prefix with as many left as right parentheses and no binary operator outside them is ignored before a unary expression: unary chains of any length, and prefixes that make no expression |
| ExprLaws.BinaryLaws | nemu/src/monitor/expr.c:364-387 | the value of an expression by the values of its two sides: sum, difference and product congruent modulo 2^32, the quotient that fits between its multiples and fails exactly for zero, 1 or 0 for comparisons and logic |
| ExprLaws.BinaryFails | nemu/src/monitor/expr.c:362-363 | an expression fails if a side fails |
| ExprLaws.UnaryLaws | nemu/src/monitor/expr.c:341-361 | minus v and v add up to zero modulo 2^32, `!` is 1 exactly for 0, and a dereference is the word in memory and fails exactly from 128 MB on |
| ExprLaws.Precedence | nemu/src/monitor/expr.c:261-340 | with the classes or, and, {==, !=}, {+, -}, {*, /} in this order: x o1 y o2 z without parentheses evaluates as with the last two in parentheses if o2 is of a tighter class, and as with the first two otherwise |
| ExprLaws.PrintedGrouping | nemu/src/monitor/expr.c:261-340 | the printer writes one pair of parentheses exactly where this grouping would be another, and none otherwise |
| ExprLaws.SumOfProduct | nemu/src/monitor/expr.c:167-389 | the tokens a + b * c evaluate to x + y * z and those of a - b - c to x - y - z, modulo 2^32 |
| ExprBlanks.BlankBeforeUnary | nemu/src/monitor/expr.c:167-389 | a blank directly before a unary operator changes no evaluation, whatever stands around it |
| ExprBlanks.EvalTrim | nemu/src/monitor/expr.c:167-389 | taking away every stretch of blanks that stands directly before a unary operator, and no other, changes no evaluation of any range |
| ExprBlanks.SpacedEval | nemu/src/monitor/expr.c:167-389 | a range whose parentheses match and whose unary operators are well placed once its blanks are taken out evaluates as without them if each stretch stands directly before a unary operator, and fails otherwise |
| ExprBlanks.BlanksExactly | nemu/src/monitor/expr.c:167-389 | the tokens of any expression with blanks anywhere among them have its value if every stretch stands directly before a unary operator, and fail otherwise |
| ExprMonitor.CheckParentheses | nemu/src/monitor/expr.c:145-162 | true exactly when the range is one enclosing pair with balanced parentheses inside |
| ExprMonitor.CollectOperators | nemu/src/monitor/expr.c:261-318 | the array holds the operators outside parentheses in order, and never more than its 32 entries |
| ExprMonitor.PickWeakest | nemu/src/monitor/expr.c:331-340 | the last of the weakest operators of the list |
| ExprMonitor.FindDominant | nemu/src/monitor/expr.c:319-340 | the dominant operator, or failure exactly for unmatched parentheses or no operator |
| ExprMonitor.EvalUnary | nemu/src/monitor/expr.c:341-361 | the unary case of the evaluation |
| ExprMonitor.EvalBinary | nemu/src/monitor/expr.c:362-387 | the binary case of the evaluation; both sides are evaluated, and either failure fails |
| ExprMonitor.EvalRange | nemu/src/monitor/expr.c:167-389 | the loops and recursion terminate and compute the evaluation of the range, with the success flag false exactly on failure |
| ExprTokens.Classify | nemu/src/monitor/expr.c:402-468 | in place, every token gets the meaning the loop gives it after the tokens before it |
| ExprTokens.ClassifiedToken | nemu/src/monitor/expr.c:402-468 | which minus signs and stars become unary in any token list: the first, and those before a left parenthesis or an operand other than a register or 0 that do not follow an operand, a right parenthesis, a blank or a unary star, nor, for a minus, a unary minus |
| ExprTokens.ClassifyRecovers | nemu/src/monitor/expr.c:402-468 | the loop recovers the unary operators of a printed expression if and only if none after the first token stands before a register or the number 0 |
| ExprTokens.UnaryStartsMeans | nemu/src/monitor/expr.c:409 | in a printed expression the loop accepts what follows a unary minus or star exactly if it is no register and not the number 0 |
| ExprTokens.MisreadSpoils | nemu/src/monitor/expr.c:402-468 | a misread operator leaves parentheses matched and unary operators well placed, but a binary operator where no operand ends |
| ExprTokens.ExprValue | nemu/src/monitor/expr.c:392-471 | classifying and evaluating the tokens in place is evaluating the classified tokens |
| ExprTokens.TypedWithBlanks | nemu/src/monitor/expr.c:392-471 | for every expression tree, typed with the fewest parentheses and blanks anywhere: the value of the tree if every stretch of blanks stands directly before a `!` and no unary minus or star after the first token stands before a register or the number 0, and failure otherwise |
| ExprTokens.BlankExamples | nemu/src/monitor/expr.c:392-471 | typed `1+ !x` has its value and typed `1 + !x` fails |
| ExprTokens.MinusAfterNot | nemu/src/monitor/expr.c:442-463 | typed `!-5` gets a unary minus and evaluates as `-5`; with a register or 0 the minus stays binary and it fails |
| ExprTokens.TypedExpression | nemu/src/monitor/expr.c:392-471 | for every expression tree, typed with the fewest parentheses: the value of the tree if no unary minus or star after the first token stands before a register or the number 0, and failure otherwise |
| PicLatch.StepKeepsInv | nemu/src/device/i8259_pic.c:15-44 | every single read or write of any thread keeps the mutual exclusion, the agreement of cpu.intr with the latch, and what each thread has seen |
| PicLatch.StepKeepsOrder | nemu/src/device/i8259_pic.c:22-26 | every step keeps the latch at the highest request since the last acknowledge |
| PicLatch.RunKeepsInv | nemu/src/device/i8259_pic.c:15-44 | every run of any interleaving keeps both |
| PicLatch.LatchIsHighest | nemu/src/device/i8259_pic.c:15-32 | in every reachable state outside the critical sections the latch is 32 plus the largest request since the last acknowledge, and cpu.intr says whether there is one |
| PicLatch.AcknowledgeDelivers | nemu/src/cpu/cpu.c:96-98 | the acknowledge wipes out no higher request if and only if the latch still holds the queried number, and the latch can only have grown |
| PicLatch.AlwaysDelivers | nemu/src/cpu/cpu.c:96-98 | over a set of requests up to 222, the acknowledge of every reachable state delivers the highest recorded request if and only if the set does not hold two different ones |
| PicLatch.PendingHasNumber | nemu/src/cpu/cpu.c:94-97 | the assertion that a pending interrupt has a number holds in every run over a set of requests if and only if 223 is not in the set |
| PicLatch.RequestLost | nemu/src/cpu/cpu.c:96-98 | for every pair of requests there is a run in which the higher one is lost and nothing stays pending |
| PicLatch.WholeCallRuns | nemu/src/device/i8259_pic.c:15-32 | one undisturbed request latches the higher number and sets cpu.intr |
| PicLatch.WholeAckRuns | nemu/src/device/i8259_pic.c:34-44 | one undisturbed acknowledge empties the latch and clears cpu.intr |
| BreakpointPoints.MaskAt | nemu/src/monitor/breakpoint.c:175-188 | masking from the newest point on shows the byte that the oldest breakpoint of an address replaced |
| BreakpointPoints.SetThenMask | nemu/src/monitor/breakpoint.c:47-74 | setting a breakpoint never changes what masking shows, also at an address that has one |
| BreakpointPoints.DeletedByte | nemu/src/monitor/breakpoint.c:94-106 | deleting changes what masking shows exactly at the address whose oldest breakpoint it removes, to 0xf1 |
| BreakpointPoints.DoThenMask | nemu/src/monitor/breakpoint.c:47-106 | one command keeps what masking shows, but for the byte that the oldest breakpoint of an address replaced |
| BreakpointPoints.RunThenMask | nemu/src/monitor/breakpoint.c:47-106 | over any run each byte that masking shows stays or becomes 0xf1, and all stay if and only if the run deleted no oldest breakpoint of an address that had replaced another byte than 0xf1 |
| BreakpointPoints.RunRestores | nemu/src/monitor/breakpoint.c:47-106 | from an empty list masking restores the original memory if and only if the run deleted no oldest breakpoint of an address that had replaced another byte than 0xf1; setting alone always restores |
| BreakpointPoints.ResumedByte | nemu/src/monitor/breakpoint.c:150-173 | re-arming reads for the newest breakpoint of an address the byte that memory shows, and 0xf1 for every older one |
| BreakpointPoints.ResumeThenMask | nemu/src/monitor/breakpoint.c:150-188 | re-arming and masking is neutral if and only if every address with several breakpoints holds 0xf1 |
| BreakpointPoints.ResumeKeeps | nemu/src/monitor/breakpoint.c:150-173 | re-arming keeps what masking would restore if and only if every address with one breakpoint shows that breakpoint's byte and every address with several had 0xf1 |
| BreakpointPoints.HitByte | nemu/src/cpu/cpu.c:57-74 | after stopping at an address and going on with any instruction, masking shows at every byte which the instruction left alone what it showed before, except 0xf1 at every breakpoint but a single one at that address |
| BreakpointPoints.HitKeeps | nemu/src/cpu/cpu.c:57-74 | stopping and going on with an instruction that writes nothing keeps what masking shows if and only if every breakpoint but a single one at the address had replaced 0xf1 |
| BreakpointPool.Partition | nemu/src/monitor/breakpoint.c:16-45 | the active and the free list share no node and leave none out, and the free list is empty exactly with all 32 in use |
| BreakpointPool.Linked | nemu/src/monitor/breakpoint.c:29-36 | taking the first free node and pushing it in front of the active list keeps both lists |
| BreakpointPool.Removed | nemu/src/monitor/breakpoint.c:100-104 | unlinking a node and pushing it in front of the free list keeps both lists and removes just its point |
| BreakpointPool.Monitor.InitBpList | nemu/src/monitor/breakpoint.c:16-27 | all 32 nodes are free in one acyclic list |
| BreakpointPool.Monitor.NewBP | nemu/src/monitor/breakpoint.c:29-36 | the first free node, now in use; with fewer than 32 in use the assertions hold |
| BreakpointPool.Monitor.FreeBP | nemu/src/monitor/breakpoint.c:38-45 | the node is the first free one, not in use |
| BreakpointPool.Monitor.SetBreakpoint | nemu/src/monitor/breakpoint.c:47-74 | keeps the lists, pushes the point with the byte it replaces, and stores 0xf1 |
| BreakpointPool.Monitor.SetWatchpoint | nemu/src/monitor/breakpoint.c:76-92 | keeps the lists and pushes a watchpoint, or changes nothing |
| BreakpointPool.Monitor.FindNode | nemu/src/monitor/breakpoint.c:94-98 | the node with the number and its predecessor, or none exactly when it is not active |
| BreakpointPool.Monitor.Unlink | nemu/src/monitor/breakpoint.c:101-102 | the predecessor, or the head, points past the node |
| BreakpointPool.Monitor.DeleteBreakpoint | nemu/src/monitor/breakpoint.c:94-106 | keeps the lists and removes the point with the number, or returns false exactly when there is none; memory is unchanged |
| BreakpointPool.Monitor.DeleteAllFrom | nemu/src/monitor/breakpoint.c:108-113 | the recursion terminates and gives all nodes of the list back in order |
| BreakpointPool.Monitor.DeleteAll | nemu/src/monitor/breakpoint.c:115-118 | keeps the lists with no active node; memory is unchanged |
| BreakpointPool.Monitor.RunCommands | nemu/src/monitor/breakpoint.c:29-118 | any sequence of set, watch, delete and delete-all commands keeps the lists and does to memory and points what the run of its operations does, up to the assertion that a node is free; from an empty list masking restores the original memory if and only if no deletion of the run lost a byte |
| BreakpointPool.Monitor.FindBreakpoint | nemu/src/monitor/breakpoint.c:138-148 | the newest breakpoint at the address, or none exactly when there is none |
| BreakpointPool.Monitor.StopAt | nemu/src/cpu/cpu.c:70-74 | the newest breakpoint at the address, if there is one, puts its byte back; the lists are kept |
| BreakpointPool.Monitor.MaskBreakpoints | nemu/src/monitor/breakpoint.c:175-188 | every breakpoint's byte is written back, newest first |
| BreakpointPool.Monitor.ResumeBreakpoints | nemu/src/monitor/breakpoint.c:150-173 | every breakpoint reads its byte again and arms, newest first; the lists are kept |
| Interrupts.DecodeWords | nemu/src/cpu/intr.c:18-20 | the bit fields of a gate are at their places in its two words and survive being read back |
| Interrupts.InitIdt | kernel/src/irq/idt.c:57-88 | vectors 32, 33, 34 and 46 get interrupt gates to irq0, irq1, irq2 and irq14, vectors 0 to 14 trap gates to vec0 to vec14, vector 0x80 a trap gate of level 3 to the system call, every other vector a trap gate to the empty handler; all others of level 0 |
| Interrupts.FrameHolds | nemu/src/cpu/intr.c:10-16 | the 12 bytes below the stack pointer hold EIP, CS and EFLAGS, and no other byte has changed |
| Interrupts.Cpu.RaiseIntr | nemu/src/cpu/intr.c:6-28 | pushes the frame and enters the gate's handler; IF is cleared exactly for an interrupt gate |
| Interrupts.Cpu.RaiseSwIntr | nemu/src/cpu/intr.c:30-34 | the same with the address after the instruction as the return address |
| Interrupts.Cpu.Iret | nemu/src/cpu/instr/iret.c:5-30 | pops EIP, CS and EFLAGS |
| Interrupts.IretUndoesRaise | nemu/src/cpu/instr/iret.c:5-30 | whatever a handler does, if it keeps the frame and its stack pointer, the interrupted program goes on with its own registers |
| Interrupts.EntersHandler | nemu/src/cpu/intr.c:17-27 | with that table in memory each vector enters the handler it was given, in the kernel's code segment, with interrupts off exactly for the four device vectors |
| PageTables.FillTable | kernel/src/memory/kvm.c:27-32 | one page table of consecutive frames, and no other byte changed |
| PageTables.FillDirectory | kernel/src/memory/kvm.c:25-26 | the low and the high entry of one page table, and no other entry changed |
| PageTables.InitPage | kernel/src/memory/kvm.c:12-44 | the directory and all 32 page tables are complete, and no other byte of memory has changed |
| PageTables.MadeEntry | kernel/include/memory.h:23-24 | an entry names its page frame and has the present, the write and the user bit, and no other |
| PageTables.KernelMapping | kernel/src/memory/kvm.c:12-44 | the walk maps every address below 128 MB to itself, every address of [0xC0000000, 0xC8000000) to itself minus 0xC0000000, and finds nothing else present |
| PageTables.InitMm | kernel/src/memory/mm.c:23-34 | the user directory has exactly the kernel's high entries, and CR3 is its frame |
| PageTables.FillScreen | kernel/src/memory/vmem.c:25-30 | the 16 entries of the screen, and no other entry changed |
| PageTables.CreateVideoMapping | kernel/src/memory/vmem.c:12-31 | the first directory entry points to the video table with the 16 pages of the screen, and no other byte has changed |
| PageTables.UserMapping | kernel/src/memory/vmem.c:12-31 | the walk maps the 16 pages at 0xA0000 to themselves, the high 128 MB as in the kernel, and finds nothing else present |
| PageTables.VideoElsewhere | kernel/src/memory/vmem.c:22-30 | whatever programs are mapped already, only the lowest 4 MB of the user's address space change |
| PageTables.BuildMappings | kernel/src/memory/mm.c:23-34 | after init_page, init_mm and create_video_mapping both address spaces are as above for every linear address |

## Left out

- Other instructions of the FPU: `fpu_cmp` and `fpu_cmpi` use the host's floating point; the register stack is a ring index.
- NaN patterns other than the two canonical ones: the code compares with those two only, so addition promises nothing more about the others.
- Alu.Cpu.AluShl: counts are not reduced modulo 32, as in the code; alu_sal (nemu/src/cpu/alu.c:465-494) is the same code and has no member of its own.
- Alu.Cpu.AluShr: the branch that would set OF for a count of one (lines 429-430) cannot be reached, because the loop has counted to zero; likewise lines 453-454 of alu_sar.
- Division, remainder, and, or, xor: one-line arithmetic or host operators.
- ExprTokens.ExprValue: starts after tokenising, with blanks as tokens; matching the regular expressions is left out, and digit conversion, the symbol table, registers and memory are a parameter of the evaluation.
- ExprMonitor.EvalRange: takes at most 32 tokens, the size of the array that the code fills without a check.
- Memory-mapped devices: every physical address is memory.
- Segmentation and the TLB: linear addresses are virtual addresses, and every access walks the tables.
- Cache.CacheUnit.RunAccesses: accesses through the cache only; paging is stated over plain memory, which is how the emulator is built by default.
- PicLatch.LatchIsHighest: safety only; that a request is delivered in the end is not stated, and threads see each other's writes at once and in order.
- PicLatch.RequestLost: a device request is recorded when its thread writes the latch, also when the code keeps a higher number.
- BreakpointPool.Monitor.SetWatchpoint: whether the expression has a value is a parameter; evaluating watchpoints is not part of this model.
- BreakpointPool.Monitor.SetBreakpoint: addresses are those of one flat memory; running out of the 32 nodes is the code's assertion and appears as a precondition.
- Interrupts.Cpu.RaiseIntr: over flat memory; the hidden part of CS is not modelled, and the shift of a selector above 0x7fff is taken to copy its top bit.
- PageTables.InitMm: stores go to the physical address that the kernel's high mapping gives; the virtual address itself is not modelled.
- PageTables.BuildMappings: that the linker puts the tables in pages of their own and that the video table starts zero are preconditions.
- The allocator of program pages is an object file; mm_brk, which calls it, is not part of this model.
- Instruction decoding, devices, file system, games and test programs: plumbing around the parts above.
