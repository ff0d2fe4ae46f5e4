# A verified model of the qfbvsmtrs solver

`qfbvsmtrs` decides quantifier-free formulas over fixed-size bit vectors.  A query passes through a
chain of translations, and this project models each of them and proves that it preserves meaning:

1. the **term builder**, a hash-consed arena whose constructors rewrite eagerly (`Ir`, `Terms`,
   `Identities`, `Rules`, `WiringRules`, `Masks`, `Polynomials`, `Sums`, `Builder`);
2. the **evaluator**, the executable semantics on little-endian byte strings (`Bytes`, `ByteOps`, `Eval`);
3. the **bit-blaster** over a hash-consed gate arena (`Gates`, `CircuitLemmas`, `Circuits`, `Blast`);
4. **CNF and SAT**: Tseitin encoding and the in-house DPLL search (`Cnf`, `Sat`);
5. the **drivers**: satisfaction, bit-by-bit optimisation, deletion-based unsat cores (`Model`, `Solver`).

`EndToEnd` joins the circuit and the evaluator.  `Requests` says what a decoded wire request means,
`Lower` turns it into a query, and `Replies` carries models, optima and cores back to its nodes and
names.  `Compact` is a separate piece: the garbage collector of the wire format's expression graphs.

Everything is stated against one definition of bit vectors, `Bits`, with the operators of the
SMT-LIB theory FixedSizeBitVectors and the abbreviations of the logic QF_BV; the meaning of a query is
`Ir.Eval`, for every total assignment of its variables, keyed by term id.

The main results: an Unsat answer means that no assignment satisfies the query; a Sat answer comes
with a model all of whose total extensions satisfy it; limits only ever give Unknown
(`Solver.SolveCore`); optimisation returns the true optimum (`Solver.Optimize`); cores are
unsatisfiable and, without limits, minimal (`Solver.ExtractNamedCore`); every constructor of the
builder returns a term that means what was requested, and their mutual recursion ends
(`Builders.Builder`); a request means what its query means, so answers, models, optima and cores hold
of requests too (`Lowering.SameMeaning`, `Replies.AnswerRequest`); the evaluator computes the
semantics except on one precisely described family of queries (`Evaluator.Evaluate`).

How to read the contracts:

- A circuit method ends with "the arena only grew, earlier gates compute what they did, and the output
  carries this vector under every input" (`Drives`, `Carried`).
- A builder method ends with `Builds(was, now, r, k)`: the request `k` succeeds exactly when it is well
  sorted, the arena only grew with all earlier values unchanged, and the returned term has, under
  every assignment, the value of `k` over the arguments.
- `limited` says that a deadline or a cancellation token is in force; polls may then stop the work.
- `Lowered(typed, terms, nodes)`: under every assignment of the arena, the term of each request node has
  the value of that node.
- `Referred(typed, terms, nodes)`: every variable of the arena is one of the request and records the
  reference of the first node that mentions it.
- `WireAnswers(q, entries)`: the entries are for variable nodes of the request, some values of the
  variables agree with them, and all values that do make the request hold.
- Termination of the constructors rests on their `decreases` clauses together with the normal forms of
  `Builders.NormalForm`.

Where code and comments differ from a simple reading: `optimize` clears `want_model` before it blasts
and asks for a model at the end, so models are stated through all their total extensions rather than as
complete lists; the explicit assignment of the evaluator makes every Bool variable false
(`Evaluator.AssignedEnv`); the unsigned multiplication overflow test needs a vector of twice the width
and is refused past half the width cap (`Evaluator.WideSquareIsRefused`).

## Model

| member | source | states |
|---|---|---|
| Ir.Arena.Add | crates/qfbvsmtrs/src/ir.rs:187-203 | interning with the source's sort check: the id of an equal node if there is one, otherwise one appended node; the inverse id map is kept, and so is well-formedness when the node has the sort of its operator |
| Ir.EvalKept | crates/qfbvsmtrs/src/ir.rs:147-203 | appending nodes changes the value of no earlier term under any assignment |
| Ir.EvalAt | crates/qfbvsmtrs/src/eval.rs:90-271 | every node's value is its operator applied to the values of all nodes, so values do not depend on evaluation order |
| Ir.EvalSorted | crates/qfbvsmtrs/src/ir.rs:205-233 | under every assignment each term has a value of its declared sort and width |
| Ir.WidthPositive | crates/qfbvsmtrs/src/ir.rs:236-251 | no well-formed term has width 0 or a width past the cap |
| Bytes.NormalizedVal | crates/qfbvsmtrs/src/ir.rs:258-282 | a normalised byte string stands for the number of its first `width` bits |
| Bytes.DecodedInjective | crates/qfbvsmtrs/src/ir.rs:268-282 | equal vectors have equal normalised byte strings, so byte comparison decides vector equality |
| Bytes.MaskNormalizes | crates/qfbvsmtrs/src/ir.rs:258-266 | masking the last byte clears exactly the bits past the width and no other |
| Bytes.SetBitSets | crates/qfbvsmtrs/src/builder.rs:1778-1782 | setting a bit changes that bit and no other; out of range it changes nothing |
| ByteOps.AddBytes | crates/qfbvsmtrs/src/builder.rs:1723-1733 | limb addition with carry is addition modulo 2^width, normalised |
| ByteOps.NegBytes | crates/qfbvsmtrs/src/builder.rs:1740-1753 | complement-and-increment with an early exit is two's-complement negation |
| ByteOps.SubBytes | crates/qfbvsmtrs/src/builder.rs:1735-1738 | limb subtraction is subtraction modulo 2^width |
| ByteOps.MulBytes | crates/qfbvsmtrs/src/builder.rs:1755-1770 | schoolbook limb multiplication is the product modulo 2^width |
| ByteOps.MulRow | crates/qfbvsmtrs/src/builder.rs:1757-1767 | one row adds a[i]*b shifted by i limbs, up to multiples of the capacity; no intermediate exceeds 65535 |
| ByteOps.ExtractBytes | crates/qfbvsmtrs/src/builder.rs:1788-1797 | the copied bits are the slice of the operand |
| ByteOps.ConcatBytes | crates/qfbvsmtrs/src/builder.rs:1799-1814 | the joined string carries the concatenation, high part on top |
| ByteOps.SextBytes | crates/qfbvsmtrs/src/builder.rs:1816-1827 | sign extension on bytes is sign extension of the vector |
| ByteOps.RepeatBytes | crates/qfbvsmtrs/src/builder.rs:1829-1842 | the copies make up the repeated vector |
| ByteOps.RotateLeftBytes | crates/qfbvsmtrs/src/builder.rs:1844-1853 | the wrapped source index is the rotation |
| ByteOps.RotateRightBytes | crates/qfbvsmtrs/src/builder.rs:1855-1864 | the wrapped source index is the rotation |
| ByteOps.ShlBytes | crates/qfbvsmtrs/src/builder.rs:1866-1875 | left shift on bytes, for any amount |
| ByteOps.LShrBytes | crates/qfbvsmtrs/src/builder.rs:1877-1886 | logical right shift on bytes, for any amount |
| ByteOps.AShrBytes | crates/qfbvsmtrs/src/builder.rs:1888-1898 | arithmetic right shift on bytes fills with the sign, for any amount |
| ByteOps.BytesToBoundedUsize | crates/qfbvsmtrs/src/builder.rs:1900-1921 | the amount read is the minimum of the number and the bound, however long the string |
| ByteOps.CmpUnsignedBytes | crates/qfbvsmtrs/src/builder.rs:1927-1935 | comparing bytes from the top decides the order of the numbers, all three outcomes |
| ByteOps.SignedLessThan | crates/qfbvsmtrs/src/builder.rs:1937-1945 | true exactly when the two's-complement value is smaller |
| ByteOps.BitwiseDecoded | crates/qfbvsmtrs/src/eval.rs:349-361 | byte-wise and, or, xor are bit-wise and stay normalised without masking |
| ByteOps.ComplementDecoded | crates/qfbvsmtrs/src/eval.rs:122-127 | complementing and masking bytes is bvnot |
| Evaluator.UDivURemBytes | crates/qfbvsmtrs/src/eval.rs:429-446 | byte long division is bvudiv and bvurem for every divisor, zero included |
| Evaluator.SignedDivRem | crates/qfbvsmtrs/src/eval.rs:455-504 | bvsdiv, bvsrem and bvsmod for all sign combinations, zero divisors and the minimum value |
| Evaluator.ShiftBytes | crates/qfbvsmtrs/src/eval.rs:363-376 | saturating the amount at the width loses nothing |
| Evaluator.BinaryBytes | crates/qfbvsmtrs/src/eval.rs:128-151 | every binary operator on bytes is the bit-vector operator on the operands |
| Evaluator.UAddOverflows | crates/qfbvsmtrs/src/eval.rs:506-515 | the wrapped sum is below an operand exactly when the sum does not fit |
| Evaluator.SAddOverflows | crates/qfbvsmtrs/src/eval.rs:517-529 | the sign test is true exactly when the signed sum does not fit |
| Evaluator.SSubOverflows | crates/qfbvsmtrs/src/eval.rs:531-543 | the sign test is true exactly when the signed difference does not fit |
| Evaluator.UMulOverflows | crates/qfbvsmtrs/src/eval.rs:545-560 | an answer exactly when twice the width is within the cap, and then: overflow iff the product does not fit |
| Evaluator.SMulOverflows | crates/qfbvsmtrs/src/eval.rs:562-575 | overflow iff the double-width product is not the sign extension of its lower half, iff the signed product does not fit |
| Evaluator.SDivOverflows | crates/qfbvsmtrs/src/eval.rs:584-594 | overflow iff the truncated quotient does not fit |
| Evaluator.CompareBytes | crates/qfbvsmtrs/src/eval.rs:243-264 | every comparison and overflow test decides its mathematical meaning, or is refused as too wide |
| Evaluator.EvalNode | crates/qfbvsmtrs/src/eval.rs:92-268 | one node: the computed value stands for the node's meaning; no sort error can arise |
| Evaluator.EvalVariable | crates/qfbvsmtrs/src/eval.rs:96-120 | a constant assignment fills every bit of a variable; an explicit one gives vectors their bytes, zero bytes when absent, and makes Bools false |
| Evaluator.Evaluate | crates/qfbvsmtrs/src/eval.rs:90-271 | all computed values stand for the term semantics under the assignment, and variables have exactly what the assignment gives them; fails iff some multiplication overflow test is wider than half the cap |
| Evaluator.AssignedValue | crates/qfbvsmtrs/src/eval.rs:92-120 | the value of a variable under each assignment: all zeros, all ones, the explicit bits or zero, false for Bools |
| Evaluator.EmptyMapIsZero | crates/qfbvsmtrs/src/eval.rs:96-120 | the empty explicit assignment computes what the all-zero constant computes, on every term |
| Evaluator.QuerySatisfiedBy | crates/qfbvsmtrs/src/eval.rs:42-88 | answers true iff every assertion and assumption holds under the assignment |
| Evaluator.WideSquareIsRefused | crates/qfbvsmtrs/src/eval.rs:554-556 | a well-formed query on which evaluation fails although its meaning is defined |
| Gates.GateArena.AddRaw | crates/qfbvsmtrs/src/gates.rs:212-220 | hash-consing: an equal gate is found, otherwise one is appended; earlier gates keep their values |
| Gates.GateArena.NewInput | crates/qfbvsmtrs/src/gates.rs:74-78 | inputs are numbered consecutively and always new |
| Gates.GateArena.Negate | crates/qfbvsmtrs/src/gates.rs:88-99 | negation through every simplification, for all inputs |
| Gates.GateArena.Conjoin | crates/qfbvsmtrs/src/gates.rs:101-116 | conjunction through every simplification, for all inputs |
| Gates.GateArena.Disjoin | crates/qfbvsmtrs/src/gates.rs:118-133 | disjunction through every simplification, for all inputs |
| Gates.GateArena.ExclusiveOr | crates/qfbvsmtrs/src/gates.rs:135-153 | exclusive or through every simplification; its last simplification is unreachable |
| Gates.GateArena.Choose | crates/qfbvsmtrs/src/gates.rs:160-177 | multiplexer through every simplification, for all inputs |
| Gates.GateArena.ConjoinAll | crates/qfbvsmtrs/src/gates.rs:184-196 | conjunction of a list, with the early exit |
| Gates.GateArena.DisjoinAll | crates/qfbvsmtrs/src/gates.rs:198-210 | disjunction of a list, with the early exit |
| Gates.PrefixIsGrown | crates/qfbvsmtrs/src/gates.rs:212-220 | appending gates changes no value already computed, for any input |
| Circuits.AddWithCarry | crates/qfbvsmtrs/src/circuits.rs:43-60 | sum bits plus the weighted carry equal the exact integer sum, for all inputs |
| Circuits.Add | crates/qfbvsmtrs/src/circuits.rs:38-41 | the ripple adder is bvadd |
| Circuits.Sub | crates/qfbvsmtrs/src/circuits.rs:62-66 | adding the complement with carry in is bvsub |
| Circuits.Neg | crates/qfbvsmtrs/src/circuits.rs:68-71 | subtracting from zero is bvneg |
| Circuits.MulWidth | crates/qfbvsmtrs/src/circuits.rs:106-119 | the shift-add multiplier is the product modulo 2^width, for any operand and result widths |
| Circuits.MulConst | crates/qfbvsmtrs/src/circuits.rs:77-104 | the constant multiplier, with its special cases and skipped rows, is bvmul by that constant |
| Circuits.EqBits | crates/qfbvsmtrs/src/circuits.rs:139-146 | true iff the vectors are equal |
| Circuits.Ult | crates/qfbvsmtrs/src/circuits.rs:153-165 | the comparator chain is unsigned less-than |
| Circuits.Slt | crates/qfbvsmtrs/src/circuits.rs:172-178 | the sign fix-up is signed less-than |
| Circuits.Shl | crates/qfbvsmtrs/src/circuits.rs:185-197 | the barrel shifter is bvshl for amounts of any width, past 64 bits too |
| Circuits.LShr | crates/qfbvsmtrs/src/circuits.rs:199-211 | the barrel shifter is bvlshr for amounts of any width |
| Circuits.AShr | crates/qfbvsmtrs/src/circuits.rs:213-226 | the barrel shifter is bvashr for amounts of any width |
| Circuits.RotateCarries | crates/qfbvsmtrs/src/circuits.rs:260-270 | the index arithmetic of the rotations is the SMT-LIB rotation |
| Circuits.RepeatCarries | crates/qfbvsmtrs/src/circuits.rs:252-258 | the copies carry the repeated vector |
| Circuits.UDivURem | crates/qfbvsmtrs/src/circuits.rs:279-301 | the restoring divider is bvudiv and bvurem at every width, zero divisors included |
| Circuits.DividedStep | crates/qfbvsmtrs/src/circuits.rs:284-294 | each divider step keeps dividend prefix = quotient * divisor + remainder with remainder < divisor |
| CircuitLemmas.DivShift | crates/qfbvsmtrs/src/circuits.rs:284-289 | the bit the n-bit remainder register drops on each shift is always 0 |
| CircuitLemmas.DivStep | crates/qfbvsmtrs/src/circuits.rs:284-294 | compare, subtract and record one quotient bit: the division equation for one more dividend bit |
| Circuits.SDiv | crates/qfbvsmtrs/src/circuits.rs:303-312 | dividing magnitudes and fixing the sign is bvsdiv |
| Circuits.SRem | crates/qfbvsmtrs/src/circuits.rs:314-321 | the remainder of magnitudes with the dividend's sign is bvsrem |
| Circuits.SMod | crates/qfbvsmtrs/src/circuits.rs:323-348 | the four-way selection is bvsmod |
| CircuitLemmas.SDivIsTruncation | crates/qfbvsmtrs/src/circuits.rs:303-312 | bvsdiv is integer division rounding toward zero, modulo 2^n |
| CircuitLemmas.SRemIsRemainder | crates/qfbvsmtrs/src/circuits.rs:314-321 | bvsrem is the remainder of that division |
| CircuitLemmas.SModIsFloorRemainder | crates/qfbvsmtrs/src/circuits.rs:323-348 | bvsmod has the divisor's sign, is smaller than it, and is congruent to the dividend |
| Circuits.UAddOverflows | crates/qfbvsmtrs/src/circuits.rs:350-353 | the carry out is true iff the unsigned sum does not fit |
| Circuits.SAddOverflows | crates/qfbvsmtrs/src/circuits.rs:359-367 | the sign test is true iff the signed sum does not fit |
| Circuits.SSubOverflows | crates/qfbvsmtrs/src/circuits.rs:369-377 | the sign test is true iff the signed difference does not fit |
| Circuits.UMulOverflows | crates/qfbvsmtrs/src/circuits.rs:379-387 | the upper half of the double-width product is nonzero iff the product does not fit |
| Circuits.SMulOverflows | crates/qfbvsmtrs/src/circuits.rs:389-398 | the double-width product differs from its extended lower half iff the signed product does not fit |
| CircuitLemmas.SMulBySignExtension | crates/qfbvsmtrs/src/circuits.rs:389-398 | a signed product fits n bits iff it is the sign extension of its low half |
| Circuits.NegOverflows | crates/qfbvsmtrs/src/circuits.rs:400-405 | true exactly for the minimum value, the one whose negation does not fit |
| Circuits.SDivOverflows | crates/qfbvsmtrs/src/circuits.rs:407-415 | true exactly for the minimum value divided by -1, the one quotient that does not fit |
| Blast.ReachableTerms | crates/qfbvsmtrs/src/blast.rs:392-418 | marks the least set of terms that contains roots and target and is closed under operands |
| Queries.ChildrenBelow | crates/qfbvsmtrs/src/blast.rs:420-493 | operands have smaller ids, so blasting in id order always finds them |
| Blast.UseConstantMultiplier | crates/qfbvsmtrs/src/blast.rs:374-390 | chooses the constant multiplier iff the constant is 0, 1, -1 or has few set bits |
| Blast.BlastMul | crates/qfbvsmtrs/src/blast.rs:118-150 | multiplication, by either multiplier, is bvmul of the operands |
| Blast.BlastNode | crates/qfbvsmtrs/src/blast.rs:84-347 | one node: whenever inputs and assignment agree, its gates carry exactly its value |
| Blast.BlastQuery | crates/qfbvsmtrs/src/blast.rs:39-365 | the assertion gate is true iff all roots hold; an error only from limits; with want_model every variable of the arena is recorded |
| Blast.InputsAgree | crates/qfbvsmtrs/src/blast.rs:56-83 | every assignment is carried by some gate inputs |
| Blast.EnvAgrees | crates/qfbvsmtrs/src/blast.rs:56-83 | every choice of gate inputs stands for an assignment |
| Cnf.PushClause | crates/qfbvsmtrs/src/cnf.rs:116-125 | sorting, deduplication and dropping tautologies change no clause set's meaning |
| Cnf.EncodeGate | crates/qfbvsmtrs/src/cnf.rs:60-100 | the clauses of a gate hold iff the gate has the value its kind computes |
| Cnf.Encode | crates/qfbvsmtrs/src/cnf.rs:46-104 | an assignment satisfies the clauses iff every gate is consistent and the assertion gate is true |
| Cnf.ConsistentIsEvaluation | crates/qfbvsmtrs/src/cnf.rs:46-104 | a consistent assignment is the evaluation of the gates under the inputs it contains |
| Cnf.EvaluationIsConsistent | crates/qfbvsmtrs/src/cnf.rs:46-104 | every evaluation is consistent |
| Sat.AssignLit | crates/qfbvsmtrs/src/sat.rs:365-376 | assigns the literal, or reports the conflict and changes nothing |
| Sat.DpllSolver.UnitPropagate | crates/qfbvsmtrs/src/sat.rs:295-333 | a conflict proves that no completion exists; otherwise no completion is lost and every clause is satisfied or open |
| Sat.DpllSolver.ChooseVar | crates/qfbvsmtrs/src/sat.rs:343-347 | an unassigned variable of maximal occurrence, None exactly when all are assigned |
| Sat.DpllSolver.Search | crates/qfbvsmtrs/src/sat.rs:269-293 | terminates on the number of free variables; Sat with a satisfying completion, Unsat only when none exists |
| Sat.SomethingOpen | crates/qfbvsmtrs/src/sat.rs:282-287 | after successful propagation the exit with everything assigned and a clause unsatisfied cannot be reached |
| Sat.DpllSolver.Solve | crates/qfbvsmtrs/src/sat.rs:242-267 | sound and complete under assumptions; Unknown only from limits |
| Sat.SolveCnf | crates/qfbvsmtrs/src/sat.rs:14-52 | the re-check of a satisfying assignment never rejects it; Unsat means no assignment |
| Models.BuildModel | crates/qfbvsmtrs/src/model.rs:33-60 | one entry per variable, holding exactly its assigned bits, normalised |
| Models.ExtendsIffAgrees | crates/qfbvsmtrs/src/model.rs:33-60 | an assignment extends the model iff it is carried by the gate inputs the model was read from |
| Models.Get | crates/qfbvsmtrs/src/model.rs:24-31 | the first entry of the name, None exactly when there is none |
| Solver.SolveCore | crates/qfbvsmtrs/src/solver.rs:174-223 | Unsat: no assignment satisfies the query. Sat: some does, and every total extension of the model does. Unknown only from limits |
| Solver.SolveOnce | crates/qfbvsmtrs/src/solver.rs:135-172 | the same with shortcuts disabled; simplification is acknowledged, optimisation refused |
| Solver.NoAssignment | crates/qfbvsmtrs/src/solver.rs:211-222 | an unsatisfiable encoding leaves no satisfying assignment of the query |
| Solver.ModelIsTrue | crates/qfbvsmtrs/src/solver.rs:211-219 | a satisfying encoding yields a model that can be extended, all of whose extensions satisfy the query |
| Solver.AssertTargetBit | crates/qfbvsmtrs/src/solver.rs:357-386 | adds exactly the requirement that one target bit has the given value; the arena only grows |
| Solver.BestStep | crates/qfbvsmtrs/src/solver.rs:257-265 | a choice best on the upper bits stays best with the preferred lower bit, in signed and unsigned order |
| Solver.ChosenStep | crates/qfbvsmtrs/src/solver.rs:266-292 | fixing a preferred or forced bit keeps: satisfiable, upper bits pinned, nothing better |
| Solver.DecideBit | crates/qfbvsmtrs/src/solver.rs:257-293 | one round of the optimiser keeps that invariant |
| Solver.Optimize | crates/qfbvsmtrs/src/solver.rs:225-319 | the optimum is attained by a satisfying assignment and none is better, signed or unsigned, minimum or maximum; every extension of the final model attains it, and its entries have the names, references and sorts of the query's variables |
| Solver.NamedBefore | crates/qfbvsmtrs/src/solver.rs:295-318 | a model found after the bit tests is one for the variables of the query, because the tests add no variable |
| Solver.ExtractNamedCore | crates/qfbvsmtrs/src/solver.rs:321-354 | the reported names are those of the kept assertions, in order; nothing satisfies the assertions with these names together with the unnamed ones and the assumptions; minimal unless a call gave up; exactly one call per named assertion |
| Solver.NamesRefuted | crates/qfbvsmtrs/src/solver.rs:350-353 | no assignment satisfies the unnamed assertions, the assumptions and every assertion with a reported name |
| Solver.NeededDropped | crates/qfbvsmtrs/src/solver.rs:341-348 | dropping an assertion keeps all earlier ones needed |
| Solver.SubsetQuery | crates/qfbvsmtrs/src/solver.rs:392-406 | the trial query holds iff the unnamed and the active assertions and the assumptions hold |
| Solver.SolveQuery | crates/qfbvsmtrs/src/solver.rs:109-126 | the public entry point: satisfaction, cores and optimisation together, each answer with all its fields; simplification is only acknowledged |
| Solver.EntriesAreNamed | crates/qfbvsmtrs/src/model.rs:33-60 | every entry is for a variable of the arena, with its name, its external reference and a value of its sort, one at most for each variable |
| EndToEnd.CircuitMatchesEvaluator | crates/qfbvsmtrs/src/blast.rs:349-365 | under inputs that carry an assignment the assertion gate is true iff the byte evaluator finds every root true |
| EndToEnd.EvaluatorConfirms | crates/qfbvsmtrs/src/solver.rs:211-222 | the evaluator refutes every assignment after Unsat and confirms every extension of a returned model |
| Terms.BuildsRebased | crates/qfbvsmtrs/src/builder.rs:319-341 | a request answered over a grown arena also answers it over the earlier one |
| Builders.Builder.AddNode | crates/qfbvsmtrs/src/ir.rs:187-203 | a raw node means its kind, and normal forms are kept |
| Builders.NormalSnoc | crates/qfbvsmtrs/src/builder.rs:455-558 | the three normal forms survive every node that respects them |
| Builders.Builder.MakeUnary | crates/qfbvsmtrs/src/builder.rs:211-233 | bvnot and bvneg: folding and double application preserve meaning |
| Builders.Builder.MakeAnd | crates/qfbvsmtrs/src/builder.rs:235-264 | conjunction through units, complements, disjoint masks and absorption |
| Builders.Builder.MakeOr | crates/qfbvsmtrs/src/builder.rs:266-295 | disjunction through units, complements and absorption; x | (x << x) becomes a sum; terminates |
| Builders.Builder.MakeXor | crates/qfbvsmtrs/src/builder.rs:297-317 | exclusive or through units, complements and disjoint masks |
| Builders.Builder.MakeAdd | crates/qfbvsmtrs/src/builder.rs:319-341 | the sum through disjoint masks, regrouping and shifted copies; terminates although it and disjunction call each other |
| Builders.Builder.MakeSub | crates/qfbvsmtrs/src/builder.rs:343-355 | subtraction through its rewrites |
| Builders.Builder.MakeMul | crates/qfbvsmtrs/src/builder.rs:357-393 | the product through units, negations, shifts and regrouping; terminates |
| Builders.Builder.MakeUDiv | crates/qfbvsmtrs/src/builder.rs:395-407 | unsigned division through its rewrites, zero divisor included |
| Builders.Builder.MakeURem | crates/qfbvsmtrs/src/builder.rs:409-418 | unsigned remainder through its rewrites, zero divisor included |
| Builders.Builder.MakeShl | crates/qfbvsmtrs/src/builder.rs:432-453 | left shift through folding and negation |
| Builders.Builder.MakeLShr | crates/qfbvsmtrs/src/builder.rs:455-478 | right shift through folding and reordering; the result's amount is bounded, which is why it terminates |
| Builders.Builder.MakeAShr | crates/qfbvsmtrs/src/builder.rs:480-491 | arithmetic shift through folding; a constant amount past the width still fills with the sign |
| Builders.Builder.MakeExtract | crates/qfbvsmtrs/src/builder.rs:493-532 | a slice pushed through slices and joins means the slice; terminates |
| Builders.Builder.MakeConcat | crates/qfbvsmtrs/src/builder.rs:534-558 | a join, with adjacent slices merged, means the join |
| Builders.Builder.MakeExtension | crates/qfbvsmtrs/src/builder.rs:560-610 | zero and sign extension and repetition |
| Builders.Builder.MakeRotate | crates/qfbvsmtrs/src/builder.rs:612-636 | rotation by any amount equals rotation by the reduced amount |
| Builders.Builder.MakeIte | crates/qfbvsmtrs/src/builder.rs:638-662 | choice between vectors or Bools |
| Builders.Builder.MakeRaw | crates/qfbvsmtrs/src/builder.rs:664-683 | selections, signed divisions and overflow tests are passed on unchanged |
| Builders.Builder.MakeBoolNot | crates/qfbvsmtrs/src/builder.rs:685-694 | negation |
| Builders.Builder.MakeBoolBinary | crates/qfbvsmtrs/src/builder.rs:696-767 | conjunction, disjunction, implication and equality through every simplification |
| Builders.Builder.MakeBoolXor | crates/qfbvsmtrs/src/builder.rs:769-772 | exclusive or as negated equality |
| Builders.Builder.MakeEq | crates/qfbvsmtrs/src/builder.rs:799-827 | equality through complements, one-bit choices, extensions, constants and polynomials; terminates |
| Builders.Builder.MakeNe | crates/qfbvsmtrs/src/builder.rs:829-832 | disequality |
| Builders.Builder.MakeCompare | crates/qfbvsmtrs/src/builder.rs:1167-1202 | the four orders through their rewrites; terminates |
| Builders.Builder.EqOfChoice | crates/qfbvsmtrs/src/builder.rs:1214-1242 | a one-bit choice between constants compared with a constant is its condition, the negation, or fixed |
| Builders.Builder.EqOfExtension | crates/qfbvsmtrs/src/builder.rs:1244-1269 | an extension equals a constant iff the constant is in range and the child equals its low bits |
| Builders.Builder.CompareExtension | crates/qfbvsmtrs/src/builder.rs:1271-1319 | unsigned order of a zero extension and a constant, all eight cases |
| Builders.Builder.CanonicalAdd | crates/qfbvsmtrs/src/builder.rs:924-974 | flattening, constant folding, grouping by base and rebuilding equal the sum modulo 2^w, for any nesting |
| Builders.Builder.CanonicalMul | crates/qfbvsmtrs/src/builder.rs:976-1001 | flattening, constant folding and rebuilding equal the product modulo 2^w, for any nesting |
| Builders.Builder.GroupTerms | crates/qfbvsmtrs/src/builder.rs:943-966 | adding up coefficients of equal bases keeps the sum |
| Builders.Builder.RebuildChain | crates/qfbvsmtrs/src/builder.rs:1141-1165 | the rebuilt chain is the sum or product of the terms, in whatever order they came |
| Builders.Builder.AddShiftedSame | crates/qfbvsmtrs/src/builder.rs:334-339 | x + (x << k) rebuilt as x * (1 + (1 << k)) |
| Builders.Builder.Pop | crates/qfbvsmtrs/src/builder.rs:114-121 | drops exactly the assertions made since the matching push |
| Builders.Builder.Finish | crates/qfbvsmtrs/src/builder.rs:54-72 | a finished query satisfies everything the solver relies on |
| Sums.FlattenedValue | crates/qfbvsmtrs/src/builder.rs:1104-1124 | the leaves of a nested sum or product have its value modulo 2^w |
| Sums.SortKeeps | crates/qfbvsmtrs/src/builder.rs:1141-1165 | sorting is a permutation and keeps sum and product |
| Sums.ScaledTermValue | crates/qfbvsmtrs/src/builder.rs:1126-1139 | reading c * x as a scaled term keeps its value modulo 2^w |
| Identities.DisjointAdd | crates/qfbvsmtrs/src/builder.rs:328-330 | vectors without a common bit: the sum is the disjunction |
| Identities.SelfShiftDisjoint | crates/qfbvsmtrs/src/builder.rs:291-293 | x and x << x never share a bit, because x < 2^x |
| Identities.SelfShiftRight | crates/qfbvsmtrs/src/builder.rs:457-459 | x >> x is zero, because x < 2^x |
| Identities.ShiftedSame | crates/qfbvsmtrs/src/builder.rs:334-339 | x + (x << k) = x * (1 + (1 << k)) modulo 2^w |
| Identities.LShrCommutes | crates/qfbvsmtrs/src/builder.rs:471-476 | right shifts commute |
| Identities.NotIsNegMinusOne | crates/qfbvsmtrs/src/builder.rs:1067-1076 | bvnot x is -x - 1 |
| Rules.MulShlRule | crates/qfbvsmtrs/src/builder.rs:381-388 | (x << k) * y is (x * y) << k on either side |
| WiringRules.ExtractAcross | crates/qfbvsmtrs/src/builder.rs:524-526 | a slice across the seam of a join is the join of two slices |
| WiringRules.ExtensionOrderEquivalent | crates/qfbvsmtrs/src/builder.rs:1287-1318 | when the order of a zero extension and a constant is fixed, and when it is the child's |
| Masks.PossibleBitMask | crates/qfbvsmtrs/src/builder.rs:1461-1573 | the mask covers every value the term takes under every assignment |
| Masks.HaveDisjointPossibleBits | crates/qfbvsmtrs/src/builder.rs:1444-1459 | true only when the two terms never share a bit |
| Polynomials.AddAssign | crates/qfbvsmtrs/src/builder.rs:1694-1713 | adds one term modulo 2^w and keeps coefficients normalised and nonzero |
| Polynomials.Accumulate | crates/qfbvsmtrs/src/builder.rs:1623-1671 | sum, difference, negation and scaling, in any order of the terms |
| Polynomials.PolyMul | crates/qfbvsmtrs/src/builder.rs:1673-1692 | the product modulo 2^w whenever there is an answer; the size limits give none |
| Polynomials.PolynomialFor | crates/qfbvsmtrs/src/builder.rs:1028-1102 | the polynomial evaluates to the term under every assignment; cut-offs only give no answer |
| Polynomials.PolynomialEquality | crates/qfbvsmtrs/src/builder.rs:1003-1026 | true only if always equal, false only if never equal |
| Compaction.RawRoundTrip | crates/smt-wire/src/types.rs:27-66 | packing sort bit and 31-bit index loses nothing |
| Compaction.ExprBuilder.PushNode | crates/smt-wire/src/builder.rs:815-854 | appends a node over existing children or refuses; the graph stays well formed |
| Compaction.ExprBuilder.MarkRef | crates/smt-wire/src/builder.rs:950-963 | newly marked nodes are closed under children and lie in every closed set that contains the start |
| Compaction.ExprBuilder.Compact | crates/smt-wire/src/builder.rs:144-206 | keeps exactly the reachable nodes in order; well formed; every live term unfolds the same; maps inverse; fails iff a root is not a valid reference |
| Compaction.SameTerm | crates/smt-wire/src/builder.rs:168-198 | the renumbered node unfolds to the same term |
| Compaction.NewGraphOk | crates/smt-wire/src/builder.rs:166-198 | children still precede parents and references carry the right sorts |
| Compaction.InverseMaps | crates/smt-wire/src/builder.rs:37-73 | remap and original are inverse on exactly the live references |
| Compaction.RootsKept | crates/smt-wire/src/builder.rs:37-73 | every root is remapped, maps back to itself and unfolds to the same term |
| Requests.AcceptedByTag | crates/qfbvsmtrs/src/wire.rs:71-244 | tag by tag: how many children, of which sorts, widths and bytes, a node must have to be accepted |
| Lowering.RequestTerm | crates/qfbvsmtrs/src/wire.rs:71-244 | each tag asks the builder for its operator over the terms of the children, and the query under construction stays valid |
| Lowering.LowerVariable | crates/qfbvsmtrs/src/wire.rs:30-70 | a variable is made at its first occurrence, with the reference to that node, and found again later; equal symbols share one term |
| Lowering.LowerOperator | crates/qfbvsmtrs/src/wire.rs:71-246 | the term of an operator has, under every assignment, the value of its node; refused iff the node is not well sorted; no variable is added |
| Lowering.LowerNodes | crates/qfbvsmtrs/src/wire.rs:25-247 | all nodes are built; fails iff some node is not accepted; every variable of the arena is one of the request and records the first node that mentions it |
| Lowering.MovedValue | crates/qfbvsmtrs/src/wire.rs:307-333 | reading the children's terms for the children does not change an operator's value |
| Lowering.QueryFromWire | crates/qfbvsmtrs/src/wire.rs:16-286 | the finished query is valid, asks about the terms what the request asks about the nodes, and names assertion i exactly when the request does; refused iff there are too many nodes or a node, root or target is not well sorted |
| Lowering.SameMeaning | crates/qfbvsmtrs/src/wire.rs:16-286 | query and request hold for the same values of the variables, whatever was rewritten, and give the target the same value |
| Lowering.SameSatisfiability | crates/qfbvsmtrs/src/wire.rs:16-286 | the query is satisfiable iff some values of the variable names make the request hold |
| Lowering.SameOptimum | crates/qfbvsmtrs/src/wire.rs:252-268 | the optimum of the query is the optimum of the request over all values of the names, in the requested order |
| Replies.SameModel | crates/qfbvsmtrs/src/model.rs:24-60 | a model of the query can be read by name, and every reading makes the request hold |
| Replies.EntryReference | crates/qfbvsmtrs/src/wire.rs:33-62 | every model entry carries a reference, with the right sort, to the first node that mentions its variable |
| Replies.ModelToWire | crates/qfbvsmtrs/src/wire.rs:288-305 | one entry for each model entry with a reference, holding its value |
| Replies.ExternalAnswers | crates/qfbvsmtrs/src/wire.rs:288-305 | the entries by reference are for variables of the request, consistent, and whatever else the variables stand for, the request holds |
| Replies.ModelToWireForRequest | crates/smt-server/src/qfbvsmtrs_backend.rs:61-105 | one entry for every node that mentions a variable of the model; fails iff two entries disagree on a symbol or a value is not normalised |
| Replies.MentionsAnswer | crates/smt-server/src/qfbvsmtrs_backend.rs:61-105 | the entries for all mentions are for variables of the request, consistent, and make the request hold |
| Replies.OneEntryPerSymbol | crates/smt-server/src/qfbvsmtrs_backend.rs:69-76 | models of a lowered query never disagree on a symbol, so the conversion does not fail |
| Replies.SameCore | crates/qfbvsmtrs/src/wire.rs:270-283 | a core of the query is a core of the request: names of distinct assertions that cannot be true together with the rest, each needed unless a limit was reached |
| Replies.OptimumModel | crates/smt-server/src/qfbvsmtrs_backend.rs:188-205 | the model sent with an optimum makes the request hold and gives the target that value |
| Replies.AnswerRequest | crates/smt-server/src/qfbvsmtrs_backend.rs:158-218 | from request to reply: Unsat means no values of the names satisfy it, with a core if wanted; Sat that some do, with a model that does; optima are optima, with a model that attains them; ill-sorted requests are Unknown |

## Left out

- The `varisat` and `splr` backends, Z3 and the binbit and rumba backends: foreign solvers; only the DPLL backend and the re-check are modelled.
- Shortcut passes: shortcuts are disabled, as in `solve_without_shortcuts`.
- Deadlines and cancellation: one flag for both, which lets any poll stop the work, so a deadline alone may also stop a poll that looks at cancellation only (the first one of `SolveOnce`); messages of Unknown results are dropped.
- Node, gate and variable counts above 2^32: ids are unbounded naturals, so the errors for too many nodes cannot occur.
- Pseudo-random assignments of the evaluator: `EvalAssignment.Total` stands for any of them.
- `bv_const` from a 64-bit number, the swapped comparisons (`bv_ugt` and its kin) and `get_values`: they would only add easy members.
- Error messages: every refused request is `Invalid`, every reached limit `Timeout`.
- The wire formats: requests are taken decoded, with the children of a node as indices (decoding drops the sort bit of a reference, as the source does), variable names and constant bytes in place of payloads; responses as bytes, parsing, printing, caching, racing and recording are input and output around the solver; compaction yields the parts of the buffer.
- Validation of an expression: node count, arity and the sorts of children are checked; declared widths of operators and one signature per symbol are not, so the source refuses some more requests.
- Request budgets and back ends: the reply to a request comes from the DPLL path with shortcuts disabled.
- Variable tables of a request: one table for vectors and Bools, keyed by name and sort.
- Rewrites: the contracts of the constructors say what the returned term means, not which of several equal terms it is.
- Completeness of the polynomial decision: giving no answer is sound, because the plain equality is then built; which pairs get one is not stated.
- Coverage of models of optima: `optimize` clears `want_model` before it blasts, so variables the query does not depend on have no entry.
- Offsets on 32-bit machines: byte lengths of an expression buffer are computed without overflow, as with 64-bit `usize`.
- Node kinds: grouped by the sorts of their operands (`BinaryBv(op, a, b)` and so on), one constructor per group.
- Bit-copying loops of the byte helpers: all gather bits through `Bytes.GatherBits`, which sets one bit at a time in increasing order.
- Standard-library sorts: insertion sort; iteration over ordered maps: any order. The results do not depend on either.
- `bv_not` and `bv_neg`, the extensions with repetition, the two rotations, the choices and the connectives each share one parameterised constructor.
- Folding of constants in the builder: goes through the evaluator's byte operators, which call the same helpers.
- Sat.DpllSolver.Solve: covers assumptions, which the solver always leaves empty.
- Evaluator.EvalNode: explicit byte strings must be normalised for their variable; the source clones a string of the wrong length, or with unused high bits set, without giving it a meaning.
- Evaluator.Evaluate: the same, for explicit byte strings of the wrong length or with unused high bits set.
- Evaluator.QuerySatisfiedBy: the same, for explicit byte strings of the wrong length or with unused high bits set.
