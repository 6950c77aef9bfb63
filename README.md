# Polynomial calculator and similar-lines grouping, modelled in Dafny

This project models the core of two C programs.

**The polynomial calculator (`Task2-Polynomials`).** It reads commands line by line and runs them on a stack of sparse, recursive, multivariate polynomials with integer coefficients.

- A polynomial is either a scalar coefficient, or an array of monomials `p * x^e` sorted by strictly descending exponent. Each coefficient `p` is itself a polynomial in the next variables.
- **Canonical form** (`PolyBase.Canonical`):
  - no zero coefficient is stored;
  - an array is never empty;
  - a single `(scalar, 0)` monomial is always collapsed to the scalar.
- Every constructor of poly.c keeps this form. The model proves so for each operation.
- Each operation is also proved against the meaning of a polynomial as a function of its variables (`PolyBase.Eval`). The identity theorem (`PolyIdentity.AgreeEverywhereEqual`) shows that two canonical polynomials are equal exactly when they agree at every point. It is what makes the structural `PolyIsEq` the equality of polynomials.

The model is split into modules:

- `PolyBase`, `PolyScale`, `PolySum`, `PolyProduct`, `PolyOps`, `PolyQuery`, `PolyCanon` and `PolyPrint` model the operations of poly.c as functions.
- `PolyCanonImpl` and `PolyImpl` model the array-filling and accumulator loops as methods. Each is proved to compute the function.
  - The canonicalisers PolyAddMonos, PolyOwnMonos and PolyCloneMonos sort, flag entries with negative exponents in place, and sort again.
  - The other loops are `power`, the merge-join of PolyAddMulByScalars, and PolyMul, PolyPow, PolyAt and PolyCompose.
- `PolyStack` is stack.c:
  - the `Stack` class holds the array, its size and its capacity;
  - each calculator command is a method proved to make the transition `Apply` describes;
  - `Apply` covers the underflow check, the result pushed, and the text written to standard output and to the diagnostic stream.
- `PolyParser`, `PolyReader` and `PolyLine` are parser.c:
  - the character checks and keyword matchers;
  - `CheckIfCorrectPoly`, a scanning method proved equal to the language `CorrectPoly`;
  - the argument checks of `DEG_BY`, `AT` and `COMPOSE` over a model of `strtol`/`strtoull` with `ERANGE`;
  - the recursive-descent `PolyFromString` with its growable `MonoVec`;
  - the `HandleLine` decision table.

Two quirks of the C code are kept as written:

- `PolyCompose(p, k, q)` substitutes `q[k-1]` for the outermost variable.
- A `DEG_BY`, `AT` or `COMPOSE` argument such as `1-2` passes the character test, but the conversion stops at the `-`. The function then returns 0 without setting `errno`, so `DEG_BY 1-2` runs as `DEG_BY 0` (`PolyParser.DegByTrailingMinus`).

One behaviour is not kept as written. On a line such as `(1,2,3)+(4)`, CheckIfCorrectPoly accepts and PolyFromString then fails its `assert` at parser.c:399, so the C program aborts. `PolyFromString` and `PolyReader.ParsePoly` keep that abort (`PolyReader.MalformedLineAborts`). The line handler (`PolyLine.Decide`, `PolyLine.Process`, `PolyLine.HandleLine`) uses the corrected reading `PolyReader.ReadPoly` instead, and reports such a line as `ERROR <n> WRONG POLY` (`PolyLine.MalformedLineRefused`; see "## Findings").

**The similar-lines program (`Task1-SimilarLines`).** It reads lines of words and sorts each word into a string, a `long long`, an `unsigned long long` or a `double` token. It then reports the groups of lines that hold the same tokens as multisets, where words are compared after folding to lower case (`LineData.Normal`).

- The modules:
  - `LineData`: the comparators of line_representation.c as functions; strings are compared case-insensitively.
  - `LineRepresentation`: the `Line` structure as a class with growing arrays, and `find_representatives` as a loop.
  - `LineGroups`: what grouping means.
  - `LineChecks`: the character checks of parser.c.
- `line_cmp_by_data` is proved to be a comparator whose zero is exactly `compareLines`.
- `find_representatives`, given lines sorted by it, picks the first line of each maximal run of similar lines. Each such line lists the numbers of its whole run.
- On sorted input every class of similar lines is exactly one run, so each class gets exactly one representative (`LineGroups.BlockIsClass`, `LineGroups.OneRepresentative`).

`CText` models the C library pieces both programs rely on:

- NUL-terminated buffers;
- `isspace`;
- decimal `strtol`/`strtoull` with saturation and `ERANGE`;
- decimal printing of integers by `printf`: `%ld` in PolyPrint, `%zu` in the diagnostics of the calculator, `%d` in print_error (`CText.IntToString`, `CText.NatToString`).

## Model

| member | source | states |
|---|---|---|
| PolyBase.CoefficientCanonical | Task2-Polynomials/src/poly.c:5-8 | in a canonical polynomial, every coefficient of the array is itself canonical and non-zero, and every exponent is non-negative |
| PolyBase.CanonicalPassesCheck | Task2-Polynomials/src/poly.c:27-33 | every polynomial in canonical form passes the check PolyCheckIfCorrect asserts, so that assertion never fails on them |
| PolyBase.PowSquare | Task2-Polynomials/src/poly.c:76-90 | the step of `power` that squares the base and halves an even exponent keeps the value of the power |
| PolyBase.PowAdd | Task2-Polynomials/src/poly.c:76-90 | x^(a+b) = x^a * x^b, the law that `power` and PolyAt's evaluation rely on |
| PolyBase.PowMul | Task2-Polynomials/src/poly.c:76-90 | (x*y)^n = x^n * y^n |
| PolyBase.PowZeroBase | Task2-Polynomials/src/poly.c:76-90 | 0 to a positive power is 0, and 0 to a non-positive power is 1, as the loop in `power` gives |
| PolyBase.PowOne | Task2-Polynomials/src/poly.c:76-90 | every power of 1 is 1 |
| PolyBase.EvalTermsAppend | Task2-Polynomials/src/poly.c:5-8 | the value of an array of monomials is the sum of the values of its parts |
| PolyBase.MonoValueZero | Task2-Polynomials/src/poly.c:5-8 | a monomial whose coefficient is zero is worth 0 at every point |
| PolyScale.DropZerosMembers | Task2-Polynomials/src/poly.c:98-133 | every monomial that survives the zero-dropping step is a monomial of the input with a non-zero coefficient |
| PolyScale.DropZerosNoZeros | Task2-Polynomials/src/poly.c:98-133 | when no coefficient is zero, dropping zeros changes nothing |
| PolyScale.DropZerosStrictlyDecreasing | Task2-Polynomials/src/poly.c:98-133 | dropping zeros keeps the exponents strictly decreasing (invariant 1) |
| PolyScale.DropZerosProper | Task2-Polynomials/src/poly.c:98-133 | dropping zeros from decreasing entries with canonical coefficients leaves entries a canonical array may hold |
| PolyScale.EvalDropZeros | Task2-Polynomials/src/poly.c:98-133 | dropping monomials with zero coefficients does not change the value at any point |
| PolyScale.EvalCollapse | Task2-Polynomials/src/poly.c:120-130 | turning a single `(c, 0)` monomial into the scalar `c` does not change the value at any point |
| PolyScale.CollapseCanonical | Task2-Polynomials/src/poly.c:120-133 | a collapsed array of proper entries is canonical (invariant 2), and it is zero exactly when no entry is left |
| PolyScale.CollapseIsCoeff | Task2-Polynomials/src/poly.c:120-133 | the result is a scalar exactly when no entry is left or a single `(scalar, 0)` is left |
| PolyScale.EvalScale | Task2-Polynomials/src/poly.c:98-133 | PolyMulByScalar computes `s * p` at every point |
| PolyScale.ScaleNonZero | Task2-Polynomials/src/poly.c:98-133 | a non-zero factor keeps a non-zero canonical polynomial non-zero, and keeps it a scalar exactly when it was one |
| PolyScale.ScaleCanonical | Task2-Polynomials/src/poly.c:98-133 | PolyMulByScalar returns a canonical polynomial for a canonical input and any factor, including 0 |
| PolyScale.ScaleOne | Task2-Polynomials/src/poly.c:448-451 | PolyClone returns a polynomial equal to its canonical argument |
| PolyScale.ScaleScale | Task2-Polynomials/src/poly.c:453-456 | scaling twice is scaling by the product, so negating twice gives the value back |
| PolySum.MonoValueScaled | Task2-Polynomials/src/poly.c:141-143 | MonoMulByScalar scales the monomial's value by the factor and keeps its exponent |
| PolySum.EvalAddCoeff | Task2-Polynomials/src/poly.c:151-178 | PolyAddCoeff adds `c` to the value at every point |
| PolySum.AddCoeffCanonical | Task2-Polynomials/src/poly.c:151-178 | PolyAddCoeff keeps the canonical form and never turns the array into a scalar |
| PolySum.MergeProper | Task2-Polynomials/src/poly.c:225-292 | the merge-join appends entries a canonical array may hold, each at most the larger head exponent still to come |
| PolySum.WeightedSumCanonical | Task2-Polynomials/src/poly.c:189-292 | PolyAddMulByScalars returns a canonical polynomial |
| PolySum.MonoValueWeighted | Task2-Polynomials/src/poly.c:237-247 | merging two monomials of equal exponent gives the weighted sum of their values |
| PolySum.EvalMerge | Task2-Polynomials/src/poly.c:225-292 | what the merge-join appends is worth `sp` times the rest of `p` plus `sq` times the rest of `q` |
| PolySum.EvalMergeEqual | Task2-Polynomials/src/poly.c:237-247 | the merge step for equal head exponents keeps EvalMerge's equation |
| PolySum.EvalMergeFromP | Task2-Polynomials/src/poly.c:248-253 | the merge step that takes the head of `p` keeps EvalMerge's equation |
| PolySum.EvalMergeFromQ | Task2-Polynomials/src/poly.c:254-259 | the merge step that takes the head of `q` keeps EvalMerge's equation |
| PolySum.EvalWeightedSum | Task2-Polynomials/src/poly.c:189-292 | PolyAddMulByScalars computes `sp * p + sq * q` at every point |
| PolyIdentity.SubZeroEqual | Task2-Polynomials/src/poly.c:458-462 | PolySub of two canonical polynomials is zero only when they are equal |
| PolyIdentity.MergeEmptyEqual | Task2-Polynomials/src/poly.c:225-292 | when the merge-join of `p - q` appends nothing, the monomials still to come in `p` and `q` are the same |
| PolyIdentity.TailBound | Task2-Polynomials/src/poly.c:490-514 | at a point `h >= 1`, monomials of exponent at most `b` are worth at most the sum of their coefficients' sizes times `h^b` |
| PolyIdentity.Dominates | Task2-Polynomials/src/poly.c:490-514 | the leading monomial outweighs the rest once the outer variable exceeds the sum of the other coefficients |
| PolyIdentity.NonZeroWitness | Task2-Polynomials/src/poly.c:5-8 | a non-zero canonical polynomial takes a non-zero value at some point |
| PolyIdentity.AgreeEverywhereEqual | Task2-Polynomials/src/poly.c:304-326 | two canonical polynomials with the same value at every point are equal, so the structural test PolyIsEq is equality of polynomials |
| PolyCanon.Insert | Task2-Polynomials/src/poly.c:41-55 | insertion by the order of monoCmp adds exactly one entry and keeps the rest |
| PolyCanon.InsertSorted | Task2-Polynomials/src/poly.c:41-55 | inserting into an array sorted by monoCmp keeps it sorted |
| PolyCanon.SortByExp | Task2-Polynomials/src/poly.c:387-388 | a permutation of the monomials sorted by descending exponent always exists, so the sort `qsort` performs has a result |
| PolyCanon.EvalPermutation | Task2-Polynomials/src/poly.c:387-388 | a permutation of the monomials has the same value, so sorting does not change the sum |
| PolyCanon.MergeRunsProper | Task2-Polynomials/src/poly.c:390-414 | over a sorted array of valid monomials the flagging pass leaves entries a canonical array may hold, none above the first exponent |
| PolyCanon.EvalMergeRuns | Task2-Polynomials/src/poly.c:390-414 | adding neighbours of equal exponent and dropping zeros does not change the value |
| PolyCanon.SortedCanonical | Task2-Polynomials/src/poly.c:374-432 | whatever sorted arrangement `qsort` produces, the result is canonical and worth the sum of the monomials |
| PolyCanon.CanonCorrect | Task2-Polynomials/src/poly.c:374-432 | PolyAddMonos returns a canonical polynomial whose value is the sum of the monomials' values |
| PolyCanon.CanonEmpty | Task2-Polynomials/src/poly.c:376-378 | with no monomials, or only zero ones, PolyAddMonos returns zero |
| PolyCanon.MergeRunsZeros | Task2-Polynomials/src/poly.c:399-402 | a pass over zero monomials flags all of them |
| PolyCanon.SortOrderIrrelevant | Task2-Polynomials/src/poly.c:387-388 | the result does not depend on how the unstable `qsort` orders monomials of equal exponent |
| PolyCanon.CanonOfCanonical | Task2-Polynomials/src/poly.c:374-432 | the monomials of a canonical polynomial canonicalise back to that polynomial |
| PolyCanonImpl.SortByExpInPlace | Task2-Polynomials/src/poly.c:387-388 | `qsort` with monoCmp leaves a permutation of the array sorted by descending exponent |
| PolyCanonImpl.FlagRuns | Task2-Polynomials/src/poly.c:390-414 | the flagging loop leaves unflagged exactly the entries the pass over the sorted input keeps, and `size` counts them |
| PolyCanonImpl.FlagAt | Task2-Polynomials/src/poly.c:391-413 | one iteration (drop a zero, add into an equal-exponent successor, or keep) keeps the loop invariant and the survivor count |
| PolyCanonImpl.StepDropped | Task2-Polynomials/src/poly.c:399-402 | flagging a zero entry keeps the loop invariant and the count of survivors |
| PolyCanonImpl.MergeReady | Task2-Polynomials/src/poly.c:404-413 | an entry with an equal-exponent successor has that successor inside the array, and the sum of the two is canonical |
| PolyCanonImpl.StepMerged | Task2-Polynomials/src/poly.c:404-413 | adding an entry into its successor and flagging it keeps the loop invariant |
| PolyCanonImpl.MergedTail | Task2-Polynomials/src/poly.c:404-413 | the pass continues from the sum of a run's first two entries just as it would over the two entries |
| PolyCanonImpl.StepKept | Task2-Polynomials/src/poly.c:390-414 | an entry that is neither zero nor followed by its own exponent is the next survivor |
| PolyCanonImpl.FlagDone | Task2-Polynomials/src/poly.c:416-419 | at the end of the loop the unflagged entries are the pass's result, and only the placeholder lies beyond the scanned part |
| PolyCanonImpl.PlaceholderLast | Task2-Polynomials/src/poly.c:385-388 | after the first sort the `INT_MIN` placeholder is the last entry, and the first `count` entries are the monomials |
| PolyCanonImpl.KeptMultiset | Task2-Polynomials/src/poly.c:421-422 | which entries are unflagged depends only on how often each entry occurs, not on the order |
| PolyCanonImpl.KeptOfSortedIsPrefix | Task2-Polynomials/src/poly.c:421-422 | after the second sort the unflagged entries come first, and every entry after them is flagged |
| PolyCanonImpl.SortedUnique | Task2-Polynomials/src/poly.c:421-422 | a sorted arrangement of the entries of a strictly decreasing array is that array |
| PolyCanonImpl.SecondSort | Task2-Polynomials/src/poly.c:421-422 | after the second sort the first `size` entries are the survivors in their order |
| PolyCanonImpl.FlagSortCollapse | Task2-Polynomials/src/poly.c:387-432 | sorting, flagging, sorting again and collapsing return PolyAddMonos's value, and a non-scalar result is the front of the working array |
| PolyCanonImpl.PolyAddMonos | Task2-Polynomials/src/poly.c:374-432 | the array procedure returns the canonical polynomial equal to the sum of the monomials |
| PolyCanonImpl.PolyOwnMonos | Task2-Polynomials/src/poly.c:574-625 | a missing array gives zero; otherwise the result is PolyAddMonos's, built in the caller's array |
| PolyCanonImpl.MonoClone | Task2-Polynomials/src/poly.c:636 | a deep copy of a monomial is equal to it |
| PolyCanonImpl.PolyCloneMonos | Task2-Polynomials/src/poly.c:627-685 | a missing array gives zero; otherwise the result is PolyAddMonos's on the monomials, and the argument is left unchanged |
| PolyProduct.Mul | Task2-Polynomials/src/poly.c:516-554 | PolyMul returns a canonical polynomial |
| PolyProduct.Cross | Task2-Polynomials/src/poly.c:536-544 | the cross product of the first `n` monomials with `q` has `n * size(q)` entries, all valid input for PolyAddMonos |
| PolyProduct.Row | Task2-Polynomials/src/poly.c:537-543 | one row of the cross product holds the products of monomial `i` of `p` with each monomial of `q`, in order |
| PolyProduct.Product | Task2-Polynomials/src/poly.c:538-539 | the product of two monomials has a non-negative exponent and a canonical coefficient |
| PolyProduct.EvalMul | Task2-Polynomials/src/poly.c:516-554 | PolyMul multiplies values at every point |
| PolyProduct.EvalCross | Task2-Polynomials/src/poly.c:536-544 | the cross product of the first `n` monomials of `p` with `q` is worth those monomials times `q` |
| PolyProduct.EvalRow | Task2-Polynomials/src/poly.c:537-543 | one row is worth the monomial times `q` |
| PolyProduct.EvalProduct | Task2-Polynomials/src/poly.c:538-539 | the product of two monomials is worth the product of their values |
| PolyProduct.MulCommutes | Task2-Polynomials/src/poly.c:516-554 | PolyMul is commutative |
| PolyProduct.MulAssociates | Task2-Polynomials/src/poly.c:516-554 | PolyMul is associative |
| PolyProduct.MulOne | Task2-Polynomials/src/poly.c:516-554 | the scalar 1 is neutral for PolyMul on both sides |
| PolyProduct.MulZero | Task2-Polynomials/src/poly.c:519-521 | zero annihilates on both sides |
| PolyOps.EvalAdd | Task2-Polynomials/src/poly.c:368-372 | PolyAdd returns a canonical polynomial and adds values at every point |
| PolyOps.EvalSub | Task2-Polynomials/src/poly.c:458-462 | PolySub returns a canonical polynomial and subtracts values at every point |
| PolyOps.AddCommutes | Task2-Polynomials/src/poly.c:368-372 | PolyAdd is commutative |
| PolyOps.SubIsAddNeg | Task2-Polynomials/src/poly.c:453-462 | PolySub is PolyAdd of the negation, and `p - p` is zero |
| PolyOps.PowRef | Task2-Polynomials/src/poly.c:687-716 | `p^n` as repeated PolyMul is canonical |
| PolyOps.EvalPowRef | Task2-Polynomials/src/poly.c:687-716 | `p^n` is worth `p`'s value to the power `n` at every point |
| PolyOps.PowRefZero | Task2-Polynomials/src/poly.c:687-716 | zero to a positive power is zero, and to the power 0 it is 1 |
| PolyOps.PowRefSquare | Task2-Polynomials/src/poly.c:697-712 | the squaring step of PolyPow keeps `mul^exp` |
| PolyOps.PowRefPeel | Task2-Polynomials/src/poly.c:697-712 | the odd step of PolyPow keeps `res * mul^exp` |
| PolyOps.PowNonZero | Task2-Polynomials/src/poly.c:687-716 | no power of a non-zero value is zero |
| PolyOps.At | Task2-Polynomials/src/poly.c:490-514 | PolyAt returns a canonical polynomial |
| PolyOps.AtPrefix | Task2-Polynomials/src/poly.c:500-511 | PolyAt's accumulator stays canonical after every monomial |
| PolyOps.EvalAt | Task2-Polynomials/src/poly.c:490-514 | PolyAt substitutes `x` for the outermost variable: its value at `xs` is `p`'s value at `x` followed by `xs` |
| PolyOps.EvalAtPrefix | Task2-Polynomials/src/poly.c:500-511 | after `n` monomials the accumulator is worth those monomials with `x` substituted |
| PolyOps.AtStep | Task2-Polynomials/src/poly.c:500-511 | one step of PolyAt adds the monomial's value at `x` |
| PolyOps.MonoAt | Task2-Polynomials/src/poly.c:501 | a monomial at `x` is worth `x^exp` times its coefficient's value |
| PolyOps.Compose | Task2-Polynomials/src/poly.c:718-746 | PolyCompose returns a canonical polynomial |
| PolyOps.ComposePrefix | Task2-Polynomials/src/poly.c:732-743 | PolyCompose's accumulator stays canonical after every monomial |
| PolyOps.Substitution | Task2-Polynomials/src/poly.c:733-735 | the point PolyCompose evaluates at has one value per substituted polynomial |
| PolyOps.SubstitutionAt | Task2-Polynomials/src/poly.c:733-735 | variable `i` takes the value of `q[k - 1 - i]` |
| PolyOps.EvalAtOrigin | Task2-Polynomials/src/poly.c:722-729 | at the origin only the exponent-0 monomial, the last one of a canonical array, counts |
| PolyOps.EvalCompose | Task2-Polynomials/src/poly.c:718-746 | PolyCompose evaluates `p` at the values of `q[k-1], ..., q[0]`, with 0 for the later variables |
| PolyOps.EvalComposePrefix | Task2-Polynomials/src/poly.c:732-743 | after `n` monomials the accumulator is worth those monomials at the substituted point |
| PolyOps.ComposeStep | Task2-Polynomials/src/poly.c:732-743 | one step of PolyCompose adds the monomial's value at the substituted point |
| PolyOps.ComposeTerm | Task2-Polynomials/src/poly.c:733-735 | `q[k-1]^e` times the composed coefficient is the monomial's value at the substituted point |
| PolyOps.SubstitutionCons | Task2-Polynomials/src/poly.c:733-735 | the substituted point starts with `q[k-1]`'s value and continues with the point for `k - 1` |
| PolyQuery.IsEqIff | Task2-Polynomials/src/poly.c:300-326 | PolyIsEq holds exactly when the two representations are equal |
| PolyQuery.MonoIsEqIff | Task2-Polynomials/src/poly.c:300-302 | MonoIsEq holds exactly when the two monomials are equal |
| PolyQuery.IsEqSemantic | Task2-Polynomials/src/poly.c:304-326 | on canonical polynomials, PolyIsEq holds exactly when the values agree at every point (both directions) |
| PolyQuery.CloneIsEq | Task2-Polynomials/src/poly.c:448-451 | a clone is PolyIsEq to its original |
| PolyQuery.DegPrefix | Task2-Polynomials/src/poly.c:358-363 | PolyDeg's running maximum is never negative |
| PolyQuery.DegZeroIff | Task2-Polynomials/src/poly.c:347-366 | PolyDeg is -1 exactly for the zero polynomial, and at least 0 otherwise |
| PolyQuery.DegPrefixBound | Task2-Polynomials/src/poly.c:358-363 | the running maximum bounds `exp + deg(coeff)` of every monomial seen so far |
| PolyQuery.DegPrefixAttained | Task2-Polynomials/src/poly.c:358-363 | the running maximum is reached by one of the monomials seen so far |
| PolyQuery.DegBound | Task2-Polynomials/src/poly.c:347-366 | every non-zero term of the expanded polynomial has total degree at most PolyDeg |
| PolyQuery.DegAttained | Task2-Polynomials/src/poly.c:347-366 | a non-zero polynomial has a non-zero term whose total degree is PolyDeg |
| PolyQuery.DegByPrefix | Task2-Polynomials/src/poly.c:474-486 | PolyDegBy's running result is never below -1 |
| PolyQuery.DegByPrefixBound | Task2-Polynomials/src/poly.c:474-486 | the running result bounds the degree of every monomial seen so far |
| PolyQuery.DegByPrefixAttained | Task2-Polynomials/src/poly.c:474-486 | the running result is reached by one of the monomials seen so far |
| PolyQuery.DegByZeroIff | Task2-Polynomials/src/poly.c:464-488 | PolyDegBy is -1 exactly for the zero polynomial |
| PolyQuery.DegByBound | Task2-Polynomials/src/poly.c:464-488 | every non-zero term of the expanded polynomial has variable `v` to a power at most PolyDegBy |
| PolyQuery.DegByAttained | Task2-Polynomials/src/poly.c:464-488 | a non-zero polynomial has a non-zero term in which variable `v` has exactly PolyDegBy's power |
| PolyQuery.DegByOutermost | Task2-Polynomials/src/poly.c:464-488 | in the outermost variable the degree is the leading exponent |
| PolyQuery.PowerBelowDeg | Task2-Polynomials/src/poly.c:347-366 | the power of a variable in a term never exceeds the term's total degree |
| PolyQuery.DegByAtMostDeg | Task2-Polynomials/src/poly.c:347-488 | the degree in any one variable is at most the total degree |
| PolyImpl.Power | Task2-Polynomials/src/poly.c:76-90 | `power` computes `x^exp` by square-and-multiply, and 1 for a non-positive exponent |
| PolyImpl.PolyMulByScalar | Task2-Polynomials/src/poly.c:98-133 | the array loop computes `s * p` as the reference scalar multiplication defines it, zero and collapse cases included |
| PolyImpl.MonoMulByScalar | Task2-Polynomials/src/poly.c:141-143 | the method returns the monomial with the same exponent and scaled coefficient |
| PolyImpl.PolyClone | Task2-Polynomials/src/poly.c:448-451 | PolyClone returns a polynomial equal to its argument |
| PolyImpl.PolyNeg | Task2-Polynomials/src/poly.c:453-456 | PolyNeg returns a canonical polynomial worth minus the argument at every point |
| PolyImpl.PolyAddMulByScalarsHandleCoeff | Task2-Polynomials/src/poly.c:189-214 | the scalar case of the weighted sum returns the reference value |
| PolyImpl.PolyAddMulByScalars | Task2-Polynomials/src/poly.c:225-292 | the merge-join loop into `|p| + |q| + 1` slots returns the weighted sum `sp * p + sq * q` |
| PolyImpl.MergeRestOfQ | Task2-Polynomials/src/poly.c:262-269 | once `p` is used up, the loop appends the rest of `q`, scaled, and the array then holds the whole merge |
| PolyImpl.MergeRestOfP | Task2-Polynomials/src/poly.c:270-277 | once `q` is used up, the loop appends the rest of `p`, scaled, and the array then holds the whole merge |
| PolyImpl.MergeStep | Task2-Polynomials/src/poly.c:236-260 | one step of the merge-join advances one or both inputs and produces the next monomial the merge appends, if it is non-zero |
| PolyImpl.Append | Task2-Polynomials/src/poly.c:244-245 | a monomial is written to the array exactly when its coefficient is non-zero |
| PolyImpl.PolyAdd | Task2-Polynomials/src/poly.c:368-372 | PolyAdd returns the weighted sum with factors 1 and 1 |
| PolyImpl.PolySub | Task2-Polynomials/src/poly.c:458-462 | PolySub returns the weighted sum with factors 1 and -1 |
| PolyImpl.PolyAt | Task2-Polynomials/src/poly.c:490-514 | the accumulator loop returns the substitution PolyOps.At, which EvalAt characterises |
| PolyImpl.PolyMul | Task2-Polynomials/src/poly.c:516-554 | the nested loops and PolyAddMonos return the reference product |
| PolyImpl.PolyMulRow | Task2-Polynomials/src/poly.c:537-543 | the inner loop extends the array by one row of the cross product |
| PolyImpl.PolyPow | Task2-Polynomials/src/poly.c:687-716 | for `exp >= 0` PolyPow returns `p^exp`; for a negative exponent it returns zero for a zero base and 1 otherwise |
| PolyImpl.PolyCompose | Task2-Polynomials/src/poly.c:718-746 | the recursion and accumulator loop return the reference composition, which EvalCompose characterises |
| PolyPrint.Print | Task2-Polynomials/src/poly.c:556-572 | PolyPrint writes a non-empty text, and a non-scalar starts with `(` |
| PolyPrint.PrintFrom | Task2-Polynomials/src/poly.c:563-570 | the monomials print from the last array entry to the first, each opening with `(` |
| PolyPrint.PrintMono | Task2-Polynomials/src/poly.c:563-570 | one monomial prints as `(coefficient,exponent)` |
| PolyPrint.PrintedLineCorrect | Task2-Polynomials/src/poly.c:556-572 | every line PolyPrint writes for a canonical polynomial, followed by the newline StackPrint adds, is accepted by CheckIfCorrectPoly: it starts well, passes every local character test, and balances `(`, `)` and `,` |
| PolyPrint.PrintShaped | Task2-Polynomials/src/poly.c:556-572 | the printed text starts with `(`, a digit or `-`, and has as many `(` as `)` and as `,` |
| PolyPrint.PrintFromBalanced | Task2-Polynomials/src/poly.c:561-570 | the monomials printed from an entry of the array down to the first, joined by `+`, have as many `(` as `)` and as `,` |
| PolyPrint.PrintFits | Task2-Polynomials/src/poly.c:556-572 | every position of the printed text passes the local tests of CheckIfCorrectPoly, among them that the character is one of `()+,-0-9`, when the text is followed by `,` or by the end of the line |
| PolyPrint.PrintFromFits | Task2-Polynomials/src/poly.c:561-570 | the same for the monomials printed from an entry down, whatever precedes them |
| PolyPrint.MonoFits | Task2-Polynomials/src/poly.c:565-567 | a monomial `(c,e)` passes the local tests before `+`, `,` or the end of the line when its coefficient text does before `,` |
| PolyPrint.NumberFits | Task2-Polynomials/src/poly.c:558 | a number printed with `%ld`/`%d` passes the local tests before `,`, `)` or the end of the line |
| PolyStack.Popped | Task2-Polynomials/src/stack.c:207-226 | the `k` polynomials under the top, in the order StackCompose pops them into `q[0..k)` |
| PolyStack.Apply | Task2-Polynomials/src/stack.c:36-226 | every command keeps every polynomial on the stack canonical |
| PolyStack.UnderflowPreservesStack | Task2-Polynomials/src/stack.c:36-42 | a command without enough operands leaves the stack as it was, writes nothing to standard output, and reports `ERROR <line> STACK UNDERFLOW` |
| PolyStack.DiagnosticOnlyOnUnderflow | Task2-Polynomials/src/stack.c:36-42 | a command writes a diagnostic exactly when StackCheckUnderflow refuses it |
| PolyStack.ApplyFrame | Task2-Polynomials/src/stack.c:49-226 | a command that runs changes only the polynomials it reads, leaves the right number in their place, and the queries leave the stack as it was |
| PolyStack.OutputOnlyFromQueries | Task2-Polynomials/src/stack.c:19-26 | only the queries that run write to standard output, and each writes one line |
| PolyStack.ApplyArithmetic | Task2-Polynomials/src/stack.c:150-226 | ADD, MUL, SUB, NEG, AT and COMPOSE leave on top a polynomial whose value at every point is the operation applied to the operands' values |
| PolyStack.CloneThenIsEq | Task2-Polynomials/src/stack.c:141-179 | CLONE pushes a copy of the top, and IS_EQ right after it prints 1 |
| PolyStack.PushThenPrint | Task2-Polynomials/src/stack.c:96-139 | PRINT after a pushed polynomial prints it, and POP after a push restores the stack |
| PolyStack.Stack.Contents | Task2-Polynomials/src/stack.c:83-101 | the stack holds `size` polynomials, bottom first |
| PolyStack.Stack.constructor | Task2-Polynomials/src/stack.c:83-87 | StackInit gives an empty stack with capacity `INITIAL_CAPACITY` |
| PolyStack.Stack.Put | Task2-Polynomials/src/stack.c:96-101 | StackPut appends the polynomial and doubles the capacity when the array is full |
| PolyStack.Stack.Pop | Task2-Polynomials/src/stack.c:49-54 | StackPop removes and returns the top, keeping the array |
| PolyStack.Stack.Peek | Task2-Polynomials/src/stack.c:78-81 | StackPeek returns the top and leaves it in place |
| PolyStack.Stack.Delete | Task2-Polynomials/src/stack.c:103-110 | POP makes exactly the transition `Apply` gives, underflow included |
| PolyStack.Stack.Zero | Task2-Polynomials/src/stack.c:112-115 | ZERO makes exactly the transition `Apply` gives |
| PolyStack.Stack.Push | Task2-Polynomials/src/stack.c:96-101 | a polynomial line makes exactly the transition `Apply` gives |
| PolyStack.Stack.Query | Task2-Polynomials/src/stack.c:117-195 | IS_COEFF, IS_ZERO, PRINT, IS_EQ, DEG and DEG_BY write what `Apply` gives and leave the stack as it was |
| PolyStack.Stack.Clone | Task2-Polynomials/src/stack.c:141-148 | CLONE makes exactly the transition `Apply` gives |
| PolyStack.Stack.TwoArgsOp | Task2-Polynomials/src/stack.c:61-71 | ADD, MUL and SUB make exactly the transition `Apply` gives |
| PolyStack.Stack.Neg | Task2-Polynomials/src/stack.c:162-170 | NEG makes exactly the transition `Apply` gives |
| PolyStack.Stack.At | Task2-Polynomials/src/stack.c:197-205 | AT makes exactly the transition `Apply` gives |
| PolyStack.Stack.Compose | Task2-Polynomials/src/stack.c:207-226 | COMPOSE makes exactly the transition `Apply` gives, including the refusal of `k == ULONG_MAX` |
| PolyStack.Stack.PopMany | Task2-Polynomials/src/stack.c:215-218 | the loop pops `k` polynomials into `q[0..k)` in pop order and leaves the rest of the stack |
| PolyReader.ParsePoly | Task2-Polynomials/src/parser.c:358-420 | a polynomial read by PolyFromString is canonical, and the cursor ends after where it started and within the line |
| PolyReader.Summed | Task2-Polynomials/src/parser.c:414-416 | a sum of monomials read to its end gives PolyAddMonos's canonical polynomial, and the cursor after its last `)` |
| PolyReader.ReadMono | Task2-Polynomials/src/parser.c:378-396 | one monomial reads to a canonical coefficient and an exponent in `[0, INT_MAX]`, or ends the reading with an error or an abort |
| PolyReader.Collect | Task2-Polynomials/src/parser.c:398-401 | a monomial is added to the vector exactly when its exponent is 0 or its coefficient is non-zero |
| PolyReader.ParseMonos | Task2-Polynomials/src/parser.c:376-413 | the loop over the monomials of a sum collects valid monomials, or ends the reading with an error or an abort |
| PolyReader.ParseMonosStep | Task2-Polynomials/src/parser.c:403-412 | after an exponent the loop aborts unless `)` follows, aborts when `+` is not followed by `(`, goes on at the next `(`, or ends the sum |
| PolyReader.MalformedLineAccepted | Task2-Polynomials/src/parser.c:299-346 | CheckIfCorrectPoly accepts the line `(1,2,3)+(4)` |
| PolyReader.MalformedLineAborts | Task2-Polynomials/src/parser.c:399-404 | on that line PolyFromString's `assert(buffer[*cur] == ')')` fails, so the program aborts |
| PolyReader.ReadPoly | Task2-Polynomials/src/parser.c:354-420 | the corrected reading never aborts: a line on which PolyFromString would abort is a wrong polynomial, and every other line reads as PolyFromString reads it |
| PolyReader.MonoVec.Contents | Task2-Polynomials/src/parser.c:34-51 | the vector holds `size` monomials, in the order they were added |
| PolyReader.MonoVec.constructor | Task2-Polynomials/src/parser.c:34-38 | VecInit gives an empty vector with room for four monomials |
| PolyReader.MonoVec.Add | Task2-Polynomials/src/parser.c:45-50 | VecAdd appends the monomial and doubles the capacity when the array is full |
| PolyReader.TraverseByNumber | Task2-Polynomials/src/parser.c:348-352 | the cursor moves past the run of digits and `-` signs |
| PolyReader.PolyFromString | Task2-Polynomials/src/parser.c:358-420 | the recursive procedure returns exactly what the reference reading ParsePoly describes |
| PolyReader.ReadSum | Task2-Polynomials/src/parser.c:372-417 | the loop over a bracketed sum returns PolyAddMonos of the monomials ParseMonos collects |
| PolyReader.SumStep | Task2-Polynomials/src/parser.c:375-412 | one pass of the loop either ends the sum with its canonical form or moves to the next `(` with the vector holding the monomials kept so far |
| PolyReader.ReadMonomial | Task2-Polynomials/src/parser.c:375-396 | one pass up to the exponent returns what ReadMono describes |
| PolyParser.CLength | Task2-Polynomials/src/parser.c:422-427 | the C length of a buffer is the position of its first NUL, or the whole buffer when it holds none |
| PolyParser.NumberEnd | Task2-Polynomials/src/parser.c:348-352 | the first position at or after `i` that is not a digit or `-` |
| PolyParser.KeywordExact | Task2-Polynomials/src/parser.c:251-297 | CheckIfZERO ... CheckIfPOP accept exactly the keyword, alone or followed by its newline |
| PolyParser.CheckNumericArg | Task2-Polynomials/src/parser.c:109-249 | CheckDegByArg, CheckAtArg and CheckCOMPOSEArg, with their loop over the argument, classify the argument as ScanArg describes |
| PolyParser.DegByTrailingMinus | Task2-Polynomials/src/parser.c:131-143 | in `DEG_BY 1-2` the pre-check lets the `-` through, the conversion stops at it, and the command runs as `DEG_BY 0` |
| PolyParser.ArgumentRead | Task2-Polynomials/src/parser.c:109-249 | an accepted argument did not set `ERANGE`; it is the value read when the conversion reached the end of the line, and 0 when it stopped before |
| PolyParser.ArgumentOfNumber | Task2-Polynomials/src/parser.c:158-200 | conversely, `AT n` with `n` written in decimal and within `long` gives `n` |
| PolyParser.NumberOfIntToString | Task2-Polynomials/src/parser.c:93-96 | a number printed in decimal consists of digits and `-` only |
| PolyParser.LengthAtLeast | Task2-Polynomials/src/parser.c:422-427 | a buffer without a NUL in its first `n` characters has a C length of at least `n` |
| PolyParser.LineEnd | Task2-Polynomials/src/parser.c:307 | the first position at or after `i` where the line ends, at a newline or a NUL |
| PolyParser.Refuted | Task2-Polynomials/src/parser.c:307-340 | one failed local check before the end of the line makes CheckIfCorrectPoly reject it |
| PolyParser.CheckIfCorrectPoly | Task2-Polynomials/src/parser.c:299-346 | the single scan, which skips over runs of digits and `-`, accepts exactly the lines of the language CorrectPoly describes |
| PolyParser.SkipRun | Task2-Polynomials/src/parser.c:327-329 | the inner loop stops at the last character of the run of digits and `-`, and every position it skips passes the local checks |
| PolyLine.MatchKeyword | Task2-Polynomials/src/parser.c:461-499 | the chain of keyword tests runs the command of the first keyword that is the whole line, and reports WRONG COMMAND only when none is |
| PolyLine.PolyLineAction | Task2-Polynomials/src/parser.c:503-511 | a polynomial line that is read pushes a canonical polynomial; a line on which PolyFromString would abort is refused as WRONG POLY, the corrected reading |
| PolyLine.Decide | Task2-Polynomials/src/parser.c:422-512 | every polynomial HandleLine pushes is canonical |
| PolyLine.Process | Task2-Polynomials/src/parser.c:422-512 | every line keeps every polynomial on the stack canonical |
| PolyLine.IgnoredLine | Task2-Polynomials/src/parser.c:84-86 | an empty line or a comment changes nothing and writes nothing |
| PolyLine.EmbeddedNulRefused | Task2-Polynomials/src/parser.c:422-512 | a line holding a NUL is refused: the stack is unchanged, nothing goes to standard output, and one diagnostic is written |
| PolyLine.UnknownCommand | Task2-Polynomials/src/parser.c:458-499 | a line starting with a letter that is no command reports WRONG COMMAND and changes nothing |
| PolyLine.KeywordLine | Task2-Polynomials/src/parser.c:461-496 | a keyword alone on its line, with or without the newline, runs its command |
| PolyLine.KeywordsDistinct | Task2-Polynomials/src/parser.c:428-496 | a keyword line matches no keyword tried before it and does not start DEG_BY, AT or COMPOSE, so `DEG` is not taken for `DEG_BY` |
| PolyLine.KeywordText | Task2-Polynomials/src/parser.c:426-427 | a keyword line holds no NUL, and its C string is the whole line |
| PolyLine.KeywordUnique | Task2-Polynomials/src/parser.c:461-496 | no line is two different keywords |
| PolyLine.KeywordShape | Task2-Polynomials/src/parser.c:251-297 | keywords are at least three characters long and hold no newline |
| PolyLine.KeywordKey | Task2-Polynomials/src/parser.c:251-297 | keywords differ in their length or their first letter |
| PolyLine.NotArgumentCommand | Task2-Polynomials/src/parser.c:103-107 | no keyword line starts with DEG_BY, AT or COMPOSE followed by a separator |
| PolyLine.MatchFirst | Task2-Polynomials/src/parser.c:461-496 | when exactly one keyword matches, the chain of tests finds it |
| PolyLine.PolyLinePushed | Task2-Polynomials/src/parser.c:503-511 | a polynomial line that passes the validator and is read is pushed, with nothing written |
| PolyLine.PolyLineRefused | Task2-Polynomials/src/parser.c:503-511 | every other polynomial line is WRONG POLY and leaves the stack as it was; for a line on which PolyFromString aborts this is the corrected reading, not the C's abort |
| PolyLine.DegByTrailingMinusLine | Task2-Polynomials/src/parser.c:428-436 | the line `DEG_BY 1-2` runs DEG_BY with argument 0 |
| PolyLine.HandleLine | Task2-Polynomials/src/parser.c:422-512 | the method changes the stack and writes exactly what `Process` gives for the line, with the corrected reading where PolyFromString aborts |
| PolyLine.MalformedLineRefused | Task2-Polynomials/src/parser.c:503-511 | the corrected handler refuses `(1,2,3)+(4)`, which the validator accepts, as WRONG POLY, leaving the stack unchanged and writing nothing to standard output |
| PolyLine.Dispatch | Task2-Polynomials/src/parser.c:426-499 | a line starting with a letter never pushes: it runs DEG_BY, AT, COMPOSE or a keyword command, or is refused |
| PolyLine.Outcome | Task2-Polynomials/src/parser.c:422-512 | an ignored or refused line leaves the stack as it was and writes nothing to standard output, and the stack stays canonical |
| PolyLine.DecideLine | Task2-Polynomials/src/parser.c:422-512 | the tests HandleLine makes before it touches the stack pick exactly the action `Decide` gives |
| PolyLine.Perform | Task2-Polynomials/src/parser.c:428-511 | carrying out that action leaves the stack valid and gives exactly the stack and output `Outcome` gives |
| Comparators.Sign | Task1-SimilarLines/line_representation.c:97-111 | the sign of a comparison is -1, 0 or 1, and agrees with the comparison |
| Comparators.ComparatorChained | Task1-SimilarLines/main.c:160 | a comparator's results on three elements are consistent, as `qsort` requires |
| Comparators.ThenChained | Task1-SimilarLines/line_representation.c:216-285 | chaining two consistent comparisons, the first that is not 0 deciding, stays consistent |
| Comparators.ThenFlips | Task1-SimilarLines/line_representation.c:216-285 | swapping the arguments of both chained comparisons flips the sign of the result |
| Comparators.LexStep | Task1-SimilarLines/line_representation.c:216-285 | equal elements leave the comparison of two arrays to what follows them |
| Comparators.LexZero | Task1-SimilarLines/line_representation.c:216-285 | two arrays compare 0 exactly when their lengths agree and every pair of elements compares 0 |
| Comparators.LexFlips | Task1-SimilarLines/line_representation.c:216-285 | swapping the arrays flips the sign of their comparison |
| Comparators.LexChained | Task1-SimilarLines/line_representation.c:216-285 | the comparison of arrays over a comparator is consistent on three arrays |
| Comparators.LexComparator | Task1-SimilarLines/line_representation.c:216-285 | comparing arrays element by element, a proper prefix first, is a comparator |
| Comparators.LexSame | Task1-SimilarLines/line_representation.c:222-233 | an array compares 0 with itself under the comparison of a comparator |
| Comparators.LexPrefixLess | Task1-SimilarLines/line_representation.c:222-233 | a proper prefix of an array compares as less than the array |
| Comparators.InsertBy | Task1-SimilarLines/main.c:160 | insertion adds the element to the array's elements and removes none |
| Comparators.InsertBySorted | Task1-SimilarLines/main.c:160 | inserting into a sorted array keeps it sorted |
| Comparators.SortBy | Task1-SimilarLines/main.c:160 | insertion sort returns a permutation of the array |
| Comparators.SortBySorted | Task1-SimilarLines/main.c:160 | insertion sort by a comparator returns a sorted array |
| Comparators.SortedPermutation | Task1-SimilarLines/main.c:160 | every array has an arrangement that `qsort` may return: sorted and a permutation |
| LineData.ToLower | Task1-SimilarLines/line_representation.c:89-95 | `tolower` lowers exactly the capitals |
| LineData.Fold | Task1-SimilarLines/line_representation.c:89-95 | a word folded for `strcasecmp` is the word with each character lowered |
| LineData.LlCmp | Task1-SimilarLines/line_representation.c:97-111 | ll_cmp is the sign of the difference of the two values |
| LineData.UllCmp | Task1-SimilarLines/line_representation.c:113-127 | ull_cmp is the sign of the difference of the two values |
| LineData.DblCmp | Task1-SimilarLines/line_representation.c:129-143 | dbl_cmp is 0 exactly for equal values and negative exactly when the first is smaller |
| LineData.StrCaseCmpZero | Task1-SimilarLines/line_representation.c:89-95 | two words compare 0 under `strcasecmp` exactly when they are equal once lowered |
| LineData.CaseCmpComparator | Task1-SimilarLines/line_representation.c:89-95 | comparing characters once lowered is a comparator |
| LineData.StrCaseCmpComparator | Task1-SimilarLines/line_representation.c:89-95 | case_insensitive_cmp is a comparator, so `qsort` may sort the words by it |
| LineData.NumberComparators | Task1-SimilarLines/line_representation.c:97-127 | ll_cmp and ull_cmp are comparators |
| LineData.DblCmpComparator | Task1-SimilarLines/line_representation.c:129-143 | dbl_cmp is a comparator on values that are not NaN |
| LineData.Folded | Task1-SimilarLines/line_representation.c:185-189 | the words of a line, each lowered |
| LineData.Normal | Task1-SimilarLines/line_representation.c:163-192 | a line with its words lowered and its numbers as they are |
| LineData.SimilarMeans | Task1-SimilarLines/line_representation.c:163-192 | the element-by-element checks of compareLines hold exactly when the two lines hold the same numbers and the same words up to case |
| LineData.SimilarEquivalence | Task1-SimilarLines/line_representation.c:163-192 | similarity is reflexive, symmetric and transitive |
| LineData.ByDataZero | Task1-SimilarLines/line_representation.c:216-285 | line_cmp_by_data returns 0 exactly for the lines compareLines calls similar |
| LineData.ByDataComparator | Task1-SimilarLines/line_representation.c:216-285 | line_cmp_by_data is a comparator, so `qsort` may sort the lines by it |
| LineData.ByDataPrefixLess | Task1-SimilarLines/line_representation.c:216-285 | a line whose earlier token arrays are those of the other line, and whose next array is a proper prefix of the other's, compares as less |
| LineData.ByDataChained | Task1-SimilarLines/line_representation.c:216-285 | line_cmp_by_data is consistent on three lines once each of its component comparators is |
| LineGroups.RunEnd | Task1-SimilarLines/line_representation.c:298-329 | a block runs from its first line to just before the next line that opens a block, or to the end |
| LineGroups.Starts | Task1-SimilarLines/line_representation.c:298-329 | the lines that open a block, each once and in ascending order |
| LineGroups.BlockOf | Task1-SimilarLines/line_representation.c:298-329 | the block of a line starts at or before it, reaches past it, and no block starts in between |
| LineGroups.BlockOfStep | Task1-SimilarLines/line_representation.c:322-327 | a line similar to the one before it lies in that line's block |
| LineGroups.RunEndStep | Task1-SimilarLines/line_representation.c:322-327 | a block reaches past a line that continues it |
| LineGroups.BlocksDisjoint | Task1-SimilarLines/line_representation.c:298-329 | a later block starts at or after the end of an earlier one |
| LineGroups.BlockSimilar | Task1-SimilarLines/line_representation.c:322-324 | every line of a block is similar to the block's first line |
| LineGroups.SortedNotAfter | Task1-SimilarLines/main.c:160 | in an array sorted by line_cmp_by_data no line comes after a later one |
| LineGroups.Between | Task1-SimilarLines/main.c:160 | a line sorted between two similar lines is similar to both |
| LineGroups.BlockIsClass | Task1-SimilarLines/main.c:160-166 | on an array sorted by line_cmp_by_data, the block a line opens holds exactly the lines similar to that line |
| LineGroups.UnlikeBefore | Task1-SimilarLines/main.c:160-166 | a line sorted before a block's first line is not similar to it |
| LineGroups.UnlikeAfter | Task1-SimilarLines/main.c:160-166 | a line sorted after the end of a block is not similar to the block's first line |
| LineGroups.NotAfterStrict | Task1-SimilarLines/main.c:160 | in `a <= b < c <= d` by line_cmp_by_data, `a` and `d` are not similar |
| LineGroups.OneRepresentative | Task1-SimilarLines/main.c:160-166 | on a sorted array every line is similar to the first line of exactly one block, the block that holds it |
| LineRepresentation.Grown | Task1-SimilarLines/line_representation.c:38-87 | after one add the capacity is INITIAL_CAPACITY when nothing was allocated, doubled when the array was full, unchanged otherwise, and always above the old size |
| LineRepresentation.Qsort | Task1-SimilarLines/line_representation.c:146-159 | `qsort` with a comparator leaves the elements sorted and a permutation of what they were |
| LineRepresentation.Line.Tokens | Task1-SimilarLines/line_representation.h:14-24 | the tokens of a line are its four arrays |
| LineRepresentation.Line.constructor | Task1-SimilarLines/line_representation.c:10-19 | line_init gives line `number` with no tokens, no similar lines and nothing allocated |
| LineRepresentation.Line.AddStr | Task1-SimilarLines/line_representation.c:38-48 | add_str appends the word to the string tokens, grows the caller's capacity, and changes nothing else |
| LineRepresentation.Line.AddLl | Task1-SimilarLines/line_representation.c:50-61 | add_ll appends the value to the `long long` tokens, grows the caller's capacity, and changes nothing else |
| LineRepresentation.Line.AddUll | Task1-SimilarLines/line_representation.c:63-74 | add_ull appends the value to the `unsigned long long` tokens, grows the caller's capacity, and changes nothing else |
| LineRepresentation.Line.AddDbl | Task1-SimilarLines/line_representation.c:76-87 | add_dbl appends the value to the `double` tokens, grows the caller's capacity, and changes nothing else |
| LineRepresentation.Line.AddSimilarLine | Task1-SimilarLines/line_representation.c:195-205 | add_similar_line appends the number to the group, grows its capacity, and changes nothing else |
| LineRepresentation.Line.SortData | Task1-SimilarLines/line_representation.c:146-159 | sort_data_in_line leaves every token array ascending under its comparator and a permutation of itself |
| LineRepresentation.SortStrs | Task1-SimilarLines/line_representation.c:148-149 | the words sorted by case_insensitive_cmp, a permutation of the words |
| LineRepresentation.SortLls | Task1-SimilarLines/line_representation.c:151-152 | the `long long` values sorted by ll_cmp, a permutation of the values |
| LineRepresentation.SortUlls | Task1-SimilarLines/line_representation.c:154-155 | the `unsigned long long` values sorted by ull_cmp, a permutation of the values |
| LineRepresentation.SortDbls | Task1-SimilarLines/line_representation.c:157-158 | the `double` values sorted by dbl_cmp, a permutation of the values |
| LineRepresentation.Min | Task1-SimilarLines/line_representation.c:207-212 | `min` is at most both arguments and equal to one of them |
| LineRepresentation.CompareLines | Task1-SimilarLines/line_representation.c:163-192 | compareLines returns true exactly when the two lines are similar |
| LineRepresentation.LineCmpByData | Task1-SimilarLines/line_representation.c:216-285 | the loops of line_cmp_by_data return the lexicographic comparison ByData, which is 0 exactly for similar lines |
| LineRepresentation.LineCmpByNumber | Task1-SimilarLines/line_representation.c:288-293 | line_cmp_by_number is negative, 0 or positive exactly as the first line's number is smaller than, equal to or larger than the second's |
| LineRepresentation.Doubled | Task1-SimilarLines/line_representation.c:309-311 | the representatives' capacity never shrinks and always holds them |
| LineRepresentation.DoubledStep | Task1-SimilarLines/line_representation.c:309-311 | adding a representative doubles the capacity exactly when it is full |
| LineRepresentation.AddedOthers | Task1-SimilarLines/line_representation.c:304-328 | scanning a line adds nothing to the groups of lines outside its block |
| LineRepresentation.AddedBlock | Task1-SimilarLines/line_representation.c:304-328 | scanning line `i` adds to the first line of its block line `i` itself when it opens the block, then line `i + 1` when that continues the block |
| LineRepresentation.Gained | Task1-SimilarLines/line_representation.c:304-328 | what every line has gained after the lines below `i` are scanned |
| LineRepresentation.GainedStep | Task1-SimilarLines/line_representation.c:304-328 | one iteration of the loop changes the gained numbers of the one line that opens the current block, and of no other |
| LineRepresentation.Join | Task1-SimilarLines/line_representation.c:195-205 | each group is what it held before followed by what it gained |
| LineRepresentation.JoinAppend | Task1-SimilarLines/line_representation.c:195-205 | appending a number to one group appends it to what that group gained |
| LineRepresentation.Chosen | Task1-SimilarLines/line_representation.c:313 | one representative per index |
| LineRepresentation.ChosenAt | Task1-SimilarLines/line_representation.c:313 | the `m`-th representative is the line at the `m`-th index |
| LineRepresentation.ChosenAppend | Task1-SimilarLines/line_representation.c:313 | appending an index appends its line |
| LineRepresentation.FirstsChosen | Task1-SimilarLines/line_representation.c:307-317 | the representatives found before line `k` are the lines that open the blocks below `k`, in order |
| LineRepresentation.Gather | Task1-SimilarLines/line_representation.c:312-323 | add_similar_line on one line appends to that line's group only, and keeps every line's tokens and number |
| LineRepresentation.OpenStep | Task1-SimilarLines/line_representation.c:307-317 | without an open block, line `i` becomes a representative, gains its own number, and the capacity doubles when full |
| LineRepresentation.KeepStep | Task1-SimilarLines/line_representation.c:307 | with a block open, nothing changes before the comparison |
| LineRepresentation.ExtendStep | Task1-SimilarLines/line_representation.c:322-327 | when line `i + 1` is similar to line `i` the representative gains its number and the block stays open; otherwise the block closes |
| LineRepresentation.OpenBlock | Task1-SimilarLines/line_representation.c:307-317 | the first half of an iteration on the lines themselves: opens a block at `i` unless one is open |
| LineRepresentation.CompareNext | Task1-SimilarLines/line_representation.c:322 | the test is true exactly when a next line exists and is similar to line `i` |
| LineRepresentation.ExtendBlock | Task1-SimilarLines/line_representation.c:322-327 | the second half of an iteration on the lines: the representative gains line `i + 1` exactly when it is similar to line `i` |
| LineRepresentation.ScannedNone | Task1-SimilarLines/line_representation.c:300-304 | before the loop nothing has been scanned or gained, and no block is open |
| LineRepresentation.ScannedAll | Task1-SimilarLines/line_representation.c:304-328 | after the loop each line that opens a block holds, after its old numbers, the numbers of its whole block; every other line holds its old numbers |
| LineRepresentation.FindRepresentatives | Task1-SimilarLines/line_representation.c:298-329 | the representatives appended are the first lines of the blocks, in order; each of them gathers the numbers of its block; the capacity doubles whenever full; tokens and line numbers do not change |
| LineChecks.ErrorMessageNumber | Task1-SimilarLines/parser.c:131-134 | the message print_error writes carries the 1-based line number, which reads back by `strtol` as `number_of_line + 1` |
| LineChecks.CheckIllegalCharactersOrComment | Task1-SimilarLines/parser.c:138-162 | the line is skipped exactly when it is a comment or is rejected (it holds a NUL or a character that is neither printable ASCII nor a code from 9 to 13), and an error is printed exactly for rejected lines |
| LineChecks.CheckIfHexDec | Task1-SimilarLines/parser.c:59-79 | the word is reported hexadecimal exactly when it starts with `0x`, `0X`, or one of them after a `+` or `-` |
| LineChecks.CheckIfNan | Task1-SimilarLines/parser.c:81-84 | the word is reported NaN exactly when, once lowered, it is `nan`, `+nan` or `-nan` |
| CText.DigitValue | Task2-Polynomials/src/parser.c:98-101 | the value of a decimal digit is below 10 |
| CText.Digit | Task2-Polynomials/src/poly.c:558 | the digit character written for a value below 10 is a digit worth that value |
| CText.SkipSpaces | Task2-Polynomials/src/parser.c:190 | `strtol` skips white space up to the first character that is not white space |
| CText.DigitsEnd | Task2-Polynomials/src/parser.c:190 | the run of digits `strtol` reads ends at a character that is not a digit |
| CText.Scan | Task2-Polynomials/src/parser.c:190 | the sign and the limits of the digits `strtol` and `strtoull` read lie at or after the start |
| CText.Strtol | Task2-Polynomials/src/parser.c:190 | `strtol` returns a value within `long` and stops at or after where it started |
| CText.Strtoull | Task2-Polynomials/src/parser.c:140 | `strtoull` returns a value within `unsigned long long` and stops at or after where it started |
| CText.NatToString | Task2-Polynomials/src/poly.c:558 | a number printed in decimal is a non-empty run of digits |
| CText.IntToString | Task2-Polynomials/src/poly.c:558 | `printf("%ld")` writes at least one character |
| CText.NatToStringValue | Task2-Polynomials/src/poly.c:558 | the digits printed for a number read back as that number |
| CText.DecimalValueShift | Task2-Polynomials/src/parser.c:190 | digits read inside a longer buffer are worth what they are worth alone |
| CText.DigitsEndOf | Task2-Polynomials/src/parser.c:190 | digits followed by a non-digit are exactly the run `strtol` reads |
| CText.StrtolOfIntToString | Task2-Polynomials/src/parser.c:190 | `strtol` reads back a number `printf("%ld")` wrote, when a non-digit follows it |
| PolyQuery.IsEq | Task2-Polynomials/src/poly.c:304-326 | defines PolyIsEq: two scalars with the same value, or the same number of monomials, pairwise MonoIsEq; `IsEqIff` proves it is equality |
| PolyQuery.MonoIsEq | Task2-Polynomials/src/poly.c:300-302 | defines MonoIsEq: the same exponent and PolyIsEq coefficients; `MonoIsEqIff` proves it is equality |
| PolyQuery.Deg | Task2-Polynomials/src/poly.c:347-366 | defines PolyDeg: -1 for zero, 0 for another scalar, otherwise the running maximum of `exp + PolyDeg(coefficient)`; `DegBound` and `DegAttained` prove it is the total degree |
| PolyQuery.DegBy | Task2-Polynomials/src/poly.c:464-488 | defines PolyDegBy: -1 for zero, 0 for another scalar, otherwise the running maximum of the exponents of variable `v`; `DegByBound` and `DegByAttained` prove it is the degree in `v` |
| PolyScale.Scale | Task2-Polynomials/src/poly.c:98-133 | defines PolyMulByScalar: zero for a zero factor, otherwise each coefficient scaled, zero monomials dropped and a lone `(c,0)` collapsed to `c`; `EvalScale` and `ScaleCanonical` characterise it |
| PolyScale.Clone | Task2-Polynomials/src/poly.c:448-451 | defines PolyClone as scaling by 1; `ScaleOne` proves it returns its argument |
| PolyScale.Neg | Task2-Polynomials/src/poly.c:453-456 | defines PolyNeg as scaling by -1; `PolyImpl.PolyNeg` proves it canonical and worth minus the argument |
| PolySum.AddCoeff | Task2-Polynomials/src/poly.c:151-178 | defines PolyAddCoeff on an array: `c` added to its exponent-0 monomial, which is removed when it cancels and appended as `(c,0)` when missing; `EvalAddCoeff` and `AddCoeffCanonical` characterise it |
| PolySum.WeightedSum | Task2-Polynomials/src/poly.c:189-292 | defines PolyAddMulByScalars, `sp * p + sq * q`, with the scalar cases of PolyAddMulByScalarsHandleCoeff; `EvalWeightedSum` and `WeightedSumCanonical` characterise it |
| PolySum.Merge | Task2-Polynomials/src/poly.c:225-292 | defines the merge-join of PolyAddMulByScalars from positions `ip` and `iq`; `EvalMerge` and `MergeProper` characterise it |
| PolySum.Add | Task2-Polynomials/src/poly.c:368-372 | defines PolyAdd as the weighted sum with factors 1 and 1; `PolyOps.EvalAdd` characterises it |
| PolySum.Sub | Task2-Polynomials/src/poly.c:458-462 | defines PolySub as the weighted sum with factors 1 and -1; `PolyOps.EvalSub` characterises it |
| PolyCanon.Canon | Task2-Polynomials/src/poly.c:374-432 | defines PolyAddMonos: sort, merge equal exponents, drop zeros, collapse; `CanonCorrect` and `SortOrderIrrelevant` characterise it |
| PolyStack.Underflows | Task2-Polynomials/src/stack.c:36-42 | defines StackCheckUnderflow: fewer polynomials than the command needs, or a count of `ULONG_MAX`; `UnderflowPreservesStack` and `DiagnosticOnlyOnUnderflow` state its effect |
| PolyStack.Diagnostic | Task2-Polynomials/src/parser.c:354-356 | defines the diagnostic line `ERROR <n> <what>` with the 1-based line number |
| PolyParser.IsKeyword | Task2-Polynomials/src/parser.c:251-297 | defines the keyword tests; `KeywordExact` proves they accept exactly the keyword, alone or with its newline |
| PolyParser.ScanArg | Task2-Polynomials/src/parser.c:109-249 | defines what CheckDegByArg, CheckAtArg and CheckCOMPOSEArg find after the keyword; `CheckNumericArg` proves the C loops compute it |
| PolyParser.CheckArg | Task2-Polynomials/src/parser.c:428-456 | defines the argument HandleLine acts on: the value read, 0 when the conversion stopped early, or a refusal on ERANGE or a malformed argument; `ArgumentRead` and `DegByTrailingMinus` state its cases |
| PolyParser.CorrectPoly | Task2-Polynomials/src/parser.c:299-346 | defines the lines CheckIfCorrectPoly accepts; `CheckIfCorrectPoly` proves the scan decides it, both directions |
| LineData.StrCaseCmp | Task1-SimilarLines/line_representation.c:89-95 | defines `strcasecmp` by its sign: characters compared once lowered, a proper prefix first; `StrCaseCmpZero` and `StrCaseCmpComparator` characterise it |
| LineData.Similar | Task1-SimilarLines/line_representation.c:163-192 | defines similarity as equal normal forms; `SimilarMeans` proves it is what compareLines checks |
| LineData.ByData | Task1-SimilarLines/line_representation.c:216-285 | defines line_cmp_by_data: words, then `long long`, `unsigned long long` and `double` tokens, compared lexicographically; `ByDataZero`, `ByDataComparator` and `ByDataPrefixLess` characterise it |
| LineChecks.ErrorMessage | Task1-SimilarLines/parser.c:131-134 | defines the message of print_error; `ErrorMessageNumber` proves it carries the 1-based line number |
| LineChecks.LineVerdict | Task1-SimilarLines/parser.c:138-162 | defines how a line is treated: a comment, rejected, or text; `CheckIllegalCharactersOrComment` proves the C loop decides it |

## Left out

- Input and output loops are not modelled: calc.c and main.c, `getline`, `strtok`, and the final printing of groups. Commands receive the line as a string. Output and diagnostics are returned as strings, not written to streams.
- Whatever main.c does after grouping is not part of this model, including its sort of the representatives by `line_cmp_by_number`.
- Memory management is not modelled: `PolyDestroy`, `MonoDestroy`, `VecDestroy`, `VecError`, `StackDestroy` and `line_free` only free memory. safeMalloc/safeRealloc and safe_allocs.c exit on allocation failure, and the model treats every allocation as succeeding.
- Coefficients and exponents are mathematical integers. The C code does no overflow checks in `power`, `PolyMul`'s exponent sums, `PolyDeg`'s sums or coefficient arithmetic, and the model does not reproduce wrap-around there. The range checks of the parser (a `long` coefficient, an exponent in `[0, 2147483647]`, `unsigned long long` arguments) are modelled exactly.
- `qsort` is modelled by its result: some sorted permutation of its input, chosen without fixing which one. The canonicalisers of poly.c are proved to give the same polynomial whichever sorted order comes out. The token sort of the similar-lines program is specified only as sorted and a permutation.
- Dynamic arrays of the similar-lines program are sequences whose length is their size. The capacity of the `similarLines` array is a field of `Line`. The capacities of the four token arrays are passed in and returned by the `add_*` methods, since in the C code they belong to the caller and reach `add_*` through `int *` parameters.
- `strcasecmp` is modelled by the sign of its result over characters folded to lower case, as the C locale does for ASCII. Its exact non-zero value is not modelled.
- `double` tokens are an abstract totally ordered type, without NaN (NaN words are rejected before conversion), rounding or signed zero.
- `parse`, `checkPlusMinus_ll` and `checkPlusMinus_ull` of Task1-SimilarLines/parser.c wrap `strtoll`/`strtoull` with base 0 and `strtod`, and are not modelled. Only their results, the typed tokens, enter the model.
- A C `char` is a Dafny `char` with code 0 to 255. Bytes above 127, negative as a signed `char`, fall outside every allowed range either way.
- LineRepresentation.LineCmpByNumber: returns the difference of the two line numbers as a mathematical integer. It does not model the `int` overflow of the C subtraction.
- PolyLine.Process: on a line where PolyFromString aborts (`(1,2,3)+(4)`, see "## Findings"), reports WRONG POLY and goes on, where the C program aborts at parser.c:399.
- PolyLine.Decide: maps that abort to WRONG POLY, for the same reason.
- PolyLine.PolyLineAction: uses the corrected reader `PolyReader.ReadPoly`, which turns the abort into WRONG POLY.
- PolyLine.HandleLine: reports WRONG POLY where the C HandleLine aborts, because it carries out `Decide`.
- PolyLine.DecideLine: returns WRONG POLY for a line on which PolyFromString aborts.
- PolyLine.PolyLineRefused: its WRONG POLY covers the abort lines too, which the C does not report.
- LineRepresentation.FindRepresentatives: states each line's new `similarLines` and that each line stays valid (its capacity holds its size), but not the capacity itself; each append changes it as `Line.AddSimilarLine` states with `Grown`.
- PolyPrint.Print: its own contract only says the text is non-empty and that a non-scalar opens with `(`. That the text is a line CheckIfCorrectPoly accepts is proved separately (`PolyPrint.PrintedLineCorrect`). That PolyFromString reads it back as the same polynomial is not proved.

## Findings

| source | as written | input that shows it | evidently intended | confidence | as-written member | corrected member |
|---|---|---|---|---|---|---|
| Task2-Polynomials/src/parser.c:299-346, 399 | CheckIfCorrectPoly only balances the counts of `(`, `)` and `,`, so it accepts a monomial with two commas and one without. PolyFromString then meets `,` where its `assert(buffer[*cur] == ')')` expects `)`, and the program aborts. | `(1,2,3)+(4)` | the line is reported as `ERROR <n> WRONG POLY` and the stack is unchanged | not executed | PolyReader.MalformedLineAccepted, PolyReader.MalformedLineAborts | PolyReader.ReadPoly, PolyLine.MalformedLineRefused |
