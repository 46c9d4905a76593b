# Algorithms underneath the TSAR passes

TSAR (Traits Static Analyzer) analyses and transforms C and Fortran programs on top of LLVM and Clang.
This project models the language-independent algorithms underneath its passes and proves what they are for. LLVM's
types become finite graphs, expression datatypes, sequences and arrays; code that changes state step by step stays
imperative.

| files | what they model |
|---|---|
| `Graphs`, `Wrappers`, `Arithmetic`, `WordArithmetic` | shared vocabulary: paths and reachability, optional values, products and remainders, arithmetic of machine words |
| `BackEdge`, `DataFlow`, `TopologicalSolver` | the search for a back edge, the iterative and the one-pass data-flow solver |
| `LoopRegion`, `RegionFlow` | the region graphs, one for each loop of a nest, and that the solvers can run on them |
| `Trees`, `GraphNumbering`, `SpanningTreeRelation` | numbering of a tree, ancestor queries, lowest common ancestors |
| `ControlDependence`, `PiBlocks` | control dependence from a post-dominator tree, contraction of components to pi-blocks |
| `ScalarEvolution`, `FoldingBuilders` | symbolic expressions, what is expected of the functions that build them, and simplifying builders that meet it |
| `ScevDivision`, `DivisionTermination`, `ScevRemainders`, `ScevMultiples`, `ScevProducts`, `ScevAddRec` | symbolic division, when it ends, is exact and has no remainder, what it leaves otherwise, and recurrences |
| `ValueDivisibility`, `GcdSearch`, `ScevCommonFactors`, `ScevGcd`, `FoldingLimits` | common divisors, and inputs for which divisions and divisors fail |
| `Primes`, `Involutions`, `Windmills`, `FactorPairs`, `Sieve` | the quadratic sieve, and the number theory by which it finds exactly the primes |
| `PersistentIterators`, `Rewriter`, `Unparser`, `UnparserSyntax` | iterators that survive rehashing, the text rewriter, byte offsets as C expressions and their text |
| `Handshake` | the protocol between analysis servers and their clients |

How the values of the original are read:

- Graph nodes are numbers, and adjacency lists keep their order and their parallel edges. Containers without a fixed
  order are walked in an arbitrary order.
- `std::size_t` is a number below 2^64 with explicit wrapping where the original may wrap (`Rewriter.Wrap`,
  `Sieve.Wrap`); the array coefficient of the unparser is kept in 32 bits (`Unparser.Coefficient`); values of scalar
  evolution are compared modulo two to the power of the width.
- What comes from LLVM is a parameter with the expectations the proofs need: a data-flow framework
  (`DataFlow.Framework`), a post-dominator tree (`ControlDependence.IsPostDomTree`), the strongly connected components
  (`PiBlocks.ExactComponents`), the functions that build scalar evolution expressions (`ScalarEvolution.Sound`).
- The builders of scalar evolution are expected to keep values, form and loop invariance of well-formed operands, and
  only where LLVM promises it: `getAddRec` is trusted for operands that do not change in its loop. They may simplify;
  `FoldingBuilders.FoldingIsSound` shows that builders that fold constants and zero products and take out common factors
  meet all expectations, and `FoldingBuilders.ExpandingIsSound` that they do as well when they leave common factors in the
  terms. Casts and operations such as `umax` or unsigned division are uninterpreted functions on words.

Some of what the code does is not what one would expect of it. Each of these places has a lemma with a concrete input
or an exact condition:

- `PersistentIterators.AssignmentWorks`: copy assignment of persistent iterators keeps the lists in order and makes the
  target denote what the source denotes if and only if the source is invalid, or the target is valid exactly when it
  already points to the bucket of the source.
- `Unparser.RightPlace`: an unparsed location with several dereferences is the right place in every memory if and only
  if each offset but the last leaves an object; `Unparser.PointerInScalar` is a location for which a load gets lost.
- `Unparser.SubscriptsFit`: the subscripts of an array are right for all of its elements if and only if the number of
  elements behind the first dimension fits into 32 bits.
- `ScevDivision.FallbackExactly`: a product none of whose factors an unknown divides is divided exactly if and only if
  its value is proportional to the unknown (where zero for the unknown makes it zero), or does not depend on the unknown
  (where the difference does not simplify or is not divided), or the division of the difference is exact;
  `FoldingLimits.SumsInProduct` shows that `(1 + y) * (1 + y)` by `y` has the quotient zero and the remainder one, and
  that nothing remains of `-1 + (1 + y) * (1 + y)`.
- `DivisionTermination.ExpandedRight`: division by a product is exact for recurrences of products of constants and
  unknowns, and for sums of these unless the builders take out common factors; `FoldingLimits.FactoredSum` is a sum for
  which it is wrong when they do.
- `ScevGcd.FindGCD`: for sums and affine recurrences of products the common divisor divides every expression;
  `FoldingLimits.WrongDivisor` shows that it need not when sums stand inside of products: for `y * z` and the third
  power of `-1 + (1 + y) * (1 + y)` it is `y * z`.
- `ScevAddRec.AddRecRight`: the linear form is right unless a product multiplies a recurrence that is not affine with
  another one of the same loop. `FoldingLimits.TwoRecurrencesDiffer` shows that this is a limit of the tests: they accept
  a wrong result for such a product when the builders know that the product of the coefficient and the other recurrence
  is constant, as for words of two bits.
- `ScevGcd.NotAffineNotDivided`: for a recurrence that is not affine the common divisor need not divide its values.
- `Handshake.SafeExactlyWhenFitting`: a client and a server are safe if and only if their scripts fit.

## Model

| member | source | states |
|---|---|---|
| `BackEdge.FindBackEdgeFrom` | include/tsar/ADT/GraphUtils.h:72-102 | from any consistent colouring the recursive search either returns an edge that lies below the node and closes a cycle, or finishes everything below the node without changing a colour it found |
| `BackEdge.FindBackEdge` | include/tsar/ADT/GraphUtils.h:115-124 | an edge is returned exactly when the entry leads to a cycle, its source is reachable and its target leads back to its source |
| `BackEdge.IsDAG` | include/tsar/ADT/GraphUtils.h:131-133 | true exactly when no cycle is reachable from the entry |
| `DataFlow.Initialize` | include/tsar/ADT/DataFlow.h:147-153 | the boundary value at the entry and the top element everywhere else |
| `DataFlow.UpdateStep` | include/tsar/ADT/DataFlow.h:162-168 | one in-place evaluation of an equation keeps every value above its equation, and lowers values only |
| `DataFlow.SolutionsStayBelow` | include/tsar/ADT/DataFlow.h:162-168 | with monotone transfer functions one in-place evaluation of an equation keeps the values above every solution |
| `DataFlow.Sweep` | include/tsar/ADT/DataFlow.h:156-169 | a sweep keeps the values above all solutions and reports a change exactly when it has lowered some of them; when it reports none the equations hold |
| `DataFlow.AllFounded` | include/tsar/ADT/DataFlow.h:154-170 | when every descending chain of values is finite, of whatever lengths, so is every descending chain of the values of all nodes |
| `DataFlow.SolveIteratively` | include/tsar/ADT/DataFlow.h:139-171 | with monotone transfer functions on a semilattice whose descending chains are finite the loop terminates in the greatest solution of the equations |
| `TopologicalSolver.PostOrderIsTopological` | include/tsar/ADT/DataFlow.h:207-218 | on an acyclic graph with all nodes reachable, reversed postorder lists every node behind all nodes it takes its value from |
| `TopologicalSolver.TopologicalOrder` | include/tsar/ADT/DataFlow.h:215-220 | the collected vector holds every node once, is reverse topological and ends with the entry |
| `TopologicalSolver.SolveTopologically` | include/tsar/ADT/DataFlow.h:191-235 | one evaluation of each equation in that order gives a solution |
| `TopologicalSolver.UniqueAt` | include/tsar/ADT/DataFlow.h:227-234 | on an acyclic graph two solutions agree at every node |
| `TopologicalSolver.SolversAgree` | include/tsar/ADT/DataFlow.h:139-235 | the one-pass solver and the iterative solver agree node by node |
| `LoopRegion.BuildLoopRegion` | lib/Analysis/DFRegionInfo.cpp:73-167 | for a nest of natural loops the graph of each loop has exactly the edges that control flow between its blocks and inner loops calls for, each as often as there are such edges of control flow, the closing edges once, dual lists, and exactly the nodes these need, each once |
| `LoopRegion.TotalsAgree` | lib/Analysis/DFRegionInfo.cpp:106-150 | counting the edges between blocks by their sources or by their targets gives the same multiplicities |
| `LoopRegion.ConnectedIsDual` | lib/Analysis/DFRegionInfo.cpp:102-150 | successor and predecessor lists are dual with equal multiplicity |
| `LoopRegion.RegionIsAcyclic` | lib/Analysis/DFRegionInfo.cpp:113-136 | when every cycle past the header lies inside one strongly connected inner loop, the graph is acyclic |
| `LoopRegion.AnyOrder` | lib/Analysis/DFRegionInfo.cpp:106-150 | how often an edge occurs does not depend on the order in which the blocks are visited |
| `LoopRegion.NodesHavePredecessors` | lib/Analysis/DFRegionInfo.cpp:151-166 | without unreachable blocks every node but the entry has a predecessor |
| `LoopRegion.NodesAreReached` | lib/Analysis/DFRegionInfo.cpp:151-166 | without unreachable blocks every node can be reached from the entry |
| `LoopRegion.EveryRegionIsSolvable` | lib/Analysis/DFRegionInfo.cpp:57-63 | for every loop tree all graphs built are acyclic and dual, and all their nodes can be reached from the entry |
| `RegionFlow.NestIsSolvable` | include/tsar/ADT/DataFlow.h:291-304 | as forward data-flow graphs, the graphs of all loops of a nest meet everything the one-pass solver asks for |
| `Trees.Parenthesis` | include/tsar/ADT/SpanningTreeRelation.h:68-77 | a node is a proper ancestor of another exactly when it is entered earlier and left later |
| `Trees.AboveIsReachability` | include/tsar/ADT/SpanningTreeRelation.h:58-59 | proper ancestry in a tree is what a walk along child edges reaches |
| `GraphNumbering.NumberingSet.Visit` | include/tsar/ADT/GraphNumbering.h:129-138 | the numbers every node of a subtree gets, from its places in the two orders and the counters in front of the subtree |
| `GraphNumbering.NumberGraph` | include/tsar/ADT/GraphNumbering.h:155-161 | after numbering a tree each node has the numbers of its places in the two orders, in both directions |
| `GraphNumbering.NumberingsAreBijections` | include/tsar/ADT/GraphNumbering.h:122-138 | each of the four numberings is a bijection onto 1 to the size of the tree |
| `SpanningTreeRelation.CompareIsAncestry` | include/tsar/ADT/SpanningTreeRelation.h:59-79 | after numbering, `compare` answers ancestor, descendant, equal or unreachable exactly according to the walks along child edges |
| `SpanningTreeRelation.FindParent` | include/tsar/ADT/SpanningTreeRelation.h:110-126 | the nearest proper ancestor, and no value exactly for the root |
| `SpanningTreeRelation.NoLCA` | include/tsar/ADT/SpanningTreeRelation.h:128-129 | nothing is above all listed nodes exactly when the root is listed |
| `SpanningTreeRelation.FindLCA` | include/tsar/ADT/SpanningTreeRelation.h:140-178 | the deepest node that is a proper ancestor of all listed nodes, and no value exactly when the root is listed |
| `ControlDependence.RecordedAtIsDependence` | lib/Analysis/PDG.cpp:151-162 | what the step at a tree node records is control dependence as defined on the paths of the flow graph |
| `ControlDependence.CollectDependences` | lib/Analysis/PDG.cpp:147-162 | the filled map records exactly the control dependences |
| `ControlDependence.ProcessControlDependence` | lib/Analysis/PDG.cpp:146-166 | a block is bound to exactly the blocks that post-dominate one of its successors and do not strictly post-dominate it, the entry node to exactly the blocks that post-dominate the entry block, each pair once |
| `PiBlocks.MoveEdge` | lib/Analysis/PDG.cpp:1010-1033 | replacing an edge by a complex edge at the pi-block, or letting the one that is there absorb it, keeps every original edge exactly once |
| `PiBlocks.ReconnectEdges` | lib/Analysis/PDG.cpp:1001-1041 | everything kept between two nodes moves to the pi-block, and at most one complex edge of each type and direction arises |
| `PiBlocks.ContractComponent` | lib/Analysis/PDG.cpp:969-1048 | the pi-block takes the place of the members of a component for all nodes outside of it, and the members leave the node list |
| `PiBlocks.CreatePiBlocks` | lib/Analysis/PDG.cpp:955-1049 | after all components every original edge is kept exactly once between the classes of its ends, with the ordinals of its ends |
| `PiBlocks.PiBlockEdges` | lib/Analysis/PDG.cpp:987-994 | at a pi-block there is at most one edge of each type for an ordered pair, there is one exactly when an original edge of that type crosses between the two classes, and it holds exactly these edges |
| `PiBlocks.OrdinaryEdges` | lib/Analysis/PDG.cpp:974-1046 | between nodes outside of all components exactly the original edges are left |
| `PiBlocks.ContractedIsAcyclic` | lib/Analysis/PDG.cpp:955-1049 | no cycle is left but edges from a node to itself |
| `ScevDivision.DivideRight` | lib/Support/SCEVUtils.cpp:433-473 | when every unknown that is replaced in a product is met by one for which that is exact, the quotient times the denominator plus the remainder has the value of the numerator under every assignment and in every iteration, and both are invariant in every loop in which the numerator is |
| `ScevDivision.ConstantsExact` | lib/Support/SCEVUtils.cpp:120-138 | the signed division of constants is exact modulo the width, also where the quotient wraps |
| `ScevDivision.ConstantsTruncated` | lib/Support/SCEVUtils.cpp:120-138 | the division of signed words rounds towards zero: the remainder is smaller than the denominator, has the sign of the numerator, and is zero exactly when the denominator divides it; only the smallest value by -1 wraps |
| `ScevDivision.RecurrenceRight` | lib/Support/SCEVUtils.cpp:140-163 | dividing start and step divides an affine recurrence, and their quotients and remainders do not change in its loop |
| `ScevDivision.TermsRight` | lib/Support/SCEVUtils.cpp:165-203 | the quotients and remainders of terms add up |
| `ScevDivision.FactorRight` | lib/Support/SCEVUtils.cpp:209-250 | the factors with the first one that is divided replaced by its quotient are the quotient of the product |
| `ScevDivision.FactorsRight` | lib/Support/SCEVUtils.cpp:453-469 | division by a product, one factor after the other, is exact |
| `ScevDivision.FallbackExactly` | lib/Support/SCEVUtils.cpp:258-286 | for a product none of whose factors is divided, the exact condition on its value under which each of the three outcomes is exact |
| `ScevDivision.AbsentIsIndependent` | lib/Support/SCEVUtils.cpp:275-277 | the value does not depend on an unknown that does not occur, so that giving up on it is exact |
| `FoldingLimits.SumsInProduct` | lib/Support/SCEVUtils.cpp:274-286 | for `(1 + y) * (1 + y)` by `y` the difference does not simplify and a multiple of `y` is lost; of `-1 + (1 + y) * (1 + y)` nothing remains |
| `ScevRemainders.RemainderIsFree` | lib/Support/SCEVUtils.cpp:140-286 | no multiple of an unknown is left: where the unknown stands in sums, affine recurrences and products only, the value of the remainder does not depend on it |
| `ScevRemainders.SumByTerms` | lib/Support/SCEVUtils.cpp:165-203 | a sum is divided term by term also where something remains: quotient and remainder have the values of the sums of those of the terms |
| `ScevRemainders.RecurrenceByParts` | lib/Support/SCEVUtils.cpp:140-163 | an affine recurrence is divided in its start and its step also where something remains, in every iteration |
| `DivisionTermination.MoreFuel` | lib/Support/SCEVUtils.cpp:276-286 | a division that ends has one result, whatever bound is put on the repeated division of differences |
| `DivisionTermination.FittingRight` | lib/Support/SCEVUtils.cpp:433-473 | a numerator in whose products the unknown stands only as a factor, and for a product denominator also the quotients in between, is divided in a bounded number of steps, with an exact result that does not depend on the bound |
| `DivisionTermination.ExpandedQuotient` | lib/Support/SCEVUtils.cpp:140-286 | the quotient of an expression in expanded form (sums and nested affine recurrences of products of constants and unknowns) by a constant or an unknown is in expanded form again, whatever remains |
| `DivisionTermination.ExpandedFits` | lib/Support/SCEVUtils.cpp:453-469 | such an expression fits every product of constants and unknowns, without sums for all builders that multiply such products out, with sums for those that leave common factors in the terms |
| `DivisionTermination.ExpandedRight` | lib/Support/SCEVUtils.cpp:433-473 | dividing it by a constant, an unknown or a product of these ends with the same result for every bound, and that is exact |
| `FoldingLimits.FactoredSum` | lib/Support/SCEVUtils.cpp:453-469 | with builders that take out common factors `2 * u + 2 * u * y + -2 * u` by `u * y` is zero without a remainder |
| `ScevMultiples.MultipleDivided` | lib/Support/SCEVUtils.cpp:140-250 | a multiple of a denominator, and every sum and affine recurrence of multiples, is divided without a remainder |
| `ScevMultiples.FittingMultiple` | lib/Support/SCEVUtils.cpp:433-473 | for numerators that fit the denominator this division ends |
| `ScevMultiples.TermByUnknown` | lib/Support/SCEVUtils.cpp:209-250 | an unknown divides a product exactly when it is one of its factors, and the quotient has the other factors |
| `ScevMultiples.TermByConstant` | lib/Support/SCEVUtils.cpp:209-250 | a constant divides a product exactly when it is one or divides its constant, and the quotient has its unknowns |
| `ScevProducts.ProductDivides` | lib/Support/SCEVUtils.cpp:453-469 | an expression in expanded form, all terms of which have the factors of a product, is divided by the product without a remainder |
| `FoldingBuilders.FoldingIsSound` | lib/Support/SCEVUtils.cpp:158-161 | builders that fold constants and zero products and take out common factors keep values, form and invariance |
| `FoldingBuilders.ExpandingIsSound` | lib/Support/SCEVUtils.cpp:201-203 | builders that leave common factors in the terms keep them too |
| `FoldingBuilders.FoldingKeepsExpanded` | lib/Support/SCEVUtils.cpp:158-161 | products of constants and unknowns stay such products, and recurrences of expressions in expanded form stay in this form, for builders that take out common factors |
| `FoldingBuilders.ExpandingKeepsExpanded` | lib/Support/SCEVUtils.cpp:201-203 | sums stay in expanded form for builders that do not |
| `FoldingBuilders.FoldingKeepsAffine` | lib/Support/SCEVUtils.cpp:398-402 | their sums and recurrences of affine expressions are affine |
| `FoldingBuilders.FoldingKeepsZero` | lib/Support/SCEVUtils.cpp:158-203 | sums and recurrences of zeros are zero |
| `FoldingBuilders.FoldingKeepsTerms` | lib/Support/SCEVUtils.cpp:248-250 | products keep their unknowns and their constant |
| `FoldingBuilders.FoldingKeepsContents` | lib/Support/SCEVUtils.cpp:158-161 | recurrences keep the unknowns that their start and their step have |
| `FoldingBuilders.ExpandingKeepsContents` | lib/Support/SCEVUtils.cpp:201-203 | and sums those that all terms have, when common factors are left in the terms |
| `ScevAddRec.SearchLinear` | lib/Support/SCEVUtils.cpp:330-406 | a binomial has the value of the expression when the recurrence found is affine, also with a coefficient that changes in the loop, and also through casts that keep values |
| `ScevAddRec.SearchGrows` | lib/Support/SCEVUtils.cpp:360-406 | for a recurrence of any order the expression exceeds its free term by nothing in the first iteration and grows by the coefficient in each |
| `ScevAddRec.AddRecRight` | lib/Support/SCEVUtils.cpp:475-487 | a result that is safe, or found through casts that keep values, has the value of the expression for arbitrarily nested sums, products, casts and recurrences of several loops, as the tests accept a recurrence that is not affine only when its coefficient has become constant |
| `ScevAddRec.AddRecFound` | lib/Support/SCEVUtils.cpp:475-487 | around one affine recurrence, with everything else unchanged in its loop, a recurrence of the loop is built, and called safe exactly when no cast has been met |
| `ScevAddRec.SafeSearch` | lib/Support/SCEVUtils.cpp:335-406 | the search is safe exactly when it meets no cast in front of the recurrence or around it |
| `ScevAddRec.NotAffine` | lib/Support/SCEVUtils.cpp:480-485 | the test of loop invariance rejects every recurrence that is not affine |
| `ScevAddRec.NotAffineDiffers` | lib/Support/SCEVUtils.cpp:360-364 | without that test a recurrence of the second order would get a wrong value |
| `FoldingLimits.TwoRecurrencesDiffer` | lib/Support/SCEVUtils.cpp:366-387 | for a product of two recurrences of one loop both tests may accept a wrong result |
| `ScevGcd.TermsStand` | lib/Support/SCEVUtils.cpp:494-507 | what divides the start and the step of an affine expression divides the expression, for every class of such expressions that is closed under what is built from their parts |
| `ScevGcd.TermsOfRecurrence` | lib/Support/SCEVUtils.cpp:494-507 | around one affine recurrence the terms are the value at the start and what it grows by |
| `ScevGcd.KeepRight` | lib/Support/SCEVUtils.cpp:543-551 | the divisors that are kept divide the term together and still divide all earlier terms |
| `ScevGcd.GcdRight` | lib/Support/SCEVUtils.cpp:530-559 | a computable result divides all terms when the divisions that have no remainder can be trusted |
| `ScevCommonFactors.KeptDivisors` | lib/Support/SCEVUtils.cpp:543-551 | a divisor is kept exactly when it divides the term, and an unknown as often as both the divisors and the term have it |
| `ScevCommonFactors.GcdOfTerms` | lib/Support/SCEVUtils.cpp:530-559 | for products of constants and unknowns there is no answer exactly when every factor of the first term leaves a remainder of another one; otherwise the answer has every unknown as often as the term with the fewest occurrences, and the constant of the first term when that divides all others |
| `ScevGcd.FittingTrusted` | lib/Support/SCEVUtils.cpp:540-556 | with numerators that fit, the search ends with a result that does not depend on the bound, and all its divisions can be trusted |
| `ScevGcd.TermsFit` | lib/Support/SCEVUtils.cpp:513-551 | terms that are sums and affine recurrences of products fit the search, whatever sums are built, as several divisors are used only when all terms are products |
| `ScevGcd.LayeredAnswer` | lib/Support/SCEVUtils.cpp:489-560 | for expressions that are sums and affine recurrences of products, nested over any loops, the search ends for every arrangement of the terms and every bound, and a computable answer divides every expression |
| `ScevGcd.AnswerOfTerms` | lib/Support/SCEVUtils.cpp:489-560 | this for the terms of the expressions, however they are arranged: an unknown that all terms share is a factor of the answer as often as they share it |
| `ScevGcd.FindGCD` | lib/Support/SCEVUtils.cpp:489-560 | the answer is that of the search on the terms of the expressions, each but zero once and small ones first; for expressions that are sums and affine recurrences of products it comes, and when it is computable it divides the value of every expression under every assignment and in every iteration; for other affine expressions it does so when the divisions can be trusted; for terms that are products of constants and unknowns it has every unknown that they share |
| `FoldingLimits.WrongDivisor` | lib/Support/SCEVUtils.cpp:540-559 | with sums inside of products the answer may divide nothing: it is `y * z` for `y * z` and the third power of `-1 + (1 + y) * (1 + y)` |
| `ScevGcd.NotAffineNotDivided` | lib/Support/SCEVUtils.cpp:497-500 | for a recurrence of the second order the result of the search is its step, which does not divide its values |
| `Sieve.TogglePair` | lib/Support/SCEVUtils.cpp:594-602 | exactly the flags of the numbers that the pair represents are toggled, and every access is in range although the subtraction wraps |
| `Sieve.AllRepresentations` | lib/Support/SCEVUtils.cpp:589-604 | the rows of the double loop hold all representations of every number up to the bound |
| `Sieve.ToggleAll` | lib/Support/SCEVUtils.cpp:587-604 | a flag is set exactly for two, three and the numbers with an odd number of representations by the form chosen modulo 12 |
| `Sieve.RemainingSurvives` | lib/Support/SCEVUtils.cpp:605-611 | after the striking loop a flag is left exactly for the toggled numbers that are no multiple of the square of a smaller survivor from five on |
| `Primes.TableHoldsPrimes` | lib/Support/SCEVUtils.cpp:565-572 | up to 281 the table holds exactly the primes |
| `Windmills.FourSquares` | lib/Support/SCEVUtils.cpp:596-597 | a number that leaves one modulo four and is no square has as many representations by `4 * x * x + y * y` as products of two different numbers, up to multiples of two |
| `Windmills.ThreeSquares` | lib/Support/SCEVUtils.cpp:598-603 | the same for `3 * x * x + y * y` and numbers that leave seven modulo twelve, and for `3 * x * x - y * y` and numbers that leave eleven |
| `FactorPairs.OddPairs` | lib/Support/SCEVUtils.cpp:594-611 | a number without the square of a prime is a prime exactly when it is an odd number of such products |
| `Sieve.SurvivorsArePrimes` | lib/Support/SCEVUtils.cpp:585-611 | from five on the numbers whose flags are left are exactly the primes |
| `Sieve.CountPrimeNumbers` | lib/Support/SCEVUtils.cpp:562-619 | the result is strictly increasing and holds exactly the primes up to the bound |
| `PersistentIterators.PushKeeps` | include/tsar/ADT/PersistentIterator.h:246-256 | `addToList` keeps all lists duplicate-free and back-linked |
| `PersistentIterators.DropKeeps` | include/tsar/ADT/PersistentIterator.h:258-266 | `removeFromList` keeps all lists duplicate-free and back-linked |
| `PersistentIterators.MoveKeeps` | include/tsar/ADT/PersistentIterator.h:342-351 | the bucket move keeps all lists in order and leaves every iterator with its element |
| `PersistentIterators.Pool.CopyConstruct` | include/tsar/ADT/PersistentIterator.h:147-153 | the copy is at the front of the list of its bucket and denotes the element of the source, or is invalid like the source |
| `PersistentIterators.Pool.MoveConstruct` | include/tsar/ADT/PersistentIterator.h:155-162 | the new iterator takes the place of the source in front of the rest of the list |
| `PersistentIterators.Pool.FromMap` | include/tsar/ADT/PersistentIterator.h:166-171 | an iterator made from a map iterator heads the list of its bucket |
| `PersistentIterators.Pool.Destroy` | include/tsar/ADT/PersistentIterator.h:137-145 | a destroyed iterator leaves its list, and no other iterator changes |
| `PersistentIterators.Pool.AssignFromMap` | include/tsar/ADT/PersistentIterator.h:212-220 | after the assignment the iterator denotes the element of the bucket, whatever it denoted before |
| `PersistentIterators.Pool.CopyAssign` | include/tsar/ADT/PersistentIterator.h:173-189 | what the assignment does to the pointers, for any two iterators |
| `PersistentIterators.AssignmentWorks` | include/tsar/ADT/PersistentIterator.h:173-189 | the exact condition under which copy assignment keeps the lists and gives the target the meaning of the source |
| `PersistentIterators.Pool.MoveBucket` | include/tsar/ADT/PersistentIterator.h:342-351 | all iterators of the bucket, and no others, point to the new bucket and stay valid |
| `PersistentIterators.Pool.DestroyBucket` | include/tsar/ADT/PersistentIterator.h:330-333 | exactly the iterators of the bucket become invalid |
| `PersistentIterators.Pool.Rehash` | include/tsar/ADT/PersistentIterator.h:341-351 | when all buckets move, valid iterators stay valid and go on denoting the element they were made for |
| `Rewriter.ReplacedAgrees` | lib/Support/RewriterBase.cpp:35-42 | the shifted table belongs to the model after the replacement |
| `Rewriter.InsertedAgrees` | lib/Support/RewriterBase.cpp:49-51 | the shifted table belongs to the model after the insertion |
| `Rewriter.RewriterBase.constructor` | lib/Support/Clang/Utils.cpp:186-196 | the identity table belongs to the unedited text |
| `Rewriter.RewriterBase.ReplaceText` | lib/Support/RewriterBase.cpp:28-43 | the buffer is the rendering of the per-character model with the range replaced, for every range that does not cut an earlier replaced one |
| `Rewriter.RewriterBase.InsertText` | lib/Support/RewriterBase.cpp:45-52 | the buffer is the rendering with the text behind earlier insertions in front of the character, or behind these and immediately in front of the last character that stands for it |
| `Rewriter.RewriterBase.GetRewrittenText` | include/tsar/Support/RewriterBase.h:52-56 | the rendering of the range without the insertions in front of its first character |
| `Rewriter.UntouchedPlace` | lib/Support/RewriterBase.cpp:45-51 | a character that still stands for itself is at the place its second table entry gives |
| `Unparser.SubscriptsFit` | lib/Unparse/SourceUnparser.cpp:183-200 | the subscripts of all elements are in their bounds and lead to the element if and only if the number of elements behind the first dimension fits into 32 bits |
| `Unparser.MemberIsChosen` | lib/Unparse/SourceUnparser.cpp:58-83 | of ordered members the first one at the offset is descended to, and without one the last one in front of it, which is the closest; there is none exactly when all members start behind the offset |
| `Unparser.StartIsNamed` | lib/Unparse/SourceUnparser.cpp:52-208 | where an object without parts starts inside of structures and arrays, however nested, the offset leaves that object of its type, and no address |
| `Unparser.SourceUnparser.UnparseAsScalarTy` | lib/Unparse/SourceUnparser.cpp:35-50 | the cast and the constant add exactly the signed offset |
| `Unparser.SourceUnparser.UnparseAsStructureTy` | lib/Unparse/SourceUnparser.cpp:52-94 | the member and what is unparsed of the rest add exactly the offset |
| `Unparser.SourceUnparser.UnparseAsPointerTy` | lib/Unparse/SourceUnparser.cpp:100-126 | the signed subscript of the pointer and the rest add exactly the signed offset |
| `Unparser.SourceUnparser.EmitSubscripts` | lib/Unparse/SourceUnparser.cpp:179-206 | the tokens and constants are those of the subscripts of the element |
| `Unparser.SourceUnparser.UnparseAsArrayTy` | lib/Unparse/SourceUnparser.cpp:136-208 | the subscripts, all in their bounds, and the rest add exactly the offset |
| `Unparser.SourceUnparser.Unparse` | lib/Unparse/SourceUnparser.cpp:225-239 | from an expression at a place the tokens lead to the place plus the signed offset, for types that may be cyclic through pointers, and whether they end in an object or an address |
| `Unparser.SourceUnparser.UnparseLocation` | lib/Unparse/SourceUnparser.cpp:241-266 | with arrays read as flat sequences of their elements, the lists of tokens, with their parentheses, are those of an expression that is an object at the place that the offsets reach, of the type the last offset leaves, or, for a minimal expression that leaves out an offset of zero, of the type in front of it |
| `Unparser.RightPlace` | lib/Unparse/SourceUnparser.cpp:210-223 | that place is the location in every memory if and only if each offset but the last leaves an object |
| `Unparser.WalkIsRight` | lib/Unparse/SourceUnparser.cpp:210-266 | a location that goes from object to object, each but the last a pointer that is followed, is unparsed to the object at the location in every memory |
| `UnparserSyntax.ListsMakeText` | include/tsar/Unparse/SourceUnparser.h:233-258 | reversing the prefix and filling in the values of the suffix in order gives the text of the expression, with parentheses around operands of a lower priority |
| `UnparserSyntax.TextIsParsedBack` | include/tsar/Unparse/SourceUnparser.h:119-130 | a parser with the precedence of C gets the expression back from that text |
| `UnparserSyntax.PrintedIsParsedBack` | include/tsar/Unparse/SourceUnparser.h:172-179 | the same for the lists an unparser holds after any of its steps |
| `UnparserSyntax.TextIsUnambiguous` | include/tsar/Unparse/SourceUnparser.h:172-179 | different expressions have different texts |
| `Unparser.PointerInScalar` | lib/Unparse/SourceUnparser.cpp:210-214 | a location for which a pointer is not loaded |
| `Handshake.StepKeeps` | include/tsar/Support/SMStringSocket.h:119-137 | every step of either side keeps the remaining scripts fitting, the answer one the client waits for, and brings both sides closer to their end |
| `Handshake.Progress` | lib/Analysis/AnalysisSocket.cpp:65-81 | some step is possible until both sides have finished |
| `Handshake.SafeExactlyWhenFitting` | include/tsar/Analysis/AnalysisServer.h:248-268 | all interleavings are free of unknown requests, failing assertions and deadlock, and end with both sides finished, if and only if every operation of the client is one that the stage then listening answers |
| `Handshake.DualIsSafe` | lib/Analysis/AnalysisSocket.cpp:188-209 | with a client dual to the stages the server has moreover ended every stage before the connection is closed |
| `Handshake.DVMHIsDual` | lib/APC/MemoryServer.h:128-150 | the script of the DVMH writer is dual to the stages of its server, for any number of requests |
| `Handshake.DVMHIsSafe` | lib/APC/ClangDVMHWriter.cpp:336-355 | the hand-shake of the DVMH writer is safe and serves every stage |
| `Handshake.SharedMemoryIsSafe` | lib/Analysis/Memory/DIMemoryAnalysisServer.cpp:157-179 | the hand-shake of the shared-memory parallelization is safe and serves every stage, for any number of requests |

## Left out

- `Unparser.SourceUnparser.UnparseAsArrayTy`: array types whose trailing dimensions have 2^32 elements or more are outside of `Unparser.Laid`, as a coefficient may then be zero and the original divides by it; `Unparser.SubscriptsFit` says what happens there.
- `Unparser.SourceUnparser.UnparseLocation`: locations with unknown subscripts (templates) and the reverse dimension order of Fortran are not modelled; the loop for the latter never visits dimension 0. An array is read as one flat array of its elements, with all its subscripts between one pair of brackets; so a dereferenced array of several dimensions is taken for its first element, where C has its first row.
- `ScevDivision.Divide`: division with unsafe casts and operands of different widths is not modelled. Words of one bit are included, but the expression for one is always the constant 1, while LLVM's constant of one bit is signed.
- `DivisionTermination.FittingRight`: for denominators that are products, the condition speaks of the quotients in between. `DivisionTermination.ExpandedRight` replaces it by one on the operands; what is left to it are sums with builders that take out common factors, for which `FoldingLimits.FactoredSum` shows that the division may be wrong, and products with factors other than constants and unknowns, in the numerator or the denominator.
- `ScevGcd.FindGCD`: only the mode without unsafe casts. For affine expressions with products that have other factors than constants and unknowns, that the divisions without remainder can be trusted is a condition on the quotients of the search; `FoldingLimits.WrongDivisor` shows that the answer may be wrong there. Sums that have a recurrence as a term are covered for builders that leave common factors in the terms (`DivisionTermination.KeepsLayered`).
- `ScevAddRec.AddRecRight`: that a result is wrong for every product outside of `ScevAddRec.Separate` is not claimed; some of them come out right.
- `ScevCommonFactors.GcdOfTerms`: how much of the common part the answer holds is stated for products of constants and unknowns; for other terms it depends on what the builders make of quotients.
- `Sieve.CountPrimeNumbers`: bounds from 2^31 - 1 on are excluded, where the `int` counter of the first loop overflows.
- `Rewriter.RewriterBase.InsertText`: an insertion addressed inside a replaced range, or behind the insertions at a removed character, is excluded, as its table entry is stale or points into the text in front.
- `PersistentIterators.Pool.Rehash`: the order in which a hash map moves its buckets is the order of the argument; the map itself is not modelled. Move assignment of iterators and of buckets is left out; both relink without unlinking, like the copy assignment that is modelled.
- `BackEdge.IsDAG`: its use in `solveDataFlowUpward` is not modelled; there the search follows the edges along which values flow in, starting from the entry, so that acyclicity of the whole graph is a hypothesis of the topological theorems instead.
- `LoopRegion.BuildLoopRegion`: the map from basic blocks to nodes (`mBBToNode`) and the parent links of regions are left out.
- `PiBlocks.CreatePiBlocks`: the computation and the sorting of the components are LLVM's; `connect`, `removeEdge`, `findEdgesTo`, `createPiBlock` and `absorbEdge` are declared in LLVM headers and are modelled by their effect on the set of edges.
- `GraphNumbering.NumberGraph`: graphs that are no trees, where `insert` numbers a node again for every edge to it.
- `Handshake.Start`: several servers on one client, and the connection class of the bcl library, which is taken as a channel on which a request blocks until it is answered.
- Pass plumbing, AST rewriting, option parsing, file output, JSON, DOT printing and diagnostics of the repository.
- The bidirectional maps (`Bimap`, `ListBimap`), whose invariants are easy.
- `PDGBuilder::simplify` and `confirmMemoryIntersect`, which depend on node merging and alias trees.
- The result cache of `AnalysisResponsePass`, which is not cleared when the active function changes.
