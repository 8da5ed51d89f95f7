# Finite automata: determinization, minimization, union, concatenation, intersection

A Dafny model of the automaton engine of a small command-line tool for
finite automata. An automaton is an object with five mutable fields: an
alphabet of string symbols, a set of integer states, sets of final and
initial states, and a transition table mapping each state to its outgoing
transitions (symbol, destination). The symbol `"*"` marks an epsilon
transition. The two variants, NFA and DFA, share the same fields and the
same code and differ only in the type tag they report.

On these objects the model covers the following operations:

- `rename(start)`, an in-place breadth-first renumbering from `start`.
- `clear`.
- **Determinization:**
  - joining several initial states into one new state;
  - removing epsilon transitions through epsilon closures;
  - the subset construction over `Key` (subset, symbol) pairs;
  - `normalize`, which numbers the reachable subsets from 0 breadth first.
- **Minimization:**
  - removing unreachable states, then useless states (those from which no final state is reachable);
  - merging equivalent states with a table of state pairs, first marked by finality and then refined to a fixed point;
  - the classes of equivalent states, each mapped to its least member;
  - a breadth-first construction of the quotient automaton, renumbered from 0.
- **Union:** the second operand renumbered past the first, plus a new initial state with epsilon transitions to every initial state of both operands.
- **Concatenation:** epsilon transitions from every final state of the first operand to every initial state of the second.
- **Intersection:** the breadth-first product of two deterministic automata over pairs of states.
- The `perform` pipelines that determinize and minimize every result.

How the model is built:

- The automaton is a Dafny `class` (`Automata.Automaton`) whose methods change its fields in place.
- The operations are methods over it, with loops that follow the source loops and carry their invariants.
- Each method is specified against functions or predicates of its inputs. These are:
  - `Closure`, `EpsilonFreeTable`, `Row` and `DfaRow` for determinization;
  - `Reachable`, `Useful`, `Restrict` and `Prune` for the first two minimization passes;
  - `EquivalenceOf`, `Representing`, `QuotientTable` and `Merged` for the merge pass;
  - `Renumbered` and `BreadthFirstOrder` for `rename`;
  - `UnionOf`, `ConcatenationOf` and `SharedTable` for union and concatenation;
  - `Product` for intersection.
- Lemmas state the properties those functions have: iff characterizations, well-formedness, determinism, and reduction.
- The equivalence table keeps the source's square boolean array (`array2<bool>`).

The sorted sets of the source (`TreeSet`, whose `first()` is the least
element) become `set<int>` with `Min`. Where the source iterates a
`HashSet`, whose order is unspecified, the model takes an arbitrary element
(`:|`) or the least one, and the contracts hold for every order.

Source paths in the table are relative to the repository root.

## Model

| member | source | states |
|---|---|---|
| Automata.Automaton.constructor | src/main/java/cz/cuni/mff/golyshet/automaton/NFA.java:22-28 | a new automaton has the given type tag and empty alphabet, states, finals, initials and table, and is well formed |
| Automata.Automaton.Clear | src/main/java/cz/cuni/mff/golyshet/automaton/NFA.java:85-92 | every field is empty afterwards and the automaton is well formed |
| Automata.Automaton.Rename | src/main/java/cz/cuni/mff/golyshet/automaton/NFA.java:36-83 | with no initial state the call fails (`first()` throws) and nothing changes; otherwise every field is the old one renumbered one-to-one onto start..start+n-1 in first-in first-out breadth-first order from the least initial state (of two reached states, the earlier one has its first predecessor no later than any predecessor of the other; only the order among one state's successors is open), then the unreachable states in ascending order; the alphabet is kept and the result is well formed |
| Automata.RenumberingInjective | src/main/java/cz/cuni/mff/golyshet/automaton/Automaton.java:27-31 | a numbering onto start..start+n-1 never gives two states the same number |
| Automata.RenamedWellFormed | src/main/java/cz/cuni/mff/golyshet/automaton/NFA.java:65-82 | renumbering a well-formed automaton yields a well-formed one |
| Automata.RenamedDeterministic | src/main/java/cz/cuni/mff/golyshet/automaton/DFA.java:66-75 | renumbering keeps a deterministic table deterministic |
| Automata.RenumberedSingleInitial | src/main/java/cz/cuni/mff/golyshet/automaton/DFA.java:42-57 | an automaton with one initial state gets `start` as that state |
| Automata.RenameFields | src/main/java/cz/cuni/mff/golyshet/automaton/DFA.java:37-84 | the new fields are the old ones renumbered, and they are well formed |
| Automata.Renumber | src/main/java/cz/cuni/mff/golyshet/automaton/NFA.java:38-63 | the mapping covers every state one-to-one onto a range, in the first-in first-out breadth-first order `BreadthFirstOrder` describes from the root |
| Automata.NumberReachable | src/main/java/cz/cuni/mff/golyshet/automaton/NFA.java:40-56 | the breadth-first search numbers exactly the states reachable from the root, each discovered from an earlier one; the first numbered predecessor of each state is recorded, and these never decrease along the numbering (the queue is first-in first-out) |
| Automata.NumberSuccessors | src/main/java/cz/cuni/mff/golyshet/automaton/NFA.java:46-55 | every successor of the polled state has a number afterwards; the new numbers go to the newly found states, in order, and the polled state is their first numbered predecessor |
| Automata.NumberedNext | src/main/java/cz/cuni/mff/golyshet/automaton/NFA.java:51-53 | numbering one newly found successor of the polled state with the next counter value keeps the search bookkeeping: numbers follow the list of found states, the list stays a discovery order from the root, and the newly numbered states are exactly those appended |
| Automata.NumberRest | src/main/java/cz/cuni/mff/golyshet/automaton/NFA.java:58-63 | the states the search missed are numbered next, in ascending order, and then every state has a number |
| Automata.ReachedIsReachable | src/main/java/cz/cuni/mff/golyshet/automaton/NFA.java:40-56 | a search that has expanded every discovered state has found exactly the reachable states |
| Automata.RenameFacts | src/main/java/cz/cuni/mff/golyshet/automaton/NFA.java:36-63 | the two numbering passes together give a renumbering onto a range in the order `BreadthFirstOrder` describes |
| Automata.ParentAdded | src/main/java/cz/cuni/mff/golyshet/automaton/NFA.java:47-53 | a state found from the polled state, and from no state polled before it, has the polled state as its first predecessor, and the recorded predecessors stay non-decreasing |
| Automata.ParentsGiveOrder | src/main/java/cz/cuni/mff/golyshet/automaton/NFA.java:40-56 | non-decreasing first predecessors give the first-in first-out discipline `FirstInFirstOut` states |
| Determinization.EpsilonEdges | src/main/java/cz/cuni/mff/golyshet/operation/Determinization.java:214-217 | the new state's transitions are exactly the epsilon transitions to the old initial states |
| Determinization.JoinInitials | src/main/java/cz/cuni/mff/golyshet/operation/Determinization.java:204-221 | the new state is max+1 and was not a state; its row is the epsilon transitions to every initial state; other rows are unchanged; it is final iff some initial state is final; the result is well formed with the new state as its only initial state |
| Determinization.SimplifyInitialStates | src/main/java/cz/cuni/mff/golyshet/operation/Determinization.java:199-232 | fails only when there are no states and not exactly one initial state; with one initial state the automaton itself is returned; otherwise a new NFA with one new initial state, as described for JoinInitials |
| Determinization.ClosureOfState | src/main/java/cz/cuni/mff/golyshet/operation/Determinization.java:149-168 | the epsilon closure of `s` holds `s` and the closure of every epsilon destination of `s`, and nothing else |
| Determinization.ClosureMeetsAgree | src/main/java/cz/cuni/mff/golyshet/operation/Determinization.java:170-171 | marking states final while scanning does not change which closures meet the final states: growing finals equals reading the original ones |
| Determinization.ScanTransitions | src/main/java/cz/cuni/mff/golyshet/operation/Determinization.java:160-167 | splits a row into its epsilon destinations and its other transitions, losing none |
| Determinization.EpsilonClosure | src/main/java/cz/cuni/mff/golyshet/operation/Determinization.java:149-168 | the breadth-first search visits exactly the epsilon closure and gathers exactly the non-epsilon transitions leaving it |
| Determinization.EpsilonFreeRow | src/main/java/cz/cuni/mff/golyshet/operation/Determinization.java:143-174 | a state's new row is the non-epsilon transitions of its closure, and the state becomes final iff its closure reaches a final state |
| Determinization.RowComplete | src/main/java/cz/cuni/mff/golyshet/operation/Determinization.java:149-168 | once a row is scanned, the states gathered plus the state itself form its closure |
| Determinization.EpsilonFreeFields | src/main/java/cz/cuni/mff/golyshet/operation/Determinization.java:141-175 | the new table and finals are those of `EpsilonFreeTable` and `EpsilonFreeFinals` |
| Determinization.EpsilonFreeFinalsMeaning | src/main/java/cz/cuni/mff/golyshet/operation/Determinization.java:170-171 | a state is final after the pass iff its epsilon closure contains an original final state |
| Determinization.EpsilonFreeTableShape | src/main/java/cz/cuni/mff/golyshet/operation/Determinization.java:178-191 | the new table has no epsilon transition, has a row for every state and leads only to states |
| Determinization.RemoveEpsilonTransitions | src/main/java/cz/cuni/mff/golyshet/operation/Determinization.java:138-192 | the input's finals are replaced in place by the closure finals, its other fields kept; the new NFA has the alphabet without "*", the same states and initial states, those finals and the epsilon-free table |
| Determinization.Subsets | src/main/java/cz/cuni/mff/golyshet/operation/Determinization.java:44-72 | holds exactly the subsets of a set, which bounds the states of the construction |
| Determinization.RowMeaning | src/main/java/cz/cuni/mff/golyshet/operation/Determinization.java:52-61 | a `Key` in a subset's row has that subset and a symbol with a non-empty step, and maps to the union of the destinations on that symbol |
| Determinization.RowOfAdd | src/main/java/cz/cuni/mff/golyshet/operation/Determinization.java:55-60 | one more transition adds its destination to the entry of its symbol, creating the entry if missing |
| Determinization.AddToRow | src/main/java/cz/cuni/mff/golyshet/operation/Determinization.java:54-60 | scanning a state's transitions extends the row by exactly them |
| Determinization.BuildRow | src/main/java/cz/cuni/mff/golyshet/operation/Determinization.java:52-61 | the row built for a subset is `Row` of it |
| Determinization.RowWithin | src/main/java/cz/cuni/mff/golyshet/operation/Determinization.java:52-61 | every successor subset is a subset of the states |
| Determinization.EnqueueNew | src/main/java/cz/cuni/mff/golyshet/operation/Determinization.java:64-70 | every successor subset is explored afterwards; the newly queued ones were unexplored and are successors; the order stays a discovery order without repeats |
| Determinization.SubsetTransitions | src/main/java/cz/cuni/mff/golyshet/operation/Determinization.java:38-75 | the explored subsets are exactly those reachable from the initial subset, and the key map holds exactly their rows |
| Determinization.SubsetsReached | src/main/java/cz/cuni/mff/golyshet/operation/Determinization.java:44-72 | a finished search has found exactly the reachable subsets |
| Determinization.NormalRowStable | src/main/java/cz/cuni/mff/golyshet/operation/Determinization.java:99-119 | numbering more subsets does not change a finished row |
| Determinization.MeetsFinal | src/main/java/cz/cuni/mff/golyshet/operation/Determinization.java:113-118 | a subset is final iff it contains a final state |
| Determinization.NormalizeRow | src/main/java/cz/cuni/mff/golyshet/operation/Determinization.java:100-118 | every non-empty successor gets a number, the new ones in order; the list of numbered subsets grows exactly as `Appended` says (new successors appended in ascending symbol order); the row has one transition per symbol with a non-empty successor, to that number |
| Determinization.NormalRowsIndex | src/main/java/cz/cuni/mff/golyshet/operation/Determinization.java:99-119 | the i-th collected row is the row of the i-th numbered subset |
| Determinization.NormalRowsStable | src/main/java/cz/cuni/mff/golyshet/operation/Determinization.java:99-119 | later numbering leaves the collected rows unchanged |
| Determinization.NormalizeFields | src/main/java/cz/cuni/mff/golyshet/operation/Determinization.java:84-131 | subsets are numbered 0.. in the order `BfsOrder` gives: a first-in first-out queue from the initial subset, each polled subset appending its new successors in ascending symbol order; exactly the reachable subsets are numbered; the initial state is 0; finals are the subsets meeting a final state; each number's row is its subset's row, numbered |
| Determinization.SuccessorIsStep | src/main/java/cz/cuni/mff/golyshet/operation/Determinization.java:52-61 | the key map's successor of an explored subset is the union of the destinations on that symbol |
| Determinization.RowsAgree | src/main/java/cz/cuni/mff/golyshet/operation/Determinization.java:101-111 | the row read from the key map equals the row computed from the table directly |
| Determinization.NormalReachesDfa | src/main/java/cz/cuni/mff/golyshet/operation/Determinization.java:84-131 | the subsets `normalize` reaches are those reachable through the table's symbol steps |
| Determinization.SubsetAutomaton | src/main/java/cz/cuni/mff/golyshet/operation/Determinization.java:38-131 | `SubsetsFrom`: a new DFA over the reachable subsets, numbered 0.. one-to-one in the order `BfsOrder` gives, with the initial subset at 0; the search's key map holds exactly the rows of the reachable subsets; a number is final iff its subset meets a final state; each row is the subset's deterministic row; the result is deterministic and well formed |
| Determinization.SubsetAutomatonFacts | src/main/java/cz/cuni/mff/golyshet/operation/Determinization.java:121-130 | from what the search and `normalize` promise, the automaton built is `SubsetsNumbered`: states 0..k-1 onto the numbered subsets, finals by meeting a final state, each row the subset's deterministic row, well formed and deterministic |
| Determinization.SubsetSearchFacts | src/main/java/cz/cuni/mff/golyshet/operation/Determinization.java:84-131 | from what the search and `normalize` promise, `SubsetsSearched`: the initial subset is numbered 0, the numbering is the order `BfsOrder` gives and reaches exactly the subsets reachable by deterministic steps, and the key map holds exactly their rows |
| Determinization.AppendedNew | src/main/java/cz/cuni/mff/golyshet/operation/Determinization.java:101-108 | polling a subset only appends to the list of numbered subsets, and what it appends first is a successor not yet listed |
| Determinization.UnlistedShrinks | src/main/java/cz/cuni/mff/golyshet/operation/Determinization.java:105-107 | appending a new successor leaves fewer unlisted successors, so the breadth-first order is well defined |
| Determinization.Determinize | src/main/java/cz/cuni/mff/golyshet/operation/Determinization.java:38-75 | `DeterminizedFrom`: fails exactly when the initial states cannot be joined; otherwise the joined stage, the epsilon-free stage and the subset stage are each stated exactly (`EpsilonFreeFrom`, `SubsetsFrom`), the result is an epsilon-free DFA, and the side effect on the input's finals is stated |
| Determinization.EpsilonFreeStage | src/main/java/cz/cuni/mff/golyshet/operation/Determinization.java:40 | `EpsilonFreeFrom`: the first two stages of `determinize`, the joined automaton (the input itself, with the closure finals, when it has one initial state) and it without epsilon transitions, each stated exactly |
| Determinization.DfaRowsSymbols | src/main/java/cz/cuni/mff/golyshet/operation/Determinization.java:101-111 | every DFA transition is on a symbol of the alphabet, never "*" |
| Determinization.Perform | src/main/java/cz/cuni/mff/golyshet/operation/Determinization.java:20-30 | a DFA is returned unchanged; unless exactly one path is given the call fails; otherwise the result is `DeterminizedFrom` the input's fields, every stage stated, and the side effect on the input is stated |
| Equivalence.NewTable | src/main/java/cz/cuni/mff/golyshet/operation/Minimization.java:156-160 | a new n×n table with every cell true |
| Equivalence.Unmark | src/main/java/cz/cuni/mff/golyshet/operation/Minimization.java:166-168 | clears exactly the cells (i, j) and (j, i); the true cells lose exactly those two pairs |
| Equivalence.UnmarkShaped | src/main/java/cz/cuni/mff/golyshet/operation/Minimization.java:187-190 | clearing a true pair (i, j), (j, i) keeps the table symmetric, reflexive and finality-respecting, removes exactly those two cells, and the count follows the true cells |
| Equivalence.MarkFinals | src/main/java/cz/cuni/mff/golyshet/operation/Minimization.java:163-171 | afterwards a cell is true iff both states are final or both are not |
| Equivalence.MarkFrom | src/main/java/cz/cuni/mff/golyshet/operation/Minimization.java:164-170 | one final state has been separated from every non-final state, and nothing else changed |
| Equivalence.MarkWith | src/main/java/cz/cuni/mff/golyshet/operation/Minimization.java:164-169 | afterwards a cell is false exactly for the pairs separated by the final states already done or by the final state `f` from the scanned states, now including `x` (when it is not final); the running count equals the number of true cells |
| Equivalence.ShapedRelation | src/main/java/cz/cuni/mff/golyshet/operation/Minimization.java:163-216 | the table stays symmetric and reflexive and never relates a final to a non-final state |
| Equivalence.FindSymbol | src/main/java/cz/cuni/mff/golyshet/operation/Minimization.java:195 | finds a transition on the symbol iff one exists |
| Equivalence.PairSurvives | src/main/java/cz/cuni/mff/golyshet/operation/Minimization.java:183-212 | a pair kept by the test has equally many transitions and related destinations on each symbol; on a deterministic table it is kept iff that holds |
| Equivalence.SurvivesIsAgree | src/main/java/cz/cuni/mff/golyshet/operation/Minimization.java:183-212 | on a deterministic table the source's test equals the symmetric agreement on every symbol |
| Equivalence.GreatestStep | src/main/java/cz/cuni/mff/golyshet/operation/Minimization.java:197-208 | unmarking a pair that fails the test keeps every post-fixed relation that separates final states inside the table |
| Equivalence.RefineCell | src/main/java/cz/cuni/mff/golyshet/operation/Minimization.java:183-212 | the table only shrinks and stays symmetric and finality-respecting; a pair left true passes the test; the greatest relation is still included |
| Equivalence.RefinePass | src/main/java/cz/cuni/mff/golyshet/operation/Minimization.java:177-214 | one sweep over all pairs below the diagonal: a sweep that changed nothing leaves every true pair passing the test |
| Equivalence.Refine | src/main/java/cz/cuni/mff/golyshet/operation/Minimization.java:173-216 | repeats sweeps until nothing changes; the result is stable and still contains every relation that passes the test and respects finality |
| Equivalence.EquivalenceTable | src/main/java/cz/cuni/mff/golyshet/operation/Minimization.java:156-216 | the refined table is symmetric, respects finality and is stable; on a deterministic table it contains every such relation, so it is the greatest |
| Equivalence.StablePostFixed | src/main/java/cz/cuni/mff/golyshet/operation/Minimization.java:173-216 | a stable table relates only states whose successors are related on every symbol |
| Equivalence.GreatestTransitive | src/main/java/cz/cuni/mff/golyshet/operation/Minimization.java:218-243 | the greatest such relation is transitive, so the grouping into classes is sound |
| Equivalence.ComposePostFixed | src/main/java/cz/cuni/mff/golyshet/operation/Minimization.java:183-212 | composing a post-fixed relation with itself is still post-fixed |
| Merging.GroupPair | src/main/java/cz/cuni/mff/golyshet/operation/Minimization.java:223-240 | one equivalent pair joins the set holding one of its states, or starts a new set |
| Merging.GroupRow | src/main/java/cz/cuni/mff/golyshet/operation/Minimization.java:221-241 | one row of the table is grouped |
| Merging.GroupClasses | src/main/java/cz/cuni/mff/golyshet/operation/Minimization.java:218-243 | the grouping loop over all pairs below the diagonal |
| Merging.GroupedAreClasses | src/main/java/cz/cuni/mff/golyshet/operation/Minimization.java:218-243 | the sets built are exactly the equivalence classes with more than one state |
| Merging.ClassesPartition | src/main/java/cz/cuni/mff/golyshet/operation/Minimization.java:218-243 | the sets are non-empty, pairwise disjoint, and each is the class of each of its members |
| Merging.MapToLeast | src/main/java/cz/cuni/mff/golyshet/operation/Minimization.java:249-254 | every member of a set is mapped to that set's least member |
| Merging.MapRestToSelf | src/main/java/cz/cuni/mff/golyshet/operation/Minimization.java:257-261 | every state outside the sets is mapped to itself, and earlier entries are kept |
| Merging.Representatives | src/main/java/cz/cuni/mff/golyshet/operation/Minimization.java:246-261 | the map covers every state: members of a set go to its least member, the others to themselves |
| Merging.RepresentativesAreLeast | src/main/java/cz/cuni/mff/golyshet/operation/Minimization.java:246-261 | the map sends every state to the least state of its class |
| Merging.RepresentingFacts | src/main/java/cz/cuni/mff/golyshet/operation/Minimization.java:246-261 | representatives are states, equivalent to what they represent, and fixed by the map; two states share a representative iff they are equivalent |
| Merging.RowsAgree | src/main/java/cz/cuni/mff/golyshet/operation/Minimization.java:263-283 | equivalent states have the same row once destinations are mapped to representatives, so which member the search visits does not matter |
| Merging.VisitState | src/main/java/cz/cuni/mff/golyshet/operation/Minimization.java:266-281 | the polled representative gets its mapped row, and unexplored destinations are queued |
| Merging.BuildQuotient | src/main/java/cz/cuni/mff/golyshet/operation/Minimization.java:263-283 | the explored representatives are exactly those of the reachable states, and the table is the quotient table over them |
| Merging.StableEquivalence | src/main/java/cz/cuni/mff/golyshet/operation/Minimization.java:173-243 | the refined table of a deterministic automaton is an equivalence relation and post-fixed |
| Merging.QuotientWellFormed | src/main/java/cz/cuni/mff/golyshet/operation/Minimization.java:263-292 | the quotient has the initial representative among its states, and all its rows and destinations name explored representatives |
| Merging.QuotientRows | src/main/java/cz/cuni/mff/golyshet/operation/Minimization.java:266-281 | the row of a reachable state's representative is that state's row, mapped |
| Merging.QuotientFinals | src/main/java/cz/cuni/mff/golyshet/operation/Minimization.java:289-291 | a state is final iff its representative is a final state of the quotient |
| Merging.QuotientDeterministic | src/main/java/cz/cuni/mff/golyshet/operation/Minimization.java:263-283 | the quotient of a deterministic table is deterministic |
| Merging.QuotientReduced | src/main/java/cz/cuni/mff/golyshet/operation/Minimization.java:246-261 | two distinct representatives are never equivalent, so no further merge is possible |
| Merging.MapFinals | src/main/java/cz/cuni/mff/golyshet/operation/Minimization.java:289-291 | the new finals are the representatives of final states that were explored |
| Merging.MergedCard | src/main/java/cz/cuni/mff/golyshet/operation/Minimization.java:285-296 | merging never adds states |
| Merging.EquivalentMap | src/main/java/cz/cuni/mff/golyshet/operation/Minimization.java:156-261 | the map sends every state to the least state of its class under the greatest finality-respecting post-fixed equivalence |
| Merging.MergeFields | src/main/java/cz/cuni/mff/golyshet/operation/Minimization.java:156-292 | the merged fields are the quotient over the representatives of the reachable states, and they are well formed and deterministic |
| Merging.QuotientFields | src/main/java/cz/cuni/mff/golyshet/operation/Minimization.java:263-292 | the quotient fields are well formed and deterministic |
| Merging.NewRenumbered | src/main/java/cz/cuni/mff/golyshet/operation/Minimization.java:294-301 | a new DFA holding the given fields renumbered from 0 |
| Merging.MergeEquivalentStates | src/main/java/cz/cuni/mff/golyshet/operation/Minimization.java:146-304 | fails without an initial state, changing nothing; otherwise the input is renamed from 0 in place, the equivalence is the greatest one, and the result is the quotient over the representatives of the reachable states, renumbered from 0, well formed and deterministic |
| Minimization.EnqueueUnexplored | src/main/java/cz/cuni/mff/golyshet/operation/Minimization.java:51-56 | queues exactly the unexplored destinations of a row |
| Minimization.ExploreFrom | src/main/java/cz/cuni/mff/golyshet/operation/Minimization.java:46-57 | explores exactly the states reachable from the root |
| Minimization.Restrict | src/main/java/cz/cuni/mff/golyshet/operation/Minimization.java:65-68 | keeps exactly the rows of the kept states, unchanged |
| Minimization.RemoveUnreachableStates | src/main/java/cz/cuni/mff/golyshet/operation/Minimization.java:39-78 | the new DFA's states are exactly those reachable from the first initial state; finals are restricted to them, initials and alphabet kept, rows restricted; determinism is kept |
| Minimization.ReachableClosed | src/main/java/cz/cuni/mff/golyshet/operation/Minimization.java:66-68 | transitions of reachable states lead to reachable states, so the restricted table is well formed |
| Minimization.IncomingStates | src/main/java/cz/cuni/mff/golyshet/operation/Minimization.java:312-322 | maps exactly the states with a predecessor to the set of their predecessors |
| Minimization.AddSources | src/main/java/cz/cuni/mff/golyshet/operation/Minimization.java:314-320 | records the state as a predecessor of each of its destinations |
| Minimization.Ascending | src/main/java/cz/cuni/mff/golyshet/operation/Minimization.java:87-88 | lists every final state once, to start the backward search |
| Minimization.ExploreBack | src/main/java/cz/cuni/mff/golyshet/operation/Minimization.java:93-104 | the backward search explores exactly the states from which a final state is reachable |
| Minimization.EnqueueSources | src/main/java/cz/cuni/mff/golyshet/operation/Minimization.java:96-103 | afterwards every predecessor is explored; the states queued are exactly the predecessors that were unexplored, and the queue only grows at its end |
| Minimization.Prune | src/main/java/cz/cuni/mff/golyshet/operation/Minimization.java:112-118 | keeps the rows of kept states, dropping the transitions to removed states |
| Minimization.RemoveUselessStates | src/main/java/cz/cuni/mff/golyshet/operation/Minimization.java:85-139 | with no final state, or no useful initial state, the result is the one-state empty DFA; otherwise the states are exactly the useful ones, and the finals, initials and table are restricted to them; determinism is kept |
| Minimization.Minimize | src/main/java/cz/cuni/mff/golyshet/operation/Minimization.java:30-32 | `MinimizedFrom`: the reachable stage (`ReachedFrom`), the pruned stage (`PrunedFrom`) and the merge (`MergedFrom`: the quotient by the greatest finality-respecting equivalence, renumbered from 0) are each stated exactly; the result has initial state 0, states 0..k-1, and no more states than either stage or the input |
| Minimization.FirstPasses | src/main/java/cz/cuni/mff/golyshet/operation/Minimization.java:31 | the first two passes: `ReachedFrom` then `PrunedFrom`; the pruned stage is deterministic with one initial state and has no more states than the reached one, which has no more than the input |
| Minimization.MergeLast | src/main/java/cz/cuni/mff/golyshet/operation/Minimization.java:31 | the input is renamed from 0 in place; the result is `MergedFrom` it: the quotient over the representatives of the reachable states by the greatest finality-respecting equivalence, renumbered from 0 with initial state 0, and no bigger than the input |
| Minimization.DeterminizeThenMinimize | src/main/java/cz/cuni/mff/golyshet/operation/Minimization.java:21-24 | `DeterminizedFrom` then `MinimizedFrom`, every intermediate stage stated; fails only where determinization does; the side effect on the input is stated |
| Minimization.Perform | src/main/java/cz/cuni/mff/golyshet/operation/Minimization.java:21-24 | with no path the call fails; otherwise the input is determinized and minimized, `DeterminizedFrom` then `MinimizedFrom`, every stage stated |
| Linking.LinkedRows | src/main/java/cz/cuni/mff/golyshet/operation/Union.java:50-58 | adding the epsilon transitions changes only the source state's row, by exactly those transitions |
| Linking.LinkedAllRows | src/main/java/cz/cuni/mff/golyshet/operation/Concatenation.java:51-55 | every linked state's row gains exactly the epsilon transitions to the targets; other rows are unchanged |
| Linking.AddEpsilonEdges | src/main/java/cz/cuni/mff/golyshet/operation/Union.java:50-53 | the `computeIfAbsent(...).add` loop yields `Linked` |
| Linking.LinkStates | src/main/java/cz/cuni/mff/golyshet/operation/Concatenation.java:51-55 | every final state of the first operand gains an epsilon transition to every initial state of the second, in the result and in the rows shared with the first operand |
| Linking.RenumberedFrom | src/main/java/cz/cuni/mff/golyshet/operation/Union.java:36 | renumbering keeps the number of states, puts every state at or above `start`, and keeps whether an initial state is final |
| Linking.RenamePast | src/main/java/cz/cuni/mff/golyshet/operation/Union.java:36 | fails without changing anything when the first operand has no state or the second no initial state; otherwise `RenamedPast`: the second operand is renumbered in place breadth first from max(states1)+1, so its states lie above every state of the first |
| Union.NewInitialPast | src/main/java/cz/cuni/mff/golyshet/operation/Union.java:48 | the new initial state is one past the renumbered second operand |
| Union.UnionStates | src/main/java/cz/cuni/mff/golyshet/operation/Union.java:39-69 | the operands' states are disjoint; the new state is fresh and the only initial state; old finals stay final and no other old state becomes final; the new state is final iff an initial state of either operand is final |
| Union.UnionRows | src/main/java/cz/cuni/mff/golyshet/operation/Union.java:44-58 | every old state keeps its own operand's row; the new state's row is the epsilon transitions to all initial states of both |
| Union.UnionWellFormed | src/main/java/cz/cuni/mff/golyshet/operation/Union.java:34-72 | the union is well formed |
| Union.Union | src/main/java/cz/cuni/mff/golyshet/operation/Union.java:34-72 | the second operand is renumbered in place past the first (`RenamedPast`); the new NFA's fields are `UnionOf` the first and the renumbered second; it is well formed with one initial state |
| Union.Build | src/main/java/cz/cuni/mff/golyshet/operation/Union.java:39-69 | the fields built are `UnionOf` |
| Union.BuildThenMinimize | src/main/java/cz/cuni/mff/golyshet/operation/Union.java:25 | the union of two operands kept apart is `UnionOf` them, then determinized (`DeterminizedFrom`) and minimized (`MinimizedFrom`) |
| Union.Perform | src/main/java/cz/cuni/mff/golyshet/operation/Union.java:21-26 | fails with fewer than two paths or where `union` fails; otherwise `UnitedFrom`: the second operand renumbered past the first, their `UnionOf`, that determinized (`DeterminizedFrom`) and minimized (`MinimizedFrom`) |
| Concatenation.ConcatenationRows | src/main/java/cz/cuni/mff/golyshet/operation/Concatenation.java:41-55 | a final state of the first operand gains the epsilon transitions to the second's initial states; other rows are their operand's |
| Concatenation.ConcatenationWellFormed | src/main/java/cz/cuni/mff/golyshet/operation/Concatenation.java:34-58 | the concatenation is well formed |
| Concatenation.SharedRows | src/main/java/cz/cuni/mff/golyshet/operation/Concatenation.java:46-55 | the first operand's rows after the call equal the result's rows for the same states (the sets are shared by `putAll`) |
| Concatenation.Concatenation | src/main/java/cz/cuni/mff/golyshet/operation/Concatenation.java:34-58 | the second operand is renumbered in place past the first (`RenamedPast`); the first keeps its sets, but its table gains the epsilon rows (`SharedTable`); the new NFA is `ConcatenationOf` the first and the renumbered second |
| Concatenation.Build | src/main/java/cz/cuni/mff/golyshet/operation/Concatenation.java:41-55 | the fields built are `ConcatenationOf`, and the first operand's table becomes `SharedTable` |
| Concatenation.BuildThenMinimize | src/main/java/cz/cuni/mff/golyshet/operation/Concatenation.java:25 | the concatenation of two operands kept apart is `ConcatenationOf` them, then determinized (`DeterminizedFrom`) and minimized (`MinimizedFrom`); the first operand's table becomes `SharedTable` |
| Concatenation.Perform | src/main/java/cz/cuni/mff/golyshet/operation/Concatenation.java:21-26 | fails with fewer than two paths or where `concatenation` fails; otherwise `ChainedFrom`: the second operand renumbered past the first, their `ConcatenationOf`, that determinized and minimized; the side effects on both operands are stated |
| Intersection.FirstMatch | src/main/java/cz/cuni/mff/golyshet/operation/Intersection.java:68-75 | the first matching transition's destination, or -1 when no transition is on the symbol |
| Intersection.MatchTargets | src/main/java/cz/cuni/mff/golyshet/operation/Intersection.java:70-83 | on a deterministic operand the match found is the only destination on the symbol |
| Intersection.PairStepOf | src/main/java/cz/cuni/mff/golyshet/operation/Intersection.java:77-86 | the product steps to the pair of matches when both exist, and nowhere otherwise |
| Intersection.PairStepIff | src/main/java/cz/cuni/mff/golyshet/operation/Intersection.java:67-101 | a product step on `s` leads to (p', q') iff both operands have that transition on `s` |
| Intersection.PairStepsWithin | src/main/java/cz/cuni/mff/golyshet/operation/Intersection.java:86-98 | product steps stay within the pairs of states |
| Intersection.PairRowOf | src/main/java/cz/cuni/mff/golyshet/operation/Intersection.java:67-104 | the symbol loop for one polled pair: new pairs are numbered in order, their finality recorded, and the pair's row is its product row |
| Intersection.PairSymbol | src/main/java/cz/cuni/mff/golyshet/operation/Intersection.java:68-102 | one symbol is handled for the polled pair, keeping the loop invariant |
| Intersection.NumberOf | src/main/java/cz/cuni/mff/golyshet/operation/Intersection.java:100-101 | the polled pair's number is its position in discovery order |
| Intersection.DiscoverFinal | src/main/java/cz/cuni/mff/golyshet/operation/Intersection.java:92-94 | a newly numbered pair is final iff both components are final |
| Intersection.ProductReached | src/main/java/cz/cuni/mff/golyshet/operation/Intersection.java:63-105 | every numbered pair is reachable from the initial pair, and every reachable pair is numbered |
| Intersection.ProductClose | src/main/java/cz/cuni/mff/golyshet/operation/Intersection.java:106-115 | finals are exactly the numbers of pairs final in both; every row is the pair's product row; no row is empty |
| Intersection.ProductFields | src/main/java/cz/cuni/mff/golyshet/operation/Intersection.java:36-105 | the search yields fields satisfying `Product` |
| Intersection.Poll | src/main/java/cz/cuni/mff/golyshet/operation/Intersection.java:63-104 | one iteration of the search keeps its invariant and makes progress |
| Intersection.ProductInvClose | src/main/java/cz/cuni/mff/golyshet/operation/Intersection.java:63-105 | an empty queue means the search is complete |
| Intersection.PairStepsUnique | src/main/java/cz/cuni/mff/golyshet/operation/Intersection.java:70-83 | deterministic operands step a pair to at most one pair per symbol |
| Intersection.ProductFacts | src/main/java/cz/cuni/mff/golyshet/operation/Intersection.java:37-115 | the initial pair has number 0; numbering is one-to-one onto the states 0..k-1; the product is well formed with initial state 0, deterministic, and uses only the first operand's symbols |
| Intersection.ProductTransitionIff | src/main/java/cz/cuni/mff/golyshet/operation/Intersection.java:67-101 | there is a transition on `s` between two pairs' numbers iff `s` is in the first alphabet and both operands have the component transitions |
| Intersection.Intersection | src/main/java/cz/cuni/mff/golyshet/operation/Intersection.java:34-116 | fails without an initial state in either operand; otherwise `ProductOf`: a new deterministic NFA over both alphabets with initial state 0, satisfying `Product` for the pair of the first initial states |
| Intersection.DeterminizeBoth | src/main/java/cz/cuni/mff/golyshet/operation/Intersection.java:20-23 | each operand is determinized (`DeterminizedFrom`); fails exactly when either cannot be; the side effects on both operands are stated |
| Intersection.ProductThenMinimize | src/main/java/cz/cuni/mff/golyshet/operation/Intersection.java:25 | the product of two determinized operands (`ProductOf`), determinized (`DeterminizedFrom`) and minimized (`MinimizedFrom`) |
| Intersection.Perform | src/main/java/cz/cuni/mff/golyshet/operation/Intersection.java:18-26 | fails with fewer than two paths or when an operand cannot be determinized; otherwise `IntersectedFrom`: both operands determinized, their `ProductOf`, that determinized and minimized; the side effects on both operands are stated |

## Left out

- Reading automata from files: the operations take the automata as parameters, and `paths` only decides whether the source would throw. Command-line parsing, `Main`, `save` writing the result and the marker interfaces are not part of this model.
- Exceptions: every `first()`, `Collections.max` or `paths.get` that would throw becomes `ok == false`, with nothing changed.
- HashSet and HashMap iteration order: an arbitrary or the least element is taken, and each contract holds whichever order is used. Which equal-valued object a set keeps is not modelled.
- `Transition` has no `equals` in the source, so two transitions with the same symbol and destination are distinct objects there. The model compares transitions by value; a set therefore never holds two equal transitions.
- The exponential size of the subset construction is not bounded beyond `Subsets` (every state of the DFA is a subset of the states).
- `getType` is the constant `kind` of `Automata.Automaton`: NFA for everything the operations build, DFA for `normalize`, `removeUnreachableStates`, `removeUselessStates` and `mergeEquivalentStates`.
- Automata.WellFormed: requires every state to be non-negative, and every operation requires it of its input. The reader, which is not part of this model, accepts negative state numbers; only the `-1` sentinel of `intersection` depends on there being none, but the model does not cover an automaton read with a negative state at all.
- Linking.RenamePast: Java's 32-bit `int` is modelled as an unbounded integer, so `Collections.max(...) + 1` wrapping past 2^31-1 is not modelled; the same holds for the new initial state of Union.NewInitial and Determinization.JoinInitials.
- Automata.Automaton.Rename: the state counters (`stateCounter++` here and in `normalize`, `intersection` and `mergeEquivalentStates`) are unbounded integers; their 32-bit wrap-around is not modelled.
- Orders.StrLe: compares strings by Unicode scalar value, character by character. Java's `compareTo` compares UTF-16 code units, which orders a symbol with a character outside the Basic Multilingual Plane differently from one with a character in U+E000..U+FFFF; for such alphabets the symbol order of `normalize` and `intersection` in the model is not the source's.
- Minimization.Minimize: requires a deterministic automaton with one initial state. Every caller passes a determinized automaton, and the refinement test is exact only on deterministic tables.
- Merging.MergeEquivalentStates: requires a deterministic table. On a nondeterministic table the source's test compares only the first transition on each symbol.
- Intersection.Intersection: requires deterministic operands. On a nondeterministic table the source takes whichever matching transition the HashSet yields first; its callers always determinize first.
- Union.Union and Concatenation.Concatenation: require two distinct objects. Passing one automaton as both operands (aliasing) is not modelled.
