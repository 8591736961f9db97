# Crossword CSP and propositional forward chaining, in Dafny

This project models two programs from the `ai-work` repository.

**The crossword solver** (`csp/app.py`). A grid of open cells and blocked
`X` cells becomes an occupancy matrix (`construct_domains`). Every maximal
run of two or more open cells, across or down, becomes a slot, a
`GridCoordinate` (`construct_all_variables`). Every ordered pair of
distinct slots gets an overlap entry: `None`, or the offsets of the shared
cell in each slot (`construct_overlapping_words`). The `CSP` class keeps
one domain of words per slot. It revises arcs (`revise`), runs one pass of
arc consistency over a queue of arcs (`arc_consistency_ac3`), picks the
next slot (minimum remaining values, then degree), orders a slot's words
by a least-constraining-value score, and searches by backtracking.

**Forward chaining** (`forward-chaining/forward_chain.py`). The knowledge
base is a list of text lines:
- a fact is a two-character line such as `p1`;
- a rule has the form `<premise> THEN <conclusion>`;
- symbols are the `p<digits>` tokens the text contains.

`pl_fc_entails` keeps a count of unproved premise symbols per rule, a table
of inferred symbols, and an agenda popped from its end.

Files:
- `collections.dfy` (module `Collections`): an option type, set iteration
  as an arbitrary enumeration, and cardinality facts about sets and maps.
- `grid.dfy` (module `Grid`): slots, the occupancy matrix, slot discovery,
  overlaps, neighbours, and the `CrosswordGrid` class with its three
  construction methods.
- `csp.dfy` (module `Csp`): consistency, revision, the arc-consistency
  pass, value ordering, and the `CSP` class with its methods.
- `forward_chain.dfy` (module `ForwardChain`): the `p[0-9]+` scanner, the
  `THEN` split, the tables, the agenda loop as a specification (`Run`,
  `Entails`), and the imperative `PlFcEntails` proved equal to it.

The model follows the code in these places:
- `arc_consistency_ac3` revises each arc of the queue once, in order, and
  never re-enqueues arcs. It stops with `False` at the first revision that
  empties a domain.
- `backtracking_search` writes into one shared assignment and never
  removes an entry after a failed branch. Stale entries stay and take part
  in later consistency checks. The model threads that assignment through
  the recursion as a value.
- The premise test of `pl_fc_entails` is Python's substring test `p in
  premise`, modelled as `Contains`. So `p1` matches inside `p10`.
- A popped symbol with no entry in the inferred table raises `KeyError`.
  The model returns it as the outcome `KeyError(symbol)`.

## Model

| member | source | states |
|---|---|---|
| Grid.NewGridCoordinate | csp/app.py:169-179 | The slot keeps its start, direction and length. Its cell list has `length` cells, and cell k is k steps from the start in the slot's direction. |
| Grid.CellsDistinct | csp/app.py:174-179 | Two positions of a well-formed slot that hold the same cell are the same position. |
| Grid.RunLength | csp/app.py:243-248 | From an open start, the run has at least one cell, every counted cell is open, and the first cell after the run is closed or off the grid. |
| Grid.RunIsUnique | csp/app.py:243-248 | Two run lengths from the same start that each end at the first closed cell are equal. |
| Grid.SlotStartingAt | csp/app.py:238-272 | The slot found at a start and direction is a slot of the grid with that start and direction. If any slot has that start and direction, it is the one found. |
| Grid.SlotStartsInGrid | csp/app.py:236-237 | Every slot starts inside the grid. |
| Grid.IndexOf | csp/app.py:229-231 | `list.index` returns the first position holding the cell. |
| Grid.OverlapOf | csp/app.py:218-231 | The entry for two slots is `None` exactly when they share no cell. Otherwise it holds the positions of one shared cell in each slot. |
| Grid.Neighbors | csp/app.py:291-296 | The neighbours of a slot are other slots of the grid, never the slot itself. |
| Grid.NeighborsSymmetric | csp/app.py:291-296 | u is a neighbour of v exactly when v is a neighbour of u. |
| Grid.SameDirectionDisjoint | csp/app.py:221-231 | Two slots of a grid that run the same way and share a cell are the same slot. |
| Grid.AtMostOneSharedCell | csp/app.py:221-231 | Two distinct slots share at most one cell, so the set popped in `construct_overlapping_words` holds a single cell. |
| Grid.EntrySwap | csp/app.py:221-231 | The valid entry for (b, a) is the entry for (a, b) with its two offsets swapped. |
| Grid.OverlapSymmetric | csp/app.py:217-233 | On the slots of a grid, the overlap map holds (b, a) whenever it holds (a, b), with the offsets swapped. |
| Grid.Occupancy | csp/app.py:278-289 | The matrix has one row per grid row and one entry per column. A cell is open exactly when its row has a token there and the token is not `X`. |
| Grid.IsSlot | csp/app.py:239-275 | A slot is a run of two or more open cells in one direction whose cell before and cell after are closed or off the grid. |
| Grid.CrosswordGrid.constructor | csp/app.py:203-215 | Stores the grid and the words. The height and width come from the grid. The matrix, the slot set and the overlap map start empty. |
| Grid.CrosswordGrid.ConstructDomains | csp/app.py:278-289 | Appends one row per grid row. A cell is open exactly when it exists in its row and is not `X`. |
| Grid.CrosswordGrid.ConstructAllVariables | csp/app.py:235-276 | Afterwards the slot set holds the earlier slots plus exactly the slots of the grid. |
| Grid.CrosswordGrid.ConstructOverlappingWords | csp/app.py:217-233 | Adds an entry for every ordered pair of distinct slots, and each entry is valid. Other entries are kept. Starting from an empty map, the result holds exactly one entry per pair. |
| Collections.InjectiveIffDistinctCount | csp/app.py:82-83 | A map has as many distinct values as keys exactly when no two keys share a value. |
| Csp.TopologyShape | csp/app.py:217-233 | The geometry the grid builds gives the solver what it indexes: an entry for every pair of distinct slots, and offsets inside both slots. |
| Csp.IsConsistent | csp/app.py:81-97 | The source compares the number of values with the number of keys. A consistent assignment therefore gives no two slots the same word, and each word is as long as its slot. |
| Csp.IsConsistentMeans | csp/app.py:81-97 | `is_consistent` holds exactly when three things hold: the words are pairwise distinct, every word fits its slot, and every two overlapping assigned slots hold the same letter at the shared cell. |
| Csp.Compatible | csp/app.py:22 | The test on two words: both reach the shared cell, they hold the same letter there, and they differ. |
| Csp.Supported | csp/app.py:19-24 | Some word of y's domain passes the test with the given word. |
| Csp.Revised | csp/app.py:19-27 | The words of x's domain that keep their place: those with support in y's domain. |
| Csp.FindSupport | csp/app.py:20-24 | The inner loop of `revise` finds a match exactly when some word of y's domain is long enough, holds the same letter at the shared cell, and differs from the word. |
| Csp.ReviseArc | csp/app.py:13-28 | Revising an arc changes only x's domain, which keeps exactly its supported words. The set of slots is unchanged. |
| Csp.Pass | csp/app.py:42-47 | One pass over a queue: revise each arc in turn, and stop with `False` at the first revision that changes its slot's domain and leaves it empty; otherwise `True`. |
| Csp.PrefixStep | csp/app.py:43-47 | Revising the first k+1 arcs means revising arc k after the first k arcs. |
| Csp.PassShrinks | csp/app.py:43-47 | The pass keeps every slot and never adds a word to a domain. |
| Csp.PassSucceeds | csp/app.py:43-48 | When no revision empties its slot, the pass returns `True` after revising every arc. |
| Csp.PassFailsAtFirstEmptying | csp/app.py:43-47 | The pass returns `False` at the first revision that empties its slot, and revises nothing after it. |
| Csp.PassAt | csp/app.py:42-46 | When no earlier revision emptied a slot, revision k either ends the pass with `False` and the domains right after it, or leaves no emptying revision among the first k+1. |
| Csp.PassFailsIff | csp/app.py:37-48 | The pass fails exactly when some revision in the queue empties its slot. |
| Csp.ConflictCount | csp/app.py:109-114 | The score a neighbour contributes is at most the number of words looked at. |
| Csp.ConflictCountAllFit | csp/app.py:109-114 | When every word reaches the shared cell, the score is the number of words that disagree with the candidate there. |
| Csp.ConflictCountStopsAtShortWord | csp/app.py:109-114 | A word too short for the shared cell ends the count. Later words do not contribute. |
| Csp.Heuristic | csp/app.py:102-115 | The score of a word for a slot: the sum, over every other unassigned slot that overlaps it, of that slot's conflict count. Assigned slots and slots with no shared cell add nothing. |
| Csp.InsertByKey | csp/app.py:116 | Insertion adds exactly the one element. |
| Csp.InsertKeepsSorted | csp/app.py:116 | Inserting into a list sorted by key keeps it sorted. |
| Csp.SortByKey | csp/app.py:116 | `sorted(..., key=...)` returns a permutation of its input, in non-decreasing key order. |
| Csp.OrderDomainValues | csp/app.py:99-116 | The ordered values are a permutation of the slot's domain, and their heuristic scores never decrease. |
| Csp.RunMinFacts | csp/app.py:54-63 | After the first t visits, the running minimum is at most every unassigned domain visited, below every one not collected, and it is the starting value or the size of a collected slot's domain. |
| Csp.FewestVisited | csp/app.py:54-63 | Every collected slot is one of the slots visited so far. |
| Csp.CollectedAtVisit | csp/app.py:57-60 | An unassigned slot passes the `<=` test at its visit exactly when its domain is no larger than every unassigned domain visited before it. |
| Csp.FewestAt | csp/app.py:54-63 | With each slot visited once, a slot ends up collected exactly when it is unassigned and its domain is no larger than every unassigned domain visited before it. |
| Csp.FewestFacts | csp/app.py:54-63 | After the loop, the collected slots are exactly the unassigned ones whose domain is no larger than every unassigned domain visited before them. There is at least one when some slot is unassigned. A lone collected slot has a strictly smaller domain than every other unassigned slot. |
| Collections.EnumerationDistinct | csp/app.py:56 | An iteration order over a set never visits an element twice. |
| Csp.ExtensionShrinksMeasure | csp/app.py:152-157 | Assigning a new slot, with earlier entries kept, leaves fewer slots to fill. This is the recursion measure of the search. |
| Csp.CSP.constructor | csp/app.py:6-11 | Every slot's domain starts as the whole word set. |
| Csp.CSP.Revise | csp/app.py:13-28 | The domains become the arc's revision of the old domains. The result is `True` exactly when x's domain changed. |
| Csp.CSP.GetAllArcs | csp/app.py:30-35 | The arcs are the pairs with a non-`None` entry, each listed once. |
| Csp.CSP.InitialQueue | csp/app.py:38-40 | A given non-empty queue is kept. An empty one is replaced by every arc, each listed once. |
| Csp.CSP.ReviseQueue | csp/app.py:42-47 | The result and the new domains are those of one pass over the queue, and `False` means some domain is empty. |
| Csp.CSP.ArcConsistencyAc3 | csp/app.py:37-47 | An empty queue is replaced by all arcs. The result and the new domains are those of one pass over the queue. Domains only shrink, and `False` means some domain is empty. |
| Csp.CSP.CollectFewest | csp/app.py:54-63 | Visits every slot once. The collected set is non-empty, holds only unassigned slots, and holds exactly those whose domain is no larger than every unassigned domain visited before them. A lone collected slot has the strictly smallest domain. |
| Csp.CSP.SelectUnassignedVariable | csp/app.py:49-79 | The chosen slot is unassigned and is one of the slots the first loop collected. When that loop collects a single slot, the chosen slot has a strictly smaller domain than every other unassigned slot. |
| Csp.CSP.EnumerateDomains | csp/app.py:101-111 | Gives one iteration order per slot, which lists each word of that slot's domain once. |
| Csp.CSP.OrderDomainValuesOf | csp/app.py:99-116 | The result is `order_domain_values` for some iteration order, and a permutation of the slot's domain. |
| Csp.CSP.BacktrackingSearch | csp/app.py:142-161 | Keeps every earlier entry and never decreases the call counter. A solution assigns every slot and is consistent. Reaching one from an incomplete assignment takes at least one recursive call. |
| Csp.CSP.Solve | csp/app.py:142-161 | A solution from the empty assignment fills every slot with distinct words of the right lengths that agree on every shared cell. |
| ForwardChain.Tokens | forward-chaining/forward_chain.py:36 | Every token `re.findall(r'p[0-9]+', ...)` returns is a `p` followed by one or more digits. |
| ForwardChain.SymbolTokens | forward-chaining/forward_chain.py:46-48 | A line that is itself a symbol scans to exactly that symbol. |
| ForwardChain.SymbolScannedInContext | forward-chaining/forward_chain.py:46-48 | A symbol followed by a non-digit, or at the end of the text, is one of the text's tokens. |
| ForwardChain.FirstThen | forward-chaining/forward_chain.py:88-90 | Gives the position of the first `THEN`, or the length of the text when there is none. |
| ForwardChain.BeforeThen | forward-chaining/forward_chain.py:89 | `split('THEN')[0]`: the text before the first `THEN`, or all of it when there is none. |
| ForwardChain.AfterThen | forward-chaining/forward_chain.py:90 | `split('THEN')[1]`: the text after the first `THEN`, up to the next one or the end. |
| ForwardChain.ThenSplit | forward-chaining/forward_chain.py:89-90 | A rule is its text before the first `THEN`, then `THEN`, then the rest. The first piece holds no `THEN`; the second piece is the start of the rest and holds no `THEN`. |
| ForwardChain.Premise | forward-chaining/forward_chain.py:89 | The premise is the text before `THEN` without its last character. |
| ForwardChain.Conclusion | forward-chaining/forward_chain.py:90 | The conclusion is the text after `THEN` without its first character. |
| ForwardChain.Contains | forward-chaining/forward_chain.py:91 | `p in curr_premise`: Python's substring test. |
| ForwardChain.ContainsMeans | forward-chaining/forward_chain.py:91 | The premise test holds exactly when the symbol occurs in the premise at some position. |
| ForwardChain.ConclusionIsToken | forward-chaining/forward_chain.py:88-90 | A rule's conclusion that is a symbol is one of the rule's tokens. |
| ForwardChain.DisplayClausesSymbols | forward-chaining/forward_chain.py:4-13 | The filtered list is no longer than its input. |
| ForwardChain.DisplayKeepsExactly | forward-chaining/forward_chain.py:4-13 | Each kept line appears as often as in the input. Every other line is absent. A line is kept when it is longer than two characters (`clauses`) or exactly two (`symbols`). |
| ForwardChain.DisplayAppend | forward-chaining/forward_chain.py:4-13 | Filtering keeps input order: the result for a concatenation is the concatenation of the results. |
| ForwardChain.GetAllSymbols | forward-chaining/forward_chain.py:55-60 | Every agenda seed is a two-character line. |
| ForwardChain.AllSymbolsAreDisplayedSymbols | forward-chaining/forward_chain.py:55-60 | `get_all_symbols` returns the same list as `display_clauses_symbols('symbols', ...)`. |
| ForwardChain.GetSymbolCount | forward-chaining/forward_chain.py:31-37 | There is exactly one entry per line. Its count is the number of tokens before the first `THEN`. |
| ForwardChain.AllTokens | forward-chaining/forward_chain.py:45-48 | The token set holds exactly the tokens of some line. |
| ForwardChain.InitializeInferredTable | forward-chaining/forward_chain.py:39-53 | The keys are the query (when non-empty) and every token of the knowledge base. Every entry is `False`. |
| ForwardChain.Expand | forward-chaining/forward_chain.py:87-94 | Counts only go down and keep their keys, and the old agenda stays as a prefix. Each pushed symbol is the conclusion of a rule whose count went from positive to zero or below. |
| ForwardChain.Fired | forward-chaining/forward_chain.py:87-94 | The rules whose count reaches exactly zero while one symbol is expanded, in the order the loop meets them. |
| ForwardChain.Conclusions | forward-chaining/forward_chain.py:94 | The conclusions of a list of rules, position by position. |
| ForwardChain.ExpandKeepsOthers | forward-chaining/forward_chain.py:87-94 | The count of a line that is not in the knowledge base is left as it was. |
| ForwardChain.FiredHead | forward-chaining/forward_chain.py:87-94 | The first rule of the list fires exactly when the loop pushes its conclusion. |
| ForwardChain.ExpandPushesFired | forward-chaining/forward_chain.py:87-94 | Expanding a symbol appends exactly the conclusions of the rules that fire, in order, to the agenda. |
| ForwardChain.FiredIff | forward-chaining/forward_chain.py:92-94 | A rule fires exactly when its count goes from positive to zero or below in this pass. The count falls by one at a time, so it passes through zero. |
| ForwardChain.FiredOnce | forward-chaining/forward_chain.py:92-94 | Within one pass a rule fires at most once, even when the same line occurs several times in the knowledge base. |
| ForwardChain.Step | forward-chaining/forward_chain.py:81-94 | One iteration: pop the last symbol; stop with `True` if it is the query; a symbol with no table entry raises `KeyError`; an uninferred symbol is marked and expanded. |
| ForwardChain.Run | forward-chaining/forward_chain.py:81-95 | The loop from a state: iterate until a step stops, or answer `False` when the agenda is empty. |
| ForwardChain.StepFired | forward-chaining/forward_chain.py:85-94 | The rules that fire in one iteration: none unless the popped symbol is expanded. |
| ForwardChain.RunFired | forward-chaining/forward_chain.py:81-95 | The rules that fire over the rest of the search, iteration by iteration. |
| ForwardChain.StepFiredMeans | forward-chaining/forward_chain.py:81-94 | An iteration that goes on pops one symbol and pushes the conclusions of the rules that fire in it. Those rules are distinct, had a positive count before and none after. |
| ForwardChain.RunFiresOnce | forward-chaining/forward_chain.py:81-95 | Over the whole search a rule fires at most once: the rules that fire, listed iteration by iteration, never repeat, and each had a positive count at the start. |
| ForwardChain.MarkShrinksPending | forward-chaining/forward_chain.py:85-86 | Marking an uninferred symbol removes exactly it from the set of uninferred symbols. |
| ForwardChain.StepProgress | forward-chaining/forward_chain.py:81-94 | An iteration never forgets an inferred symbol and never raises a count. It either infers a new symbol or shortens the agenda, so the loop terminates. |
| ForwardChain.Initial | forward-chaining/forward_chain.py:78-80 | Every line has a count. |
| ForwardChain.PlFcEntails | forward-chaining/forward_chain.py:74-95 | The procedure returns exactly what the agenda-loop specification `Entails` gives. |
| ForwardChain.RunTrueOnlyForDerivable | forward-chaining/forward_chain.py:81-95 | From any agenda of facts and conclusions, `True` is answered only for a fact or a rule's conclusion. |
| ForwardChain.EntailedIsDerivable | forward-chaining/forward_chain.py:74-95 | `pl_fc_entails` answers `True` only for a fact of the knowledge base or a rule's conclusion. |
| ForwardChain.QueryOnAgendaNotFalse | forward-chaining/forward_chain.py:81-84 | While the query is on the agenda, the search cannot end with `False`. |
| ForwardChain.FalseOnlyForNonFacts | forward-chaining/forward_chain.py:80-95 | `False` is only answered for a query that is not one of the facts. |
| ForwardChain.QueryOnAgendaAnswered | forward-chaining/forward_chain.py:81-94 | When the query is on the agenda and every symbol that can be popped has a table entry, the search answers `True`. |
| ForwardChain.FactIsEntailed | forward-chaining/forward_chain.py:74-95 | A query that is a fact is entailed, provided every fact and every conclusion is a `p<digits>` symbol. |

## Left out

- I/O is not modelled: reading the grid, dictionary and knowledge-base files, the interactive query loop, `sys.stdout` messages, `sys.exit`, and both `main` functions. The parsed grid rows, the word set, the knowledge-base lines and the query are parameters.
- `display_grid` only prints, and is not modelled.
- `count_number_of_variables` only feeds a printed message, and is not modelled.
- `get_symbol_premise` is never called, and is not modelled.
- `bayesian_network/bayes_net.py`, `app.py` and `a*_search/app.py` are not part of this model.
- The global `GRID_HEIGHT`/`GRID_WIDTH` are the `height`/`width` fields of `CrosswordGrid`.
- The global `RECURSIVE_CALLS` counter is a value passed into and out of `BacktrackingSearch`.
- Python set and dict iteration order is not modelled. Each loop over a set visits an arbitrary enumeration (`Collections.Enumerate`), and each `set.pop()` is an arbitrary pick. Contracts hold for every order.
- Csp.CSP.ArcConsistencyAc3: requires a non-empty queue or at least one arc. With neither, `while not arcs` in the source loops forever.
- Csp.CSP.SelectUnassignedVariable: requires an unassigned slot; with none, the source pops from an empty set. The backtracking search only calls it when one exists.
- Csp.CSP.SelectUnassignedVariable: does not promise that the chosen slot has the smallest domain, because the source does not ensure it. The first unassigned slot visited is always collected, and the collected set is never cleared when a smaller domain appears. When several slots are collected, `pop()` may return any of them, including one with a larger domain. The smallest-domain property is stated only for a single collected slot. The degree tie-break is modelled in the body but not stated.
- Csp.CSP.BacktrackingSearch: requires the incoming assignment to be consistent. Every call the program makes satisfies this: the top-level call starts from `{}`, and each recursive call follows a successful `is_consistent`.
- Csp.CSP.BacktrackingSearch: does not claim completeness. Entries of failed branches are never removed, so the search can miss solutions. Only what a returned solution satisfies is stated.
- Csp.CSP.Solve: the source's mutable default argument `assignment={}` is modelled as a fresh empty map. The program calls the search once per run.
- `revise` iterates over a copy of x's domain (`self.domains[x].copy()`). The model iterates over the domain as it stood before the loop, which removes the same words.
- ForwardChain.FactIsEntailed: requires every fact and every rule's conclusion to be a `p<digits>` symbol. Otherwise popping such a line before the query raises `KeyError`, which the model returns as `KeyError(symbol)`.
- Entailment in the logical sense is not proved. Because of the substring premise test, the answer `True` is only shown to name a fact or a rule's conclusion.
