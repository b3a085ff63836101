# Generalized planning: heap search, grammar compression and example handling

This project models three pieces of the generalized-planning synthesizer (the PETI
automaton learner and its heap-manipulating domains) and proves properties of them.

- **Heap stores** (`heap.StoreUtils`), module `HeapStore` in `store_utils.dfy`. It covers the
  type checks for variables and fields, and the work-list search behind `dfs`, `bfs`,
  `search` and `reachableObjects`. A store has an environment of variable/value pairs, a set
  of allocated objects, the fields each type declares, and a heap lookup `eval`. `Search`
  runs the source's loops. It is proved equal to the function `SearchSpec`, and
  `SearchSpec` is proved to return every object reachable from the eligible environment
  variables exactly once. It never returns `NULL`. The first object emitted is the first
  eligible seed in breadth-first order and the last one in depth-first order.
- **Grammar inference** (`pexyn.grammarInference.Grammar`), modules `GrammarRewrite`
  (`grammar_rewrite.dfy`) and `GrammarInference` (`grammar.dfy`).
  - A `Grammar` object holds a start nonterminal and a list of nonterminals, and its methods
    update them in place.
  - `ReplaceRecBody` replaces the first occurrence of a recursive body in the start
    productions: first production, then first body, then lowest index.
  - `compressRecursion` repeats that replacement until nothing matches. The model proves
    that this terminates and that the result holds no occurrence of any body.
  - `Sort` is a stable sort by non-increasing `subgraphRank`.
- **Synthesizer bookkeeping** (`pexyn.PETISynthesizer`), module `Synthesis` in
  `synthesizer.dfy`.
  - `genPlans` builds an insertion-ordered map, modelled as a sequence of pairs with
    `LinkedHashMap.put` semantics, from examples to admitted plans.
  - `synthesize` hands the learner the non-test plans in map order.
  - `compareOnTestExamples` counts and decides the validation.
  - `debugPrintGuards` bounds the guard listing.

  The planner, the reference interpreter, the learner and `eqDeterministic` are
  function-typed values given to the model.

## Model

| member | source | states |
|---|---|---|
| HeapStore.TypecheckVar | code/src/heap/StoreUtils.java:45-48 | an integer variable accepts exactly integer values, a reference variable exactly null or an object, any other kind of variable nothing |
| HeapStore.TypecheckField | code/src/heap/StoreUtils.java:50-53 | the same acceptance rule per field kind |
| HeapStore.TypecheckFieldObj | code/src/heap/StoreUtils.java:55-57 | a field applies to an object iff the field's declaring type is the object's type |
| HeapStore.TypecheckAgree | code/src/heap/StoreUtils.java:45-53 | variables and fields of the same kind accept exactly the same values |
| HeapStore.SeedOrder | code/src/heap/StoreUtils.java:184-194 | breadth-first seeding leaves the eligible objects in environment order; depth-first seeding leaves them reversed |
| HeapStore.InitialOpenSeeds | code/src/heap/StoreUtils.java:184-194 | the initial work list holds exactly the non-null objects of non-excluded variables, all allocated |
| HeapStore.PushSuccs | code/src/heap/StoreUtils.java:202-213 | processing an object's fields keeps the work list, adds only non-null reference successors, and leaves every such successor closed or waiting |
| HeapStore.Explore | code/src/heap/StoreUtils.java:196-214 | the main loop only appends to the objects already emitted |
| HeapStore.ExploreDistinct | code/src/heap/StoreUtils.java:196-201 | thanks to the closed set no object is emitted twice; `NULL` is never emitted; everything emitted is allocated |
| HeapStore.ExploreComplete | code/src/heap/StoreUtils.java:196-214 | every closed object and every waiting non-`NULL` object ends up emitted, and the output is closed under reference successors |
| HeapStore.ExploreSound | code/src/heap/StoreUtils.java:196-214 | if everything waiting is reachable, everything emitted is reachable |
| HeapStore.SearchCorrect | code/src/heap/StoreUtils.java:180-216 | the search result has no duplicates and no `NULL`, and an object is in it iff a reference path leads to it from an eligible seed |
| HeapStore.ExploreStep | code/src/heap/StoreUtils.java:197-213 | one round that pops an unclosed, non-null object closes and emits it and enqueues its successors, keeping every waiting object allocated |
| HeapStore.ExploreFirst | code/src/heap/StoreUtils.java:196-201 | with nothing closed yet, the first object popped is the first emitted |
| HeapStore.SearchFirst | code/src/heap/StoreUtils.java:184-201 | breadth-first search emits the first eligible seed first; depth-first search emits the last one first |
| HeapStore.Search | code/src/heap/StoreUtils.java:176-216 | the source's loops compute `SearchSpec`: every reachable object exactly once, never `NULL` |
| HeapStore.Dfs | code/src/heap/StoreUtils.java:167-169 | depth-first search with no exclusions; reachable objects exactly once, starting with the last seed |
| HeapStore.Bfs | code/src/heap/StoreUtils.java:171-174 | breadth-first search with no exclusions; reachable objects exactly once, starting with the first seed |
| HeapStore.ReachableObjects | code/src/heap/StoreUtils.java:157-165 | comparing the breadth-first result's size with the object count is true iff every allocated object is reachable |
| GrammarRewrite.FirstOccurrenceFrom | code/src/pexyn/grammarInference/Grammar.java:83-85 | the lowest index at which a non-empty body occurs in a production; none when the body is empty, too long or absent |
| GrammarRewrite.FindInFormFrom | code/src/pexyn/grammarInference/Grammar.java:82-85 | the first body, in body order, that occurs in a production, with its lowest index; all earlier bodies are absent |
| GrammarRewrite.FindMatchFrom | code/src/pexyn/grammarInference/Grammar.java:80-85 | the first start production in which some body occurs; all earlier productions hold no body |
| GrammarRewrite.MatchOccurs | code/src/pexyn/grammarInference/Grammar.java:80-85 | a match found is a real occurrence with in-range indices |
| GrammarRewrite.NoMatchIffNoOccurrence | code/src/pexyn/grammarInference/Grammar.java:80-96 | the search finds nothing iff no body occurs anywhere in the start productions |
| GrammarRewrite.MatchIsFirst | code/src/pexyn/grammarInference/Grammar.java:80-91 | the match is first in production order, then body order, then index order |
| GrammarRewrite.RewriteAt | code/src/pexyn/grammarInference/Grammar.java:80-91 | an occurrence reached after skipping earlier productions, bodies and indices is the one replaced |
| GrammarRewrite.RewriteNone | code/src/pexyn/grammarInference/Grammar.java:96 | `ReplaceRecBody` reports no change iff no body occurs |
| GrammarRewrite.RewriteShape | code/src/pexyn/grammarInference/Grammar.java:85-91 | a replacement removes the body's symbols at the match, puts the nonterminal there, keeps prefix and suffix, and touches no other production |
| GrammarRewrite.RewriteDecreases | code/src/pexyn/grammarInference/Grammar.java:73-77 | each replacement lowers a natural-number measure when no body is the nonterminal alone, so the `while` loop terminates |
| GrammarRewrite.Compress | code/src/pexyn/grammarInference/Grammar.java:73-77 | repeating the replacement keeps the number of productions and ends with no body occurring |
| GrammarRewrite.CompressFixpoint | code/src/pexyn/grammarInference/Grammar.java:73-77 | productions holding no body are left unchanged |
| GrammarRewrite.CompressIdempotent | code/src/pexyn/grammarInference/Grammar.java:73-77 | compressing twice equals compressing once |
| GrammarInference.Named | code/src/pexyn/grammarInference/Grammar.java:136 | a fresh nonterminal has the given name, no productions and no recursion |
| GrammarInference.CompressFor | code/src/pexyn/grammarInference/Grammar.java:73-77 | compression is the identity for a non-recursive nonterminal and removes every body occurrence for a recursive one |
| GrammarInference.CompressAll | code/src/pexyn/grammarInference/Grammar.java:67-72 | compressing for every nonterminal keeps the number of start productions |
| GrammarInference.CompressAllLast | code/src/pexyn/grammarInference/Grammar.java:67-72 | after the full pass, no body of the last recursive nonterminal occurs |
| GrammarInference.InsertByRankPermutes | code/src/pexyn/grammarInference/Grammar.java:19-30 | one insertion step adds exactly the inserted nonterminal |
| GrammarInference.InsertByRankAtMost | code/src/pexyn/grammarInference/Grammar.java:19-30 | insertion introduces no rank above a bound that the inserted nonterminal and the list respect |
| GrammarInference.InsertByRankOrdered | code/src/pexyn/grammarInference/Grammar.java:19-30 | insertion keeps a rank-ordered list rank-ordered |
| GrammarInference.InsertByRankStable | code/src/pexyn/grammarInference/Grammar.java:19-30 | inserting a nonterminal places it ahead of the nonterminals of its rank already in the list (in the sort these come after it in the input), and keeps their order |
| GrammarInference.SortByRankCorrect | code/src/pexyn/grammarInference/Grammar.java:19-30 | sorting with `longestProd` gives non-increasing ranks, a permutation, and the old order among equal ranks (the sort is stable) |
| GrammarInference.ReplaceAt | code/src/pexyn/grammarInference/Grammar.java:87-90 | removing the body's symbols one `remove(i)` at a time and then `add(i, nt)` splices `nt` in for them |
| GrammarInference.Grammar.constructor | code/src/pexyn/grammarInference/Grammar.java:32-34 | a new grammar has a fresh "Start" nonterminal and no nonterminals |
| GrammarInference.Grammar.Clear | code/src/pexyn/grammarInference/Grammar.java:135-139 | the start becomes a fresh "Start" nonterminal and the nonterminal list is emptied |
| GrammarInference.Grammar.CurrStartProduct | code/src/pexyn/grammarInference/Grammar.java:131-133 | the last start production; none iff there are no start productions |
| GrammarInference.Grammar.SetStartNonterminal | code/src/pexyn/grammarInference/Grammar.java:104-107 | the start becomes a copy of the given nonterminal; nothing else changes |
| GrammarInference.Grammar.SetStartForm | code/src/pexyn/grammarInference/Grammar.java:109-112 | the given form becomes the only start production and hence the current one |
| GrammarInference.Grammar.Sort | code/src/pexyn/grammarInference/Grammar.java:28-30 | the nonterminals become a rank-ordered, stable permutation of the old list |
| GrammarInference.Grammar.ReplaceRecBody | code/src/pexyn/grammarInference/Grammar.java:79-97 | the nested search and in-place edit replace the first match and return true, or change nothing and return false |
| GrammarInference.Grammar.CompressRecursion | code/src/pexyn/grammarInference/Grammar.java:73-77 | the start productions end as `CompressFor`: no body of a recursive nonterminal occurs; the nonterminal list is unchanged |
| GrammarInference.Grammar.CompressRecursionAll | code/src/pexyn/grammarInference/Grammar.java:67-72 | the start productions are compressed for each nonterminal in list order |
| GrammarInference.Grammar.Add | code/src/pexyn/grammarInference/Grammar.java:61-65 | the new nonterminal is appended and the start productions are compressed for it |
| Synthesis.MaxTraceLength | code/src/pexyn/PETISynthesizer.java:54 | the trace bound is the configured value, 200 when none is configured |
| Synthesis.PetiSynthesizer.constructor | code/src/pexyn/PETISynthesizer.java:48-55 | the synthesizer keeps its planner and configuration and fixes `maxTraceLength` from the configuration |
| Synthesis.Put | code/src/pexyn/PETISynthesizer.java:119 | `LinkedHashMap.put` appends an entry for a new key and keeps the key order for an existing one |
| Synthesis.PutLookup | code/src/pexyn/PETISynthesizer.java:119 | after `put` the key maps to the new value and every other key keeps its old value |
| Synthesis.LookupDistinct | code/src/pexyn/PETISynthesizer.java:141-143 | in a map with distinct keys, iterating the entries pairs each key with the value stored under it |
| Synthesis.PutDistinct | code/src/pexyn/PETISynthesizer.java:119 | `put` never duplicates a key |
| Synthesis.TrainingPlans | code/src/pexyn/PETISynthesizer.java:59-65 | a trace is a training plan iff some non-test entry of the map holds it |
| Synthesis.PetiSynthesizer.Obtain | code/src/pexyn/PETISynthesizer.java:98-108 | input-only examples are run by the reference program within `maxTraceLength` steps, or get no trace without one; other examples go to the planner |
| Synthesis.PetiSynthesizer.PlanMapLookup | code/src/pexyn/PETISynthesizer.java:111-126 | an example is mapped iff it is one of the examples and its trace exists and does not end in an error store; then it maps to that trace |
| Synthesis.PetiSynthesizer.PlanMapDistinct | code/src/pexyn/PETISynthesizer.java:96-119 | no example is mapped twice |
| Synthesis.PetiSynthesizer.PlanMapOrdered | code/src/pexyn/PETISynthesizer.java:96-97 | with no repeated example, the map is exactly the admitted examples with their traces, in the problem's order (`PlanMapKeys` gives the key order for every list) |
| Synthesis.PetiSynthesizer.TrainingPlanMembers | code/src/pexyn/PETISynthesizer.java:59-65 | a trace is handed to the learner iff it is the admitted trace of a non-test example |
| Synthesis.PetiSynthesizer.AdmittedKeys | code/src/pexyn/PETISynthesizer.java:94-129 | the admitted examples in first-occurrence order; an example is listed iff it is given and admitted |
| Synthesis.PetiSynthesizer.PlanMapKeys | code/src/pexyn/PETISynthesizer.java:96-119 | for every example list, repeated examples included, the map's keys are the admitted examples in the order of their first occurrence, as `LinkedHashMap` keeps them |
| Synthesis.PetiSynthesizer.GenPlans | code/src/pexyn/PETISynthesizer.java:94-129 | the loop builds the plan map: exactly the admitted examples, each with its own trace, keys distinct, keys in first-occurrence order for every example list, and the pairs exactly in example order when no example repeats |
| Synthesis.PetiSynthesizer.CountsAgree | code/src/pexyn/PETISynthesizer.java:137-173 | the succeeded count never exceeds the test count, and equals it iff every test example passes |
| Synthesis.PetiSynthesizer.OutcomesKeys | code/src/pexyn/PETISynthesizer.java:140-167 | an example gets a recorded outcome iff it is a test example of the map |
| Synthesis.PetiSynthesizer.OutcomesValue | code/src/pexyn/PETISynthesizer.java:150-167 | in a map with distinct keys, each test example is recorded with its own pass/fail result |
| Synthesis.PetiSynthesizer.CompareOnTestExamples | code/src/pexyn/PETISynthesizer.java:134-174 | skips non-test entries; true iff every test's automaton trace exists and is `eqDeterministic` to its plan (vacuously true with no tests); succeeded ≤ tests, with equality iff true |
| Synthesis.PetiSynthesizer.DebugPrintGuards | code/src/pexyn/PETISynthesizer.java:182-197 | with bound k ≥ 0, the first min(n, k+1) guards are listed, followed by "..." iff n ≥ k+1; with a negative bound (default -1), all are listed and no "..." |
| Synthesis.PetiSynthesizer.Synthesize | code/src/pexyn/PETISynthesizer.java:57-89 | the learner receives exactly the non-test plans in map order; its result is returned unchanged; a learned automaton is validated on the test examples |

## Left out

- Store rendering (`printStore`, `storeToDOT`, `getObjName`), `storeToObjMultiGraph` and
  `bfsMap`: these produce output for inspection or distance maps and are not part of the
  search core.
- HeapStore.Search: requires a closed store. Environment objects must be allocated, and
  every reference field of an allocated object must hold an allocated object or `NULL`.
  This is an assumption of the model, not a guarantee of the source. `storeToDOT` and the
  other renderers check `isInitialized` before evaluating a field
  (code/src/heap/StoreUtils.java:121-123), but `search` evaluates every reference field
  without that check (code/src/heap/StoreUtils.java:205). The model's heap lookup is total,
  so a field with no value is outside the model. If `eval` returned Java `null` there, the
  source would enqueue it, emit it and then dereference it. The termination argument also
  needs the closed store.
- HeapStore.Search: the environment is an ordered sequence, and the model fixes one
  iteration order of the source's environment map. Heap lookup is a function of the object
  and the field.
- HeapStore.ReachableObjects: the overload without an exclusion set is this method with an
  empty exclusion list.
- Variables and fields of further kinds are grouped into one "other" constructor, which
  no type check accepts.
- The copy constructor `Grammar(Grammar)`, `getStart`, `getNonterminals`, `toString`,
  `hashCode`, `equals` and the diagnostic `println` in `ReplaceRecBody` are not modelled.
- `getStartProduct` (code/src/pexyn/grammarInference/Grammar.java:124-126) is a getter that
  hands out the start nonterminal's live production list. The model reads
  `start.productions` directly, so the aliasing of that list is not captured.
- `Nonterminal` and `SententialForm` are not part of this model. A nonterminal is a value
  with a name, productions, a recursion flag, recursive bodies and a rank. It occurs in
  productions as a symbol carrying its name, so symbols are equal when their names are.
- GrammarInference.Grammar.CompressRecursion: requires that no recursive body is the
  nonterminal alone. With such a body, the source's `while (ReplaceRecBody(n))` loops
  forever once some body occurs in the start productions. The first replacement leaves the
  nonterminal in a production, and from then on it is replaced by itself. If no body occurs
  at the start, the source's loop stops at once and changes nothing. The requirement
  excludes that harmless case as well.
- GrammarInference.Grammar.Add: requires the nonterminal's recursive bodies to satisfy the
  same condition, because it calls `compressRecursion`.
- GrammarInference.Grammar.CompressRecursionAll: requires the same condition of every
  nonterminal in the list.
- GrammarInference.Grammar.Sort: ranks are unbounded integers. The comparator's `int`
  subtraction could overflow for ranks more than 2^31 apart, and that is not modelled.
- GrammarInference.Grammar.CurrStartProduct: returns no value where the source would throw
  an index exception on empty start productions.
- GrammarInference.Grammar.SetStartNonterminal: the copy `new Nonterminal(s)` is modelled
  as the same value, since nonterminals are values here.
- The planner (`PlanningUtils.exampleToPlan`), the reference interpreter, the automaton
  interpreter, `eqDeterministic`, basic-guard generation with the decision-tree inferencer,
  and the PETI learner are not part of this model. Each appears as a function-typed value,
  so each is deterministic.
- Examples are identified by value, not by object identity. Two examples with equal
  fields count as the same map key.
- Debugger output, the timer, warning and info messages, the "#guards=" header, the guard
  text, the validation message, the diff automata (`visualizeDiff`, `prefixAutomaton`) and
  the `shortCiruitEvaluationSemantics` setting are left out. They only feed the debugger
  or the learner's construction.
- Synthesis.PetiSynthesizer.CompareOnTestExamples: requires distinct keys in the map,
  which every Java `Map` has. The counters are unbounded.
