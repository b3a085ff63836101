/**
 * The example-handling part of the PETI synthesizer (`PETISynthesizer`): turning examples
 * into plans, picking the training plans handed to the learner, validating a learned
 * automaton on the test examples, and the bounded listing of the available guards.
 *
 * The planner, the reference interpreter, the learner (guard inference plus PETI) and the
 * trace comparison `eqDeterministic` are code this model does not see; they appear as
 * function-typed values the synthesizer is given.
 */
module Synthesis {
  import opened Options

  /** A program configuration; `ErrorStore` is the configuration reached by a failing command. */
  datatype Store = State(id: nat) | ErrorStore(message: string)

  datatype Cmd = Cmd(name: string)

  /** A trace: an initial store followed by the commands taken and the stores they lead to. */
  datatype Trace = Trace(initial: Store, steps: seq<(Cmd, Store)>) {
    function LastState(): (r: Store)
      ensures steps == [] ==> r == initial
      ensures steps != [] ==> r == steps[|steps| - 1].1
    {
      if steps == [] then initial else steps[|steps| - 1].1
    }
  }

  /**
   * A synthesis example.  `inputOnly` examples carry only their input store and are completed
   * by the reference program; test examples are kept out of training and used for validation.
   */
  datatype Example = Example(id: nat, name: string, isTest: bool, inputOnly: bool, input: Store)

  /** A learned automaton; its structure is not part of this model. */
  datatype Automaton = Automaton(id: nat)

  /** The learner's outcome: an automaton, or the kind of failure. */
  datatype LearnResult = Learned(automaton: Automaton) | NotLearned(kind: string)

  datatype Guard = Guard(text: string)

  /** The examples of a problem and, when there is one, the reference program's trace generator. */
  datatype Problem = Problem(examples: seq<Example>, interpreter: Option<(Store, int) -> Option<Trace>>)

  /** An insertion-ordered map from examples to plans, as a `LinkedHashMap` holds it. */
  type PlanMap = seq<(Example, Trace)>

  /** Integer configuration lookup with a default, as `Configuration.getInt(key, default)`. */
  function GetInt(config: map<string, int>, key: string, default: int): (r: int)
    ensures key in config ==> r == config[key]
    ensures key !in config ==> r == default
  {
    if key in config then config[key] else default
  }

  const MaxTraceLengthKey := "pexyn.maxTraceLength"
  const PrintGuardCountBoundKey := "pexyn.printGuardCountBound"

  /** The bound on trace length: the configured value, 200 when none is configured. */
  function MaxTraceLength(config: map<string, int>): (r: int)
    ensures MaxTraceLengthKey !in config ==> r == 200
    ensures MaxTraceLengthKey in config ==> r == config[MaxTraceLengthKey]
  {
    GetInt(config, MaxTraceLengthKey, 200)
  }

  // ---------------------------------------------------------------------------------------
  // The insertion-ordered map
  // ---------------------------------------------------------------------------------------

  /** The keys of the map, in its order. */
  function Keys(m: PlanMap): seq<Example> {
    seq(|m|, i requires 0 <= i < |m| => m[i].0)
  }

  ghost predicate DistinctKeys(m: PlanMap) {
    forall i, j :: 0 <= i < j < |m| ==> m[i].0 != m[j].0
  }

  /** The value stored under `k`, if any. */
  function Lookup(m: PlanMap, k: Example): (r: Option<Trace>)
    ensures r.Some? <==> k in Keys(m)
    ensures r.Some? ==> exists i :: 0 <= i < |m| && m[i] == (k, r.value)
  {
    if m == [] then None
    else if m[0].0 == k then assert Keys(m)[0] == k; Some(m[0].1)
    else
      var r := Lookup(m[1..], k);
      assert Keys(m) == [m[0].0] + Keys(m[1..]);
      assert r.Some? ==> exists i :: 0 <= i < |m| - 1 && m[1..][i] == (k, r.value);
      r
  }

  /** In a map with distinct keys, each entry's key looks up that entry's value. */
  lemma {:induction false} LookupDistinct(m: PlanMap, i: nat)
    requires DistinctKeys(m) && i < |m|
    ensures Lookup(m, m[i].0) == Some(m[i].1)
    decreases |m|
  {
    if i > 0 {
      assert m[1..][i - 1] == m[i];
      assert DistinctKeys(m[1..]);
      LookupDistinct(m[1..], i - 1);
    }
  }

  /**
   * `LinkedHashMap.put`: a new key goes at the end, an existing key keeps its position and
   * gets the new value.
   */
  function Put(m: PlanMap, k: Example, v: Trace): (r: PlanMap)
    ensures k !in Keys(m) ==> r == m + [(k, v)]
    ensures k in Keys(m) ==> Keys(r) == Keys(m)
  {
    if m == [] then [(k, v)]
    else if m[0].0 == k then assert Keys(m)[0] == k; [(k, v)] + m[1..]
    else
      var r := [m[0]] + Put(m[1..], k, v);
      assert Keys(m) == [m[0].0] + Keys(m[1..]);
      assert Keys(r) == [m[0].0] + Keys(r[1..]);
      r
  }

  /** After `put`, the key holds the new value and every other key keeps its old one. */
  lemma {:induction false} PutLookup(m: PlanMap, k: Example, v: Trace, k': Example)
    ensures Lookup(Put(m, k, v), k') == if k' == k then Some(v) else Lookup(m, k')
    decreases |m|
  {
    if m != [] && m[0].0 != k {
      PutLookup(m[1..], k, v, k');
      assert Put(m, k, v)[1..] == Put(m[1..], k, v);
    }
  }

  /** `put` never makes a key appear twice. */
  lemma PutDistinct(m: PlanMap, k: Example, v: Trace)
    requires DistinctKeys(m)
    ensures DistinctKeys(Put(m, k, v))
  {
    var r := Put(m, k, v);
    if k in Keys(m) {
      forall i, j | 0 <= i < j < |r|
        ensures r[i].0 != r[j].0
      {
        assert r[i].0 == Keys(r)[i] == Keys(m)[i] == m[i].0;
        assert r[j].0 == Keys(r)[j] == Keys(m)[j] == m[j].0;
      }
    } else {
      forall i, j | 0 <= i < j < |r|
        ensures r[i].0 != r[j].0
      {
        if j == |m| {
          assert Keys(m)[i] == m[i].0;
        }
      }
    }
  }

  // ---------------------------------------------------------------------------------------
  // Plans for examples
  // ---------------------------------------------------------------------------------------

  /** A trace is kept as a plan when one was obtained and it does not end in an error store. */
  predicate Admitted(opt: Option<Trace>) {
    opt.Some? && !opt.value.LastState().ErrorStore?
  }

  /** The training plans: the plans of non-test examples, in map order. */
  function TrainingPlans(m: PlanMap): (r: seq<Trace>)
    ensures |r| <= |m|
    ensures forall t :: t in r <==> exists p :: p in m && !p.0.isTest && p.1 == t
  {
    if m == [] then []
    else
      var rest := TrainingPlans(m[..|m| - 1]);
      var p := m[|m| - 1];
      assert forall q :: q in m <==> q in m[..|m| - 1] || q == p;
      if p.0.isTest then rest else rest + [p.1]
  }

  ghost predicate DistinctExamples(xs: seq<Example>) {
    forall i, j :: 0 <= i < j < |xs| ==> xs[i] != xs[j]
  }

  /** The configured synthesizer: its trace bound, its planner and its configuration. */
  class PetiSynthesizer {
    const maxTraceLength: int
    const planner: Example -> Option<Trace>
    const config: map<string, int>

    constructor (planner: Example -> Option<Trace>, config: map<string, int>)
      ensures this.planner == planner && this.config == config
      ensures maxTraceLength == MaxTraceLength(config)
    {
      this.planner := planner;
      this.config := config;
      maxTraceLength := MaxTraceLength(config);
    }

    /**
     * The trace obtained for one example: input-only examples are run by the reference
     * program within `maxTraceLength` steps (no trace when there is no reference program),
     * the others are solved by the planner.
     */
    function Obtain(problem: Problem, e: Example): (r: Option<Trace>)
      ensures e.inputOnly && problem.interpreter.None? ==> r.None?
      ensures e.inputOnly && problem.interpreter.Some? ==> r == problem.interpreter.value(e.input, maxTraceLength)
      ensures !e.inputOnly ==> r == planner(e)
    {
      if e.inputOnly then
        match problem.interpreter
        case Some(interpreter) => interpreter(e.input, maxTraceLength)
        case None => None
      else planner(e)
    }

    /** The map `genPlans` has built after the examples `xs`. */
    function PlanMapOf(problem: Problem, xs: seq<Example>): PlanMap
    {
      if xs == [] then []
      else
        var m := PlanMapOf(problem, xs[..|xs| - 1]);
        var e := xs[|xs| - 1];
        var opt := Obtain(problem, e);
        if Admitted(opt) then Put(m, e, opt.value) else m
    }

    /** The admitted examples of `xs`, each with its plan, in the order of `xs`. */
    function AdmittedPairs(problem: Problem, xs: seq<Example>): (r: PlanMap)
      ensures forall p :: p in r ==> p.0 in xs && Obtain(problem, p.0) == Some(p.1)
    {
      if xs == [] then []
      else
        var rest := AdmittedPairs(problem, xs[..|xs| - 1]);
        var e := xs[|xs| - 1];
        var opt := Obtain(problem, e);
        if Admitted(opt) then rest + [(e, opt.value)] else rest
    }

    /**
     * The admitted examples of `xs` in first-occurrence order: an example listed again later
     * keeps the position it was first given.
     */
    function AdmittedKeys(problem: Problem, xs: seq<Example>): (r: seq<Example>)
      ensures forall e :: e in r <==> e in xs && Admitted(Obtain(problem, e))
    {
      if xs == [] then []
      else
        var rest := AdmittedKeys(problem, xs[..|xs| - 1]);
        var e := xs[|xs| - 1];
        assert forall x :: x in xs <==> x in xs[..|xs| - 1] || x == e;
        if Admitted(Obtain(problem, e)) && e !in rest then rest + [e] else rest
    }

    /** The plan stored for an example is the trace obtained for it, and only admitted examples have one. */
    lemma {:induction false} PlanMapLookup(problem: Problem, xs: seq<Example>, e: Example)
      ensures Lookup(PlanMapOf(problem, xs), e) ==
                if e in xs && Admitted(Obtain(problem, e)) then Some(Obtain(problem, e).value) else None
      decreases |xs|
    {
      if xs != [] {
        var init := xs[..|xs| - 1];
        var x := xs[|xs| - 1];
        PlanMapLookup(problem, init, e);
        if Admitted(Obtain(problem, x)) {
          PutLookup(PlanMapOf(problem, init), x, Obtain(problem, x).value, e);
        }
        assert xs == init + [x];
      }
    }

    /** No example is mapped twice. */
    lemma {:induction false} PlanMapDistinct(problem: Problem, xs: seq<Example>)
      ensures DistinctKeys(PlanMapOf(problem, xs))
      decreases |xs|
    {
      if xs != [] {
        var e := xs[|xs| - 1];
        PlanMapDistinct(problem, xs[..|xs| - 1]);
        if Admitted(Obtain(problem, e)) {
          PutDistinct(PlanMapOf(problem, xs[..|xs| - 1]), e, Obtain(problem, e).value);
        }
      }
    }

    /** With no repeated example, the plan map lists the admitted examples in the order they were given. */
    lemma {:induction false} PlanMapOrdered(problem: Problem, xs: seq<Example>)
      requires DistinctExamples(xs)
      ensures PlanMapOf(problem, xs) == AdmittedPairs(problem, xs)
      decreases |xs|
    {
      if xs != [] {
        var init := xs[..|xs| - 1];
        var e := xs[|xs| - 1];
        assert DistinctExamples(init);
        PlanMapOrdered(problem, init);
        PlanMapLookup(problem, init, e);
        assert e !in init;
      }
    }

    /** The plan map's keys are the admitted examples in first-occurrence order, repeated or not. */
    lemma {:induction false} PlanMapKeys(problem: Problem, xs: seq<Example>)
      ensures Keys(PlanMapOf(problem, xs)) == AdmittedKeys(problem, xs)
      decreases |xs|
    {
      if xs != [] {
        var init := xs[..|xs| - 1];
        var e := xs[|xs| - 1];
        var m := PlanMapOf(problem, init);
        PlanMapKeys(problem, init);
        var opt := Obtain(problem, e);
        if Admitted(opt) && e !in Keys(m) {
          assert Keys(m + [(e, opt.value)]) == Keys(m) + [e];
        }
      }
    }

    /** A trace is a training plan exactly when it is the admitted trace of some non-test example. */
    lemma TrainingPlanMembers(problem: Problem, xs: seq<Example>, t: Trace)
      ensures t in TrainingPlans(PlanMapOf(problem, xs)) <==>
                exists e :: e in xs && !e.isTest && Admitted(Obtain(problem, e)) && Obtain(problem, e).value == t
    {
      var m := PlanMapOf(problem, xs);
      if t in TrainingPlans(m) {
        var p :| p in m && !p.0.isTest && p.1 == t;
        var i :| 0 <= i < |m| && m[i] == p;
        PlanMapDistinct(problem, xs);
        LookupDistinct(m, i);
        PlanMapLookup(problem, xs, p.0);
      }
      if exists e :: e in xs && !e.isTest && Admitted(Obtain(problem, e)) && Obtain(problem, e).value == t {
        var e :| e in xs && !e.isTest && Admitted(Obtain(problem, e)) && Obtain(problem, e).value == t;
        PlanMapLookup(problem, xs, e);
        var j :| 0 <= j < |m| && m[j] == (e, t);
        assert m[j] in m;
      }
    }

    /**
     * `genPlans`: the map from each example with an admitted trace to that trace, in the
     * order of the problem's examples.
     */
    method GenPlans(problem: Problem) returns (exampleToPlan: PlanMap)
      ensures exampleToPlan == PlanMapOf(problem, problem.examples)
      ensures DistinctKeys(exampleToPlan)
      ensures forall e :: e in Keys(exampleToPlan) <==> e in problem.examples && Admitted(Obtain(problem, e))
      ensures forall e :: Lookup(exampleToPlan, e).Some? ==> Obtain(problem, e) == Lookup(exampleToPlan, e)
      ensures Keys(exampleToPlan) == AdmittedKeys(problem, problem.examples)
      ensures DistinctExamples(problem.examples) ==> exampleToPlan == AdmittedPairs(problem, problem.examples)
    {
      var examples := problem.examples;
      exampleToPlan := [];
      for i := 0 to |examples|
        invariant exampleToPlan == PlanMapOf(problem, examples[..i])
      {
        var example := examples[i];
        assert examples[..i + 1][..i] == examples[..i];
        var optPlan: Option<Trace>;
        if example.inputOnly {
          if problem.interpreter.Some? {
            var interpreter := problem.interpreter.value;
            optPlan := interpreter(example.input, maxTraceLength);
          } else {
            optPlan := None;
          }
        } else {
          optPlan := planner(example);
        }

        if optPlan.Some? {
          if optPlan.value.LastState().ErrorStore? {
            continue;
          } else {
            var plan := optPlan.value;
            exampleToPlan := Put(exampleToPlan, example, plan);
          }
        } else {
          continue;
        }
      }
      assert examples[..|examples|] == examples;
      PlanMapDistinct(problem, examples);
      forall e
        ensures e in Keys(exampleToPlan) <==> e in examples && Admitted(Obtain(problem, e))
        ensures Lookup(exampleToPlan, e).Some? ==> Obtain(problem, e) == Lookup(exampleToPlan, e)
      {
        PlanMapLookup(problem, examples, e);
      }
      PlanMapKeys(problem, examples);
      if DistinctExamples(examples) {
        PlanMapOrdered(problem, examples);
      }
    }

    // -------------------------------------------------------------------------------------
    // Validation on the test examples
    // -------------------------------------------------------------------------------------

    /**
     * A test example passes when the automaton, run from its input within `maxTraceLength`
     * steps, yields a trace and that trace is `eqDeterministic` to the example's plan.
     */
    predicate Passes(automaton: Automaton, e: Example, plan: Trace,
                     run: (Automaton, Store, int) -> Option<Trace>, eqDet: (Trace, Trace) -> bool)
    {
      var opt := run(automaton, e.input, maxTraceLength);
      opt.Some? && eqDet(opt.value, plan)
    }

    /** The reference meaning of a successful validation: every test example of the map passes. */
    predicate AllTestsPass(m: PlanMap, automaton: Automaton,
                           run: (Automaton, Store, int) -> Option<Trace>, eqDet: (Trace, Trace) -> bool)
    {
      forall i :: 0 <= i < |m| && m[i].0.isTest ==> Passes(automaton, m[i].0, m[i].1, run, eqDet)
    }

    function CountTests(m: PlanMap): (r: nat)
      ensures r <= |m|
    {
      if m == [] then 0
      else CountTests(m[..|m| - 1]) + if m[|m| - 1].0.isTest then 1 else 0
    }

    function CountPassed(m: PlanMap, automaton: Automaton,
                         run: (Automaton, Store, int) -> Option<Trace>, eqDet: (Trace, Trace) -> bool): nat
    {
      if m == [] then 0
      else
        var p := m[|m| - 1];
        CountPassed(m[..|m| - 1], automaton, run, eqDet)
          + if p.0.isTest && Passes(automaton, p.0, p.1, run, eqDet) then 1 else 0
    }

    /** The outcome recorded per test example, as the `HashMap` is filled in map order. */
    function Outcomes(m: PlanMap, automaton: Automaton,
                      run: (Automaton, Store, int) -> Option<Trace>, eqDet: (Trace, Trace) -> bool): map<Example, bool>
    {
      if m == [] then map[]
      else
        var rest := Outcomes(m[..|m| - 1], automaton, run, eqDet);
        var p := m[|m| - 1];
        if p.0.isTest then rest[p.0 := Passes(automaton, p.0, p.1, run, eqDet)] else rest
    }

    /** No more tests succeed than there are, and all of them succeed exactly when every test passes. */
    lemma {:induction false} CountsAgree(m: PlanMap, automaton: Automaton,
                                         run: (Automaton, Store, int) -> Option<Trace>, eqDet: (Trace, Trace) -> bool)
      ensures CountPassed(m, automaton, run, eqDet) <= CountTests(m)
      ensures CountPassed(m, automaton, run, eqDet) == CountTests(m) <==> AllTestsPass(m, automaton, run, eqDet)
      decreases |m|
    {
      if m != [] {
        var init := m[..|m| - 1];
        CountsAgree(init, automaton, run, eqDet);
        assert forall i :: 0 <= i < |init| ==> init[i] == m[i];
      }
    }

    /** The outcomes record exactly the test examples of the map. */
    lemma {:induction false} OutcomesKeys(m: PlanMap, automaton: Automaton,
                                          run: (Automaton, Store, int) -> Option<Trace>, eqDet: (Trace, Trace) -> bool,
                                          e: Example)
      ensures e in Outcomes(m, automaton, run, eqDet) <==> e in Keys(m) && e.isTest
      decreases |m|
    {
      if m != [] {
        var init := m[..|m| - 1];
        OutcomesKeys(init, automaton, run, eqDet, e);
        assert Keys(m) == Keys(init) + [m[|m| - 1].0];
      }
    }

    /** In a map with distinct keys, each test example is recorded with its own outcome. */
    lemma {:induction false} OutcomesValue(m: PlanMap, automaton: Automaton,
                                           run: (Automaton, Store, int) -> Option<Trace>, eqDet: (Trace, Trace) -> bool,
                                           i: nat)
      requires DistinctKeys(m)
      requires i < |m| && m[i].0.isTest
      ensures m[i].0 in Outcomes(m, automaton, run, eqDet)
      ensures Outcomes(m, automaton, run, eqDet)[m[i].0] == Passes(automaton, m[i].0, m[i].1, run, eqDet)
      decreases |m|
    {
      if i < |m| - 1 {
        var init := m[..|m| - 1];
        assert init[i] == m[i];
        assert DistinctKeys(init);
        OutcomesValue(init, automaton, run, eqDet, i);
      }
    }

    /**
     * `compareOnTestExamples`: runs the automaton on every test example of the map and
     * reports whether all of them reproduce their plans, with the counts and the per-example
     * outcomes it records.
     */
    method CompareOnTestExamples(exampleToPlan: PlanMap, automaton: Automaton,
                                 run: (Automaton, Store, int) -> Option<Trace>, eqDet: (Trace, Trace) -> bool)
      returns (result: bool, numOfTests: nat, numOfTestsSucceeded: nat, exampleToCompareResult: map<Example, bool>)
      requires DistinctKeys(exampleToPlan)
      ensures result == AllTestsPass(exampleToPlan, automaton, run, eqDet)
      ensures numOfTests == CountTests(exampleToPlan)
      ensures numOfTestsSucceeded == CountPassed(exampleToPlan, automaton, run, eqDet)
      ensures numOfTestsSucceeded <= numOfTests
      ensures numOfTestsSucceeded == numOfTests <==> result
      ensures exampleToCompareResult == Outcomes(exampleToPlan, automaton, run, eqDet)
      ensures forall e :: e in exampleToCompareResult <==> e in Keys(exampleToPlan) && e.isTest
      ensures forall i :: 0 <= i < |exampleToPlan| && exampleToPlan[i].0.isTest ==>
                exampleToPlan[i].0 in exampleToCompareResult &&
                exampleToCompareResult[exampleToPlan[i].0] ==
                  Passes(automaton, exampleToPlan[i].0, exampleToPlan[i].1, run, eqDet)
    {
      var m := exampleToPlan;
      result := true;
      numOfTests := 0;
      numOfTestsSucceeded := 0;
      exampleToCompareResult := map[];
      for i := 0 to |m|
        invariant result == AllTestsPass(m[..i], automaton, run, eqDet)
        invariant numOfTests == CountTests(m[..i])
        invariant numOfTestsSucceeded == CountPassed(m[..i], automaton, run, eqDet)
        invariant exampleToCompareResult == Outcomes(m[..i], automaton, run, eqDet)
      {
        var example := m[i].0;
        var plan := m[i].1;
        assert m[..i + 1][..i] == m[..i];
        assert forall j :: 0 <= j < i ==> m[..i + 1][j] == m[..i][j];
        if !example.isTest {
          continue;
        }
        numOfTests := numOfTests + 1;
        var optAutomatonTrace := run(automaton, example.input, maxTraceLength);
        if !optAutomatonTrace.Some? || !eqDet(optAutomatonTrace.value, plan) {
          exampleToCompareResult := exampleToCompareResult[example := false];
          result := false;
        } else {
          exampleToCompareResult := exampleToCompareResult[example := true];
          numOfTestsSucceeded := numOfTestsSucceeded + 1;
        }
      }
      assert m[..|m|] == m;
      CountsAgree(m, automaton, run, eqDet);
      forall e {
        OutcomesKeys(m, automaton, run, eqDet, e);
      }
      forall i | 0 <= i < |m| && m[i].0.isTest {
        OutcomesValue(m, automaton, run, eqDet, i);
      }
    }

    // -------------------------------------------------------------------------------------
    // Guard listing
    // -------------------------------------------------------------------------------------

    /**
     * `debugPrintGuards`: the guards written to the listing and whether "..." follows them.
     * With a non-negative bound `k` (key `pexyn.printGuardCountBound`) the listing stops
     * after the first guard that brings the count above `k`; the default bound -1 lists all.
     */
    method DebugPrintGuards(guards: seq<Guard>) returns (listed: seq<Guard>, truncated: bool)
      ensures var k := GetInt(config, PrintGuardCountBoundKey, -1);
        k >= 0 ==> (listed == guards[..if |guards| < k + 1 then |guards| else k + 1]
                    && (truncated <==> |guards| >= k + 1))
      ensures var k := GetInt(config, PrintGuardCountBoundKey, -1);
        k < 0 ==> listed == guards && !truncated
    {
      var maxGuardPrintCount := GetInt(config, PrintGuardCountBoundKey, -1);
      listed := [];
      truncated := false;
      var guardCounter := 0;
      for i := 0 to |guards|
        invariant listed == guards[..i]
        invariant guardCounter == i
        invariant maxGuardPrintCount >= 0 ==> i <= maxGuardPrintCount
        invariant !truncated
      {
        listed := listed + [guards[i]];
        guardCounter := guardCounter + 1;
        if maxGuardPrintCount >= 0 && guardCounter > maxGuardPrintCount {
          truncated := true;
          break;
        }
      }
    }

    // -------------------------------------------------------------------------------------
    // Synthesis
    // -------------------------------------------------------------------------------------

    /**
     * `synthesize`: plans the examples, hands the plans of the non-test examples, in map
     * order, to the learner, lists the guards available to it, and validates a learned
     * automaton on the test examples.  The learner's result is returned as it is; the
     * validation outcome (`None` when nothing was learned) does not change it.
     */
    method Synthesize(problem: Problem, guardsOf: seq<Trace> -> seq<Guard>, learner: seq<Trace> -> LearnResult,
                      run: (Automaton, Store, int) -> Option<Trace>, eqDet: (Trace, Trace) -> bool)
      returns (learningResult: LearnResult, trainingPlans: seq<Trace>, validation: Option<bool>)
      ensures trainingPlans == TrainingPlans(PlanMapOf(problem, problem.examples))
      ensures DistinctExamples(problem.examples) ==>
                trainingPlans == TrainingPlans(AdmittedPairs(problem, problem.examples))
      ensures forall t :: t in trainingPlans <==>
                exists e :: e in problem.examples && !e.isTest && Admitted(Obtain(problem, e)) && Obtain(problem, e).value == t
      ensures learningResult == learner(trainingPlans)
      ensures learningResult.NotLearned? ==> validation.None?
      ensures learningResult.Learned? ==>
                validation == Some(AllTestsPass(PlanMapOf(problem, problem.examples), learningResult.automaton, run, eqDet))
    {
      var exampleToPlan := GenPlans(problem);
      trainingPlans := [];
      for i := 0 to |exampleToPlan|
        invariant trainingPlans == TrainingPlans(exampleToPlan[..i])
      {
        assert exampleToPlan[..i + 1][..i] == exampleToPlan[..i];
        var (example, plan) := exampleToPlan[i];
        if !example.isTest {
          trainingPlans := trainingPlans + [plan];
        }
      }
      assert exampleToPlan[..|exampleToPlan|] == exampleToPlan;
      assert forall t :: t in trainingPlans <==>
                exists e :: e in problem.examples && !e.isTest && Admitted(Obtain(problem, e)) && Obtain(problem, e).value == t
      by {
        forall t
          ensures t in trainingPlans <==>
                  exists e :: e in problem.examples && !e.isTest && Admitted(Obtain(problem, e)) && Obtain(problem, e).value == t
        {
          TrainingPlanMembers(problem, problem.examples, t);
        }
      }
      var guards := guardsOf(trainingPlans);
      var _, _ := DebugPrintGuards(guards);
      learningResult := learner(trainingPlans);
      validation := None;
      if learningResult.Learned? {
        var inferredAutomaton := learningResult.automaton;
        var comparisonResult, _, _, _ := CompareOnTestExamples(exampleToPlan, inferredAutomaton, run, eqDet);
        validation := Some(comparisonResult);
      }
    }
  }
}
