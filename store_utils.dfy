/**
 * Heap stores and the traversal utilities over them (`heap.StoreUtils`):
 * the three type checks, and the depth-first / breadth-first search for the
 * objects reachable from the environment's reference variables.
 */
module HeapStore {

  type TypeName = string

  /** Kinds of environment variables: integer, reference, and any further kind. */
  datatype Var =
    | IntVar(name: string)
    | RefVar(name: string, refType: TypeName)
    | OtherVar(name: string)

  /** Kinds of object fields; every field records the type that declares it. */
  datatype Field =
    | IntField(name: string, srcType: TypeName)
    | RefField(name: string, srcType: TypeName, dstType: TypeName)
    | OtherField(name: string, srcType: TypeName)

  /** A heap object, identified by its id, together with its type. */
  datatype Obj = Obj(id: int, typ: TypeName)

  /** The distinguished null object (`Obj.NULL`); real objects have non-negative ids. */
  const NULL: Obj := Obj(-1, "null")

  /**
   * Values held by variables and fields. `NullRef` is the Java null reference
   * (no value at all), which is different from the object `NULL`.
   */
  datatype Val =
    | NullRef
    | IntVal(n: int)
    | ObjVal(obj: Obj)
    | OtherVal(tag: string)

  /**
   * A store: the environment in its iteration order, the set of allocated
   * objects, the fields each type declares, and the heap lookup `eval(o, f)`.
   */
  datatype Store = Store(
    env: seq<(Var, Val)>,
    objects: set<Obj>,
    fieldsOf: TypeName -> seq<Field>,
    eval: (Obj, Field) -> Obj)

  /** The fields of an object's type (`o.type.fields`). */
  function Fields(s: Store, o: Obj): seq<Field> {
    s.fieldsOf(o.typ)
  }

  // ---------------------------------------------------------------------------
  // Type checks

  /** `typecheck(Var, Val)`: integer variables take integers, reference variables take null or an object. */
  function TypecheckVar(x: Var, v: Val): (ok: bool)
    ensures x.IntVar? ==> (ok <==> v.IntVal?)
    ensures x.RefVar? ==> (ok <==> v.NullRef? || v.ObjVal?)
    ensures x.OtherVar? ==> !ok
  {
    (x.IntVar? && v.IntVal?) || (x.RefVar? && (v.NullRef? || v.ObjVal?))
  }

  /** `typecheck(Field, Val)`: the same rule for fields. */
  function TypecheckField(f: Field, v: Val): (ok: bool)
    ensures f.IntField? ==> (ok <==> v.IntVal?)
    ensures f.RefField? ==> (ok <==> v.NullRef? || v.ObjVal?)
    ensures f.OtherField? ==> !ok
  {
    (f.IntField? && v.IntVal?) || (f.RefField? && (v.NullRef? || v.ObjVal?))
  }

  /** `typecheck(Field, Obj)`: a field applies to an object exactly when the object has the field's declaring type. */
  function TypecheckFieldObj(f: Field, o: Obj): (ok: bool)
    ensures ok <==> f.srcType == o.typ
  {
    f.srcType == o.typ
  }

  /** Variables and fields of the same kind accept exactly the same values. */
  lemma TypecheckAgree(name: string, t: TypeName, d: TypeName, v: Val)
    ensures TypecheckVar(IntVar(name), v) == TypecheckField(IntField(name, t), v)
    ensures TypecheckVar(RefVar(name, d), v) == TypecheckField(RefField(name, t, d), v)
    ensures !TypecheckVar(OtherVar(name), v) && !TypecheckField(OtherField(name, t), v)
  {
  }

  // ---------------------------------------------------------------------------
  // Reachability, stated independently of the search

  /** `b` is a non-null object that a reference field of `a` points to. */
  ghost predicate Edge(s: Store, a: Obj, b: Obj) {
    b != NULL && exists f :: f in Fields(s, a) && f.RefField? && s.eval(a, f) == b
  }

  ghost predicate IsPath(s: Store, p: seq<Obj>) {
    |p| > 0 && forall k :: 0 <= k < |p| - 1 ==> Edge(s, p[k], p[k + 1])
  }

  /** `x` lies at the end of a reference path that starts at one of `seeds`. */
  ghost predicate Reachable(s: Store, seeds: seq<Obj>, x: Obj) {
    exists p :: IsPath(s, p) && p[0] in seeds && p[|p| - 1] == x
  }

  /**
   * The store is closed: environment objects are allocated, and every non-null
   * reference field of an allocated object points to an allocated object.
   */
  ghost predicate WellFormed(s: Store) {
    && (forall k :: 0 <= k < |s.env| && s.env[k].1.ObjVal? && s.env[k].1.obj != NULL ==> s.env[k].1.obj in s.objects)
    && (forall o, f :: o in s.objects && f in Fields(s, o) && f.RefField? && s.eval(o, f) != NULL ==> s.eval(o, f) in s.objects)
  }

  predicate Distinct(r: seq<Obj>) {
    forall i, j :: 0 <= i < j < |r| ==> r[i] != r[j]
  }

  // ---------------------------------------------------------------------------
  // Seeding the work list

  /** An environment entry the search starts from: not excluded, and holding a non-null object. */
  predicate Eligible(entry: (Var, Val), exclude: seq<Var>) {
    entry.0 !in exclude && entry.1.ObjVal? && entry.1.obj != NULL
  }

  /** The objects of the eligible entries, in environment order. */
  function EligibleSeeds(env: seq<(Var, Val)>, exclude: seq<Var>): seq<Obj> {
    if env == [] then []
    else (if Eligible(env[0], exclude) then [env[0].1.obj] else []) + EligibleSeeds(env[1..], exclude)
  }

  /** Adds `x` at the front of the work list (depth-first) or at its back (breadth-first). */
  function Enqueue(depth: bool, open: seq<Obj>, x: Obj): seq<Obj> {
    if depth then [x] + open else open + [x]
  }

  /** The work list after seeding from the remaining entries `env`, starting from `open`. */
  function Seed(env: seq<(Var, Val)>, depth: bool, exclude: seq<Var>, open: seq<Obj>): seq<Obj> {
    if env == [] then open
    else Seed(env[1..], depth, exclude, if Eligible(env[0], exclude) then Enqueue(depth, open, env[0].1.obj) else open)
  }

  /** The sequence read back to front. */
  function Reversed(r: seq<Obj>): (t: seq<Obj>)
    ensures |t| == |r|
  {
    if r == [] then [] else [r[|r| - 1]] + Reversed(r[..|r| - 1])
  }

  lemma {:induction false} ReversedCons(x: Obj, t: seq<Obj>)
    ensures Reversed([x] + t) == Reversed(t) + [x]
    decreases |t|
  {
    if t != [] {
      assert ([x] + t)[..|t|] == [x] + t[..|t| - 1];
      ReversedCons(x, t[..|t| - 1]);
    }
  }

  lemma {:induction false} ReversedMembers(r: seq<Obj>)
    ensures forall x :: x in Reversed(r) <==> x in r
    decreases |r|
  {
    if r != [] {
      ReversedMembers(r[..|r| - 1]);
      assert r == r[..|r| - 1] + [r[|r| - 1]];
    }
  }

  /**
   * Breadth-first seeding keeps the eligible objects in environment order;
   * depth-first seeding pushes each to the front, so the list ends up reversed.
   */
  lemma {:induction false} SeedOrder(env: seq<(Var, Val)>, exclude: seq<Var>, open: seq<Obj>)
    ensures Seed(env, false, exclude, open) == open + EligibleSeeds(env, exclude)
    ensures Seed(env, true, exclude, open) == Reversed(EligibleSeeds(env, exclude)) + open
    decreases |env|
  {
    if env != [] {
      var rest := EligibleSeeds(env[1..], exclude);
      if Eligible(env[0], exclude) {
        var x := env[0].1.obj;
        SeedOrder(env[1..], exclude, open + [x]);
        SeedOrder(env[1..], exclude, [x] + open);
        ReversedCons(x, rest);
        assert EligibleSeeds(env, exclude) == [x] + rest;
      } else {
        SeedOrder(env[1..], exclude, open);
        assert EligibleSeeds(env, exclude) == rest;
      }
    }
  }

  /** The initial work list of `search`. */
  function InitialOpen(s: Store, depth: bool, exclude: seq<Var>): seq<Obj> {
    Seed(s.env, depth, exclude, [])
  }

  lemma EligibleSeedsAllocated(env: seq<(Var, Val)>, exclude: seq<Var>, objects: set<Obj>)
    requires forall k :: 0 <= k < |env| && env[k].1.ObjVal? && env[k].1.obj != NULL ==> env[k].1.obj in objects
    ensures forall x :: x in EligibleSeeds(env, exclude) ==> x in objects && x != NULL
    decreases |env|
  {
    if env != [] {
      EligibleSeedsAllocated(env[1..], exclude, objects);
      assert forall k :: 1 <= k < |env| ==> env[1..][k - 1] == env[k];
    }
  }

  /** The initial work list holds exactly the eligible seeds, all of them allocated and non-null. */
  lemma InitialOpenSeeds(s: Store, depth: bool, exclude: seq<Var>)
    requires WellFormed(s)
    ensures forall x :: x in InitialOpen(s, depth, exclude) <==> x in EligibleSeeds(s.env, exclude)
    ensures forall x :: x in InitialOpen(s, depth, exclude) ==> x in s.objects && x != NULL
  {
    SeedOrder(s.env, exclude, []);
    ReversedMembers(EligibleSeeds(s.env, exclude));
    EligibleSeedsAllocated(s.env, exclude, s.objects);
  }

  // ---------------------------------------------------------------------------
  // The search, as a function

  /**
   * Processing the fields `fs` of the just-closed object `o`: every non-null
   * reference successor that is not closed is enqueued.
   */
  function PushSuccs(s: Store, depth: bool, o: Obj, fs: seq<Field>, closed: set<Obj>, open: seq<Obj>): (r: seq<Obj>)
    ensures forall x :: x in open ==> x in r
    ensures forall x :: x in r ==> x in open || (x != NULL && exists f :: f in fs && f.RefField? && s.eval(o, f) == x)
    ensures forall f :: f in fs && f.RefField? && s.eval(o, f) != NULL ==> s.eval(o, f) in closed || s.eval(o, f) in r
    decreases |fs|
  {
    if fs == [] then open
    else
      var f := fs[0];
      var next := if f.RefField? && s.eval(o, f) != NULL && s.eval(o, f) !in closed
                  then Enqueue(depth, open, s.eval(o, f)) else open;
      PushSuccs(s, depth, o, fs[1..], closed, next)
  }

  ghost predicate ExplorePre(s: Store, open: seq<Obj>, closed: set<Obj>) {
    WellFormed(s) && (forall x :: x in open ==> x in s.objects) && closed <= s.objects
  }

  lemma PushSuccsAllocated(s: Store, depth: bool, o: Obj, closed: set<Obj>, open: seq<Obj>)
    requires WellFormed(s) && o in s.objects
    requires forall x :: x in open ==> x in s.objects
    ensures forall x :: x in PushSuccs(s, depth, o, Fields(s, o), closed, open) ==> x in s.objects
  {
  }

  /**
   * The main loop of `search` from the work list `open`, the closed set and
   * the objects already emitted: pop the first object; skip it if closed or
   * null; otherwise close it, emit it and enqueue its successors. The result
   * extends `result`.
   */
  function Explore(s: Store, depth: bool, open: seq<Obj>, closed: set<Obj>, result: seq<Obj>): (r: seq<Obj>)
    requires ExplorePre(s, open, closed)
    ensures |result| <= |r| && r[..|result|] == result
    decreases |s.objects - closed|, |open|
  {
    if open == [] then result
    else
      var o := open[0];
      if o in closed || o == NULL then Explore(s, depth, open[1..], closed, result)
      else
        var closed' := closed + {o};
        var open' := PushSuccs(s, depth, o, Fields(s, o), closed', open[1..]);
        PushSuccsAllocated(s, depth, o, closed', open[1..]);
        assert s.objects - closed == (s.objects - closed') + {o};
        var r' := Explore(s, depth, open', closed', result + [o]);
        assert r'[..|result|] == (result + [o])[..|result|];
        r'
  }

  /** One round of the main loop that closes and emits the head of the work list. */
  lemma ExploreStep(s: Store, depth: bool, open: seq<Obj>, closed: set<Obj>, result: seq<Obj>)
    requires ExplorePre(s, open, closed)
    requires open != [] && open[0] !in closed && open[0] != NULL
    ensures var o := open[0];
      var open' := PushSuccs(s, depth, o, Fields(s, o), closed + {o}, open[1..]);
      && ExplorePre(s, open', closed + {o})
      && Explore(s, depth, open, closed, result) == Explore(s, depth, open', closed + {o}, result + [o])
  {
    PushSuccsAllocated(s, depth, open[0], closed + {open[0]}, open[1..]);
  }

  /** What `search(state, depth, excludeSet)` returns. */
  function SearchSpec(s: Store, depth: bool, exclude: seq<Var>): seq<Obj>
    requires WellFormed(s)
  {
    InitialOpenSeeds(s, depth, exclude);
    Explore(s, depth, InitialOpen(s, depth, exclude), {}, [])
  }

  // ---------------------------------------------------------------------------
  // Properties of the search

  /** No object is emitted twice, `NULL` never is, and everything emitted is allocated. */
  lemma {:induction false} ExploreDistinct(s: Store, depth: bool, open: seq<Obj>, closed: set<Obj>, result: seq<Obj>)
    requires ExplorePre(s, open, closed)
    requires Distinct(result) && NULL !in closed
    requires forall x :: x in result <==> x in closed
    ensures var r := Explore(s, depth, open, closed, result);
      Distinct(r) && NULL !in r && forall x :: x in r ==> x in s.objects
    decreases |s.objects - closed|, |open|
  {
    if open != [] {
      var o := open[0];
      if o in closed || o == NULL {
        ExploreDistinct(s, depth, open[1..], closed, result);
      } else {
        var closed' := closed + {o};
        var open' := PushSuccs(s, depth, o, Fields(s, o), closed', open[1..]);
        PushSuccsAllocated(s, depth, o, closed', open[1..]);
        assert s.objects - closed == (s.objects - closed') + {o};
        ExploreDistinct(s, depth, open', closed', result + [o]);
      }
    }
  }

  /** Every non-null reference successor of `c` is closed or still waiting in `open`. */
  ghost predicate Covered(s: Store, c: Obj, closed: set<Obj>, open: seq<Obj>) {
    forall f :: f in Fields(s, c) && f.RefField? && s.eval(c, f) != NULL ==> s.eval(c, f) in closed || s.eval(c, f) in open
  }

  /**
   * Completeness of the main loop: when every closed object's successors are
   * closed or waiting, the final output contains the closed objects and the
   * waiting ones, and is closed under successors.
   */
  lemma {:induction false} ExploreComplete(s: Store, depth: bool, open: seq<Obj>, closed: set<Obj>, result: seq<Obj>)
    requires ExplorePre(s, open, closed)
    requires forall x :: x in result <==> x in closed
    requires forall c :: c in closed ==> Covered(s, c, closed, open)
    ensures var r := Explore(s, depth, open, closed, result);
      && (forall x :: x in closed ==> x in r)
      && (forall x :: x in open && x != NULL ==> x in r)
      && (forall c :: c in r ==> Covered(s, c, set y | y in r, []))
    decreases |s.objects - closed|, |open|
  {
    var r := Explore(s, depth, open, closed, result);
    if open == [] {
      forall c | c in r ensures Covered(s, c, set y | y in r, []) {
        assert c in closed;
      }
    } else {
      var o := open[0];
      if o in closed || o == NULL {
        forall c | c in closed ensures Covered(s, c, closed, open[1..]) {
          assert Covered(s, c, closed, open);
        }
        ExploreComplete(s, depth, open[1..], closed, result);
        assert forall x :: x in open ==> x == o || x in open[1..];
      } else {
        var closed' := closed + {o};
        var open' := PushSuccs(s, depth, o, Fields(s, o), closed', open[1..]);
        PushSuccsAllocated(s, depth, o, closed', open[1..]);
        assert s.objects - closed == (s.objects - closed') + {o};
        forall c | c in closed' ensures Covered(s, c, closed', open') {
          if c in closed {
            assert Covered(s, c, closed, open);
            assert forall x :: x in open ==> x == o || x in open[1..];
          }
        }
        ExploreComplete(s, depth, open', closed', result + [o]);
        assert forall x :: x in open ==> x == o || x in open[1..];
      }
    }
  }

  /** Extending a path by one edge reaches the edge's target. */
  lemma ReachableStep(s: Store, seeds: seq<Obj>, a: Obj, b: Obj)
    requires Reachable(s, seeds, a) && Edge(s, a, b)
    ensures Reachable(s, seeds, b)
  {
    var p :| IsPath(s, p) && p[0] in seeds && p[|p| - 1] == a;
    var q := p + [b];
    assert forall k :: 0 <= k < |q| - 1 ==> Edge(s, q[k], q[k + 1]) by {
      forall k | 0 <= k < |q| - 1 ensures Edge(s, q[k], q[k + 1]) {
        if k < |p| - 1 { assert q[k] == p[k] && q[k + 1] == p[k + 1]; }
      }
    }
    assert IsPath(s, q) && q[0] in seeds && q[|q| - 1] == b;
  }

  /** Soundness of the main loop: if everything waiting or emitted is reachable, so is everything it emits. */
  lemma {:induction false} ExploreSound(s: Store, depth: bool, open: seq<Obj>, closed: set<Obj>, result: seq<Obj>, seeds: seq<Obj>)
    requires ExplorePre(s, open, closed)
    requires forall x :: x in open ==> Reachable(s, seeds, x)
    requires forall x :: x in result ==> Reachable(s, seeds, x)
    ensures forall x :: x in Explore(s, depth, open, closed, result) ==> Reachable(s, seeds, x)
    decreases |s.objects - closed|, |open|
  {
    if open != [] {
      var o := open[0];
      if o in closed || o == NULL {
        ExploreSound(s, depth, open[1..], closed, result, seeds);
      } else {
        var closed' := closed + {o};
        var open' := PushSuccs(s, depth, o, Fields(s, o), closed', open[1..]);
        PushSuccsAllocated(s, depth, o, closed', open[1..]);
        assert s.objects - closed == (s.objects - closed') + {o};
        forall x | x in open' ensures Reachable(s, seeds, x) {
          if x !in open[1..] {
            assert Edge(s, o, x);
            ReachableStep(s, seeds, o, x);
          }
        }
        ExploreSound(s, depth, open', closed', result + [o], seeds);
      }
    }
  }

  lemma PathInside(s: Store, p: seq<Obj>, R: set<Obj>, k: nat)
    requires IsPath(s, p) && p[0] in R && k < |p|
    requires forall a, b :: a in R && Edge(s, a, b) ==> b in R
    ensures p[k] in R
  {
    if k > 0 {
      PathInside(s, p, R, k - 1);
      assert Edge(s, p[k - 1], p[k]);
    }
  }

  /** A set that holds the seeds and is closed under edges holds everything reachable from them. */
  lemma ClosedHoldsReachable(s: Store, seeds: seq<Obj>, R: set<Obj>)
    requires forall x :: x in seeds ==> x in R
    requires forall a, b :: a in R && Edge(s, a, b) ==> b in R
    ensures forall x :: Reachable(s, seeds, x) ==> x in R
  {
    forall x | Reachable(s, seeds, x) ensures x in R {
      var p :| IsPath(s, p) && p[0] in seeds && p[|p| - 1] == x;
      PathInside(s, p, R, |p| - 1);
    }
  }

  /**
   * `search` returns each reachable object exactly once: no duplicates, never
   * `NULL`, only allocated objects, and an object is in the result exactly
   * when a reference path leads to it from an eligible seed.
   */
  lemma SearchCorrect(s: Store, depth: bool, exclude: seq<Var>)
    requires WellFormed(s)
    ensures var r := SearchSpec(s, depth, exclude);
      && Distinct(r) && NULL !in r
      && (forall x :: x in r ==> x in s.objects)
      && (forall x :: x in r <==> Reachable(s, EligibleSeeds(s.env, exclude), x))
  {
    var seeds := EligibleSeeds(s.env, exclude);
    var open := InitialOpen(s, depth, exclude);
    InitialOpenSeeds(s, depth, exclude);
    var r := SearchSpec(s, depth, exclude);
    ExploreDistinct(s, depth, open, {}, []);
    forall x | x in open ensures Reachable(s, seeds, x) {
      assert IsPath(s, [x]);
    }
    ExploreSound(s, depth, open, {}, [], seeds);
    ExploreComplete(s, depth, open, {}, []);
    var R := set y | y in r;
    forall a, b | a in R && Edge(s, a, b) ensures b in R {
      assert Covered(s, a, R, []);
    }
    ClosedHoldsReachable(s, seeds, R);
  }

  /** Starting with nothing closed, the main loop first emits the head of a work list whose head is not `NULL`. */
  lemma ExploreFirst(s: Store, depth: bool, open: seq<Obj>)
    requires ExplorePre(s, open, {})
    requires open != [] && open[0] != NULL
    ensures var r := Explore(s, depth, open, {}, []); |r| > 0 && r[0] == open[0]
  {
    var o := open[0];
    var none: set<Obj> := {};
    var closed' := none + {o};
    var open' := PushSuccs(s, depth, o, Fields(s, o), closed', open[1..]);
    PushSuccsAllocated(s, depth, o, closed', open[1..]);
    var r := Explore(s, depth, open', closed', [] + [o]);
    assert Explore(s, depth, open, none, []) == r;
    assert r[..1] == [o];
  }

  /**
   * Breadth-first search emits the first eligible seed first; depth-first
   * search emits the last one first.
   */
  lemma SearchFirst(s: Store, depth: bool, exclude: seq<Var>)
    requires WellFormed(s)
    requires EligibleSeeds(s.env, exclude) != []
    ensures var seeds := EligibleSeeds(s.env, exclude);
      var r := SearchSpec(s, depth, exclude);
      |r| > 0 && r[0] == (if depth then seeds[|seeds| - 1] else seeds[0])
  {
    var seeds := EligibleSeeds(s.env, exclude);
    SeedOrder(s.env, exclude, []);
    InitialOpenSeeds(s, depth, exclude);
    var open := InitialOpen(s, depth, exclude);
    assert open == (if depth then Reversed(seeds) else seeds);
    assert open[0] in open;
    ExploreFirst(s, depth, open);
  }

  // ---------------------------------------------------------------------------
  // The search, as the source runs it

  /** `search(state, depth, excludeSet)`: a work-list traversal with a closed set. */
  method Search(s: Store, depth: bool, exclude: seq<Var>) returns (result: seq<Obj>)
    requires WellFormed(s)
    ensures result == SearchSpec(s, depth, exclude)
    ensures Distinct(result) && NULL !in result
    ensures forall x :: x in result <==> Reachable(s, EligibleSeeds(s.env, exclude), x)
  {
    InitialOpenSeeds(s, depth, exclude);
    result := [];
    var open: seq<Obj> := [];
    for k := 0 to |s.env|
      invariant Seed(s.env[k..], depth, exclude, open) == InitialOpen(s, depth, exclude)
    {
      assert s.env[k..][1..] == s.env[k + 1..];
      var (x, v) := s.env[k];
      if x !in exclude && v.ObjVal? && v.obj != NULL {
        if depth {
          open := [v.obj] + open;
        } else {
          open := open + [v.obj];
        }
      }
    }
    var closed: set<Obj> := {};
    while open != []
      invariant ExplorePre(s, open, closed)
      invariant Explore(s, depth, open, closed, result) == SearchSpec(s, depth, exclude)
      decreases |s.objects - closed|, |open|
    {
      ghost var before := open;
      var o := open[0];
      open := open[1..];
      if o in closed || o == NULL {
        continue;
      }
      ExploreStep(s, depth, before, closed, result);
      closed := closed + {o};
      result := result + [o];
      var fields := Fields(s, o);
      ghost var waiting := open;
      for j := 0 to |fields|
        invariant PushSuccs(s, depth, o, fields[j..], closed, open) == PushSuccs(s, depth, o, fields, closed, waiting)
      {
        assert fields[j..][1..] == fields[j + 1..];
        var field := fields[j];
        if field.RefField? {
          var succ := s.eval(o, field);
          if succ != NULL && succ !in closed {
            if depth {
              open := [succ] + open;
            } else {
              open := open + [succ];
            }
          }
        }
      }
      assert s.objects - (closed - {o}) == (s.objects - closed) + {o};
    }
    SearchCorrect(s, depth, exclude);
  }

  /** `dfs(state)`: depth-first search with nothing excluded. */
  method Dfs(s: Store) returns (result: seq<Obj>)
    requires WellFormed(s)
    ensures result == SearchSpec(s, true, [])
    ensures Distinct(result) && NULL !in result
    ensures forall x :: x in result <==> Reachable(s, EligibleSeeds(s.env, []), x)
    ensures var seeds := EligibleSeeds(s.env, []); seeds != [] ==> |result| > 0 && result[0] == seeds[|seeds| - 1]
  {
    result := Search(s, true, []);
    if EligibleSeeds(s.env, []) != [] {
      SearchFirst(s, true, []);
    }
  }

  /** `bfs(state)`: breadth-first search with nothing excluded. */
  method Bfs(s: Store) returns (result: seq<Obj>)
    requires WellFormed(s)
    ensures result == SearchSpec(s, false, [])
    ensures Distinct(result) && NULL !in result
    ensures forall x :: x in result <==> Reachable(s, EligibleSeeds(s.env, []), x)
    ensures var seeds := EligibleSeeds(s.env, []); seeds != [] ==> |result| > 0 && result[0] == seeds[0]
  {
    result := Search(s, false, []);
    if EligibleSeeds(s.env, []) != [] {
      SearchFirst(s, false, []);
    }
  }

  lemma {:induction false} DistinctCardinality(r: seq<Obj>)
    requires Distinct(r)
    ensures |set x | x in r| == |r|
    decreases |r|
  {
    if r != [] {
      var t := r[..|r| - 1];
      assert Distinct(t);
      DistinctCardinality(t);
      assert (set x | x in r) == (set x | x in t) + {r[|r| - 1]};
      assert r[|r| - 1] !in (set x | x in t);
    }
  }

  /**
   * `reachableObjects(state, excludeSet)`: the breadth-first search finds as
   * many objects as the store holds exactly when every allocated object is
   * reachable from the eligible seeds.
   */
  method ReachableObjects(s: Store, exclude: seq<Var>) returns (all: bool)
    requires WellFormed(s)
    ensures all <==> forall o :: o in s.objects ==> Reachable(s, EligibleSeeds(s.env, exclude), o)
  {
    var reached := Search(s, false, exclude);
    var reachedCount := |reached|;
    var totalCount := |s.objects|;
    all := reachedCount == totalCount;
    SearchCorrect(s, false, exclude);
    var R := set x | x in reached;
    DistinctCardinality(reached);
    assert R <= s.objects;
    if forall o :: o in s.objects ==> Reachable(s, EligibleSeeds(s.env, exclude), o) {
      assert s.objects <= R;
      assert R == s.objects;
    } else {
      var o :| o in s.objects && !Reachable(s, EligibleSeeds(s.env, exclude), o);
      assert o !in R;
      ProperSubsetSmaller(R, s.objects, o);
    }
  }

  lemma ProperSubsetSmaller(small: set<Obj>, big: set<Obj>, o: Obj)
    requires small <= big && o in big && o !in small
    ensures |small| < |big|
  {
    assert big == small + (big - small);
    assert o in big - small;
  }
}
