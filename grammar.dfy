/**
 * The context-free grammar built by grammar inference (`Grammar`): a start
 * nonterminal whose productions are rewritten in place, and the list of the
 * grammar's other nonterminals.
 */
module GrammarInference {
  import opened Options
  import opened GrammarRewrite

  /**
   * A nonterminal as the grammar sees it: its name, its productions, whether
   * it is recursive, the body productions `RecBody()` of its recursion, and
   * the rank used to order nonterminals.
   */
  datatype Nonterminal = Nonterminal(
    name: string,
    productions: seq<SententialForm>,
    isRecursive: bool,
    recBody: seq<SententialForm>,
    subgraphRank: int)

  /** A fresh nonterminal with the given name and nothing else (`new Nonterminal(name)`). */
  function Named(name: string): (n: Nonterminal)
    ensures n.name == name && n.productions == [] && !n.isRecursive && n.recBody == []
  {
    Nonterminal(name, [], false, [], 0)
  }

  /** The symbol under which `n` occurs in productions. */
  function SymbolOf(n: Nonterminal): Symbol {
    NonTerminal(n.name)
  }

  /** Compressing with respect to `n` terminates: no body of a recursive `n` is `n` alone. */
  ghost predicate Compressible(n: Nonterminal) {
    n.isRecursive ==> NoUnitSelf(n.recBody, SymbolOf(n))
  }

  /** `compressRecursion(n)` on the start productions: the identity unless `n` is recursive. */
  function CompressFor(forms: seq<SententialForm>, n: Nonterminal): (r: seq<SententialForm>)
    requires Compressible(n)
    ensures |r| == |forms|
    ensures !n.isRecursive ==> r == forms
    ensures n.isRecursive ==> NoOccurrence(r, n.recBody)
  {
    if n.isRecursive then Compress(forms, n.recBody, SymbolOf(n)) else forms
  }

  /** `compressRecursion()`: compress with respect to each nonterminal in list order. */
  function CompressAll(forms: seq<SententialForm>, nts: seq<Nonterminal>): (r: seq<SententialForm>)
    requires forall k :: 0 <= k < |nts| ==> Compressible(nts[k])
    ensures |r| == |forms|
    decreases |nts|
  {
    if nts == [] then forms else CompressAll(CompressFor(forms, nts[0]), nts[1..])
  }

  /** After the full pass, no body of the last nonterminal, if it is recursive, occurs in the start productions. */
  lemma {:induction false} CompressAllLast(forms: seq<SententialForm>, nts: seq<Nonterminal>)
    requires forall k :: 0 <= k < |nts| ==> Compressible(nts[k])
    requires nts != [] && nts[|nts| - 1].isRecursive
    ensures NoOccurrence(CompressAll(forms, nts), nts[|nts| - 1].recBody)
    decreases |nts|
  {
    if |nts| == 1 {
      assert CompressAll(forms, nts) == CompressAll(CompressFor(forms, nts[0]), []);
    } else {
      CompressAllLast(CompressFor(forms, nts[0]), nts[1..]);
    }
  }

  // ---------------------------------------------------------------------------
  // Ordering nonterminals by rank (`Sort` with the `longestProd` comparator)

  /** Inserts `n` before the first element whose rank is not larger than its own. */
  function InsertByRank(n: Nonterminal, sorted: seq<Nonterminal>): seq<Nonterminal> {
    if sorted == [] || sorted[0].subgraphRank <= n.subgraphRank then [n] + sorted
    else [sorted[0]] + InsertByRank(n, sorted[1..])
  }

  /** A stable sort by non-increasing `subgraphRank`. */
  function SortByRank(ns: seq<Nonterminal>): seq<Nonterminal> {
    if ns == [] then [] else InsertByRank(ns[0], SortByRank(ns[1..]))
  }

  predicate RankOrdered(ns: seq<Nonterminal>) {
    forall i, j :: 0 <= i < j < |ns| ==> ns[i].subgraphRank >= ns[j].subgraphRank
  }

  /** The nonterminals of rank `k`, in their order. */
  function WithRank(ns: seq<Nonterminal>, k: int): seq<Nonterminal> {
    if ns == [] then [] else (if ns[0].subgraphRank == k then [ns[0]] else []) + WithRank(ns[1..], k)
  }

  lemma {:induction false} InsertByRankPermutes(n: Nonterminal, sorted: seq<Nonterminal>)
    ensures multiset(InsertByRank(n, sorted)) == multiset(sorted) + multiset{n}
    decreases |sorted|
  {
    if !(sorted == [] || sorted[0].subgraphRank <= n.subgraphRank) {
      InsertByRankPermutes(n, sorted[1..]);
      assert sorted == [sorted[0]] + sorted[1..];
    }
  }

  /** No nonterminal of `ns` has a rank above `b`. */
  predicate RankAtMost(ns: seq<Nonterminal>, b: int) {
    forall i :: 0 <= i < |ns| ==> ns[i].subgraphRank <= b
  }

  lemma ConsOrdered(x: Nonterminal, t: seq<Nonterminal>)
    requires RankOrdered(t) && RankAtMost(t, x.subgraphRank)
    ensures RankOrdered([x] + t)
  {
    var r := [x] + t;
    forall i, j | 0 <= i < j < |r| ensures r[i].subgraphRank >= r[j].subgraphRank {
      assert r[j] == t[j - 1];
      if i > 0 { assert r[i] == t[i - 1]; }
    }
  }

  lemma {:induction false} InsertByRankAtMost(n: Nonterminal, sorted: seq<Nonterminal>, b: int)
    requires n.subgraphRank <= b && RankAtMost(sorted, b)
    ensures RankAtMost(InsertByRank(n, sorted), b)
    decreases |sorted|
  {
    var r := InsertByRank(n, sorted);
    if sorted == [] || sorted[0].subgraphRank <= n.subgraphRank {
      assert forall i :: 1 <= i < |r| ==> r[i] == sorted[i - 1];
    } else {
      InsertByRankAtMost(n, sorted[1..], b);
      assert forall i :: 1 <= i < |r| ==> r[i] == InsertByRank(n, sorted[1..])[i - 1];
    }
  }

  lemma {:induction false} InsertByRankOrdered(n: Nonterminal, sorted: seq<Nonterminal>)
    requires RankOrdered(sorted)
    ensures RankOrdered(InsertByRank(n, sorted))
    decreases |sorted|
  {
    if sorted == [] || sorted[0].subgraphRank <= n.subgraphRank {
      assert RankAtMost(sorted, n.subgraphRank) by {
        forall i | 0 <= i < |sorted| ensures sorted[i].subgraphRank <= n.subgraphRank {
          if i > 0 { assert sorted[0].subgraphRank >= sorted[i].subgraphRank; }
        }
      }
      ConsOrdered(n, sorted);
    } else {
      var t := sorted[1..];
      assert RankOrdered(t) by {
        forall i, j | 0 <= i < j < |t| ensures t[i].subgraphRank >= t[j].subgraphRank {
          assert t[i] == sorted[i + 1] && t[j] == sorted[j + 1];
        }
      }
      assert RankAtMost(t, sorted[0].subgraphRank) by {
        forall i | 0 <= i < |t| ensures t[i].subgraphRank <= sorted[0].subgraphRank {
          assert t[i] == sorted[i + 1];
        }
      }
      InsertByRankOrdered(n, t);
      InsertByRankAtMost(n, t, sorted[0].subgraphRank);
      ConsOrdered(sorted[0], InsertByRank(n, t));
    }
  }

  lemma {:induction false} InsertByRankStable(n: Nonterminal, sorted: seq<Nonterminal>, k: int)
    ensures WithRank(InsertByRank(n, sorted), k) == (if n.subgraphRank == k then [n] else []) + WithRank(sorted, k)
    decreases |sorted|
  {
    var r := InsertByRank(n, sorted);
    if sorted == [] || sorted[0].subgraphRank <= n.subgraphRank {
      assert r == [n] + sorted && r[1..] == sorted;
    } else {
      var t := InsertByRank(n, sorted[1..]);
      InsertByRankStable(n, sorted[1..], k);
      assert r == [sorted[0]] + t && r[1..] == t;
      assert WithRank(r, k) == (if sorted[0].subgraphRank == k then [sorted[0]] else []) + WithRank(t, k);
      assert WithRank(sorted, k) == (if sorted[0].subgraphRank == k then [sorted[0]] else []) + WithRank(sorted[1..], k);
      if sorted[0].subgraphRank == k {
        assert n.subgraphRank != k;
      }
    }
  }

  /**
   * `Sort()` orders the nonterminals by non-increasing rank, as a permutation
   * of the old list that keeps nonterminals of equal rank in their old order.
   */
  lemma {:induction false} SortByRankCorrect(ns: seq<Nonterminal>)
    ensures RankOrdered(SortByRank(ns))
    ensures multiset(SortByRank(ns)) == multiset(ns)
    ensures forall k :: WithRank(SortByRank(ns), k) == WithRank(ns, k)
    decreases |ns|
  {
    if ns != [] {
      SortByRankCorrect(ns[1..]);
      InsertByRankPermutes(ns[0], SortByRank(ns[1..]));
      InsertByRankOrdered(ns[0], SortByRank(ns[1..]));
      assert ns == [ns[0]] + ns[1..];
      forall k ensures WithRank(SortByRank(ns), k) == WithRank(ns, k) {
        InsertByRankStable(ns[0], SortByRank(ns[1..]), k);
        assert WithRank(ns, k) == (if ns[0].subgraphRank == k then [ns[0]] else []) + WithRank(ns[1..], k);
      }
    }
  }

  // ---------------------------------------------------------------------------
  // The grammar object

  /** Removes the `k` symbols at position `i` one at a time, as `List.remove(i)` does, then inserts `sym` there. */
  method ReplaceAt(form: SententialForm, i: nat, k: nat, sym: Symbol) returns (edited: SententialForm)
    requires i + k <= |form|
    ensures edited == Splice(form, i, k, sym)
  {
    edited := form;
    for j := 0 to k
      invariant edited == form[..i] + form[i + j..]
    {
      assert edited[..i] == form[..i];
      assert edited[i + 1..] == form[i + j + 1..];
      edited := edited[..i] + edited[i + 1..];
    }
    assert edited[..i] == form[..i] && edited[i..] == form[i + k..];
    edited := edited[..i] + [sym] + edited[i..];
  }

  class Grammar {
    var start: Nonterminal
    var nonterminals: seq<Nonterminal>

    /** `Grammar()`: an empty grammar, set up by `clear()`. */
    constructor ()
      ensures start == Named("Start") && nonterminals == []
    {
      new;
      Clear();
    }

    /** `clear()`: no nonterminals, and a fresh start nonterminal named "Start". */
    method Clear()
      modifies this
      ensures start == Named("Start") && nonterminals == []
    {
      start := Named("Start");
      nonterminals := [];
    }

    /** `getCurrStartProduct()`: the last start production; the source fails when there is none. */
    function CurrStartProduct(): (r: Option<SententialForm>)
      reads this
      ensures r.None? <==> start.productions == []
      ensures r.Some? ==> r.value == start.productions[|start.productions| - 1]
    {
      if start.productions == [] then None else Some(start.productions[|start.productions| - 1])
    }

    /** `setStart(Nonterminal)`: the start becomes a copy of `s`. */
    method SetStartNonterminal(s: Nonterminal)
      modifies this
      ensures start == s && nonterminals == old(nonterminals)
    {
      start := s;
    }

    /**
     * `setStart(SententialForm)`: the start keeps its name and attributes and
     * gets `s` as its one production, which then is the current production.
     */
    method SetStartForm(s: SententialForm)
      modifies this
      ensures start == old(start).(productions := [s]) && nonterminals == old(nonterminals)
      ensures CurrStartProduct() == Some(s)
    {
      start := start.(productions := []);
      start := start.(productions := start.productions + [s]);
    }

    /** `Sort()`: reorders the nonterminals with the `longestProd` comparator. */
    method Sort()
      modifies this
      ensures nonterminals == SortByRank(old(nonterminals)) && start == old(start)
      ensures RankOrdered(nonterminals) && multiset(nonterminals) == multiset(old(nonterminals))
    {
      SortByRankCorrect(nonterminals);
      nonterminals := SortByRank(nonterminals);
    }

    /**
     * `ReplaceRecBody(nt)`: replaces the first occurrence of a body of `nt` in
     * the start productions by `nt`, reporting whether there was one.
     */
    method ReplaceRecBody(nt: Nonterminal) returns (changed: bool)
      modifies this
      ensures nonterminals == old(nonterminals)
      ensures changed == Rewrite(old(start.productions), nt.recBody, SymbolOf(nt)).Some?
      ensures start == old(start).(productions := Rewrite(old(start.productions), nt.recBody, SymbolOf(nt)).GetOr(old(start.productions)))
    {
      var forms := start.productions;
      var bodies := nt.recBody;
      var sym := SymbolOf(nt);
      changed := false;
      label search:
      for p := 0 to |forms|
        invariant FindMatch(forms, bodies) == FindMatchFrom(forms, bodies, p)
      {
        var currStart := forms[p];
        var size := |currStart|;
        for b := 0 to |bodies|
          invariant FindInForm(currStart, bodies) == FindInFormFrom(currStart, bodies, b)
        {
          var prod := bodies[b];
          if |prod| < 1 || |prod| > size {
            assert FirstOccurrenceFrom(currStart, prod, 0).None?;
            continue;
          }
          for i := 0 to size - |prod| + 1
            invariant FirstOccurrence(currStart, prod) == FirstOccurrenceFrom(currStart, prod, i)
          {
            if prod == currStart[i..i + |prod|] {
              var edited := ReplaceAt(currStart, i, |prod|, sym);
              RewriteAt(forms, bodies, sym, p, b, i);
              forms := forms[p := edited];
              changed := true;
              break search;
            }
          }
        }
      }
      start := start.(productions := forms);
    }

    /** `compressRecursion(n)`: repeats `ReplaceRecBody(n)` while it succeeds, if `n` is recursive. */
    method CompressRecursion(n: Nonterminal)
      requires Compressible(n)
      modifies this
      ensures nonterminals == old(nonterminals)
      ensures start == old(start).(productions := CompressFor(old(start.productions), n))
    {
      if n.isRecursive {
        var sym := SymbolOf(n);
        while true
          invariant nonterminals == old(nonterminals)
          invariant start == old(start).(productions := start.productions)
          invariant Compress(start.productions, n.recBody, sym) == Compress(old(start.productions), n.recBody, sym)
          decreases Weight(start.productions, sym)
        {
          ghost var before := start.productions;
          var changed := ReplaceRecBody(n);
          if !changed {
            break;
          }
          RewriteDecreases(before, n.recBody, sym);
        }
      }
    }

    /** `compressRecursion()`: compresses with respect to every nonterminal, in list order. */
    method CompressRecursionAll()
      requires forall k :: 0 <= k < |nonterminals| ==> Compressible(nonterminals[k])
      modifies this
      ensures nonterminals == old(nonterminals)
      ensures start == old(start).(productions := CompressAll(old(start.productions), nonterminals))
    {
      var nts := nonterminals;
      for k := 0 to |nts|
        invariant nonterminals == nts
        invariant start == old(start).(productions := start.productions)
        invariant CompressAll(start.productions, nts[k..]) == CompressAll(old(start.productions), nts)
      {
        assert nts[k..][1..] == nts[k + 1..];
        CompressRecursion(nts[k]);
      }
    }

    /**
     * `add(n)`: appends a nonterminal not yet in the grammar, then compresses
     * the start productions with respect to it.
     */
    method Add(n: Nonterminal)
      requires n !in nonterminals
      requires Compressible(n)
      modifies this
      ensures nonterminals == old(nonterminals) + [n]
      ensures start == old(start).(productions := CompressFor(old(start.productions), n))
    {
      nonterminals := nonterminals + [n];
      CompressRecursion(n);
    }
  }
}
