/**
 * Recursion compression on sentential forms (the rewriting behind
 * `Grammar.ReplaceRecBody` and `Grammar.compressRecursion`): find the first
 * occurrence of one of a recursive nonterminal's body productions inside the
 * start productions and replace it by the nonterminal itself, until no body
 * occurs any more.
 */
module GrammarRewrite {
  import opened Options

  /** Grammar symbols; a nonterminal occurs in a production under its name. */
  datatype Symbol = Terminal(letter: string) | NonTerminal(name: string)

  type SententialForm = seq<Symbol>

  /** The non-empty `body` occurs in `form` starting at index `i`. */
  predicate OccursAt(form: SententialForm, body: SententialForm, i: int) {
    1 <= |body| && 0 <= i && i + |body| <= |form| && form[i..i + |body|] == body
  }

  /** No body occurs anywhere in any of the forms. */
  ghost predicate NoOccurrence(forms: seq<SententialForm>, bodies: seq<SententialForm>) {
    forall p, b, i :: 0 <= p < |forms| && 0 <= b < |bodies| ==> !OccursAt(forms[p], bodies[b], i)
  }

  // ---------------------------------------------------------------------------
  // Locating the first match: production first, then body, then index

  /** The lowest index at or after `from` where `body` occurs in `form`. */
  function FirstOccurrenceFrom(form: SententialForm, body: SententialForm, from: nat): (r: Option<nat>)
    ensures r.Some? ==> from <= r.value && OccursAt(form, body, r.value)
    ensures r.Some? ==> forall j :: from <= j < r.value ==> !OccursAt(form, body, j)
    ensures r.None? ==> forall j :: from <= j ==> !OccursAt(form, body, j)
    decreases |form| - from
  {
    if |body| < 1 || from + |body| > |form| then None
    else if form[from..from + |body|] == body then Some(from)
    else FirstOccurrenceFrom(form, body, from + 1)
  }

  function FirstOccurrence(form: SententialForm, body: SententialForm): Option<nat> {
    FirstOccurrenceFrom(form, body, 0)
  }

  /** The first body, at position `b` or later, that occurs in `form`, with its lowest index. */
  function FindInFormFrom(form: SententialForm, bodies: seq<SententialForm>, b: nat): (r: Option<(nat, nat)>)
    requires b <= |bodies|
    ensures r.Some? ==> b <= r.value.0 < |bodies| && FirstOccurrence(form, bodies[r.value.0]) == Some(r.value.1)
    ensures r.Some? ==> forall b' :: b <= b' < r.value.0 ==> FirstOccurrence(form, bodies[b']).None?
    ensures r.None? ==> forall b' :: b <= b' < |bodies| ==> FirstOccurrence(form, bodies[b']).None?
    decreases |bodies| - b
  {
    if b == |bodies| then None
    else match FirstOccurrence(form, bodies[b])
      case Some(i) => Some((b, i))
      case None => FindInFormFrom(form, bodies, b + 1)
  }

  function FindInForm(form: SententialForm, bodies: seq<SententialForm>): Option<(nat, nat)> {
    FindInFormFrom(form, bodies, 0)
  }

  /** A match: body `body` occurs in production `prod` at index `at`. */
  datatype Match = Match(prod: nat, body: nat, at: nat)

  /** The first production, at position `p` or later, in which some body occurs. */
  function FindMatchFrom(forms: seq<SententialForm>, bodies: seq<SententialForm>, p: nat): (r: Option<Match>)
    requires p <= |forms|
    ensures r.Some? ==> p <= r.value.prod < |forms|
    ensures r.Some? ==> FindInForm(forms[r.value.prod], bodies) == Some((r.value.body, r.value.at))
    ensures r.Some? ==> forall p' :: p <= p' < r.value.prod ==> FindInForm(forms[p'], bodies).None?
    ensures r.None? ==> forall p' :: p <= p' < |forms| ==> FindInForm(forms[p'], bodies).None?
    decreases |forms| - p
  {
    if p == |forms| then None
    else match FindInForm(forms[p], bodies)
      case Some(bi) => Some(Match(p, bi.0, bi.1))
      case None => FindMatchFrom(forms, bodies, p + 1)
  }

  function FindMatch(forms: seq<SententialForm>, bodies: seq<SententialForm>): Option<Match> {
    FindMatchFrom(forms, bodies, 0)
  }

  /** A match found is a real occurrence, with in-range indices. */
  lemma MatchOccurs(forms: seq<SententialForm>, bodies: seq<SententialForm>)
    requires FindMatch(forms, bodies).Some?
    ensures var m := FindMatch(forms, bodies).value;
      m.prod < |forms| && m.body < |bodies| && OccursAt(forms[m.prod], bodies[m.body], m.at)
  {
    var m := FindMatch(forms, bodies).value;
    assert FindInFormFrom(forms[m.prod], bodies, 0) == Some((m.body, m.at));
    assert FirstOccurrenceFrom(forms[m.prod], bodies[m.body], 0) == Some(m.at);
  }

  /** There is no match exactly when no body occurs in any form. */
  lemma NoMatchIffNoOccurrence(forms: seq<SententialForm>, bodies: seq<SententialForm>)
    ensures FindMatch(forms, bodies).None? <==> NoOccurrence(forms, bodies)
  {
    if FindMatch(forms, bodies).None? {
      forall p, b, i | 0 <= p < |forms| && 0 <= b < |bodies| ensures !OccursAt(forms[p], bodies[b], i) {
        assert FindInFormFrom(forms[p], bodies, 0).None?;
        assert FirstOccurrenceFrom(forms[p], bodies[b], 0).None?;
      }
    } else {
      MatchOccurs(forms, bodies);
    }
  }

  /**
   * The match found is the first one: no earlier production holds any body,
   * no earlier body occurs in the matched production, and the body does not
   * occur there at a lower index.
   */
  lemma MatchIsFirst(forms: seq<SententialForm>, bodies: seq<SententialForm>)
    requires FindMatch(forms, bodies).Some?
    ensures var m := FindMatch(forms, bodies).value;
      && (forall p, b, i :: 0 <= p < m.prod && 0 <= b < |bodies| ==> !OccursAt(forms[p], bodies[b], i))
      && (forall b, i :: 0 <= b < m.body ==> !OccursAt(forms[m.prod], bodies[b], i))
      && (forall i :: i < m.at ==> !OccursAt(forms[m.prod], bodies[m.body], i))
  {
    var m := FindMatch(forms, bodies).value;
    MatchOccurs(forms, bodies);
    forall p, b, i | 0 <= p < m.prod && 0 <= b < |bodies| ensures !OccursAt(forms[p], bodies[b], i) {
      assert FindInFormFrom(forms[p], bodies, 0).None?;
      assert FirstOccurrenceFrom(forms[p], bodies[b], 0).None?;
    }
    assert FindInFormFrom(forms[m.prod], bodies, 0) == Some((m.body, m.at));
    forall b, i | 0 <= b < m.body ensures !OccursAt(forms[m.prod], bodies[b], i) {
      assert FirstOccurrenceFrom(forms[m.prod], bodies[b], 0).None?;
    }
    assert FirstOccurrenceFrom(forms[m.prod], bodies[m.body], 0) == Some(m.at);
  }

  // ---------------------------------------------------------------------------
  // One replacement step

  /** `form` with the `k` symbols at `i` replaced by the single symbol `sym`. */
  function Splice(form: SententialForm, i: nat, k: nat, sym: Symbol): SententialForm
    requires i + k <= |form|
  {
    form[..i] + [sym] + form[i + k..]
  }

  /**
   * One call of `ReplaceRecBody`: the forms with their first match replaced by
   * `sym`, or `None` when no body occurs.
   */
  function Rewrite(forms: seq<SententialForm>, bodies: seq<SententialForm>, sym: Symbol): Option<seq<SententialForm>> {
    match FindMatch(forms, bodies)
    case None => None
    case Some(m) =>
      MatchOccurs(forms, bodies);
      Some(forms[m.prod := Splice(forms[m.prod], m.at, |bodies[m.body]|, sym)])
  }

  /**
   * When the search has skipped every production before `p`, every body
   * before `b` in production `p`, and every index before `i`, an occurrence at
   * `i` is the first match, and rewriting splices it.
   */
  lemma RewriteAt(forms: seq<SententialForm>, bodies: seq<SententialForm>, sym: Symbol, p: nat, b: nat, i: nat)
    requires p < |forms| && b < |bodies|
    requires FindMatch(forms, bodies) == FindMatchFrom(forms, bodies, p)
    requires FindInForm(forms[p], bodies) == FindInFormFrom(forms[p], bodies, b)
    requires FirstOccurrence(forms[p], bodies[b]) == FirstOccurrenceFrom(forms[p], bodies[b], i)
    requires OccursAt(forms[p], bodies[b], i)
    ensures Rewrite(forms, bodies, sym) == Some(forms[p := Splice(forms[p], i, |bodies[b]|, sym)])
  {
    assert FirstOccurrenceFrom(forms[p], bodies[b], i) == Some(i);
    assert FindInFormFrom(forms[p], bodies, b) == Some((b, i));
    assert FindMatchFrom(forms, bodies, p) == Some(Match(p, b, i));
  }

  /** Rewriting fails, changing nothing, exactly when no body occurs in any form. */
  lemma RewriteNone(forms: seq<SententialForm>, bodies: seq<SententialForm>, sym: Symbol)
    ensures Rewrite(forms, bodies, sym).None? <==> NoOccurrence(forms, bodies)
  {
    NoMatchIffNoOccurrence(forms, bodies);
  }

  /**
   * A successful rewrite replaces the first match and nothing else: the
   * matched production loses the body's symbols at the match index and gains
   * `sym` there, its prefix and suffix are unchanged, and every other
   * production is untouched.
   */
  lemma RewriteShape(forms: seq<SententialForm>, bodies: seq<SententialForm>, sym: Symbol)
    requires Rewrite(forms, bodies, sym).Some?
    ensures var m := FindMatch(forms, bodies).value;
      var k := |bodies[m.body]|;
      var r := Rewrite(forms, bodies, sym).value;
      && m.prod < |forms| && m.body < |bodies| && OccursAt(forms[m.prod], bodies[m.body], m.at)
      && |r| == |forms|
      && (forall q :: 0 <= q < |forms| && q != m.prod ==> r[q] == forms[q])
      && |r[m.prod]| == |forms[m.prod]| - k + 1
      && r[m.prod][..m.at] == forms[m.prod][..m.at]
      && r[m.prod][m.at] == sym
      && r[m.prod][m.at + 1..] == forms[m.prod][m.at + k..]
  {
    MatchOccurs(forms, bodies);
  }

  // ---------------------------------------------------------------------------
  // Termination measure

  /** Number of symbols of `form` other than `sym`. */
  function CountOther(form: SententialForm, sym: Symbol): (c: nat)
    ensures c <= |form|
  {
    if form == [] then 0 else (if form[0] != sym then 1 else 0) + CountOther(form[1..], sym)
  }

  lemma {:induction false} CountOtherConcat(a: SententialForm, b: SententialForm, sym: Symbol)
    ensures CountOther(a + b, sym) == CountOther(a, sym) + CountOther(b, sym)
    decreases |a|
  {
    if a == [] {
      assert a + b == b;
    } else {
      assert (a + b)[0] == a[0] && (a + b)[1..] == a[1..] + b;
      CountOtherConcat(a[1..], b, sym);
    }
  }

  /** Length plus the number of symbols other than `sym`, summed over the forms. */
  function Weight(forms: seq<SententialForm>, sym: Symbol): nat {
    if forms == [] then 0 else |forms[0]| + CountOther(forms[0], sym) + Weight(forms[1..], sym)
  }

  lemma {:induction false} WeightUpdate(forms: seq<SententialForm>, p: nat, x: SententialForm, sym: Symbol)
    requires p < |forms|
    ensures Weight(forms[p := x], sym) + |forms[p]| + CountOther(forms[p], sym)
         == Weight(forms, sym) + |x| + CountOther(x, sym)
    decreases p
  {
    if p > 0 {
      assert forms[p := x][1..] == forms[1..][p - 1 := x];
      WeightUpdate(forms[1..], p - 1, x, sym);
    }
  }

  /** No body is `sym` alone; otherwise a replacement could reproduce its own input forever. */
  ghost predicate NoUnitSelf(bodies: seq<SententialForm>, sym: Symbol) {
    forall b :: 0 <= b < |bodies| ==> bodies[b] != [sym]
  }

  /**
   * Every replacement strictly lowers the weight: a body of two or more
   * symbols shortens the form, and a one-symbol body other than `sym` turns a
   * symbol other than `sym` into `sym`.
   */
  lemma RewriteDecreases(forms: seq<SententialForm>, bodies: seq<SententialForm>, sym: Symbol)
    requires NoUnitSelf(bodies, sym)
    requires Rewrite(forms, bodies, sym).Some?
    ensures Weight(Rewrite(forms, bodies, sym).value, sym) < Weight(forms, sym)
  {
    var m := FindMatch(forms, bodies).value;
    MatchOccurs(forms, bodies);
    var form := forms[m.prod];
    var body := bodies[m.body];
    var k := |body|;
    var pre, post := form[..m.at], form[m.at + k..];
    assert form == pre + body + post;
    var x := Splice(form, m.at, k, sym);
    assert x == pre + [sym] + post;
    CountOtherConcat(pre, body, sym);
    CountOtherConcat(pre + body, post, sym);
    CountOtherConcat(pre, [sym], sym);
    CountOtherConcat(pre + [sym], post, sym);
    assert CountOther([sym], sym) == 0;
    if k == 1 {
      assert body == [body[0]];
      assert body[0] != sym;
      assert CountOther(body, sym) == 1;
    }
    WeightUpdate(forms, m.prod, x, sym);
  }

  // ---------------------------------------------------------------------------
  // Repeating until nothing matches

  /** `compressRecursion` for one recursive nonterminal: rewrite until no body occurs. */
  function Compress(forms: seq<SententialForm>, bodies: seq<SententialForm>, sym: Symbol): (r: seq<SententialForm>)
    requires NoUnitSelf(bodies, sym)
    ensures |r| == |forms|
    ensures NoOccurrence(r, bodies)
    decreases Weight(forms, sym)
  {
    match Rewrite(forms, bodies, sym)
    case None =>
      RewriteNone(forms, bodies, sym);
      forms
    case Some(next) =>
      RewriteDecreases(forms, bodies, sym);
      RewriteShape(forms, bodies, sym);
      Compress(next, bodies, sym)
  }

  /** Forms in which no body occurs are left as they are. */
  lemma CompressFixpoint(forms: seq<SententialForm>, bodies: seq<SententialForm>, sym: Symbol)
    requires NoUnitSelf(bodies, sym)
    requires NoOccurrence(forms, bodies)
    ensures Compress(forms, bodies, sym) == forms
  {
    RewriteNone(forms, bodies, sym);
  }

  /** Compressing twice is the same as compressing once. */
  lemma CompressIdempotent(forms: seq<SententialForm>, bodies: seq<SententialForm>, sym: Symbol)
    requires NoUnitSelf(bodies, sym)
    ensures Compress(Compress(forms, bodies, sym), bodies, sym) == Compress(forms, bodies, sym)
  {
    CompressFixpoint(Compress(forms, bodies, sym), bodies, sym);
  }
}
