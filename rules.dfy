/** The rule-based German and French glosser of
    `text_to_gloss/rules.py`, over parsed tokens.

    The spaCy parse is an input. A token is known by its position in the
    document, as spaCy compares tokens, and its head and subtree are
    positions too. A clause is a list of token positions. The rules
    modelled here are the lemma fix for verbs and separable particles, the
    swap of a subordinate clause before its main clause, the
    subject-verb-object triplets and the token swap, the glossing of single
    tokens, the stable moves of rules 3 to 5, and the gloss string. */
module Rules {
  import opened Wrappers
  import opened PyStrings

  /** A spaCy token: `text`, `lemma_`, `pos_`, `tag_`, `dep_`, the position
      of `head`, the features of `morph` as "Feature=Value" strings,
      `ent_type_`, and the positions of `subtree` in document order. */
  datatype Token = Token(
    text: string,
    lemmaForm: string,
    pos: string,
    tag: string,
    dep: string,
    head: nat,
    morph: seq<string>,
    entType: string,
    subtree: seq<nat>)

  type Doc = seq<Token>

  /** Every head position names a token of the document. */
  predicate HeadsInDoc(doc: Doc) {
    forall k :: 0 <= k < |doc| ==> doc[k].head < |doc|
  }

  // ---------------------------------------------------------------------
  // attach_svp

  /** The verb lemma fix: lower-cased, with an 'n' appended unless the
      lower-cased lemma already ends in one. */
  function InfinitiveLemma(base: string): string {
    var low := Lower(base);
    if EndsWith(low, "n") then low else low + "n"
  }

  /** The fixed lemma is lower case and ends in 'n', and it is the
      lower-cased lemma with at most that one letter added. */
  lemma InfinitiveLemmaSpec(base: string)
    ensures var r := InfinitiveLemma(base);
      NoUpper(r) && EndsWith(r, "n") && Lower(base) <= r && |r| <= |base| + 1
  {
    var low := Lower(base);
    if !EndsWith(low, "n") {
      var r := low + "n";
      assert r[..|low|] == low;
      assert r[|r| - 1..] == "n";
      assert forall i :: 0 <= i < |r| ==> !IsUpper(r[i]) by {
        forall i | 0 <= i < |r| ensures !IsUpper(r[i]) {
          if i < |low| {
            assert r[i] == low[i];
          }
        }
      }
    }
  }

  /** Fixing a fixed lemma changes nothing. */
  lemma InfinitiveLemmaIdempotent(base: string)
    ensures InfinitiveLemma(InfinitiveLemma(base)) == InfinitiveLemma(base)
  {
    InfinitiveLemmaSpec(base);
    LowerOfNoUpper(InfinitiveLemma(base));
  }

  /** The token whose lemma step `k` of `attach_svp` writes: the verb itself,
      or a separable particle's head. */
  function Target(t: Token, k: nat): Option<nat> {
    if t.pos == "VERB" then Some(k)
    else if t.dep == "svp" then Some(t.head)
    else None
  }

  /** Step `k` of the loop of `attach_svp` on the lemmas of the document's
      tokens; the parse itself does not change. */
  function SvpStep(doc: Doc, lemmas: seq<string>, k: nat): (r: seq<string>)
    requires |lemmas| == |doc| && k < |doc| && doc[k].head < |doc|
    ensures |r| == |lemmas|
    ensures forall x {:trigger r[x]} :: 0 <= x < |lemmas| && Target(doc[k], k) != Some(x) ==> r[x] == lemmas[x]
  {
    var t := doc[k];
    if t.pos == "VERB" then lemmas[k := InfinitiveLemma(lemmas[k])]
    else if t.dep == "svp" then lemmas[t.head := lemmas[k] + lemmas[t.head]]
    else lemmas
  }

  /** The lemmas after the first `n` steps of `attach_svp`. */
  function AttachedSvp(doc: Doc, lemmas: seq<string>, n: nat): (r: seq<string>)
    requires HeadsInDoc(doc) && |lemmas| == |doc| && n <= |doc|
    ensures |r| == |lemmas|
  {
    if n == 0 then lemmas else SvpStep(doc, AttachedSvp(doc, lemmas, n - 1), n - 1)
  }

  /** The lemmas the parser gave. */
  function Lemmas(doc: Doc): (r: seq<string>)
    ensures |r| == |doc| && forall k :: 0 <= k < |doc| ==> r[k] == doc[k].lemmaForm
  {
    seq(|doc|, k requires 0 <= k < |doc| => doc[k].lemmaForm)
  }

  /** `attach_svp(doc)`: token by token, a verb's lemma is fixed, and a
      separable particle's lemma is prefixed to its head's lemma. The
      array holds the `lemma_` of each token of the document. */
  method AttachSvp(doc: Doc, lemmas: array<string>)
    requires HeadsInDoc(doc) && lemmas.Length == |doc|
    modifies lemmas
    ensures lemmas[..] == AttachedSvp(doc, old(lemmas[..]), |doc|)
  {
    ghost var original := lemmas[..];
    for k := 0 to lemmas.Length
      invariant lemmas[..] == AttachedSvp(doc, original, k)
    {
      var t := doc[k];
      assert AttachedSvp(doc, original, k + 1) == SvpStep(doc, lemmas[..], k);
      if t.pos == "VERB" {
        lemmas[k] := InfinitiveLemma(lemmas[k]);
      } else if t.dep == "svp" {
        lemmas[t.head] := lemmas[k] + lemmas[t.head];
      }
    }
  }

  /** Steps that do not write token `x` leave its lemma as it was. */
  lemma {:induction false} AttachedSvpUntouched(doc: Doc, lemmas: seq<string>, x: nat, a: nat, n: nat)
    requires HeadsInDoc(doc) && |lemmas| == |doc| && x < |doc| && a <= n <= |doc|
    requires forall m :: a <= m < n ==> Target(doc[m], m) != Some(x)
    ensures AttachedSvp(doc, lemmas, n)[x] == AttachedSvp(doc, lemmas, a)[x]
    decreases n
  {
    if a < n {
      AttachedSvpUntouched(doc, lemmas, x, a, n - 1);
      var prev := AttachedSvp(doc, lemmas, n - 1);
      assert AttachedSvp(doc, lemmas, n) == SvpStep(doc, prev, n - 1);
      assert Target(doc[n - 1], n - 1) != Some(x);
    }
  }

  /** A verb that no later separable particle names as its head ends with
      a lower-case lemma ending in 'n'. */
  lemma VerbLemmaFixed(doc: Doc, lemmas: seq<string>, k: nat)
    requires HeadsInDoc(doc) && |lemmas| == |doc| && k < |doc| && doc[k].pos == "VERB"
    requires forall m :: k < m < |doc| ==> Target(doc[m], m) != Some(k)
    ensures var l := AttachedSvp(doc, lemmas, |doc|)[k];
      NoUpper(l) && EndsWith(l, "n")
  {
    AttachedSvpUntouched(doc, lemmas, k, k + 1, |doc|);
    InfinitiveLemmaSpec(AttachedSvp(doc, lemmas, k)[k]);
  }

  /** The separable verb: a particle after its verb, with no other particle
      on either of them, turns the verb's lemma into the particle's lemma
      followed by the fixed verb lemma ("an" and "fange" give "anfangen"),
      and keeps its own lemma. */
  lemma ParticlePrefixed(doc: Doc, lemmas: seq<string>, j: nat)
    requires HeadsInDoc(doc) && |lemmas| == |doc| && j < |doc|
    requires doc[j].pos != "VERB" && doc[j].dep == "svp"
    requires doc[j].head < j && doc[doc[j].head].pos == "VERB"
    requires forall m :: 0 <= m < |doc| && m != j && m != doc[j].head ==>
      Target(doc[m], m) != Some(doc[j].head) && Target(doc[m], m) != Some(j)
    ensures var h := doc[j].head;
      AttachedSvp(doc, lemmas, |doc|)[h] == lemmas[j] + InfinitiveLemma(lemmas[h])
    ensures AttachedSvp(doc, lemmas, |doc|)[j] == lemmas[j]
  {
    var h := doc[j].head;
    ParticleKeepsLemma(doc, lemmas, j);
    VerbAtParticle(doc, lemmas, j);
    ParticleStep(doc, lemmas, j);
    VerbAfterParticle(doc, lemmas, j);
  }

  /** When the loop reaches the particle, its verb's lemma has been fixed. */
  lemma VerbAtParticle(doc: Doc, lemmas: seq<string>, j: nat)
    requires HeadsInDoc(doc) && |lemmas| == |doc| && j < |doc|
    requires doc[j].head < j && doc[doc[j].head].pos == "VERB"
    requires forall m :: 0 <= m < |doc| && m != j && m != doc[j].head ==> Target(doc[m], m) != Some(doc[j].head)
    ensures AttachedSvp(doc, lemmas, j)[doc[j].head] == InfinitiveLemma(lemmas[doc[j].head])
  {
    var h := doc[j].head;
    forall m | 0 <= m < h ensures Target(doc[m], m) != Some(h) {
      assert m != j;
    }
    VerbFixedAtItself(doc, lemmas, h);
    VerbFixedBeforeParticle(doc, lemmas, j);
  }

  /** The particle's step prefixes its lemma to its verb's. */
  lemma ParticleStep(doc: Doc, lemmas: seq<string>, j: nat)
    requires HeadsInDoc(doc) && |lemmas| == |doc| && j < |doc|
    requires doc[j].pos != "VERB" && doc[j].dep == "svp"
    ensures var before := AttachedSvp(doc, lemmas, j);
      AttachedSvp(doc, lemmas, j + 1)[doc[j].head] == before[j] + before[doc[j].head]
  {
  }

  /** After the particle, no step writes the verb's lemma. */
  lemma VerbAfterParticle(doc: Doc, lemmas: seq<string>, j: nat)
    requires HeadsInDoc(doc) && |lemmas| == |doc| && j < |doc|
    requires forall m :: 0 <= m < |doc| && m != j && m != doc[j].head ==> Target(doc[m], m) != Some(doc[j].head)
    requires doc[j].head < j && doc[doc[j].head].pos == "VERB"
    ensures AttachedSvp(doc, lemmas, |doc|)[doc[j].head] == AttachedSvp(doc, lemmas, j + 1)[doc[j].head]
  {
    var h := doc[j].head;
    forall m | j + 1 <= m < |doc| ensures Target(doc[m], m) != Some(h) {
    }
    AttachedSvpUntouched(doc, lemmas, h, j + 1, |doc|);
  }

  /** Between the verb and its particle, no step writes the verb's lemma. */
  lemma VerbFixedBeforeParticle(doc: Doc, lemmas: seq<string>, j: nat)
    requires HeadsInDoc(doc) && |lemmas| == |doc| && j < |doc| && doc[j].head < j
    requires forall m :: 0 <= m < |doc| && m != j && m != doc[j].head ==> Target(doc[m], m) != Some(doc[j].head)
    ensures AttachedSvp(doc, lemmas, j)[doc[j].head] == AttachedSvp(doc, lemmas, doc[j].head + 1)[doc[j].head]
  {
    var h := doc[j].head;
    forall m | h + 1 <= m < j ensures Target(doc[m], m) != Some(h) {
    }
    AttachedSvpUntouched(doc, lemmas, h, h + 1, j);
  }

  /** Reaching the verb itself, the loop fixes its lemma. */
  lemma VerbFixedAtItself(doc: Doc, lemmas: seq<string>, h: nat)
    requires HeadsInDoc(doc) && |lemmas| == |doc| && h < |doc| && doc[h].pos == "VERB"
    requires forall m :: 0 <= m < h ==> Target(doc[m], m) != Some(h)
    ensures AttachedSvp(doc, lemmas, h + 1)[h] == InfinitiveLemma(lemmas[h])
  {
    AttachedSvpUntouched(doc, lemmas, h, 0, h);
    var before := AttachedSvp(doc, lemmas, h);
    assert before[h] == lemmas[h];
    assert AttachedSvp(doc, lemmas, h + 1) == before[h := InfinitiveLemma(before[h])];
  }

  /** No step writes the particle's own lemma. */
  lemma ParticleKeepsLemma(doc: Doc, lemmas: seq<string>, j: nat)
    requires HeadsInDoc(doc) && |lemmas| == |doc| && j < |doc|
    requires doc[j].pos != "VERB" && doc[j].dep == "svp"
    requires doc[j].head < j && doc[doc[j].head].pos == "VERB"
    requires forall m :: 0 <= m < |doc| && m != j && m != doc[j].head ==> Target(doc[m], m) != Some(j)
    ensures AttachedSvp(doc, lemmas, j)[j] == lemmas[j]
    ensures AttachedSvp(doc, lemmas, |doc|)[j] == lemmas[j]
  {
    AttachedSvpUntouched(doc, lemmas, j, 0, j);
    AttachedSvpUntouched(doc, lemmas, j, 0, |doc|);
  }

  // ---------------------------------------------------------------------
  // reorder_sub_main

  type Clause = seq<nat>

  /** A subordinating conjunction ("wenn") attached to a modifier. */
  predicate IsSubordinator(doc: Doc, t: nat) {
    t < |doc| && doc[t].tag == "KOUS" && doc[t].dep == "cp" && doc[t].head < |doc| && doc[doc[t].head].dep == "mo"
  }

  /** `token.head.head` of a subordinator: the main clause's verb. */
  function MainVerbOf(doc: Doc, t: nat): nat
    requires IsSubordinator(doc, t)
  {
    doc[doc[t].head].head
  }

  /** The last subordinator of a clause, the one the loop keeps. */
  function LastSubordinator(doc: Doc, c: Clause): (r: Option<nat>)
    ensures r.Some? ==> IsSubordinator(doc, r.value) && r.value in c
    ensures r.None? ==> forall t :: t in c ==> !IsSubordinator(doc, t)
  {
    if c == [] then None
    else if IsSubordinator(doc, c[|c| - 1]) then Some(c[|c| - 1])
    else
      assert c == c[..|c| - 1] + [c[|c| - 1]];
      LastSubordinator(doc, c[..|c| - 1])
  }

  /** `(sub_clause, main_verb)` after the first loop: the last clause with a
      subordinator, and the main verb of its last subordinator. */
  function SubordinateClause(doc: Doc, cs: seq<Clause>): (r: Option<(nat, nat)>)
    ensures r.Some? ==>
      r.value.0 < |cs| && LastSubordinator(doc, cs[r.value.0]).Some?
      && r.value.1 == MainVerbOf(doc, LastSubordinator(doc, cs[r.value.0]).value)
      && forall i :: r.value.0 < i < |cs| ==> LastSubordinator(doc, cs[i]).None?
    ensures r.None? ==> forall i :: 0 <= i < |cs| ==> LastSubordinator(doc, cs[i]).None?
  {
    if cs == [] then None
    else match LastSubordinator(doc, cs[|cs| - 1])
      case Some(t) => Some((|cs| - 1, MainVerbOf(doc, t)))
      case None => SubordinateClause(doc, cs[..|cs| - 1])
  }

  /** `main_clause`: the last clause containing the token, or -1. */
  function LastContaining(cs: seq<Clause>, t: nat): (r: int)
    ensures -1 <= r < |cs|
    ensures r >= 0 ==> t in cs[r] && forall j :: r < j < |cs| ==> t !in cs[j]
    ensures r == -1 ==> forall j :: 0 <= j < |cs| ==> t !in cs[j]
  {
    if cs == [] then -1
    else if t in cs[|cs| - 1] then |cs| - 1
    else LastContaining(cs[..|cs| - 1], t)
  }

  /** The clauses after `reorder_sub_main`: the subordinate clause swaps
      with the main clause when it comes later. With no clause holding the
      main verb, the index -1 names the last clause. */
  function ReorderedSubMain(doc: Doc, cs: seq<Clause>): seq<Clause> {
    match SubordinateClause(doc, cs)
    case None => cs
    case Some((sub, verb)) =>
      var main := LastContaining(cs, verb);
      if sub > main then
        var m := if main == -1 then |cs| - 1 else main;
        cs[sub := cs[m]][m := cs[sub]]
      else cs
  }

  /** The clauses are only reordered, and at most two of them move. */
  lemma ReorderedSubMainPermutes(doc: Doc, cs: seq<Clause>)
    ensures var r := ReorderedSubMain(doc, cs);
      |r| == |cs| && multiset(r) == multiset(cs)
      && (SubordinateClause(doc, cs).None? ==> r == cs)
  {
    var found := SubordinateClause(doc, cs);
    if found.Some? {
      var (sub, verb) := found.value;
      var main := LastContaining(cs, verb);
      if sub > main {
        var m := if main == -1 then |cs| - 1 else main;
        SwapPermutes(cs, sub, m);
      }
    }
  }

  lemma SwapPermutes<T>(s: seq<T>, i: nat, j: nat)
    requires i < |s| && j < |s|
    ensures multiset(s[i := s[j]][j := s[i]]) == multiset(s)
  {
    if i != j {
      var t := s[i := s[j]];
      assert multiset(t) == multiset(s) - multiset{s[i]} + multiset{s[j]};
      assert multiset(t[j := s[i]]) == multiset(t) - multiset{t[j]} + multiset{s[i]};
    }
  }

  /** When a clause holds the main verb, the subordinate clause ends at the
      earlier of the two places and the main clause at the later; every
      other clause stays. */
  lemma ReorderedSubMainOrder(doc: Doc, cs: seq<Clause>)
    requires SubordinateClause(doc, cs).Some?
    requires LastContaining(cs, SubordinateClause(doc, cs).value.1) >= 0
    ensures var (sub, verb) := SubordinateClause(doc, cs).value;
      var main := LastContaining(cs, verb);
      var r := ReorderedSubMain(doc, cs);
      && r[if sub < main then sub else main] == cs[sub]
      && r[if sub < main then main else sub] == cs[main]
      && forall i :: 0 <= i < |cs| && i != sub && i != main ==> r[i] == cs[i]
  {
  }

  /** With no clause holding the main verb, the subordinate clause trades
      places with the last clause. */
  lemma ReorderedSubMainNoMain(doc: Doc, cs: seq<Clause>)
    requires SubordinateClause(doc, cs).Some?
    requires LastContaining(cs, SubordinateClause(doc, cs).value.1) == -1
    ensures var sub := SubordinateClause(doc, cs).value.0;
      var r := ReorderedSubMain(doc, cs);
      r[|cs| - 1] == cs[sub] && r[sub] == cs[|cs| - 1]
  {
  }

  /** `reorder_sub_main(clauses)`, swapping in the list itself. */
  method ReorderSubMain(doc: Doc, clauses: array<Clause>)
    modifies clauses
    ensures clauses[..] == ReorderedSubMain(doc, old(clauses[..]))
  {
    ghost var cs := clauses[..];
    var sub := -1;
    var verb := 0;
    for i := 0 to clauses.Length
      invariant clauses[..] == cs
      invariant SubordinateClause(doc, cs[..i]).None? ==> sub == -1
      invariant SubordinateClause(doc, cs[..i]).Some? ==> (sub, verb) == SubordinateClause(doc, cs[..i]).value
    {
      var clause := clauses[i];
      ghost var before := (sub, verb);
      for k := 0 to |clause|
        invariant LastSubordinator(doc, clause[..k]).None? ==> (sub, verb) == before
        invariant LastSubordinator(doc, clause[..k]).Some? ==>
          (sub, verb) == (i, MainVerbOf(doc, LastSubordinator(doc, clause[..k]).value))
      {
        var t := clause[k];
        assert clause[..k + 1][..k] == clause[..k];
        if t < |doc| && doc[t].tag == "KOUS" && doc[t].dep == "cp" && doc[t].head < |doc| && doc[doc[t].head].dep == "mo" {
          verb := doc[doc[t].head].head;
          sub := i;
        }
      }
      assert clause[..|clause|] == clause;
      assert cs[..i + 1][..i] == cs[..i];
    }
    assert cs[..clauses.Length] == cs;
    if sub >= 0 {
      var main := -1;
      for j := 0 to clauses.Length
        invariant main == LastContaining(cs[..j], verb)
      {
        assert cs[..j + 1][..j] == cs[..j];
        if verb in clauses[j] {
          main := j;
        }
      }
      assert cs[..clauses.Length] == cs;
      if sub > main {
        var m := if main == -1 then clauses.Length - 1 else main;
        var tmp := clauses[sub];
        clauses[sub] := clauses[m];
        clauses[m] := tmp;
      }
    }
  }
  // ---------------------------------------------------------------------
  // get_triplets

  /** A (token, head) pair of `reorder_svo_triplets`. */
  type Pair = (nat, nat)

  type Triplet = (nat, nat, nat)

  predicate IsSubject(doc: Doc, t: nat) {
    t < |doc| && doc[t].dep in {"sb", "nsubj"}
  }

  /** The triplet of the earlier pair `p` and the later pair `q`: none unless
      they share the verb; the subject is `p`'s token when its dependency
      marks a subject, otherwise `q`'s; the order names the positions. */
  function TripletOf(doc: Doc, p: Pair, q: Pair, order: string): Option<Triplet> {
    if p.1 != q.1 then None
    else
      var v := p.1;
      var (s, o) := if IsSubject(doc, p.0) then (p.0, q.0) else (q.0, p.0);
      if order == "sov" then Some((s, o, v))
      else if order == "svo" then Some((s, v, o))
      else if order == "osv" then Some((o, s, v))
      else None
  }

  function OptionSeq<T>(o: Option<T>): seq<T> {
    if o.Some? then [o.value] else []
  }

  /** The triplets of pair `i` with the pairs after it and before `j`. */
  function RowTriplets(doc: Doc, pairs: seq<Pair>, order: string, i: nat, j: nat): seq<Triplet>
    requires i < |pairs| && j <= |pairs|
    decreases j
  {
    if j <= i + 1 then [] else RowTriplets(doc, pairs, order, i, j - 1) + OptionSeq(TripletOf(doc, pairs[i], pairs[j - 1], order))
  }

  /** The triplets of the first `n` rows. */
  function TripletsUpTo(doc: Doc, pairs: seq<Pair>, order: string, n: nat): seq<Triplet>
    requires n <= |pairs|
  {
    if n == 0 then [] else TripletsUpTo(doc, pairs, order, n - 1) + RowTriplets(doc, pairs, order, n - 1, |pairs|)
  }

  function Triplets(doc: Doc, pairs: seq<Pair>, order: string): seq<Triplet> {
    TripletsUpTo(doc, pairs, order, |pairs|)
  }

  /** `get_triplets(pairs, word_order)`. */
  method GetTriplets(doc: Doc, pairs: seq<Pair>, order: string) returns (triplets: seq<Triplet>)
    ensures triplets == Triplets(doc, pairs, order)
  {
    triplets := [];
    for i := 0 to |pairs|
      invariant triplets == TripletsUpTo(doc, pairs, order, i)
    {
      ghost var done := triplets;
      for j := i + 1 to |pairs|
        invariant triplets == done + RowTriplets(doc, pairs, order, i, j)
      {
        ghost var before := triplets;
        if pairs[i].1 == pairs[j].1 {
          var v := pairs[i].1;
          var s, o;
          if pairs[i].0 < |doc| && doc[pairs[i].0].dep in {"sb", "nsubj"} {
            s, o := pairs[i].0, pairs[j].0;
          } else {
            s, o := pairs[j].0, pairs[i].0;
          }
          if order == "sov" {
            triplets := triplets + [(s, o, v)];
          } else if order == "svo" {
            triplets := triplets + [(s, v, o)];
          } else if order == "osv" {
            triplets := triplets + [(o, s, v)];
          }
        }
        assert triplets == before + OptionSeq(TripletOf(doc, pairs[i], pairs[j], order));
        RowTripletsNext(doc, pairs, order, i, j, done);
      }
    }
  }

  /** One step of the inner loop, after the triplets `done` of earlier rows. */
  lemma RowTripletsNext(doc: Doc, pairs: seq<Pair>, order: string, i: nat, j: nat, done: seq<Triplet>)
    requires i < j < |pairs|
    ensures done + RowTriplets(doc, pairs, order, i, j + 1)
         == (done + RowTriplets(doc, pairs, order, i, j)) + OptionSeq(TripletOf(doc, pairs[i], pairs[j], order))
  {
  }

  /** Pair `i` and the later pair `k` give the triplet `t`. */
  predicate Produces(doc: Doc, pairs: seq<Pair>, order: string, i: nat, k: nat, t: Triplet) {
    i < k < |pairs| && TripletOf(doc, pairs[i], pairs[k], order) == Some(t)
  }

  /** A triplet of a row comes from a later pair. */
  lemma {:induction false} RowTripletsSound(doc: Doc, pairs: seq<Pair>, order: string, i: nat, j: nat, t: Triplet) returns (k: nat)
    requires i < |pairs| && j <= |pairs| && t in RowTriplets(doc, pairs, order, i, j)
    ensures k < j && Produces(doc, pairs, order, i, k, t)
    decreases j
  {
    if t in RowTriplets(doc, pairs, order, i, j - 1) {
      k := RowTripletsSound(doc, pairs, order, i, j - 1, t);
    } else {
      k := j - 1;
    }
  }

  /** Every later pair's triplet is in the row. */
  lemma {:induction false} RowTripletsComplete(doc: Doc, pairs: seq<Pair>, order: string, i: nat, j: nat, k: nat, t: Triplet)
    requires i < |pairs| && j <= |pairs| && k < j && Produces(doc, pairs, order, i, k, t)
    ensures t in RowTriplets(doc, pairs, order, i, j)
    decreases j
  {
    if k < j - 1 {
      RowTripletsComplete(doc, pairs, order, i, j - 1, k, t);
    }
  }

  lemma {:induction false} TripletsUpToSound(doc: Doc, pairs: seq<Pair>, order: string, n: nat, t: Triplet) returns (i: nat, k: nat)
    requires n <= |pairs| && t in TripletsUpTo(doc, pairs, order, n)
    ensures i < n && Produces(doc, pairs, order, i, k, t)
  {
    if t in TripletsUpTo(doc, pairs, order, n - 1) {
      i, k := TripletsUpToSound(doc, pairs, order, n - 1, t);
    } else {
      i := n - 1;
      k := RowTripletsSound(doc, pairs, order, n - 1, |pairs|, t);
    }
  }

  lemma {:induction false} TripletsUpToComplete(doc: Doc, pairs: seq<Pair>, order: string, n: nat, i: nat, k: nat, t: Triplet)
    requires n <= |pairs| && i < n && Produces(doc, pairs, order, i, k, t)
    ensures t in TripletsUpTo(doc, pairs, order, n)
  {
    var prev := TripletsUpTo(doc, pairs, order, n - 1);
    var row := RowTriplets(doc, pairs, order, n - 1, |pairs|);
    assert TripletsUpTo(doc, pairs, order, n) == prev + row;
    if i < n - 1 {
      TripletsUpToComplete(doc, pairs, order, n - 1, i, k, t);
      assert t in prev;
    } else {
      RowTripletsComplete(doc, pairs, order, i, |pairs|, k, t);
      assert t in row;
    }
  }

  /** A triplet is produced exactly for two pairs, the earlier first, that
      share a verb, in one of the three known orders. */
  lemma TripletsMembers(doc: Doc, pairs: seq<Pair>, order: string, t: Triplet)
    ensures t in Triplets(doc, pairs, order) <==> exists i: nat, k: nat :: Produces(doc, pairs, order, i, k, t)
  {
    if t in Triplets(doc, pairs, order) {
      var i, k := TripletsUpToSound(doc, pairs, order, |pairs|, t);
    }
    if exists i: nat, k: nat :: Produces(doc, pairs, order, i, k, t) {
      var i: nat, k: nat :| Produces(doc, pairs, order, i, k, t);
      TripletsUpToComplete(doc, pairs, order, |pairs|, i, k, t);
    }
  }

  /** The triplet of two pairs sharing a verb: the verb, and the two tokens
      with the subject chosen by its dependency; any other order gives
      none. */
  lemma TripletOfSpec(doc: Doc, p: Pair, q: Pair, order: string)
    ensures TripletOf(doc, p, q, order).Some? <==> p.1 == q.1 && order in {"sov", "svo", "osv"}
    ensures TripletOf(doc, p, q, order).Some? ==>
      var (x, y, z) := TripletOf(doc, p, q, order).value;
      var s := if IsSubject(doc, p.0) then p.0 else q.0;
      var o := if IsSubject(doc, p.0) then q.0 else p.0;
      multiset{x, y, z} == multiset{s, o, p.1}
      && (order == "sov" ==> (x, z) == (s, p.1)) && (order == "svo" ==> (x, y) == (s, p.1))
      && (order == "osv" ==> (y, z) == (s, p.1))
  {
  }

  /** Every triplet's tokens are tokens of the pairs. */
  lemma TripletsInRange(doc: Doc, pairs: seq<Pair>, order: string, bound: nat)
    requires forall i :: 0 <= i < |pairs| ==> pairs[i].0 < bound && pairs[i].1 < bound
    ensures forall t :: t in Triplets(doc, pairs, order) ==> t.0 < bound && t.1 < bound && t.2 < bound
  {
    forall t | t in Triplets(doc, pairs, order)
      ensures t.0 < bound && t.1 < bound && t.2 < bound
    {
      TripletsMembers(doc, pairs, order, t);
    }
  }

  // ---------------------------------------------------------------------
  // swap

  function Absent<T(==)>(s: seq<T>): T -> bool {
    x => x !in s
  }

  function Not<T>(p: T -> bool): T -> bool {
    x => !p(x)
  }

  /** `a`'s head is `b`: the verb `b` leaves its place and is put after each
      run of `a`'s subtree, also when the run ends the tokens. */
  function VerbAfterRuns(ts: seq<nat>, verb: nat, subtree: seq<nat>, inSubtree: bool): seq<nat>
    decreases |ts|
  {
    if ts == [] then (if inSubtree then [verb] else [])
    else if ts[0] == verb then VerbAfterRuns(ts[1..], verb, subtree, inSubtree)
    else if ts[0] in subtree then [ts[0]] + VerbAfterRuns(ts[1..], verb, subtree, true)
    else if inSubtree then [verb, ts[0]] + VerbAfterRuns(ts[1..], verb, subtree, false)
    else [ts[0]] + VerbAfterRuns(ts[1..], verb, subtree, false)
  }

  /** `b`'s head is `a`: the verb `a` leaves its place and is put before the
      first token of `b`'s subtree. */
  function VerbBefore(ts: seq<nat>, verb: nat, subtree: seq<nat>, put: bool): seq<nat>
    decreases |ts|
  {
    if ts == [] then []
    else if ts[0] == verb then VerbBefore(ts[1..], verb, subtree, put)
    else if ts[0] in subtree && !put then [verb, ts[0]] + VerbBefore(ts[1..], verb, subtree, true)
    else [ts[0]] + VerbBefore(ts[1..], verb, subtree, put)
  }

  /** Neither heads the other: over the tokens outside `a`'s subtree, the
      whole subtree of `a` goes as one block before the first token of `b`'s
      subtree. */
  function BlockBefore(ts: seq<nat>, block: seq<nat>, subtree: seq<nat>, put: bool): seq<nat>
    decreases |ts|
  {
    if ts == [] then []
    else if ts[0] in subtree && !put then block + [ts[0]] + BlockBefore(ts[1..], block, subtree, true)
    else [ts[0]] + BlockBefore(ts[1..], block, subtree, put)
  }

  /** The tokens after `swap(tokens, a, b)`. */
  function Swapped(doc: Doc, ts: seq<nat>, a: nat, b: nat): seq<nat>
    requires a < |doc| && b < |doc|
  {
    if doc[a].head == b then VerbAfterRuns(ts, b, doc[a].subtree, false)
    else if doc[b].head == a then VerbBefore(ts, a, doc[b].subtree, false)
    else BlockBefore(Filter(ts, Absent(doc[a].subtree)), doc[a].subtree, doc[b].subtree, false)
  }

  /** `swap(tokens, token_a, token_b)`: one loop per case of the source. */
  method Swap(doc: Doc, tokens: seq<nat>, a: nat, b: nat) returns (r: seq<nat>)
    requires a < |doc| && b < |doc|
    ensures r == Swapped(doc, tokens, a, b)
  {
    if doc[a].head == b {
      r := PutVerbAfterRuns(tokens, b, doc[a].subtree);
    } else if doc[b].head == a {
      r := PutVerbBefore(tokens, a, doc[b].subtree);
    } else {
      var rest := Filter(tokens, Absent(doc[a].subtree));
      r := PutBlockBefore(rest, doc[a].subtree, doc[b].subtree);
    }
  }

  /** The first case of `swap`: the loop that tracks whether it is inside a
      run of the subtree. */
  method PutVerbAfterRuns(tokens: seq<nat>, verb: nat, subtree: seq<nat>) returns (r: seq<nat>)
    ensures r == VerbAfterRuns(tokens, verb, subtree, false)
  {
    r := [];
    var inSubtree := false;
    assert tokens[0..] == tokens;
    for k := 0 to |tokens|
      invariant r + VerbAfterRuns(tokens[k..], verb, subtree, inSubtree) == VerbAfterRuns(tokens, verb, subtree, false)
    {
      var t := tokens[k];
      VerbAfterRunsAt(tokens, k, verb, subtree, inSubtree, r);
      if t != verb {
        if t in subtree {
          inSubtree := true;
          r := r + [t];
        } else if inSubtree {
          r := r + [verb, t];
          inSubtree := false;
        } else {
          r := r + [t];
        }
      }
    }
    if inSubtree {
      r := r + [verb];
    }
  }

  /** The second case of `swap`. */
  method PutVerbBefore(tokens: seq<nat>, verb: nat, subtree: seq<nat>) returns (r: seq<nat>)
    ensures r == VerbBefore(tokens, verb, subtree, false)
  {
    r := [];
    var put := false;
    assert tokens[0..] == tokens;
    for k := 0 to |tokens|
      invariant r + VerbBefore(tokens[k..], verb, subtree, put) == VerbBefore(tokens, verb, subtree, false)
    {
      var t := tokens[k];
      VerbBeforeAt(tokens, k, verb, subtree, put, r);
      if t != verb {
        if t in subtree && !put {
          r := r + [verb, t];
          put := true;
        } else {
          r := r + [t];
        }
      }
    }
  }

  /** The third case of `swap`, over the tokens left once the first
      subtree is taken out. */
  method PutBlockBefore(rest: seq<nat>, block: seq<nat>, subtree: seq<nat>) returns (r: seq<nat>)
    ensures r == BlockBefore(rest, block, subtree, false)
  {
    r := [];
    var put := false;
    assert rest[0..] == rest;
    for k := 0 to |rest|
      invariant r + BlockBefore(rest[k..], block, subtree, put) == BlockBefore(rest, block, subtree, false)
    {
      var t := rest[k];
      BlockBeforeAt(rest, k, block, subtree, put, r);
      if t in subtree && !put {
        r := r + (block + [t]);
        put := true;
      } else {
        r := r + [t];
      }
    }
  }

  /** One step of `VerbAfterRuns` at position `k`, after the output `r`. */
  lemma VerbAfterRunsAt(ts: seq<nat>, k: nat, verb: nat, subtree: seq<nat>, inSubtree: bool, r: seq<nat>)
    requires k < |ts|
    ensures r + VerbAfterRuns(ts[k..], verb, subtree, inSubtree) ==
      if ts[k] == verb then r + VerbAfterRuns(ts[k + 1..], verb, subtree, inSubtree)
      else if ts[k] in subtree then (r + [ts[k]]) + VerbAfterRuns(ts[k + 1..], verb, subtree, true)
      else if inSubtree then (r + [verb, ts[k]]) + VerbAfterRuns(ts[k + 1..], verb, subtree, false)
      else (r + [ts[k]]) + VerbAfterRuns(ts[k + 1..], verb, subtree, false)
  {
    assert ts[k..][1..] == ts[k + 1..];
  }

  /** One step of `VerbBefore` at position `k`, after the output `r`. */
  lemma VerbBeforeAt(ts: seq<nat>, k: nat, verb: nat, subtree: seq<nat>, put: bool, r: seq<nat>)
    requires k < |ts|
    ensures r + VerbBefore(ts[k..], verb, subtree, put) ==
      if ts[k] == verb then r + VerbBefore(ts[k + 1..], verb, subtree, put)
      else if ts[k] in subtree && !put then (r + [verb, ts[k]]) + VerbBefore(ts[k + 1..], verb, subtree, true)
      else (r + [ts[k]]) + VerbBefore(ts[k + 1..], verb, subtree, put)
  {
    assert ts[k..][1..] == ts[k + 1..];
  }

  /** One step of `BlockBefore` at position `k`, after the output `r`. */
  lemma BlockBeforeAt(ts: seq<nat>, k: nat, block: seq<nat>, subtree: seq<nat>, put: bool, r: seq<nat>)
    requires k < |ts|
    ensures r + BlockBefore(ts[k..], block, subtree, put) ==
      if ts[k] in subtree && !put then (r + (block + [ts[k]])) + BlockBefore(ts[k + 1..], block, subtree, true)
      else (r + [ts[k]]) + BlockBefore(ts[k + 1..], block, subtree, put)
  {
    assert ts[k..][1..] == ts[k + 1..];
    if ts[k] in subtree && !put {
      assert BlockBefore(ts[k..], block, subtree, put) == (block + [ts[k]]) + BlockBefore(ts[k + 1..], block, subtree, true);
    }
  }

  /** Once the block is placed, the remaining tokens follow unchanged. */
  lemma {:induction false} BlockBeforePut(ts: seq<nat>, block: seq<nat>, subtree: seq<nat>)
    ensures BlockBefore(ts, block, subtree, true) == ts
    decreases |ts|
  {
    if ts != [] {
      BlockBeforePut(ts[1..], block, subtree);
    }
  }

  /** The block goes right before the first token of the subtree. */
  lemma {:induction false} BlockBeforeFirst(ts: seq<nat>, block: seq<nat>, subtree: seq<nat>, p: nat)
    requires p < |ts| && ts[p] in subtree
    requires forall k :: 0 <= k < p ==> ts[k] !in subtree
    ensures BlockBefore(ts, block, subtree, false) == ts[..p] + block + ts[p..]
    decreases p
  {
    if p == 0 {
      BlockBeforePut(ts[1..], block, subtree);
      assert ts == [ts[0]] + ts[1..];
    } else {
      BlockBeforeFirst(ts[1..], block, subtree, p - 1);
      assert ts[..p] == [ts[0]] + ts[1..][..p - 1];
      assert ts[p..] == ts[1..][p - 1..];
    }
  }

  /** Without a token of the subtree, the block is not placed at all. */
  lemma {:induction false} BlockBeforeNone(ts: seq<nat>, block: seq<nat>, subtree: seq<nat>)
    requires forall k :: 0 <= k < |ts| ==> ts[k] !in subtree
    ensures BlockBefore(ts, block, subtree, false) == ts
    decreases |ts|
  {
    if ts != [] {
      BlockBeforeNone(ts[1..], block, subtree);
    }
  }

  /** Neither token heads the other: `a`'s subtree leaves the tokens and
      comes back as one block, in subtree order, right before the first
      remaining token of `b`'s subtree; with no such token it is dropped. */
  lemma SwapMovesSubtree(doc: Doc, ts: seq<nat>, a: nat, b: nat, p: nat)
    requires a < |doc| && b < |doc| && doc[a].head != b && doc[b].head != a
    requires var rest := Filter(ts, Absent(doc[a].subtree));
      p <= |rest| && (forall k :: 0 <= k < p ==> rest[k] !in doc[b].subtree)
      && (p < |rest| ==> rest[p] in doc[b].subtree)
    ensures var rest := Filter(ts, Absent(doc[a].subtree));
      Swapped(doc, ts, a, b) == if p < |rest| then rest[..p] + doc[a].subtree + rest[p..] else rest
  {
    var rest := Filter(ts, Absent(doc[a].subtree));
    if p < |rest| {
      BlockBeforeFirst(rest, doc[a].subtree, doc[b].subtree, p);
    } else {
      BlockBeforeNone(rest, doc[a].subtree, doc[b].subtree);
    }
  }

  function Other(v: nat): nat -> bool {
    x => x != v
  }

  /** Skipping the verb on the way is placing it into the tokens without it. */
  lemma {:induction false} VerbBeforeIsBlock(ts: seq<nat>, verb: nat, subtree: seq<nat>, put: bool)
    ensures VerbBefore(ts, verb, subtree, put) == BlockBefore(Filter(ts, Other(verb)), [verb], subtree, put)
    decreases |ts|
  {
    if ts != [] {
      var rest := Filter(ts[1..], Other(verb));
      if ts[0] == verb {
        assert Filter(ts, Other(verb)) == [] + rest == rest;
        VerbBeforeIsBlock(ts[1..], verb, subtree, put);
      } else {
        var f := [ts[0]] + rest;
        assert Filter(ts, Other(verb)) == f;
        assert f[0] == ts[0] && f[1..] == rest;
        if ts[0] in subtree && !put {
          VerbBeforeIsBlock(ts[1..], verb, subtree, true);
        } else {
          VerbBeforeIsBlock(ts[1..], verb, subtree, put);
        }
      }
    }
  }

  /** `b`'s head is `a`: the verb `a` leaves its place and comes back right
      before the first other token of `b`'s subtree; with no such token it is
      dropped. */
  lemma SwapMovesVerbBefore(doc: Doc, ts: seq<nat>, a: nat, b: nat, p: nat)
    requires a < |doc| && b < |doc| && doc[a].head != b && doc[b].head == a
    requires var rest := Filter(ts, Other(a));
      p <= |rest| && (forall k :: 0 <= k < p ==> rest[k] !in doc[b].subtree)
      && (p < |rest| ==> rest[p] in doc[b].subtree)
    ensures var rest := Filter(ts, Other(a));
      Swapped(doc, ts, a, b) == if p < |rest| then rest[..p] + [a] + rest[p..] else rest
  {
    var rest := Filter(ts, Other(a));
    VerbBeforeIsBlock(ts, a, doc[b].subtree, false);
    if p < |rest| {
      BlockBeforeFirst(rest, [a], doc[b].subtree, p);
    } else {
      BlockBeforeNone(rest, [a], doc[b].subtree);
    }
  }

  /** Skipping the verb on the way is running over the tokens without it. */
  lemma {:induction false} VerbAfterRunsSkips(ts: seq<nat>, verb: nat, subtree: seq<nat>, inSubtree: bool)
    ensures VerbAfterRuns(ts, verb, subtree, inSubtree) == VerbAfterRuns(Filter(ts, Other(verb)), verb, subtree, inSubtree)
    decreases |ts|
  {
    if ts != [] {
      var rest := Filter(ts[1..], Other(verb));
      if ts[0] == verb {
        assert Filter(ts, Other(verb)) == [] + rest == rest;
        VerbAfterRunsSkips(ts[1..], verb, subtree, inSubtree);
      } else {
        var f := [ts[0]] + rest;
        assert Filter(ts, Other(verb)) == f;
        assert f[0] == ts[0] && f[1..] == rest;
        if ts[0] in subtree {
          VerbAfterRunsSkips(ts[1..], verb, subtree, true);
        } else {
          VerbAfterRunsSkips(ts[1..], verb, subtree, false);
        }
      }
    }
  }

  /** Tokens outside the subtree, before any run, are copied. */
  lemma {:induction false} VerbAfterRunsOutside(ts: seq<nat>, tail: seq<nat>, verb: nat, subtree: seq<nat>)
    requires forall x :: x in ts ==> x !in subtree && x != verb
    ensures VerbAfterRuns(ts + tail, verb, subtree, false) == ts + VerbAfterRuns(tail, verb, subtree, false)
    decreases |ts|
  {
    if ts != [] {
      var h, t := ts[0], ts[1..];
      assert h in ts;
      forall x | x in t
        ensures x !in subtree && x != verb
      {
        assert x in ts;
      }
      var all := ts + tail;
      assert all[0] == h && all[1..] == t + tail;
      VerbAfterRunsOutside(t, tail, verb, subtree);
      assert VerbAfterRuns(all, verb, subtree, false) == [h] + VerbAfterRuns(t + tail, verb, subtree, false);
      assert ts == [h] + t;
    } else {
      assert ts + tail == tail;
    }
  }

  /** A run of subtree tokens is copied and leaves the verb pending. */
  lemma {:induction false} VerbAfterRunsInside(run: seq<nat>, tail: seq<nat>, verb: nat, subtree: seq<nat>, inSubtree: bool)
    requires run != [] && forall x :: x in run ==> x in subtree && x != verb
    ensures VerbAfterRuns(run + tail, verb, subtree, inSubtree) == run + VerbAfterRuns(tail, verb, subtree, true)
    decreases |run|
  {
    assert (run + tail)[1..] == run[1..] + tail;
    if |run| > 1 {
      VerbAfterRunsInside(run[1..], tail, verb, subtree, true);
    } else {
      assert run[1..] + tail == tail;
    }
  }

  /** Leaving the run, the pending verb comes out before the next token. */
  lemma VerbAfterRunsClose(after: seq<nat>, verb: nat, subtree: seq<nat>)
    requires forall x :: x in after ==> x !in subtree && x != verb
    ensures VerbAfterRuns(after, verb, subtree, true) == [verb] + after
  {
    if after != [] {
      forall x | x in after[1..] ensures x !in subtree && x != verb {
        assert x in after;
      }
      assert after[0] in after;
      VerbAfterRunsOutside(after[1..], [], verb, subtree);
      assert after[1..] + [] == after[1..];
      assert VerbAfterRuns(after[1..], verb, subtree, false) == after[1..];
      assert [verb, after[0]] + after[1..] == [verb] + after;
    }
  }

  /** One run of the subtree among tokens outside it: the verb follows the
      run. */
  lemma VerbAfterOneRun(before: seq<nat>, run: seq<nat>, after: seq<nat>, verb: nat, subtree: seq<nat>)
    requires forall x :: x in before + run + after ==> x != verb
    requires run != [] && forall x :: x in run ==> x in subtree
    requires forall x :: x in before ==> x !in subtree
    requires forall x :: x in after ==> x !in subtree
    ensures VerbAfterRuns(before + run + after, verb, subtree, false) == before + run + [verb] + after
  {
    assert before + run + after == before + (run + after);
    forall x | x in before ensures x != verb {
      assert x in before + run + after;
    }
    forall x | x in run ensures x != verb {
      assert x in before + run + after;
    }
    forall x | x in after ensures x != verb {
      assert x in before + run + after;
    }
    VerbAfterRunsOutside(before, run + after, verb, subtree);
    VerbAfterRunsInside(run, after, verb, subtree, false);
    VerbAfterRunsClose(after, verb, subtree);
  }

  /** `a`'s head is `b`, and `a`'s subtree forms one run among the other
      tokens: the verb `b` leaves its place and comes back right after the
      run. */
  lemma SwapMovesVerbAfter(doc: Doc, ts: seq<nat>, a: nat, b: nat, before: seq<nat>, run: seq<nat>, after: seq<nat>)
    requires a < |doc| && b < |doc| && doc[a].head == b
    requires Filter(ts, Other(b)) == before + run + after
    requires run != [] && forall x :: x in run ==> x in doc[a].subtree
    requires forall x :: x in before ==> x !in doc[a].subtree
    requires forall x :: x in after ==> x !in doc[a].subtree
    ensures Swapped(doc, ts, a, b) == before + run + [b] + after
  {
    VerbAfterRunsSkips(ts, b, doc[a].subtree, false);
    FilterMembers(ts, Other(b));
    VerbAfterOneRun(before, run, after, b, doc[a].subtree);
  }
  // ---------------------------------------------------------------------
  // reorder_svo_triplets

  /** Every token of the clause is a token of the document. */
  predicate InDoc(doc: Doc, clause: Clause) {
    forall k :: 0 <= k < |clause| ==> clause[k] < |doc|
  }

  /** A subject or object, German or French. */
  predicate IsArgument(doc: Doc, t: nat) {
    t < |doc| && doc[t].dep in {"sb", "oa", "nsubj", "obj", "obl:arg"}
  }

  function Argument(doc: Doc): nat -> bool {
    (t: nat) => IsArgument(doc, t)
  }

  function Firsts<A, B>(ps: seq<(A, B)>): seq<A> {
    seq(|ps|, i requires 0 <= i < |ps| => ps[i].0)
  }

  function Seconds<A, B>(ps: seq<(A, B)>): seq<B> {
    seq(|ps|, i requires 0 <= i < |ps| => ps[i].1)
  }

  /** The `(token, token.head)` pairs the loop collects. */
  function SvoPairs(doc: Doc, clause: Clause): (r: seq<Pair>)
    requires HeadsInDoc(doc)
    ensures forall i :: 0 <= i < |r| ==> IsArgument(doc, r[i].0) && r[i].1 == doc[r[i].0].head && r[i].1 < |doc|
  {
    if clause == [] then []
    else
      var t := clause[|clause| - 1];
      SvoPairs(doc, clause[..|clause| - 1]) + (if IsArgument(doc, t) then [(t, doc[t].head)] else [])
  }

  lemma SvoPairsNext(doc: Doc, clause: Clause, k: nat)
    requires HeadsInDoc(doc) && k < |clause|
    ensures SvoPairs(doc, clause[..k + 1])
         == SvoPairs(doc, clause[..k]) + (if IsArgument(doc, clause[k]) then [(clause[k], doc[clause[k]].head)] else [])
  {
    assert clause[..k + 1][..k] == clause[..k];
  }

  /** The pairs are the clause's subjects and objects in clause order, each
      with its head. */
  lemma {:induction false} SvoPairsTokens(doc: Doc, clause: Clause)
    requires HeadsInDoc(doc)
    ensures Firsts(SvoPairs(doc, clause)) == Filter(clause, Argument(doc))
  {
    if clause != [] {
      var init := clause[..|clause| - 1];
      var t := clause[|clause| - 1];
      SvoPairsTokens(doc, init);
      assert clause == init + [t];
      FilterConcat(init, [t], Argument(doc));
      assert Filter([t], Argument(doc)) == (if IsArgument(doc, t) then [t] else []) + Filter([t][1..], Argument(doc));
    }
  }

  /** What the if/elif chain does with the first triplet. */
  datatype Reordering = Keep | SwapBC | SwapAB | PutFirstBefore | PutLastAfter | SwapAC

  /** The chain as written, on the positions `a`, `b`, `c` of the triplet's
      tokens. */
  function ClassifyAsWritten(a: nat, b: nat, c: nat): Reordering {
    if a < b && b < c then Keep
    else if a < b && b > c then SwapBC
    else if a > b && a < c then SwapAB
    else if a < b && a > c then PutFirstBefore
    else if a > b && a > c then PutLastAfter
    else if a > b && b > c then SwapAC
    else Keep
  }

  /** The chain as its branch comments describe it: one branch for each of
      the six orders 1,2,3 / 1,3,2 / 2,1,3 / 2,3,1 / 3,1,2 / 3,2,1 of the
      three positions. The source does not run this chain; it is the
      reference the written one is compared with. */
  function Classify(a: nat, b: nat, c: nat): Reordering {
    if a < b < c then Keep
    else if a < c < b then SwapBC
    else if b < a < c then SwapAB
    else if c < a < b then PutFirstBefore
    else if b < c < a then PutLastAfter
    else if c < b < a then SwapAC
    else Keep
  }

  predicate Distinct(p: Triplet) {
    p.0 != p.1 && p.1 != p.2 && p.0 != p.2
  }

  /** As written, the branches for "put 1 before" and "swap 3,1" are never
      taken: an earlier branch's condition covers theirs. */
  lemma ClassifyAsWrittenUnreachable(a: nat, b: nat, c: nat)
    ensures ClassifyAsWritten(a, b, c) != PutFirstBefore && ClassifyAsWritten(a, b, c) != SwapAC
  {
  }

  /** On every other order of distinct positions the written chain takes
      the branch its comment names. */
  lemma ClassifyAsWrittenAgrees(a: nat, b: nat, c: nat)
    requires Distinct((a, b, c)) && !(c < a < b) && !(c < b < a)
    ensures ClassifyAsWritten(a, b, c) == Classify(a, b, c)
  {
  }

  /** The clause after `reorder_svo_triplets(clause, word_order)`: the first
      triplet decides, through the chain as written, which two tokens `swap`
      exchanges. */
  function ReorderedSvo(doc: Doc, clause: Clause, order: string): Clause
    requires HeadsInDoc(doc)
  {
    var pairs := SvoPairs(doc, clause);
    var triplets := Triplets(doc, pairs, order);
    if triplets == [] then clause
    else
      TripletsInRange(doc, pairs, order, |doc|);
      var (a, b, c) := triplets[0];
      match ClassifyAsWritten(a, b, c)
      case SwapBC => Swapped(doc, clause, b, c)
      case SwapAB => Swapped(doc, clause, a, b)
      case SwapAC => Swapped(doc, clause, a, c)
      case _ => clause
  }

  /** No two of the pairs share a verb. */
  predicate NoSharedVerb(pairs: seq<Pair>) {
    forall i, k :: 0 <= i < k < |pairs| ==> pairs[i].1 != pairs[k].1
  }

  /** A clause where no two subjects or objects share a verb, or a word
      order other than "sov", "svo" and "osv", is left as it is. */
  lemma ReorderedSvoUnchanged(doc: Doc, clause: Clause, order: string)
    requires HeadsInDoc(doc)
    requires NoSharedVerb(SvoPairs(doc, clause)) || order !in {"sov", "svo", "osv"}
    ensures ReorderedSvo(doc, clause, order) == clause
  {
    var pairs := SvoPairs(doc, clause);
    var ts := Triplets(doc, pairs, order);
    if ts != [] {
      TripletsMembers(doc, pairs, order, ts[0]);
      var i: nat, k: nat :| Produces(doc, pairs, order, i, k, ts[0]);
      TripletOfSpec(doc, pairs[i], pairs[k], order);
      assert false;
    }
  }

  /** `reorder_svo_triplets(clause, word_order)`. */
  method ReorderSvoTriplets(doc: Doc, clause: Clause, order: string) returns (r: Clause)
    requires HeadsInDoc(doc)
    ensures r == ReorderedSvo(doc, clause, order)
  {
    var pairs: seq<Pair> := [];
    for k := 0 to |clause|
      invariant pairs == SvoPairs(doc, clause[..k])
    {
      var t := clause[k];
      SvoPairsNext(doc, clause, k);
      if t < |doc| && doc[t].dep in {"sb", "oa", "nsubj", "obj", "obl:arg"} {
        pairs := pairs + [(t, doc[t].head)];
      }
    }
    assert clause[..|clause|] == clause;
    var triplets := GetTriplets(doc, pairs, order);
    r := clause;
    if triplets != [] {
      TripletsInRange(doc, pairs, order, |doc|);
      var (a, b, c) := triplets[0];
      var action := ClassifyAsWritten(a, b, c);
      if action == SwapBC {
        r := Swap(doc, clause, b, c);
      } else if action == SwapAB {
        r := Swap(doc, clause, a, b);
      } else if action == SwapAC {
        r := Swap(doc, clause, a, c);
      }
    }
  }

  /** The plainest clause the reordering acts on: a subject `s` and an
      object `o` of the verb `v`, each its own whole subtree, and the verb
      neither a subject nor an object. */
  predicate FlatSov(doc: Doc, s: nat, o: nat, v: nat) {
    && s < |doc| && o < |doc| && v < |doc| && s != o && o != v && s != v
    && doc[s].dep in {"sb", "nsubj"} && doc[o].dep in {"oa", "obj", "obl:arg"} && !IsArgument(doc, v)
    && doc[s].head == v && doc[o].head == v
    && doc[s].subtree == [s] && doc[o].subtree == [o]
  }

  /** Two pairs give at most their own triplet. */
  lemma TwoPairTriplets(doc: Doc, p: Pair, q: Pair, order: string)
    ensures Triplets(doc, [p, q], order) == OptionSeq(TripletOf(doc, p, q, order))
  {
    var pairs := [p, q];
    assert RowTriplets(doc, pairs, order, 0, 1) == [];
    assert RowTriplets(doc, pairs, order, 1, 2) == [];
    assert TripletsUpTo(doc, pairs, order, 1) == [] + RowTriplets(doc, pairs, order, 0, 2);
  }

  /** The pairs of a clause of three tokens, token by token. */
  lemma SvoPairsThree(doc: Doc, x: nat, y: nat, z: nat)
    requires HeadsInDoc(doc)
    ensures SvoPairs(doc, [x, y, z])
         == (if IsArgument(doc, x) then [(x, doc[x].head)] else [])
          + (if IsArgument(doc, y) then [(y, doc[y].head)] else [])
          + (if IsArgument(doc, z) then [(z, doc[z].head)] else [])
  {
    var c: seq<nat> := [x, y, z];
    var ex := if IsArgument(doc, x) then [(x, doc[x].head)] else [];
    var ey := if IsArgument(doc, y) then [(y, doc[y].head)] else [];
    var ez := if IsArgument(doc, z) then [(z, doc[z].head)] else [];
    assert [x][..0] == [];
    assert SvoPairs(doc, [x]) == [] + ex;
    assert [x, y][..1] == [x];
    assert SvoPairs(doc, [x, y]) == SvoPairs(doc, [x]) + ey;
    assert c[..2] == [x, y];
    assert SvoPairs(doc, c) == SvoPairs(doc, [x, y]) + ez;
  }

  /** The pairs of such a clause: subject and object with their verb, in
      clause order. */
  lemma FlatPairs(doc: Doc, s: nat, o: nat, v: nat, clause: Clause)
    requires HeadsInDoc(doc) && FlatSov(doc, s, o, v)
    requires |clause| == 3 && clause[0] < clause[1] < clause[2] && {clause[0], clause[1], clause[2]} == {s, o, v}
    ensures SvoPairs(doc, clause) == if s < o then [(s, v), (o, v)] else [(o, v), (s, v)]
  {
    assert IsArgument(doc, s) && IsArgument(doc, o);
    assert clause[0] in {s, o, v} && clause[1] in {s, o, v} && clause[2] in {s, o, v};
    assert clause == [clause[0], clause[1], clause[2]];
    SvoPairsThree(doc, clause[0], clause[1], clause[2]);
  }

  /** Such a clause, in document order, has one triplet, subject, object
      and verb for the word order "sov". */
  lemma FlatTriplets(doc: Doc, s: nat, o: nat, v: nat, clause: Clause)
    requires HeadsInDoc(doc) && FlatSov(doc, s, o, v)
    requires |clause| == 3 && clause[0] < clause[1] < clause[2] && {clause[0], clause[1], clause[2]} == {s, o, v}
    ensures Triplets(doc, SvoPairs(doc, clause), "sov") == [(s, o, v)]
  {
    FlatPairs(doc, s, o, v, clause);
    assert IsSubject(doc, s) && !IsSubject(doc, o);
    if s < o {
      TwoPairTriplets(doc, (s, v), (o, v), "sov");
    } else {
      TwoPairTriplets(doc, (o, v), (s, v), "sov");
    }
  }

  /** The verb first, then a token outside the subtree and one inside it:
      the verb goes after the run. */
  lemma VerbAfterFirst(x: nat, y: nat, verb: nat, subtree: seq<nat>)
    requires x != verb && y != verb && x !in subtree && y in subtree
    ensures VerbAfterRuns([verb, x, y], verb, subtree, false) == [x, y, verb]
  {
    var t: seq<nat> := [verb, x, y];
    assert t[1..] == [x, y] && t[1..][1..] == [y] && [y][1..] == [];
    assert VerbAfterRuns([y], verb, subtree, false) == [y] + [verb];
    assert VerbAfterRuns([x, y], verb, subtree, false) == [x] + ([y] + [verb]);
  }

  /** The verb between a token outside the subtree and one inside it: the
      verb goes after the run. */
  lemma VerbAfterMiddle(x: nat, y: nat, verb: nat, subtree: seq<nat>)
    requires x != verb && y != verb && x !in subtree && y in subtree
    ensures VerbAfterRuns([x, verb, y], verb, subtree, false) == [x, y, verb]
  {
    var t: seq<nat> := [x, verb, y];
    assert t[1..] == [verb, y] && t[1..][1..] == [y] && [y][1..] == [];
    assert VerbAfterRuns([y], verb, subtree, false) == [y] + [verb];
    assert VerbAfterRuns(t[1..], verb, subtree, false) == [y, verb];
  }

  /** The block of one token goes before the token of the other subtree. */
  lemma BlockBeforeFlat(x: nat, y: nat, z: nat)
    requires x != y && x != z && y != z
    ensures BlockBefore(Filter([x, y, z], Absent([y])), [y], [x], false) == [y, x, z]
  {
    var t: seq<nat> := [x, y, z];
    assert t[1..] == [y, z] && t[1..][1..] == [z] && [z][1..] == [];
    assert Filter([z], Absent([y])) == [z] + Filter([z][1..], Absent([y]));
    assert Filter(t[1..], Absent([y])) == [] + Filter([z], Absent([y]));
    assert Filter(t, Absent([y])) == [x] + Filter(t[1..], Absent([y]));
    assert Filter(t, Absent([y])) == [x, z];
    var f: seq<nat> := [x, z];
    assert f[1..] == [z];
    assert BlockBefore(f[1..], [y], [x], true) == [z] + BlockBefore([z][1..], [y], [x], true);
  }

  /** On such a clause the chain as written puts subject, object and verb
      in that order, except when the subject comes last: then the order is
      3,1,2 or 3,2,1, both taken by the unimplemented "put 3 after" branch,
      and the clause stays as it is. */
  lemma FlatClauseReorder(doc: Doc, s: nat, o: nat, v: nat, clause: Clause)
    requires HeadsInDoc(doc) && FlatSov(doc, s, o, v)
    requires |clause| == 3 && clause[0] < clause[1] < clause[2] && {clause[0], clause[1], clause[2]} == {s, o, v}
    ensures ReorderedSvo(doc, clause, "sov") == if clause[2] == s then clause else [s, o, v]
  {
    FlatTriplets(doc, s, o, v, clause);
    assert clause[0] in {s, o, v} && clause[1] in {s, o, v} && clause[2] in {s, o, v};
    assert clause == [clause[0], clause[1], clause[2]];
    if s < o < v {
      assert clause == [s, o, v];
    } else if s < v < o {
      assert clause == [s, v, o];
      VerbAfterMiddle(s, o, v, [o]);
    } else if o < s < v {
      assert clause == [o, s, v];
      BlockBeforeFlat(o, s, v);
    } else if v < s < o {
      assert clause == [v, s, o];
      VerbAfterFirst(s, o, v, [o]);
    }
  }

  /** Where the written chain and its comments part ways on such a clause:
      in the order verb, subject, object the code swaps object and verb and
      so orders the clause, where the comment's "put 1 before" would leave
      it; in the order verb, object, subject the code leaves it, where the
      comment's swap of 3 and 1 would give object, subject, verb. */
  lemma CommentedChainOnFlat(doc: Doc, s: nat, o: nat, v: nat)
    requires FlatSov(doc, s, o, v)
    ensures v < s < o ==>
      ClassifyAsWritten(s, o, v) == SwapBC && Swapped(doc, [v, s, o], o, v) == [s, o, v] && Classify(s, o, v) == PutFirstBefore
    ensures v < o < s ==>
      ClassifyAsWritten(s, o, v) == PutLastAfter && Classify(s, o, v) == SwapAC && Swapped(doc, [v, o, s], s, v) == [o, s, v]
  {
    VerbAfterFirst(s, o, v, [o]);
    VerbAfterFirst(o, s, v, [s]);
  }

  /** "isst Junge Apfel": the verb first, then subject and object. */
  function IsstJungeApfel(): Doc {
    [Token("isst", "essen", "VERB", "VVFIN", "ROOT", 0, [], "", [0, 1, 2]),
     Token("Junge", "Junge", "NOUN", "NN", "sb", 0, [], "", [1]),
     Token("Apfel", "Apfel", "NOUN", "NN", "oa", 0, [], "", [2])]
  }

  /** The code reorders it to "Junge Apfel isst". */
  lemma IsstJungeApfelReordered()
    ensures HeadsInDoc(IsstJungeApfel())
    ensures ReorderedSvo(IsstJungeApfel(), [0, 1, 2], "sov") == [1, 2, 0]
  {
    var doc := IsstJungeApfel();
    assert FlatSov(doc, 1, 2, 0);
    var clause: seq<nat> := [0, 1, 2];
    assert {clause[0], clause[1], clause[2]} == {1, 2, 0};
    FlatClauseReorder(doc, 1, 2, 0, clause);
  }

  // ---------------------------------------------------------------------
  // haben_main_verb

  /** Token `c` is a child of `t` (its head is `t` and it is not `t`
      itself) that is a verb attached as clausal object "oc". */
  predicate VerbalComplement(doc: Doc, t: nat, c: nat) {
    c < |doc| && c != t && doc[c].head == t && doc[c].pos == "VERB" && doc[c].dep == "oc"
  }

  /** The loop over `token.children`, on the first `n` tokens. */
  function HasVerbalComplement(doc: Doc, t: nat, n: nat): bool
    requires n <= |doc|
  {
    n > 0 && (HasVerbalComplement(doc, t, n - 1) || VerbalComplement(doc, t, n - 1))
  }

  /** `haben_main_verb(token)` on the token's current lemma. */
  predicate HabenMainVerb(doc: Doc, lemmas: seq<string>, t: nat)
    requires t < |lemmas|
  {
    lemmas[t] == "haben" && !HasVerbalComplement(doc, t, |doc|)
  }

  lemma {:induction false} HasVerbalComplementSpec(doc: Doc, t: nat, n: nat) returns (c: nat)
    requires n <= |doc|
    ensures HasVerbalComplement(doc, t, n) ==> c < n && VerbalComplement(doc, t, c)
    ensures !HasVerbalComplement(doc, t, n) ==> forall d: nat :: d < n ==> !VerbalComplement(doc, t, d)
  {
    c := 0;
    if n > 0 {
      c := HasVerbalComplementSpec(doc, t, n - 1);
      if !HasVerbalComplement(doc, t, n - 1) {
        c := n - 1;
      }
    }
  }

  /** "haben" is the main verb exactly when no child of it is a verb
      attached as clausal object. */
  lemma HabenMainVerbSpec(doc: Doc, lemmas: seq<string>, t: nat)
    requires t < |lemmas|
    ensures HabenMainVerb(doc, lemmas, t) <==>
      lemmas[t] == "haben" && forall c: nat :: c < |doc| ==> !VerbalComplement(doc, t, c)
  {
    var c := HasVerbalComplementSpec(doc, t, |doc|);
  }

  // ---------------------------------------------------------------------
  // gloss_de_poss_pronoun

  /** `pposat_map`. */
  function PossessiveBase(c: char): Option<string> {
    match c
    case 'M' => Some("mein")
    case 'm' => Some("mein")
    case 'D' => Some("dein")
    case 'd' => Some("dein")
    case 'S' => Some("sein")
    case 's' => Some("sein")
    case 'i' => Some("ihr")
    case 'I' => Some("Ihr")
    case 'U' => Some("unser")
    case 'u' => Some("unser")
    case 'E' => Some("euer")
    case 'e' => Some("euer")
    case _ => None
  }

  /** `gloss_de_poss_pronoun`: `token.text[0]` fails on an empty text, the
      table lookup on a first character it does not list. */
  function PossPronounGloss(text: string): Result<string> {
    if text == [] then Err(IndexError)
    else match PossessiveBase(text[0])
      case None => Err(KeyError)
      case Some(base) => Ok("(" + base + ")")
  }

  /** The gloss is a base form in parentheses, chosen by the first character
      alone and case-sensitively only for "i"/"I"; the base form can be read
      back from the gloss. */
  lemma PossPronounGlossSpec(text: string)
    ensures PossPronounGloss(text).Ok? <==> text != [] && text[0] in "MmDdSsiIUuEe"
    ensures PossPronounGloss(text).Err? ==> PossPronounGloss(text).error == (if text == [] then IndexError else KeyError)
    ensures PossPronounGloss(text).Ok? ==>
      var g := PossPronounGloss(text).value;
      |g| >= 2 && g[0] == '(' && g[|g| - 1] == ')' && Some(g[1..|g| - 1]) == PossessiveBase(text[0])
      && g[1..|g| - 1] in {"mein", "dein", "sein", "ihr", "Ihr", "unser", "euer"}
  {
    if text != [] && PossessiveBase(text[0]).Some? {
      var base := PossessiveBase(text[0]).value;
      var g := "(" + base + ")";
      assert g[1..|g| - 1] == base;
    }
  }

  /** Only "i" and "I" are told apart: "ihr" and "Ihr". */
  lemma PossPronounGlossCase()
    ensures PossPronounGloss("ihr") == Ok("(ihr)") && PossPronounGloss("Ihr") == Ok("(Ihr)")
    ensures PossPronounGloss("Mein") == PossPronounGloss("mein")
  {
    assert "ihr"[0] == 'i' && "Ihr"[0] == 'I';
    assert "(" + "ihr" + ")" == "(ihr)";
    assert "(" + "Ihr" + ")" == "(Ihr)";
  }

  // ---------------------------------------------------------------------
  // glossify

  const PronounTags: set<string> := {"PPER", "PRF", "PDS", "PRON", "DET"}

  /** The auxiliaries the glosser drops, German and French. */
  predicate IsAuxiliary(base: string, pos: string) {
    base in {"habe", "haben", "sein"} || (base == "avoir" && pos == "AUX")
  }

  /** The gloss of one token, `None` when it is skipped: the first rule that
      applies wins. */
  function TokenGloss(doc: Doc, lemmas: seq<string>, t: nat): Result<Option<string>>
    requires t < |doc| && |lemmas| == |doc|
  {
    var tok := doc[t];
    if tok.tag == "NN" && "Number=Plur" in tok.morph then Ok(Some(lemmas[t] + "+"))
    else if tok.pos == "ADV" then Ok(Some(Lower(tok.text)))
    else if tok.tag == "PPOSAT" then
      var g :- PossPronounGloss(tok.text);
      Ok(Some(g))
    else if tok.tag in PronounTags then Ok(Some(Lower(tok.text) + "-IX"))
    else if HabenMainVerb(doc, lemmas, t) then Ok(Some("da"))
    else if IsAuxiliary(lemmas[t], tok.pos) then Ok(None)
    else Ok(Some(lemmas[t]))
  }

  /** Only a possessive pronoun can fail, and only as its table lookup
      does. */
  lemma TokenGlossErrors(doc: Doc, lemmas: seq<string>, t: nat)
    requires t < |doc| && |lemmas| == |doc|
    ensures TokenGloss(doc, lemmas, t).Err? ==>
      doc[t].tag == "PPOSAT" && TokenGloss(doc, lemmas, t).error == PossPronounGloss(doc[t].text).error
  {
  }

  /** A token with a lemma of "haben" is glossed "da" when it is the main
      verb and dropped when it governs a verbal complement, unless an
      earlier rule applies. */
  lemma TokenGlossHaben(doc: Doc, lemmas: seq<string>, t: nat)
    requires t < |doc| && |lemmas| == |doc| && lemmas[t] == "haben"
    requires !(doc[t].tag == "NN" && "Number=Plur" in doc[t].morph) && doc[t].pos != "ADV"
    requires doc[t].tag != "PPOSAT" && doc[t].tag !in PronounTags
    ensures TokenGloss(doc, lemmas, t) == Ok(Some("da")) <==> forall c: nat :: c < |doc| ==> !VerbalComplement(doc, t, c)
    ensures TokenGloss(doc, lemmas, t) == Ok(None) <==> exists c: nat :: c < |doc| && VerbalComplement(doc, t, c)
  {
    HabenMainVerbSpec(doc, lemmas, t);
  }

  /** The glosses of the rules that reshape a form: a plural noun's ends in
      "+", an adverb's has no upper case, a pronoun's ends in "-IX", a
      possessive's is in parentheses. */
  lemma TokenGlossForms(doc: Doc, lemmas: seq<string>, t: nat)
    requires t < |doc| && |lemmas| == |doc| && TokenGloss(doc, lemmas, t).Ok?
    ensures var g := TokenGloss(doc, lemmas, t).value;
      && (doc[t].tag == "NN" && "Number=Plur" in doc[t].morph ==> g == Some(lemmas[t] + "+") && EndsWith(g.value, "+"))
      && (!(doc[t].tag == "NN" && "Number=Plur" in doc[t].morph) && doc[t].pos == "ADV" ==> g.Some? && NoUpper(g.value))
      && (!(doc[t].tag == "NN" && "Number=Plur" in doc[t].morph) && doc[t].pos != "ADV" && doc[t].tag == "PPOSAT" ==>
            g.Some? && g.value[0] == '(' && g.value[|g.value| - 1] == ')')
      && (!(doc[t].tag == "NN" && "Number=Plur" in doc[t].morph) && doc[t].pos != "ADV" && doc[t].tag != "PPOSAT" && doc[t].tag in PronounTags
          ==> g.Some? && EndsWith(g.value, "-IX"))
  {
    var tok := doc[t];
    if tok.tag == "NN" && "Number=Plur" in tok.morph {
      var g := lemmas[t] + "+";
      assert g[|g| - 1..] == "+";
    } else if tok.pos == "ADV" {
    } else if tok.tag == "PPOSAT" {
      PossPronounGlossSpec(tok.text);
    } else if tok.tag in PronounTags {
      var g := Lower(tok.text) + "-IX";
      assert g[|g| - 3..] == "-IX";
    }
  }

  /** `glossify(tokens)` drained into a list: the `(text, gloss)` pairs of
      the tokens not skipped, or the error of the first token that fails. */
  function Glossify(doc: Doc, lemmas: seq<string>, ts: seq<nat>): Result<seq<(string, string)>>
    requires InDoc(doc, ts) && |lemmas| == |doc|
  {
    if ts == [] then Ok([])
    else
      var g :- TokenGloss(doc, lemmas, ts[0]);
      var rest :- Glossify(doc, lemmas, ts[1..]);
      Ok((if g.Some? then [(doc[ts[0]].text, g.value)] else []) + rest)
  }

  /** A token that is glossed and not skipped. */
  predicate IsGlossed(doc: Doc, lemmas: seq<string>, t: nat) {
    t < |doc| && |lemmas| == |doc| && TokenGloss(doc, lemmas, t).Ok? && TokenGloss(doc, lemmas, t).value.Some?
  }

  function Glossed(doc: Doc, lemmas: seq<string>): nat -> bool {
    (t: nat) => IsGlossed(doc, lemmas, t)
  }

  /** The glosser fails exactly when one of the tokens does, with the error
      of the first; otherwise it yields one pair per token not skipped, in
      token order, of the token's text and its gloss. */
  lemma {:induction false} GlossifySpec(doc: Doc, lemmas: seq<string>, ts: seq<nat>)
    requires InDoc(doc, ts) && |lemmas| == |doc|
    ensures Glossify(doc, lemmas, ts).Ok? <==> forall k :: 0 <= k < |ts| ==> TokenGloss(doc, lemmas, ts[k]).Ok?
    ensures Glossify(doc, lemmas, ts).Ok? ==>
      var pairs := Glossify(doc, lemmas, ts).value;
      var kept := Filter(ts, Glossed(doc, lemmas));
      |pairs| == |kept|
      && forall i :: 0 <= i < |pairs| ==> pairs[i] == (doc[kept[i]].text, TokenGloss(doc, lemmas, kept[i]).value.value)
    decreases |ts|
  {
    if ts != [] {
      assert InDoc(doc, ts[1..]);
      GlossifySpec(doc, lemmas, ts[1..]);
      if Glossify(doc, lemmas, ts).Ok? {
        var kept := Filter(ts, Glossed(doc, lemmas));
        assert kept == (if IsGlossed(doc, lemmas, ts[0]) then [ts[0]] else []) + Filter(ts[1..], Glossed(doc, lemmas));
      }
      forall k | 0 < k < |ts| ensures ts[k] == ts[1..][k - 1] { }
    }
  }

  /** The error is that of the first token that fails. */
  lemma {:induction false} GlossifyFirstError(doc: Doc, lemmas: seq<string>, ts: seq<nat>, k: nat)
    requires InDoc(doc, ts) && |lemmas| == |doc|
    requires k < |ts| && TokenGloss(doc, lemmas, ts[k]).Err?
    requires forall j :: 0 <= j < k ==> TokenGloss(doc, lemmas, ts[j]).Ok?
    ensures Glossify(doc, lemmas, ts) == Err(TokenGloss(doc, lemmas, ts[k]).error)
    decreases k
  {
    if k > 0 {
      assert InDoc(doc, ts[1..]);
      GlossifyFirstError(doc, lemmas, ts[1..], k - 1);
    }
  }
  // ---------------------------------------------------------------------
  // clause_to_gloss

  /** Rule 2: the parts of speech, tags, dependencies and lemmas kept. */
  predicate IsKept(doc: Doc, lemmas: seq<string>, lang: string, punctuation: bool, t: nat) {
    t < |doc| && |lemmas| == |doc| &&
    var tok := doc[t];
    (tok.pos in {"NOUN", "VERB", "PROPN", "ADJ", "NUM", "AUX", "SCONJ", "X"}
     || (punctuation && tok.pos == "PUNCT")
     || (tok.pos == "ADV" && tok.dep != "svp")
     || (tok.pos == "PRON" && tok.dep != "ep")
     || tok.dep == "ng" || lemmas[t] == "kein"
     || tok.tag in {"PTKNEG", "KON", "PPOSAT"}
     || (tok.tag == "DET" && "Poss=Yes" in tok.morph)
     || (tok.tag == "CCONJ" && (lang != "de" || Lower(lemmas[t]) != "und")))
  }

  function Kept(doc: Doc, lemmas: seq<string>, lang: string, punctuation: bool): nat -> bool {
    (t: nat) => IsKept(doc, lemmas, lang, punctuation, t)
  }

  /** The punctuation rule: a punctuation token of the clause takes its text
      as its lemma. */
  function Punctuated(doc: Doc, lemmas: seq<string>, ts: seq<nat>): (r: seq<string>)
    requires |lemmas| == |doc|
    ensures |r| == |lemmas|
  {
    seq(|lemmas|, i requires 0 <= i < |lemmas| => if i in ts && doc[i].pos == "PUNCT" then doc[i].text else lemmas[i])
  }

  /** The loop of the punctuation rule, writing the lemmas in place. */
  method SetPunctuationLemmas(doc: Doc, tokens: seq<nat>, lemmas: array<string>)
    requires lemmas.Length == |doc| && InDoc(doc, tokens)
    modifies lemmas
    ensures lemmas[..] == Punctuated(doc, old(lemmas[..]), tokens)
  {
    ghost var before := lemmas[..];
    for k := 0 to |tokens|
      invariant forall i :: 0 <= i < lemmas.Length ==>
        lemmas[i] == if i in tokens[..k] && doc[i].pos == "PUNCT" then doc[i].text else before[i]
    {
      var t := tokens[k];
      assert tokens[..k + 1] == tokens[..k] + [t];
      if doc[t].pos == "PUNCT" {
        lemmas[t] := doc[t].text;
      }
    }
    assert tokens[..|tokens|] == tokens;
  }

  /** Rule 3's adverbs: modifiers of a verb. */
  function VerbAdverb(doc: Doc): nat -> bool {
    (t: nat) => t < |doc| && doc[t].pos == "ADV" && doc[t].dep == "mo" && doc[t].head < |doc| && doc[doc[t].head].pos == "VERB"
  }

  /** Rule 4's location entities. */
  function Location(doc: Doc): nat -> bool {
    (t: nat) => t < |doc| && doc[t].entType == "LOC"
  }

  /** Rule 5's negations. */
  function Negation(doc: Doc): nat -> bool {
    (t: nat) => t < |doc| && doc[t].dep == "ng"
  }

  /** The tokens satisfying `p`, then the rest: `moved + [t for t in tokens
      if t not in moved]`. */
  function ToFront(ts: seq<nat>, p: nat -> bool): seq<nat> {
    var moved := Filter(ts, p);
    moved + Filter(ts, Absent(moved))
  }

  /** The tokens not satisfying `p`, then those that do. */
  function ToBack(ts: seq<nat>, p: nat -> bool): seq<nat> {
    var moved := Filter(ts, p);
    Filter(ts, Absent(moved)) + moved
  }

  /** Leaving out the moved tokens is keeping those that do not satisfy the
      test. */
  lemma RestIsComplement(ts: seq<nat>, p: nat -> bool)
    ensures Filter(ts, Absent(Filter(ts, p))) == Filter(ts, Not(p))
  {
    var moved := Filter(ts, p);
    FilterMembers(ts, p);
    forall i | 0 <= i < |ts| ensures Absent(moved)(ts[i]) == Not(p)(ts[i]) {
      assert ts[i] in ts;
    }
    FilterAgree(ts, Absent(moved), Not(p));
  }

  /** Rules 3 and 4 are stable partitions: the tokens that satisfy the test
      in their order, then the others in theirs; no token is lost or
      added. */
  lemma ToFrontSpec(ts: seq<nat>, p: nat -> bool)
    ensures ToFront(ts, p) == Filter(ts, p) + Filter(ts, Not(p))
    ensures multiset(ToFront(ts, p)) == multiset(ts)
  {
    RestIsComplement(ts, p);
    FilterMultiset(ts, p, Not(p));
  }

  /** Rule 5 is the stable partition the other way round. */
  lemma ToBackSpec(ts: seq<nat>, p: nat -> bool)
    ensures ToBack(ts, p) == Filter(ts, Not(p)) + Filter(ts, p)
    ensures multiset(ToBack(ts, p)) == multiset(ts)
  {
    RestIsComplement(ts, p);
    FilterMultiset(ts, p, Not(p));
  }

  /** Rules 3 to 5 in turn: verb adverbs to the front, then locations to the
      front, then negations to the end. */
  function MovedTokens(doc: Doc, ts: seq<nat>): seq<nat> {
    ToBack(ToFront(ToFront(ts, VerbAdverb(doc)), Location(doc)), Negation(doc))
  }

  /** The three rules only reorder the tokens, and the negations end up
      last, in their order. */
  lemma MovedTokensSpec(doc: Doc, ts: seq<nat>)
    ensures multiset(MovedTokens(doc, ts)) == multiset(ts)
    ensures var before := ToFront(ToFront(ts, VerbAdverb(doc)), Location(doc));
      MovedTokens(doc, ts) == Filter(before, Not(Negation(doc))) + Filter(before, Negation(doc))
  {
    var once := ToFront(ts, VerbAdverb(doc));
    ToFrontSpec(ts, VerbAdverb(doc));
    ToFrontSpec(once, Location(doc));
    ToBackSpec(ToFront(once, Location(doc)), Negation(doc));
  }

  /** Rule 6: a compound part stands for its head. */
  function Compounded(doc: Doc, ts: seq<nat>): (r: seq<nat>)
    requires InDoc(doc, ts)
    ensures |r| == |ts|
  {
    seq(|ts|, i requires 0 <= i < |ts| => if doc[ts[i]].dep == "compound" then doc[ts[i]].head else ts[i])
  }

  /** Rule 6's loop, replacing in place. */
  method ReplaceCompounds(doc: Doc, tokens: array<nat>)
    requires InDoc(doc, tokens[..])
    modifies tokens
    ensures tokens[..] == Compounded(doc, old(tokens[..]))
  {
    ghost var before := tokens[..];
    for i := 0 to tokens.Length
      invariant forall k :: 0 <= k < i ==> tokens[k] == Compounded(doc, before)[k]
      invariant forall k :: i <= k < tokens.Length ==> tokens[k] == before[k]
    {
      var t := tokens[i];
      if doc[t].dep == "compound" {
        tokens[i] := doc[t].head;
      }
    }
  }

  /** Rule 6 keeps every token that is not a compound part and leaves the
      tokens inside the document. */
  lemma CompoundedSpec(doc: Doc, ts: seq<nat>)
    requires HeadsInDoc(doc) && InDoc(doc, ts)
    ensures InDoc(doc, Compounded(doc, ts))
    ensures forall i :: 0 <= i < |ts| && doc[ts[i]].dep != "compound" ==> Compounded(doc, ts)[i] == ts[i]
    ensures forall i :: 0 <= i < |ts| && doc[ts[i]].dep == "compound" ==> Compounded(doc, ts)[i] == doc[ts[i]].head
  {
  }

  /** Every element of a filtered list of document tokens is one. */
  lemma FilterInDoc(doc: Doc, ts: seq<nat>, p: nat -> bool)
    requires InDoc(doc, ts)
    ensures InDoc(doc, Filter(ts, p))
  {
    FilterMembers(ts, p);
    var f := Filter(ts, p);
    forall k | 0 <= k < |f| ensures f[k] < |doc| {
      assert f[k] in f;
      var j :| 0 <= j < |ts| && ts[j] == f[k];
    }
  }

  /** Rules 3 to 5 move only tokens of the document. */
  lemma MovedInDoc(doc: Doc, ts: seq<nat>)
    requires InDoc(doc, ts)
    ensures InDoc(doc, MovedTokens(doc, ts))
  {
    var r := MovedTokens(doc, ts);
    MovedTokensSpec(doc, ts);
    forall k | 0 <= k < |r| ensures r[k] < |doc| {
      assert r[k] in multiset(ts);
      var j :| 0 <= j < |ts| && ts[j] == r[k];
    }
  }

  /** The lemmas after the punctuation rule, and the tokens that reach
      `glossify`: rules 1 to 6 of `clause_to_gloss`. */
  function ClauseTokens(doc: Doc, lemmas: seq<string>, clause: Clause, lang: string, punctuation: bool): (r: (seq<string>, seq<nat>))
    requires HeadsInDoc(doc) && |lemmas| == |doc|
    ensures |r.0| == |doc| && InDoc(doc, r.1)
  {
    var reordered := ReorderedSvo(doc, clause, "sov");
    var kept := Filter(reordered, Kept(doc, lemmas, lang, punctuation));
    assert InDoc(doc, kept);
    var lemmas' := if punctuation then Punctuated(doc, lemmas, kept) else lemmas;
    MovedInDoc(doc, kept);
    var moved := MovedTokens(doc, kept);
    (lemmas', Compounded(doc, moved))
  }

  /** What `clause_to_gloss` returns, under the names it binds:
      `glosses, tokens`. */
  datatype ClauseGloss = ClauseGloss(glosses: seq<string>, tokens: seq<string>)

  function Zip<A, B>(xs: seq<A>, ys: seq<B>): (r: seq<(A, B)>)
    ensures |r| == if |xs| < |ys| then |xs| else |ys|
  {
    seq(if |xs| < |ys| then |xs| else |ys|, i requires 0 <= i < |xs| && i < |ys| => (xs[i], ys[i]))
  }

  /** Zipping the two halves of an unzipped list gives the list back. */
  lemma ZipUnzip<A, B>(ps: seq<(A, B)>)
    ensures Zip(Firsts(ps), Seconds(ps)) == ps
  {
  }

  /** `clause_to_gloss`: the clause's tokens glossed, then unzipped. No
      pair at all leaves nothing to unpack. Also returns the lemmas.
      `asWritten` picks the unpacking: as written, `glosses, tokens =
      zip(*pairs)` binds the token texts to `glosses` and the glosses to
      `tokens`; corrected, the halves are bound in the order the pairs
      have. */
  function ClauseToGlossWith(doc: Doc, lemmas: seq<string>, clause: Clause, lang: string, punctuation: bool, asWritten: bool): (r: Result<(ClauseGloss, seq<string>)>)
    requires HeadsInDoc(doc) && |lemmas| == |doc|
    ensures r.Ok? ==> |r.value.1| == |doc|
  {
    var (lemmas', ts) := ClauseTokens(doc, lemmas, clause, lang, punctuation);
    var pairs :- Glossify(doc, lemmas', ts);
    if pairs == [] then Err(ValueError)
    else if asWritten then Ok((ClauseGloss(Firsts(pairs), Seconds(pairs)), lemmas'))
    else Ok((ClauseGloss(Seconds(pairs), Firsts(pairs)), lemmas'))
  }

  /** `clause_to_gloss` as written. */
  function ClauseToGlossAsWritten(doc: Doc, lemmas: seq<string>, clause: Clause, lang: string, punctuation: bool): (r: Result<(ClauseGloss, seq<string>)>)
    requires HeadsInDoc(doc) && |lemmas| == |doc|
    ensures r.Ok? ==> |r.value.1| == |doc|
  {
    ClauseToGlossWith(doc, lemmas, clause, lang, punctuation, true)
  }

  /** `clause_to_gloss` with `tokens, glosses = zip(*pairs)`. */
  function ClauseToGloss(doc: Doc, lemmas: seq<string>, clause: Clause, lang: string, punctuation: bool): (r: Result<(ClauseGloss, seq<string>)>)
    requires HeadsInDoc(doc) && |lemmas| == |doc|
    ensures r.Ok? ==> |r.value.1| == |doc|
  {
    ClauseToGlossWith(doc, lemmas, clause, lang, punctuation, false)
  }

  /** A word of the parsed text. */
  predicate IsText(doc: Doc, w: string) {
    exists t :: 0 <= t < |doc| && doc[t].text == w
  }

  /** The glossed pairs of a clause: each starts with a word of the text. */
  lemma ClausePairsAreWords(doc: Doc, lemmas: seq<string>, clause: Clause, lang: string, punctuation: bool)
    requires HeadsInDoc(doc) && |lemmas| == |doc|
    ensures var (lemmas', ts) := ClauseTokens(doc, lemmas, clause, lang, punctuation);
      Glossify(doc, lemmas', ts).Ok? ==>
        forall i :: 0 <= i < |Glossify(doc, lemmas', ts).value| ==> IsText(doc, Glossify(doc, lemmas', ts).value[i].0)
  {
    var (lemmas', ts) := ClauseTokens(doc, lemmas, clause, lang, punctuation);
    GlossifySpec(doc, lemmas', ts);
    if Glossify(doc, lemmas', ts).Ok? {
      var pairs := Glossify(doc, lemmas', ts).value;
      var kept := Filter(ts, Glossed(doc, lemmas'));
      forall i | 0 <= i < |pairs| ensures IsText(doc, pairs[i].0) {
        assert Glossed(doc, lemmas')(kept[i]);
        assert doc[kept[i]].text == pairs[i].0;
      }
    }
  }

  /** Corrected: a clause fails when no token is glossed; otherwise zipping
      `tokens` with `glosses` gives back the pairs of `glossify`, so every
      token is a word of the text. */
  lemma ClauseToGlossPairs(doc: Doc, lemmas: seq<string>, clause: Clause, lang: string, punctuation: bool)
    requires HeadsInDoc(doc) && |lemmas| == |doc|
    ensures var (lemmas', ts) := ClauseTokens(doc, lemmas, clause, lang, punctuation);
      var r := ClauseToGloss(doc, lemmas, clause, lang, punctuation);
      && (r == Err(ValueError) <== Glossify(doc, lemmas', ts) == Ok([]))
      && (r.Ok? ==>
            && Glossify(doc, lemmas', ts).Ok?
            && Zip(r.value.0.tokens, r.value.0.glosses) == Glossify(doc, lemmas', ts).value
            && |r.value.0.tokens| == |r.value.0.glosses| > 0
            && forall i :: 0 <= i < |r.value.0.tokens| ==> IsText(doc, r.value.0.tokens[i]))
  {
    ClausePairsAreWords(doc, lemmas, clause, lang, punctuation);
    var (lemmas', ts) := ClauseTokens(doc, lemmas, clause, lang, punctuation);
    if Glossify(doc, lemmas', ts).Ok? {
      ZipUnzip(Glossify(doc, lemmas', ts).value);
    }
  }

  /** As written, the unpacking trades the halves: zipping `glosses` with
      `tokens` gives back the pairs of `glossify`. */
  lemma ClauseToGlossAsWrittenPairs(doc: Doc, lemmas: seq<string>, clause: Clause, lang: string, punctuation: bool)
    requires HeadsInDoc(doc) && |lemmas| == |doc|
    ensures var (lemmas', ts) := ClauseTokens(doc, lemmas, clause, lang, punctuation);
      var r := ClauseToGlossAsWritten(doc, lemmas, clause, lang, punctuation);
      r.Ok? ==> Glossify(doc, lemmas', ts).Ok? && Zip(r.value.0.glosses, r.value.0.tokens) == Glossify(doc, lemmas', ts).value
  {
    var (lemmas', ts) := ClauseTokens(doc, lemmas, clause, lang, punctuation);
    if Glossify(doc, lemmas', ts).Ok? {
      ZipUnzip(Glossify(doc, lemmas', ts).value);
    }
  }
  // ---------------------------------------------------------------------
  // text_to_gloss_given_spacy_model, text_to_gloss

  /** The languages of `LANGUAGE_MODELS_RULES`. */
  const RuleLanguages: set<string> := {"de", "fr"}

  /** The clauses glossed in turn; a clause sees the lemmas the previous
      one left. `asWritten` picks the unpacking. */
  function GlossedClauses(doc: Doc, lemmas: seq<string>, clauses: seq<Clause>, lang: string, punctuation: bool, asWritten: bool): (r: Result<seq<ClauseGloss>>)
    requires HeadsInDoc(doc) && |lemmas| == |doc|
    ensures r.Ok? ==> |r.value| == |clauses|
    decreases |clauses|
  {
    if clauses == [] then Ok([])
    else
      var first :- ClauseToGlossWith(doc, lemmas, clauses[0], lang, punctuation, asWritten);
      var rest :- GlossedClauses(doc, first.1, clauses[1..], lang, punctuation, asWritten);
      Ok([first.0] + rest)
  }

  function GlossesOf(cgs: seq<ClauseGloss>): seq<seq<string>> {
    seq(|cgs|, i requires 0 <= i < |cgs| => cgs[i].glosses)
  }

  function TokensOf(cgs: seq<ClauseGloss>): seq<seq<string>> {
    seq(|cgs|, i requires 0 <= i < |cgs| => cgs[i].tokens)
  }

  /** The clauses' `glosses` joined by spaces, the clauses by " | ", then
      " ||", all title-cased. */
  function GlossString(cgs: seq<ClauseGloss>): string {
    Title(Join(seq(|cgs|, i requires 0 <= i < |cgs| => Join(cgs[i].glosses, " ")), " | ") + " ||")
  }

  /** The gloss string ends a sentence with " ||", and title-casing changes
      only the case of the letters. */
  lemma GlossStringSpec(cgs: seq<ClauseGloss>)
    ensures var plain := Join(seq(|cgs|, i requires 0 <= i < |cgs| => Join(cgs[i].glosses, " ")), " | ") + " ||";
      EndsWith(GlossString(cgs), " ||") && |GlossString(cgs)| == |plain| && Lower(GlossString(cgs)) == Lower(plain)
  {
    var plain := Join(seq(|cgs|, i requires 0 <= i < |cgs| => Join(cgs[i].glosses, " ")), " | ") + " ||";
    assert plain[|plain| - 3..] == " ||";
    TitleKeepsSuffix(plain, " ||");
    LowerTitle(plain);
  }

  /** The dictionary of `text_to_gloss_given_spacy_model`. */
  datatype GlossOutput = GlossOutput(glosses: seq<string>, tokens: seq<string>, glossString: string)

  /** `text_to_gloss_given_spacy_model` on the parse `doc` of `text` and
      its clauses: blank text gives empty lists; otherwise the separable
      particles are attached (not for French), the clauses reordered and
      glossed in turn. */
  function TextToGlossGivenParse(text: string, doc: Doc, clauses: seq<Clause>, lang: string, punctuation: bool, asWritten: bool): Result<GlossOutput>
    requires HeadsInDoc(doc)
  {
    if Strip(text) == "" then Ok(GlossOutput([], [], ""))
    else
      var lemmas := if lang != "fr" then AttachedSvp(doc, Lemmas(doc), |doc|) else Lemmas(doc);
      var cgs :- GlossedClauses(doc, lemmas, ReorderedSubMain(doc, clauses), lang, punctuation, asWritten);
      Ok(GlossOutput(Flatten(GlossesOf(cgs)), Flatten(TokensOf(cgs)), GlossString(cgs)))
  }

  /** `text_to_gloss`: one sentence of `zip(tokens, glosses)` pairs. */
  function TextToGlossWith(text: string, language: string, punctuation: bool, doc: Doc, clauses: seq<Clause>, asWritten: bool): Result<seq<seq<(string, string)>>>
    requires HeadsInDoc(doc)
  {
    if language !in RuleLanguages then Err(NotImplementedError)
    else
      var out :- TextToGlossGivenParse(text, doc, clauses, language, punctuation, asWritten);
      Ok([Zip(out.tokens, out.glosses)])
  }

  /** `text_to_gloss` as written. */
  function TextToGlossAsWritten(text: string, language: string, punctuation: bool, doc: Doc, clauses: seq<Clause>): (r: Result<seq<seq<(string, string)>>>)
    requires HeadsInDoc(doc)
    ensures language !in RuleLanguages ==> r == Err(NotImplementedError)
    ensures r.Ok? ==> |r.value| == 1
  {
    TextToGlossWith(text, language, punctuation, doc, clauses, true)
  }

  /** `text_to_gloss` with each clause unpacked in pair order: every pair
      starts with a word of the text. */
  function TextToGloss(text: string, language: string, punctuation: bool, doc: Doc, clauses: seq<Clause>): (r: Result<seq<seq<(string, string)>>>)
    requires HeadsInDoc(doc)
    ensures language !in RuleLanguages ==> r == Err(NotImplementedError)
    ensures r.Ok? ==> |r.value| == 1 && forall k :: 0 <= k < |r.value[0]| ==> IsText(doc, r.value[0][k].0)
  {
    TextToGlossWords(text, language, punctuation, doc, clauses);
    TextToGlossWith(text, language, punctuation, doc, clauses, false)
  }

  lemma TextToGlossWords(text: string, language: string, punctuation: bool, doc: Doc, clauses: seq<Clause>)
    requires HeadsInDoc(doc)
    ensures var r := TextToGlossWith(text, language, punctuation, doc, clauses, false);
      r.Ok? ==> forall k :: 0 <= k < |r.value[0]| ==> IsText(doc, r.value[0][k].0)
  {
    if language in RuleLanguages && Strip(text) != "" {
      var lemmas := if language != "fr" then AttachedSvp(doc, Lemmas(doc), |doc|) else Lemmas(doc);
      var cs := ReorderedSubMain(doc, clauses);
      TextToGlossClauses(text, language, punctuation, doc, clauses, false);
      GlossedClausesWords(doc, lemmas, cs, language, punctuation);
      var r := GlossedClauses(doc, lemmas, cs, language, punctuation, false);
      if r.Ok? {
        ZippedWords(doc, r.value);
      }
    }
  }

  /** Clauses whose tokens are words of the text zip into pairs that start
      with words of the text. */
  lemma ZippedWords(doc: Doc, cgs: seq<ClauseGloss>)
    requires forall i :: 0 <= i < |cgs| ==> AllText(doc, cgs[i].tokens)
    ensures var pairs := Zip(Flatten(TokensOf(cgs)), Flatten(GlossesOf(cgs)));
      forall k :: 0 <= k < |pairs| ==> IsText(doc, pairs[k].0)
  {
    var ws := Flatten(TokensOf(cgs));
    FlattenWords(doc, TokensOf(cgs));
    var pairs := Zip(ws, Flatten(GlossesOf(cgs)));
    forall k | 0 <= k < |pairs| ensures IsText(doc, pairs[k].0) {
      assert pairs[k].0 == ws[k];
    }
  }

  /** A text in a rule language that is not blank is glossed clause by
      clause; the clauses' tokens are zipped with their glosses. */
  lemma TextToGlossClauses(text: string, lang: string, punctuation: bool, doc: Doc, clauses: seq<Clause>, asWritten: bool)
    requires HeadsInDoc(doc) && lang in RuleLanguages && Strip(text) != ""
    ensures var lemmas := if lang != "fr" then AttachedSvp(doc, Lemmas(doc), |doc|) else Lemmas(doc);
      var r := GlossedClauses(doc, lemmas, ReorderedSubMain(doc, clauses), lang, punctuation, asWritten);
      TextToGlossWith(text, lang, punctuation, doc, clauses, asWritten)
        == if r.Ok? then Ok([Zip(Flatten(TokensOf(r.value)), Flatten(GlossesOf(r.value)))]) else Err(r.error)
  {
  }

  /** Blank text gives empty lists and an empty gloss string, before any
      rule runs, and `text_to_gloss` one empty sentence. */
  lemma BlankText(text: string, lang: string, punctuation: bool, doc: Doc, clauses: seq<Clause>, asWritten: bool)
    requires HeadsInDoc(doc) && Strip(text) == ""
    ensures TextToGlossGivenParse(text, doc, clauses, lang, punctuation, asWritten) == Ok(GlossOutput([], [], ""))
    ensures lang in RuleLanguages ==> TextToGlossWith(text, lang, punctuation, doc, clauses, asWritten) == Ok([[]])
  {
  }

  predicate AllText(doc: Doc, ws: seq<string>) {
    forall i :: 0 <= i < |ws| ==> IsText(doc, ws[i])
  }

  /** Corrected, every clause's `tokens` are words of the text. */
  lemma {:induction false} GlossedClausesWords(doc: Doc, lemmas: seq<string>, clauses: seq<Clause>, lang: string, punctuation: bool)
    requires HeadsInDoc(doc) && |lemmas| == |doc|
    ensures var r := GlossedClauses(doc, lemmas, clauses, lang, punctuation, false);
      r.Ok? ==> forall i :: 0 <= i < |r.value| ==> AllText(doc, r.value[i].tokens)
    decreases |clauses|
  {
    if clauses != [] {
      var first := ClauseToGloss(doc, lemmas, clauses[0], lang, punctuation);
      var r := GlossedClauses(doc, lemmas, clauses, lang, punctuation, false);
      GlossedClausesCons(doc, lemmas, clauses, lang, punctuation);
      if r.Ok? {
        ClauseToGlossWords(doc, lemmas, clauses[0], lang, punctuation);
        GlossedClausesWords(doc, first.value.1, clauses[1..], lang, punctuation);
        var rest := GlossedClauses(doc, first.value.1, clauses[1..], lang, punctuation, false).value;
        TokensTextCons(doc, first.value.0, rest);
      }
    }
  }

  lemma TokensTextCons(doc: Doc, c: ClauseGloss, rest: seq<ClauseGloss>)
    requires AllText(doc, c.tokens)
    requires forall i :: 0 <= i < |rest| ==> AllText(doc, rest[i].tokens)
    ensures forall i :: 0 <= i < |[c] + rest| ==> AllText(doc, ([c] + rest)[i].tokens)
  {
    forall i | 0 <= i < |[c] + rest| ensures AllText(doc, ([c] + rest)[i].tokens) {
      if i > 0 {
        assert ([c] + rest)[i] == rest[i - 1];
      }
    }
  }

  /** The corrected glosses of several clauses: the first clause's, then
      the rest's, glossed with the lemmas the first one left. */
  lemma GlossedClausesCons(doc: Doc, lemmas: seq<string>, clauses: seq<Clause>, lang: string, punctuation: bool)
    requires HeadsInDoc(doc) && |lemmas| == |doc| && clauses != []
    ensures var r := GlossedClauses(doc, lemmas, clauses, lang, punctuation, false);
      var first := ClauseToGloss(doc, lemmas, clauses[0], lang, punctuation);
      r.Ok? ==>
        first.Ok? &&
        var rest := GlossedClauses(doc, first.value.1, clauses[1..], lang, punctuation, false);
        rest.Ok? && r.value == [first.value.0] + rest.value
  {
  }

  lemma ClauseToGlossWords(doc: Doc, lemmas: seq<string>, clause: Clause, lang: string, punctuation: bool)
    requires HeadsInDoc(doc) && |lemmas| == |doc|
    ensures var r := ClauseToGloss(doc, lemmas, clause, lang, punctuation);
      r.Ok? ==> AllText(doc, r.value.0.tokens)
  {
    ClauseToGlossPairs(doc, lemmas, clause, lang, punctuation);
  }

  lemma {:induction false} FlattenWords(doc: Doc, ss: seq<seq<string>>)
    requires forall i :: 0 <= i < |ss| ==> AllText(doc, ss[i])
    ensures AllText(doc, Flatten(ss))
  {
    if ss != [] {
      FlattenWords(doc, ss[1..]);
      var rest := Flatten(ss[1..]);
      assert AllText(doc, ss[0]);
      forall k | 0 <= k < |ss[0] + rest| ensures IsText(doc, (ss[0] + rest)[k]) {
        if k >= |ss[0]| {
          assert (ss[0] + rest)[k] == rest[k - |ss[0]|];
        }
      }
    }
  }

  /** A one-token parse of "Hunde", the plural of "Hund". */
  function HundeDoc(): Doc {
    [Token("Hunde", "Hund", "NOUN", "NN", "ROOT", 0, ["Number=Plur"], "", [0])]
  }

  lemma HundeLemmas()
    ensures HeadsInDoc(HundeDoc())
    ensures AttachedSvp(HundeDoc(), Lemmas(HundeDoc()), |HundeDoc()|) == ["Hund"]
  {
    assert Lemmas(HundeDoc()) == ["Hund"];
  }

  lemma HundeSubMain()
    ensures ReorderedSubMain(HundeDoc(), [[0]]) == [[0]]
  {
    assert LastSubordinator(HundeDoc(), [0]) == None;
  }

  lemma HundeReordered()
    ensures HeadsInDoc(HundeDoc())
    ensures ReorderedSvo(HundeDoc(), [0], "sov") == [0]
  {
    var doc := HundeDoc();
    var one: seq<nat> := [0];
    assert one[..0] == [];
    assert SvoPairs(doc, one) == [];
  }

  lemma HundeKept()
    ensures var one: seq<nat> := [0]; Filter(one, Kept(HundeDoc(), ["Hund"], "de", false)) == one
  {
    var one: seq<nat> := [0];
    assert one[1..] == [];
  }

  lemma HundeMoved()
    ensures MovedTokens(HundeDoc(), [0]) == [0]
  {
    var doc := HundeDoc();
    var one: seq<nat> := [0];
    assert one[1..] == [];
    assert ToFront(one, VerbAdverb(doc)) == one by {
      assert Filter(one, VerbAdverb(doc)) == [];
    }
    assert ToFront(one, Location(doc)) == one by {
      assert Filter(one, Location(doc)) == [];
    }
    assert ToBack(one, Negation(doc)) == one by {
      assert Filter(one, Negation(doc)) == [];
    }
  }

  lemma HundeCompounded()
    ensures Compounded(HundeDoc(), [0]) == [0]
  {
  }

  lemma HundeTokens()
    ensures HeadsInDoc(HundeDoc())
    ensures ClauseTokens(HundeDoc(), ["Hund"], [0], "de", false) == (["Hund"], [0])
  {
    HundeReordered();
    HundeKept();
    HundeMoved();
    HundeCompounded();
  }

  lemma HundeGlossed()
    ensures Glossify(HundeDoc(), ["Hund"], [0]) == Ok([("Hunde", "Hund+")])
  {
    var doc := HundeDoc();
    var one: seq<nat> := [0];
    assert "Hund" + "+" == "Hund+";
    assert TokenGloss(doc, ["Hund"], 0) == Ok(Some("Hund+"));
    assert one[1..] == [];
    assert Glossify(doc, ["Hund"], one[1..]) == Ok([]);
    assert doc[0].text == "Hunde";
    assert InDoc(doc, one);
    assert Glossify(doc, ["Hund"], one) == Ok([(doc[one[0]].text, "Hund+")] + []);
    assert [(doc[one[0]].text, "Hund+")] + [] == [("Hunde", "Hund+")];
  }

  /** A clause whose tokens gloss to the pairs `pairs`, unpacked both ways. */
  lemma ClauseToGlossFrom(doc: Doc, lemmas: seq<string>, clause: Clause, lang: string, punctuation: bool,
                          lemmas': seq<string>, ts: seq<nat>, pairs: seq<(string, string)>)
    requires HeadsInDoc(doc) && |lemmas| == |doc|
    requires ClauseTokens(doc, lemmas, clause, lang, punctuation) == (lemmas', ts)
    requires Glossify(doc, lemmas', ts) == Ok(pairs) && pairs != []
    ensures ClauseToGlossAsWritten(doc, lemmas, clause, lang, punctuation) == Ok((ClauseGloss(Firsts(pairs), Seconds(pairs)), lemmas'))
    ensures ClauseToGloss(doc, lemmas, clause, lang, punctuation) == Ok((ClauseGloss(Seconds(pairs), Firsts(pairs)), lemmas'))
  {
  }

  lemma HundeUnzip()
    ensures Firsts([("Hunde", "Hund+")]) == ["Hunde"] && Seconds([("Hunde", "Hund+")]) == ["Hund+"]
  {
  }

  lemma HundeClauses()
    ensures ClauseToGlossAsWritten(HundeDoc(), ["Hund"], [0], "de", false) == Ok((ClauseGloss(["Hunde"], ["Hund+"]), ["Hund"]))
    ensures ClauseToGloss(HundeDoc(), ["Hund"], [0], "de", false) == Ok((ClauseGloss(["Hund+"], ["Hunde"]), ["Hund"]))
  {
    HundeTokens();
    HundeGlossed();
    HundeUnzip();
    ClauseToGlossFrom(HundeDoc(), ["Hund"], [0], "de", false, ["Hund"], [0], [("Hunde", "Hund+")]);
  }

  /** The one-word sentence "Hunde": as written the pair comes out as
      (gloss, word) and the gloss string is built from the word itself;
      corrected, the pair is (word, gloss) and the gloss string is built
      from the gloss. */
  lemma TextToGlossAsWrittenTradesPairs()
    ensures TextToGlossAsWritten("Hunde", "de", false, HundeDoc(), [[0]]) == Ok([[("Hund+", "Hunde")]])
    ensures TextToGloss("Hunde", "de", false, HundeDoc(), [[0]]) == Ok([[("Hunde", "Hund+")]])
  {
    HundeLemmas();
    HundeSubMain();
    HundeClauses();
    HundeText();
    var asWritten := ClauseGloss(["Hunde"], ["Hund+"]);
    var corrected := ClauseGloss(["Hund+"], ["Hunde"]);
    GlossedOneClause(HundeDoc(), ["Hund"], [0], "de", false, true, asWritten, ["Hund"]);
    GlossedOneClause(HundeDoc(), ["Hund"], [0], "de", false, false, corrected, ["Hund"]);
    HundeFlat();
    TextToGlossClauses("Hunde", "de", false, HundeDoc(), [[0]], true);
    TextToGlossClauses("Hunde", "de", false, HundeDoc(), [[0]], false);
  }

  lemma HundeText()
    ensures Strip("Hunde") == "Hunde"
  {
    var t := "Hunde";
    assert t[0] == 'H' && t[|t| - 1] == 'e';
    StripOfStripped(t);
  }

  lemma HundeFlat()
    ensures var cgs := [ClauseGloss(["Hunde"], ["Hund+"])];
      Zip(Flatten(TokensOf(cgs)), Flatten(GlossesOf(cgs))) == [("Hund+", "Hunde")]
    ensures var cgs := [ClauseGloss(["Hund+"], ["Hunde"])];
      Zip(Flatten(TokensOf(cgs)), Flatten(GlossesOf(cgs))) == [("Hunde", "Hund+")]
  {
    var a := [ClauseGloss(["Hunde"], ["Hund+"])];
    var b := [ClauseGloss(["Hund+"], ["Hunde"])];
    assert a[1..] == [] && b[1..] == [];
    assert Flatten(TokensOf(a)) == ["Hund+"] + [];
    assert Flatten(GlossesOf(a)) == ["Hunde"] + [];
    assert Flatten(TokensOf(b)) == ["Hunde"] + [];
    assert Flatten(GlossesOf(b)) == ["Hund+"] + [];
  }

  /** One clause that glosses to `cg` makes a text of one clause. */
  lemma GlossedOneClause(doc: Doc, lemmas: seq<string>, clause: Clause, lang: string, punctuation: bool, asWritten: bool,
                         cg: ClauseGloss, lemmas': seq<string>)
    requires HeadsInDoc(doc) && |lemmas| == |doc|
    requires ClauseToGlossWith(doc, lemmas, clause, lang, punctuation, asWritten) == Ok((cg, lemmas'))
    ensures GlossedClauses(doc, lemmas, [clause], lang, punctuation, asWritten) == Ok([cg])
  {
    assert [clause][1..] == [];
    assert GlossedClauses(doc, lemmas', [], lang, punctuation, asWritten) == Ok([]);
    assert [cg] + [] == [cg];
  }

}
