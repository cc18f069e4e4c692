/** The analyser: the "repeat a full pass until nothing changes" computations
    of NULLABLE, FIRST and FOLLOW, the SELECT table and the pairwise LL(1)
    conflict scan. Each method is proved against the least-solution
    characterisation of module Grammar. */
module Analysis {
  import opened Symbols
  import opened Grammar

  // ------------------------------------------------------------ helpers

  lemma SubsetCard(a: set<Symbol>, b: set<Symbol>)
    requires a <= b
    ensures |a| <= |b|
    ensures a < b ==> |a| < |b|
  {
    assert b == a + (b - a);
    assert a * (b - a) == {};
  }

  /** The (key, element) pairs of `keys` x `universe` not yet present in `m`:
      the measure that shrinks on every pass that changes something. */
  ghost function Missing(m: SymbolSets, keys: set<Symbol>, universe: set<Symbol>): set<(Symbol, Symbol)>
  {
    set a, x | a in keys && x in universe && (a !in m || x !in m[a]) :: (a, x)
  }

  /** `after` has the keys of `before` and every entry has only grown. */
  ghost predicate Grown(before: SymbolSets, after: SymbolSets)
  {
    before.Keys == after.Keys && Below(before, after)
  }

  lemma MissingShrinks(before: SymbolSets, after: SymbolSets, keys: set<Symbol>, universe: set<Symbol>)
    requires Grown(before, after)
    ensures Missing(after, keys, universe) <= Missing(before, keys, universe)
  {
  }

  /** Adding a new element of the universe to the entry of a key removes one missing pair. */
  lemma MissingUpdate(m: SymbolSets, a: Symbol, add: set<Symbol>, keys: set<Symbol>, universe: set<Symbol>)
    requires a in m && a in keys && add <= universe && !(add <= m[a])
    ensures Missing(m[a := m[a] + add], keys, universe) < Missing(m, keys, universe)
  {
    var x :| x in add && x !in m[a];
    assert (a, x) in Missing(m, keys, universe);
    MissingShrinks(m, m[a := m[a] + add], keys, universe);
  }

  // ------------------------------------------------ find_terminals_and_nonterminals

  /** Nonterminals are the rule heads; terminals are the body symbols that are
      not heads; the two are disjoint. */
  method FindTerminalsAndNonterminals(g: Grammar) returns (terminals: set<Symbol>, nonterminals: set<Symbol>)
    ensures nonterminals == Nonterminals(g)
    ensures terminals == Terminals(g)
    ensures terminals !! nonterminals
  {
    var symbols: set<Symbol> := {};
    nonterminals := {};
    for k := 0 to |g|
      invariant nonterminals == Nonterminals(g[..k])
      invariant symbols == BodySymbols(g[..k])
    {
      assert g[..k + 1] == g[..k] + [g[k]];
      nonterminals := nonterminals + {g[k].head};
      symbols := symbols + (set x | x in g[k].body);
      assert symbols <= BodySymbols(g[..k + 1]) by {
        forall x | x in symbols ensures x in BodySymbols(g[..k + 1]) {
          if x !in BodySymbols(g[..k]) {
            var i :| 0 <= i < |g[k].body| && g[k].body[i] == x;
            assert g[..k + 1][k].body[i] == x;
          } else {
            var k', i :| 0 <= k' < k && 0 <= i < |g[..k][k'].body| && g[..k][k'].body[i] == x;
            assert g[..k + 1][k'].body[i] == x;
          }
        }
      }
    }
    assert g[..|g|] == g;
    terminals := symbols - nonterminals;
  }

  // ---------------------------------------------------------------- is_nullable

  /** True exactly when every symbol of the sequence is nullable; the empty
      sequence is nullable. */
  method IsNullable(s: seq<Symbol>, nullables: set<Symbol>) returns (b: bool)
    ensures b <==> AllIn(s, nullables)
  {
    for i := 0 to |s|
      invariant AllIn(s[..i], nullables)
    {
      if s[i] !in nullables {
        return false;
      }
    }
    return true;
  }

  // --------------------------------------------------------- calculate_nullable

  /** The least set of nonterminals closed under "a rule whose body is all
      nullable has a nullable head". `passes` counts the `while changing`
      iterations: every pass but the last adds a head, so there are at most
      |nonterminals| + 1 of them. */
  method CalculateNullable(g: Grammar) returns (nullable: set<Symbol>, ghost passes: nat)
    ensures IsLeastNullable(g, nullable)
    ensures passes <= |Nonterminals(g)| + 1
  {
    nullable := {};
    for k := 0 to |g|
      invariant nullable <= Nonterminals(g)
      invariant forall m :: NullableClosed(g, m) ==> nullable <= m
    {
      if g[k].body == [] {
        forall m | NullableClosed(g, m) ensures g[k].head in m {
          assert RuleNullableClosed(g[k], m);
        }
        nullable := nullable + {g[k].head};
      }
    }
    passes := 0;
    var changing := true;
    while changing
      invariant nullable <= Nonterminals(g)
      invariant forall m :: NullableClosed(g, m) ==> nullable <= m
      invariant !changing ==> NullableClosed(g, nullable)
      invariant passes <= |nullable| + (if changing then 0 else 1)
      decreases Nonterminals(g) - nullable, changing
    {
      changing := false;
      ghost var before := nullable;
      for k := 0 to |g|
        invariant before <= nullable <= Nonterminals(g)
        invariant forall m :: NullableClosed(g, m) ==> nullable <= m
        invariant changing ==> before < nullable
        invariant !changing ==> nullable == before
        invariant !changing ==> forall j :: 0 <= j < k ==> RuleNullableClosed(g[j], nullable)
      {
        var head, body := g[k].head, g[k].body;
        if (set x | x in body) <= nullable && head !in nullable {
          forall m | NullableClosed(g, m) ensures head in m {
            assert RuleNullableClosed(g[k], m);
          }
          nullable := nullable + {head};
          changing := true;
        }
      }
      SubsetCard(before, nullable);
      passes := passes + 1;
    }
    SubsetCard(nullable, Nonterminals(g));
  }

  // ------------------------------------------------------------ calculate_first

  /** What stays true of the FIRST map across passes: an entry per symbol,
      entries made of terminals, each terminal's entry is itself, and the map
      lies below every FIRST solution. */
  ghost predicate FirstInvariant(g: Grammar, nullable: set<Symbol>, first: SymbolSets)
  {
    && first.Keys == AllSymbols(g)
    && (forall s :: s in first ==> first[s] <= Terminals(g))
    && (forall t :: t in Terminals(g) ==> first[t] == {t})
    && forall other :: IsFirstSolution(g, nullable, other) ==> Below(first, other)
  }

  /** Adding FIRST(body[i]) to FIRST(head) at a position with nullable prefix
      keeps the invariant. */
  lemma FirstStep(g: Grammar, nullable: set<Symbol>, first: SymbolSets, k: int, i: int)
    requires FirstInvariant(g, nullable, first)
    requires 0 <= k < |g| && 0 <= i < |g[k].body| && AllIn(g[k].body[..i], nullable)
    ensures g[k].head in first && g[k].body[i] in first
    ensures FirstInvariant(g, nullable, first[g[k].head := first[g[k].head] + first[g[k].body[i]]])
  {
    RuleSymbolsKnown(g);
    var head, b := g[k].head, g[k].body[i];
    var first' := first[head := first[head] + first[b]];
    forall other | IsFirstSolution(g, nullable, other) ensures Below(first', other) {
      assert RuleFirstClosed(g[k], nullable, other);
    }
  }

  /** FIRST starts as {t} for every terminal t and {} for every nonterminal. */
  lemma FirstInitial(g: Grammar, nullable: set<Symbol>, first: SymbolSets)
    requires first == map s | s in Terminals(g) + Nonterminals(g) :: if s in Terminals(g) then {s} else {}
    ensures FirstInvariant(g, nullable, first)
  {
    forall other | IsFirstSolution(g, nullable, other) ensures Below(first, other) {
    }
  }

  /** A closed map satisfying the invariant is the least FIRST solution. */
  lemma FirstFinal(g: Grammar, nullable: set<Symbol>, first: SymbolSets)
    requires FirstInvariant(g, nullable, first) && FirstClosed(g, nullable, first)
    ensures IsLeastFirst(g, nullable, first)
  {
  }

  /** One rule's share of a FIRST pass (the loop over the positions of its
      body). Without a change, the rule's constraint holds. */
  method FirstRulePass(g: Grammar, nullable: set<Symbol>, first: SymbolSets, k: int)
    returns (first': SymbolSets, changed: bool)
    requires 0 <= k < |g|
    requires FirstInvariant(g, nullable, first)
    ensures FirstInvariant(g, nullable, first')
    ensures Grown(first, first')
    ensures changed ==> Missing(first', Nonterminals(g), Terminals(g)) < Missing(first, Nonterminals(g), Terminals(g))
    ensures !changed ==> first' == first && RuleFirstClosed(g[k], nullable, first)
  {
    RuleSymbolsKnown(g);
    first', changed := first, false;
    var head, body := g[k].head, g[k].body;
    for i := 0 to |body|
      invariant FirstInvariant(g, nullable, first')
      invariant Grown(first, first')
      invariant changed ==> Missing(first', Nonterminals(g), Terminals(g)) < Missing(first, Nonterminals(g), Terminals(g))
      invariant !changed ==> first' == first
      invariant !changed ==> forall i' :: 0 <= i' < i && AllIn(body[..i'], nullable) ==>
                               first[body[i']] <= first[head]
    {
      var prefixNullable := IsNullable(body[0..i], nullable);
      if prefixNullable && !(first'[body[i]] <= first'[head]) {
        FirstStep(g, nullable, first', k, i);
        MissingShrinks(first, first', Nonterminals(g), Terminals(g));
        MissingUpdate(first', head, first'[body[i]], Nonterminals(g), Terminals(g));
        first' := first'[head := first'[head] + first'[body[i]]];
        changed := true;
      }
    }
  }

  /** One pass of the FIRST loop over all rules. Without a change, every
      rule's constraint holds. */
  method FirstPass(g: Grammar, nullable: set<Symbol>, first: SymbolSets)
    returns (first': SymbolSets, changing: bool)
    requires FirstInvariant(g, nullable, first)
    ensures FirstInvariant(g, nullable, first')
    ensures changing ==> Missing(first', Nonterminals(g), Terminals(g)) < Missing(first, Nonterminals(g), Terminals(g))
    ensures !changing ==> first' == first && FirstClosed(g, nullable, first)
  {
    first', changing := first, false;
    for k := 0 to |g|
      invariant FirstInvariant(g, nullable, first')
      invariant Grown(first, first')
      invariant changing ==> Missing(first', Nonterminals(g), Terminals(g)) < Missing(first, Nonterminals(g), Terminals(g))
      invariant !changing ==> first' == first
      invariant !changing ==> forall j :: 0 <= j < k ==> RuleFirstClosed(g[j], nullable, first)
    {
      var changed;
      ghost var current := first';
      first', changed := FirstRulePass(g, nullable, first', k);
      MissingShrinks(first, current, Nonterminals(g), Terminals(g));
      changing := changing || changed;
    }
  }

  /** The least FIRST map for the given nullable set. */
  method CalculateFirst(terminals: set<Symbol>, nonterminals: set<Symbol>, g: Grammar, nullable: set<Symbol>)
    returns (first: SymbolSets)
    requires terminals == Terminals(g) && nonterminals == Nonterminals(g)
    ensures IsLeastFirst(g, nullable, first)
  {
    first := map s | s in terminals + nonterminals :: if s in terminals then {s} else {};
    FirstInitial(g, nullable, first);
    var changing := true;
    while changing
      invariant FirstInvariant(g, nullable, first)
      invariant !changing ==> FirstClosed(g, nullable, first)
      decreases Missing(first, nonterminals, terminals), changing
    {
      first, changing := FirstPass(g, nullable, first);
    }
    FirstFinal(g, nullable, first);
  }

  // ----------------------------------------------------------- calculate_follow

  /** The terminals FIRST can contribute, plus EOF: every FOLLOW entry stays inside. */
  ghost function FollowUniverse(first: SymbolSets): set<Symbol>
  {
    {EOF} + set s, x | s in first && x in first[s] :: x
  }

  /** What stays true of the FOLLOW map across passes. */
  ghost predicate FollowInvariant(g: Grammar, nullable: set<Symbol>, first: SymbolSets, follow: SymbolSets)
    requires |g| > 0
  {
    && follow.Keys == Nonterminals(g)
    && EOF in follow[Start(g)]
    && (forall a :: a in follow ==> follow[a] <= FollowUniverse(first))
    && forall other :: IsFollowSolution(g, nullable, first, other) ==> Below(follow, other)
  }

  /** Adding FOLLOW(head) to FOLLOW(body[i]) when body[i+1..] is nullable. */
  lemma FollowAfterStep(g: Grammar, nullable: set<Symbol>, first: SymbolSets, follow: SymbolSets, k: int, i: int)
    requires |g| > 0 && AllSymbols(g) <= first.Keys
    requires FollowInvariant(g, nullable, first, follow)
    requires 0 <= k < |g| && 0 <= i < |g[k].body| && g[k].body[i] in Nonterminals(g)
    requires AllIn(g[k].body[i + 1..], nullable)
    ensures g[k].head in follow && g[k].body[i] in follow
    ensures FollowInvariant(g, nullable, first,
              follow[g[k].body[i] := follow[g[k].body[i]] + follow[g[k].head]])
  {
    RuleSymbolsKnown(g);
    var a, b := g[k].head, g[k].body[i];
    var follow' := follow[b := follow[b] + follow[a]];
    forall other | IsFollowSolution(g, nullable, first, other) ensures Below(follow', other) {
      assert RuleFollowClosed(g[k], Nonterminals(g), nullable, first, other);
      assert FollowAfterAt(g[k], i, nullable, other);
    }
  }

  /** Adding FIRST(body[j]) to FOLLOW(body[i]) when body[i+1..j] is nullable. */
  lemma FollowFirstStep(g: Grammar, nullable: set<Symbol>, first: SymbolSets, follow: SymbolSets,
                        k: int, i: int, j: int)
    requires |g| > 0 && AllSymbols(g) <= first.Keys
    requires FollowInvariant(g, nullable, first, follow)
    requires 0 <= k < |g| && 0 <= i < j < |g[k].body| && g[k].body[i] in Nonterminals(g)
    requires AllIn(g[k].body[i + 1..j], nullable)
    ensures g[k].body[j] in first && g[k].body[i] in follow
    ensures FollowInvariant(g, nullable, first,
              follow[g[k].body[i] := follow[g[k].body[i]] + first[g[k].body[j]]])
  {
    RuleSymbolsKnown(g);
    var b, c := g[k].body[i], g[k].body[j];
    var follow' := follow[b := follow[b] + first[c]];
    assert first[c] <= FollowUniverse(first);
    forall other | IsFollowSolution(g, nullable, first, other) ensures Below(follow', other) {
      assert RuleFollowClosed(g[k], Nonterminals(g), nullable, first, other);
      assert FollowFirstAt(g[k], i, j, nullable, first, other);
    }
  }

  /** Rule (a) over one rule's body: the first inner loop of a FOLLOW pass. */
  method FollowAfterPass(terminals: set<Symbol>, g: Grammar, nullable: set<Symbol>,
                         first: SymbolSets, follow: SymbolSets, k: int)
    returns (follow': SymbolSets, changed: bool)
    requires |g| > 0 && 0 <= k < |g|
    requires terminals == Terminals(g) && AllSymbols(g) <= first.Keys
    requires FollowInvariant(g, nullable, first, follow)
    ensures FollowInvariant(g, nullable, first, follow')
    ensures Grown(follow, follow')
    ensures changed ==> Missing(follow', Nonterminals(g), FollowUniverse(first))
                        < Missing(follow, Nonterminals(g), FollowUniverse(first))
    ensures !changed ==> follow' == follow
    ensures !changed ==> forall i :: 0 <= i < |g[k].body| && g[k].body[i] in Nonterminals(g) ==>
                           FollowAfterAt(g[k], i, nullable, follow)
  {
    RuleSymbolsKnown(g);
    ghost var universe := FollowUniverse(first);
    follow', changed := follow, false;
    var head, body := g[k].head, g[k].body;
    for i := 0 to |body|
      invariant FollowInvariant(g, nullable, first, follow')
      invariant Grown(follow, follow')
      invariant changed ==> Missing(follow', Nonterminals(g), universe) < Missing(follow, Nonterminals(g), universe)
      invariant !changed ==> follow' == follow
      invariant !changed ==> forall i' :: 0 <= i' < i && body[i'] in Nonterminals(g) ==>
                               FollowAfterAt(g[k], i', nullable, follow)
    {
      if body[i] !in terminals {
        var suffixNullable := IsNullable(body[i + 1..], nullable);
        if suffixNullable && !(follow'[head] <= follow'[body[i]]) {
          FollowAfterStep(g, nullable, first, follow', k, i);
          MissingShrinks(follow, follow', Nonterminals(g), universe);
          MissingUpdate(follow', body[i], follow'[head], Nonterminals(g), universe);
          follow' := follow'[body[i] := follow'[body[i]] + follow'[head]];
          changed := true;
        }
      }
    }
  }

  /** Rule (b) for one nonterminal position i of one rule: the loop over j. */
  method FollowFirstPass(g: Grammar, nullable: set<Symbol>,
                         first: SymbolSets, follow: SymbolSets, k: int, i: int)
    returns (follow': SymbolSets, changed: bool)
    requires |g| > 0 && 0 <= k < |g| && 0 <= i < |g[k].body|
    requires g[k].body[i] in Nonterminals(g)
    requires AllSymbols(g) <= first.Keys
    requires FollowInvariant(g, nullable, first, follow)
    ensures FollowInvariant(g, nullable, first, follow')
    ensures Grown(follow, follow')
    ensures changed ==> Missing(follow', Nonterminals(g), FollowUniverse(first))
                        < Missing(follow, Nonterminals(g), FollowUniverse(first))
    ensures !changed ==> follow' == follow
    ensures !changed ==> forall j :: i < j < |g[k].body| ==> FollowFirstAt(g[k], i, j, nullable, first, follow)
  {
    RuleSymbolsKnown(g);
    ghost var universe := FollowUniverse(first);
    follow', changed := follow, false;
    var body := g[k].body;
    for j := i + 1 to |body|
      invariant FollowInvariant(g, nullable, first, follow')
      invariant Grown(follow, follow')
      invariant changed ==> Missing(follow', Nonterminals(g), universe) < Missing(follow, Nonterminals(g), universe)
      invariant !changed ==> follow' == follow
      invariant !changed ==> forall j' :: i < j' < j ==> FollowFirstAt(g[k], i, j', nullable, first, follow)
    {
      var interiorNullable := IsNullable(body[i + 1..j], nullable);
      if interiorNullable && !(first[body[j]] <= follow'[body[i]]) {
        FollowFirstStep(g, nullable, first, follow', k, i, j);
        MissingShrinks(follow, follow', Nonterminals(g), universe);
        MissingUpdate(follow', body[i], first[body[j]], Nonterminals(g), universe);
        follow' := follow'[body[i] := follow'[body[i]] + first[body[j]]];
        changed := true;
      }
    }
  }

  /** One rule's share of a FOLLOW pass: rule (a) at every nonterminal
      position, then rule (b) for every nonterminal position but the last. */
  method FollowRulePass(terminals: set<Symbol>, g: Grammar, nullable: set<Symbol>,
                        first: SymbolSets, follow: SymbolSets, k: int)
    returns (follow': SymbolSets, changed: bool)
    requires |g| > 0 && 0 <= k < |g|
    requires terminals == Terminals(g) && AllSymbols(g) <= first.Keys
    requires FollowInvariant(g, nullable, first, follow)
    ensures FollowInvariant(g, nullable, first, follow')
    ensures Grown(follow, follow')
    ensures changed ==> Missing(follow', Nonterminals(g), FollowUniverse(first))
                        < Missing(follow, Nonterminals(g), FollowUniverse(first))
    ensures !changed ==> follow' == follow && RuleFollowClosed(g[k], Nonterminals(g), nullable, first, follow)
  {
    RuleSymbolsKnown(g);
    ghost var universe := FollowUniverse(first);
    var body := g[k].body;
    follow', changed := FollowAfterPass(terminals, g, nullable, first, follow, k);
    var i := 0;
    while i < |body| - 1
      invariant 0 <= i
      invariant FollowInvariant(g, nullable, first, follow')
      invariant Grown(follow, follow')
      invariant changed ==> Missing(follow', Nonterminals(g), universe) < Missing(follow, Nonterminals(g), universe)
      invariant !changed ==> follow' == follow
      invariant !changed ==> forall i' :: 0 <= i' < |body| && body[i'] in Nonterminals(g) ==>
                               FollowAfterAt(g[k], i', nullable, follow)
      invariant !changed ==> forall i', j :: 0 <= i' < i && i' < j < |body| && body[i'] in Nonterminals(g) ==>
                               FollowFirstAt(g[k], i', j, nullable, first, follow)
    {
      if body[i] !in terminals {
        var changedHere;
        ghost var current := follow';
        follow', changedHere := FollowFirstPass(g, nullable, first, follow', k, i);
        MissingShrinks(follow, current, Nonterminals(g), universe);
        changed := changed || changedHere;
      }
      i := i + 1;
    }
  }

  /** One pass of the FOLLOW loop over all rules. Without a change, every
      rule's constraint holds. */
  method FollowPass(terminals: set<Symbol>, g: Grammar, nullable: set<Symbol>,
                    first: SymbolSets, follow: SymbolSets)
    returns (follow': SymbolSets, changing: bool)
    requires |g| > 0
    requires terminals == Terminals(g) && AllSymbols(g) <= first.Keys
    requires FollowInvariant(g, nullable, first, follow)
    ensures FollowInvariant(g, nullable, first, follow')
    ensures changing ==> Missing(follow', Nonterminals(g), FollowUniverse(first))
                           < Missing(follow, Nonterminals(g), FollowUniverse(first))
    ensures !changing ==> follow' == follow && FollowClosed(g, nullable, first, follow)
  {
    ghost var universe := FollowUniverse(first);
    follow', changing := follow, false;
    for k := 0 to |g|
      invariant FollowInvariant(g, nullable, first, follow')
      invariant Grown(follow, follow')
      invariant changing ==> Missing(follow', Nonterminals(g), universe) < Missing(follow, Nonterminals(g), universe)
      invariant !changing ==> follow' == follow
      invariant !changing ==> forall k' :: 0 <= k' < k ==> RuleFollowClosed(g[k'], Nonterminals(g), nullable, first, follow)
    {
      var changed;
      ghost var current := follow';
      follow', changed := FollowRulePass(terminals, g, nullable, first, follow', k);
      MissingShrinks(follow, current, Nonterminals(g), universe);
      changing := changing || changed;
    }
  }

  /** The least FOLLOW map for the given nullable set and FIRST map. The start
      symbol is the head of the first rule, so the grammar must not be empty. */
  method CalculateFollow(terminals: set<Symbol>, nonterminals: set<Symbol>, g: Grammar,
                         nullable: set<Symbol>, first: SymbolSets)
    returns (follow: SymbolSets)
    requires |g| > 0
    requires terminals == Terminals(g) && nonterminals == Nonterminals(g)
    requires AllSymbols(g) <= first.Keys
    ensures IsLeastFollow(g, nullable, first, follow)
  {
    RuleSymbolsKnown(g);
    ghost var universe := FollowUniverse(first);
    follow := map a | a in nonterminals :: {};
    var startNonterminal := g[0].head;
    follow := follow[startNonterminal := {EOF}];

    var changing := true;
    while changing
      invariant FollowInvariant(g, nullable, first, follow)
      invariant !changing ==> FollowClosed(g, nullable, first, follow)
      decreases Missing(follow, nonterminals, universe), changing
    {
      follow, changing := FollowPass(terminals, g, nullable, first, follow);
    }
  }

  // ----------------------------------------------------------- calculate_select

  /** SELECT of one rule: FIRST of each body symbol up to and including the
      first non-nullable one (the walk stops there), plus FOLLOW(head) when the
      whole body is nullable. */
  method SelectOfRule(r: Rule, nullable: set<Symbol>, first: SymbolSets, follow: SymbolSets)
    returns (select: set<Symbol>)
    requires forall i :: 0 <= i < |r.body| ==> r.body[i] in first
    requires r.head in follow
    ensures select == SelectOf(r, nullable, first, follow)
  {
    var head, body := r.head, r.body;
    select := {};
    if body != [] {
      var i := 0;
      while i < |body|
        invariant 0 <= i <= |body|
        invariant select + FirstOfSeq(body[i..], nullable, first) == FirstOfSeq(body, nullable, first)
      {
        assert body[i..][1..] == body[i + 1..];
        select := select + first[body[i]];
        var itemNullable := IsNullable([body[i]], nullable);
        if !itemNullable {
          break;
        }
        assert [body[i]][0] == body[i];
        assert FirstOfSeq(body[i..], nullable, first) == first[body[i]] + FirstOfSeq(body[i + 1..], nullable, first);
        i := i + 1;
      }
    }
    var bodyNullable := IsNullable(body, nullable);
    if bodyNullable {
      select := select + follow[head];
    }
  }

  /** The SELECT table, keyed by the full rule value: a rule listed twice
      has one entry. */
  method CalculateSelect(g: Grammar, nullable: set<Symbol>, first: SymbolSets, follow: SymbolSets)
    returns (select: map<Rule, set<Symbol>>)
    requires SelectDefined(g, first, follow)
    ensures select.Keys == set k | 0 <= k < |g| :: g[k]
    ensures forall k :: 0 <= k < |g| ==> select[g[k]] == SelectOf(g[k], nullable, first, follow)
  {
    select := map[];
    for k := 0 to |g|
      invariant select.Keys == set k' | 0 <= k' < k :: g[k']
      invariant forall k' :: 0 <= k' < k ==> select[g[k']] == SelectOf(g[k'], nullable, first, follow)
    {
      var s := SelectOfRule(g[k], nullable, first, follow);
      select := select[g[k] := s];
    }
  }

  // ----------------------------------------------------------------- LL(1) scan

  /** The pairwise scan over rule indices i < j: the grammar is LL(1) exactly
      when no two rules with the same head have intersecting SELECT entries. */
  method NoSelectConflicts(g: Grammar, select: map<Rule, set<Symbol>>) returns (ll1: bool)
    requires forall k :: 0 <= k < |g| ==> g[k] in select
    ensures ll1 <==> forall i, j :: !Conflict(g, select, i, j)
  {
    ll1 := true;
    var n := |g|;
    for i := 0 to n
      invariant ll1 <==> forall i', j :: i' < i ==> !Conflict(g, select, i', j)
    {
      for j := i + 1 to n
        invariant ll1 <==> (forall i', j' :: i' < i ==> !Conflict(g, select, i', j'))
                           && forall j' :: j' < j ==> !Conflict(g, select, i, j')
      {
        var r1, r2 := g[i], g[j];
        if r1.head == r2.head && select[r1] * select[r2] != {} {
          assert Conflict(g, select, i, j);
          ll1 := false;
        } else {
          assert !Conflict(g, select, i, j);
        }
      }
    }
  }

  lemma LeastResultsDefineSelect(g: Grammar, nullable: set<Symbol>, first: SymbolSets, follow: SymbolSets)
    requires |g| > 0
    requires IsLeastFirst(g, nullable, first) && IsLeastFollow(g, nullable, first, follow)
    ensures SelectDefined(g, first, follow)
  {
    RuleSymbolsKnown(g);
  }

  /** The scan over a SELECT table built by CalculateSelect decides IsLL1Grammar. */
  lemma ConflictFreeIsLL1(g: Grammar, select: map<Rule, set<Symbol>>, nullable: set<Symbol>,
                          first: SymbolSets, follow: SymbolSets)
    requires SelectDefined(g, first, follow)
    requires forall k :: 0 <= k < |g| ==> g[k] in select && select[g[k]] == SelectOf(g[k], nullable, first, follow)
    ensures (forall i, j :: !Conflict(g, select, i, j)) <==> IsLL1Grammar(g, nullable, first, follow)
  {
    if forall i, j :: !Conflict(g, select, i, j) {
      forall i, j | 0 <= i < j < |g| && g[i].head == g[j].head
        ensures SelectOf(g[i], nullable, first, follow) * SelectOf(g[j], nullable, first, follow) == {}
      {
        assert !Conflict(g, select, i, j);
      }
    }
  }

  /** The whole analysis of a non-empty grammar: the result is true exactly
      when the grammar is LL(1) for the least NULLABLE, FIRST and FOLLOW
      (returned as ghost results so that the contract can name them). */
  method IsLL1(g: Grammar) returns (ll1: bool, ghost nullable: set<Symbol>,
                                    ghost first: SymbolSets, ghost follow: SymbolSets)
    requires |g| > 0
    ensures IsLeastNullable(g, nullable)
    ensures IsLeastFirst(g, nullable, first)
    ensures IsLeastFollow(g, nullable, first, follow)
    ensures SelectDefined(g, first, follow)
    ensures ll1 <==> IsLL1Grammar(g, nullable, first, follow)
  {
    RuleSymbolsKnown(g);
    var terminals, nonterminals := FindTerminalsAndNonterminals(g);
    var n, _ := CalculateNullable(g);
    var f := CalculateFirst(terminals, nonterminals, g, n);
    var fo := CalculateFollow(terminals, nonterminals, g, n, f);
    LeastResultsDefineSelect(g, n, f, fo);
    var select := CalculateSelect(g, n, f, fo);
    ll1 := NoSelectConflicts(g, select);
    ConflictFreeIsLL1(g, select, n, f, fo);
    nullable, first, follow := n, f, fo;
  }
}
