/** The example grammars the analyser is run on, with their NULLABLE, FIRST,
    FOLLOW and LL(1) verdicts established once and for all inputs of the
    analysis (each lemma holds for whatever least solutions there are, so in
    particular for the ones `IsLL1` computes). */
module Fixtures {
  import opened Symbols
  import opened Grammar
  import opened Analysis
  import opened Properties

  // ---------------------------------------------------------- recitation

  /** The statement/expression grammar of the recitation. */
  const Recitation: Grammar := [
    Rule(S, [ID, ASSIGN, E]),
    Rule(S, [IF, LP, E, RP, S, ELSE, S]),
    Rule(E, [T, EP]),
    Rule(T, [ID]),
    Rule(T, [LP, E, RP]),
    Rule(EP, []),
    Rule(EP, [PLUS, E])
  ]

  /** Its FIRST sets. */
  const RecitationFirst: SymbolSets := map[
    ID := {ID}, ASSIGN := {ASSIGN}, IF := {IF}, LP := {LP}, RP := {RP}, ELSE := {ELSE}, PLUS := {PLUS},
    S := {ID, IF}, E := {ID, LP}, T := {ID, LP}, EP := {PLUS}]

  /** Its FOLLOW sets. */
  const RecitationFollow: SymbolSets := map[
    S := {EOF, ELSE}, E := {EOF, ELSE, RP}, T := {PLUS, EOF, ELSE, RP}, EP := {EOF, ELSE, RP}]

  lemma RecitationSymbols()
    ensures Nonterminals(Recitation) == {S, E, T, EP}
    ensures Terminals(Recitation) == {ID, ASSIGN, IF, LP, RP, ELSE, PLUS}
  {
    var g := Recitation;
    assert g[0].head == S && g[2].head == E && g[3].head == T && g[5].head == EP;
    assert g[0].body[0] == ID && g[0].body[1] == ASSIGN && g[1].body[0] == IF && g[1].body[1] == LP;
    assert g[1].body[3] == RP && g[1].body[5] == ELSE && g[6].body[0] == PLUS;
  }

  /** Only EP, the head of the epsilon rule, is nullable. */
  lemma RecitationNullable(nullable: set<Symbol>)
    requires IsLeastNullable(Recitation, nullable)
    ensures nullable == {EP}
  {
    var g := Recitation;
    assert RuleNullableClosed(g[5], nullable);
    forall k | 0 <= k < |g| ensures RuleNullableClosed(g[k], {EP}) {
      if k != 5 {
        LeadingNotNullable(g[k], {EP});
      }
    }
    assert NullableClosed(g, {EP});
  }

  lemma RecitationFirstRule(k: int)
    requires 0 <= k < |Recitation|
    ensures RuleFirstClosed(Recitation[k], {EP}, RecitationFirst)
  {
    var g, f := Recitation, RecitationFirst;
    if k == 0 { LeadingFirstClosed(g[0], {EP}, f); }
    else if k == 1 { LeadingFirstClosed(g[1], {EP}, f); }
    else if k == 2 { LeadingFirstClosed(g[2], {EP}, f); }
    else if k == 3 { LeadingFirstClosed(g[3], {EP}, f); }
    else if k == 4 { LeadingFirstClosed(g[4], {EP}, f); }
    else if k == 6 { LeadingFirstClosed(g[6], {EP}, f); }
  }

  lemma RecitationFirstKeyed()
    ensures RecitationFirst.Keys == AllSymbols(Recitation)
    ensures forall t :: t in Terminals(Recitation) ==> t in RecitationFirst[t]
  {
    RecitationSymbols();
  }

  lemma RecitationFirstSolution()
    ensures IsFirstSolution(Recitation, {EP}, RecitationFirst)
  {
    RecitationFirstKeyed();
    forall k | 0 <= k < |Recitation| ensures RuleFirstClosed(Recitation[k], {EP}, RecitationFirst) {
      RecitationFirstRule(k);
    }
  }

  lemma RecitationFirstKeys(first: SymbolSets)
    requires first.Keys == AllSymbols(Recitation)
    ensures first.Keys == RecitationFirst.Keys
  {
    RecitationSymbols();
  }

  lemma RecitationFirstTerminals(first: SymbolSets)
    requires first.Keys == RecitationFirst.Keys
    requires forall t :: t in Terminals(Recitation) ==> t in first[t]
    ensures ID in first[ID] && ASSIGN in first[ASSIGN] && IF in first[IF] && LP in first[LP]
    ensures RP in first[RP] && ELSE in first[ELSE] && PLUS in first[PLUS]
  {
    RecitationSymbols();
  }

  lemma RecitationFirstChains(first: SymbolSets)
    requires first.Keys == RecitationFirst.Keys && FirstClosed(Recitation, {EP}, first)
    requires ID in first[ID] && IF in first[IF] && LP in first[LP] && PLUS in first[PLUS]
    ensures ID in first[S] && IF in first[S] && PLUS in first[EP]
    ensures ID in first[T] && LP in first[T] && ID in first[E] && LP in first[E]
  {
    var g, n := Recitation, {EP};
    LeadingFirstBelow(g, 0, n, first);
    LeadingFirstBelow(g, 1, n, first);
    LeadingFirstBelow(g, 2, n, first);
    LeadingFirstBelow(g, 3, n, first);
    LeadingFirstBelow(g, 4, n, first);
    LeadingFirstBelow(g, 6, n, first);
  }

  lemma RecitationFirstCollected(first: SymbolSets)
    requires first.Keys == RecitationFirst.Keys
    requires ID in first[ID] && ASSIGN in first[ASSIGN] && IF in first[IF] && LP in first[LP]
    requires RP in first[RP] && ELSE in first[ELSE] && PLUS in first[PLUS]
    requires ID in first[S] && IF in first[S] && PLUS in first[EP]
    requires ID in first[T] && LP in first[T] && ID in first[E] && LP in first[E]
    ensures Below(RecitationFirst, first)
  {
  }

  /** Every FIRST solution contains the FIRST sets above. */
  lemma RecitationFirstLower(first: SymbolSets)
    requires IsFirstSolution(Recitation, {EP}, first)
    ensures Below(RecitationFirst, first)
  {
    RecitationFirstKeys(first);
    RecitationFirstTerminals(first);
    RecitationFirstChains(first);
    RecitationFirstCollected(first);
  }

  /** On the recitation grammar FIRST(E) = FIRST(T) = {ID, LP}; the whole
      FIRST map is `RecitationFirst`. */
  lemma RecitationFirstSets(nullable: set<Symbol>, first: SymbolSets)
    requires IsLeastNullable(Recitation, nullable)
    requires IsLeastFirst(Recitation, nullable, first)
    ensures first == RecitationFirst
    ensures first[E] == first[T] == {ID, LP}
  {
    RecitationNullable(nullable);
    RecitationFirstSolution();
    RecitationFirstLower(first);
    SameWhenBelowBothWays(first, RecitationFirst);
  }

  /** In `S -> IF ( E ) S ELSE S` the nonterminals sit at 2, 4 and 6, and
      what follows them begins with RP, with ELSE, and with nothing. */
  lemma RecitationIfPositions()
    ensures forall i :: 0 <= i < |Recitation[1].body| && Recitation[1].body[i] in {S, E, T, EP} ==> i in {2, 4, 6}
    ensures Recitation[1].body[2] == E && Recitation[1].body[4] == S && Recitation[1].body[6] == S
    ensures FirstOfSeq(Recitation[1].body[3..], {EP}, RecitationFirst) == {RP}
    ensures FirstOfSeq(Recitation[1].body[5..], {EP}, RecitationFirst) == {ELSE}
    ensures Recitation[1].body[7..] == []
  {
  }

  lemma RecitationFollowStatement()
    ensures RuleFollowClosed(Recitation[1], {S, E, T, EP}, {EP}, RecitationFirst, RecitationFollow)
  {
    RecitationIfPositions();
    FollowRuleClosed(Recitation[1], {S, E, T, EP}, {EP}, RecitationFirst, RecitationFollow, {2, 4, 6});
  }

  lemma RecitationFollowRule(k: int)
    requires 0 <= k < |Recitation|
    ensures RuleFollowClosed(Recitation[k], {S, E, T, EP}, {EP}, RecitationFirst, RecitationFollow)
  {
    var g, nt, n, f, fo := Recitation, {S, E, T, EP}, {EP}, RecitationFirst, RecitationFollow;
    if k == 0 { FollowRuleClosed(g[0], nt, n, f, fo, {2}); }
    else if k == 1 { RecitationFollowStatement(); }
    else if k == 2 { FollowRuleClosed(g[2], nt, n, f, fo, {0, 1}); }
    else if k == 3 { FollowRuleClosed(g[3], nt, n, f, fo, {}); }
    else if k == 4 { FollowRuleClosed(g[4], nt, n, f, fo, {1}); }
    else if k == 5 { FollowRuleClosed(g[5], nt, n, f, fo, {}); }
    else { FollowRuleClosed(g[6], nt, n, f, fo, {1}); }
  }

  lemma RecitationFollowSolution()
    ensures IsFollowSolution(Recitation, {EP}, RecitationFirst, RecitationFollow)
  {
    RecitationSymbols();
    assert RecitationFollow.Keys == Nonterminals(Recitation);
    forall k | 0 <= k < |Recitation|
      ensures RuleFollowClosed(Recitation[k], Nonterminals(Recitation), {EP}, RecitationFirst, RecitationFollow)
    {
      RecitationFollowRule(k);
    }
  }

  lemma RecitationFollowKeys(follow: SymbolSets)
    requires follow.Keys == Nonterminals(Recitation)
    ensures follow.Keys == RecitationFollow.Keys
  {
    RecitationSymbols();
  }

  /** What rules 0 and 1 put into FOLLOW(S) and FOLLOW(E). */
  lemma RecitationFollowStatementChains(follow: SymbolSets)
    requires follow.Keys == RecitationFollow.Keys && FollowClosed(Recitation, {EP}, RecitationFirst, follow)
    ensures follow[S] <= follow[E] && RP in follow[E] && ELSE in follow[S]
  {
    var g, n, f := Recitation, {EP}, RecitationFirst;
    assert g[0].head == S && g[2].head == E;
    FollowAfterBelow(g, 0, n, f, follow, 2);
    assert g[1].body[3..3] == [] && g[1].body[5..5] == [];
    FollowFirstBelow(g, 1, n, f, follow, 2, 3);
    FollowFirstBelow(g, 1, n, f, follow, 4, 5);
  }

  /** What rule 2, E -> T EP, puts into FOLLOW(T) and FOLLOW(EP). */
  lemma RecitationFollowExpressionChains(follow: SymbolSets)
    requires follow.Keys == RecitationFollow.Keys && FollowClosed(Recitation, {EP}, RecitationFirst, follow)
    ensures PLUS in follow[T] && follow[E] <= follow[T] && follow[E] <= follow[EP]
  {
    var g, n, f := Recitation, {EP}, RecitationFirst;
    assert g[3].head == T && g[5].head == EP;
    assert g[2].body[1..1] == [] && g[2].body[1..] == [EP] && g[2].body[2..] == [];
    FollowFirstBelow(g, 2, n, f, follow, 0, 1);
    FollowAfterBelow(g, 2, n, f, follow, 0);
    FollowAfterBelow(g, 2, n, f, follow, 1);
  }

  lemma RecitationFollowCollected(follow: SymbolSets)
    requires follow.Keys == RecitationFollow.Keys
    requires EOF in follow[S] && ELSE in follow[S] && follow[S] <= follow[E] && RP in follow[E]
    requires PLUS in follow[T] && follow[E] <= follow[T] && follow[E] <= follow[EP]
    ensures Below(RecitationFollow, follow)
  {
  }

  /** Every FOLLOW solution contains the FOLLOW sets above. */
  lemma RecitationFollowLower(follow: SymbolSets)
    requires IsFollowSolution(Recitation, {EP}, RecitationFirst, follow)
    ensures Below(RecitationFollow, follow)
  {
    RecitationFollowKeys(follow);
    RecitationFollowStatementChains(follow);
    RecitationFollowExpressionChains(follow);
    RecitationFollowCollected(follow);
  }

  /** The FOLLOW map of the recitation grammar is `RecitationFollow`. */
  lemma RecitationFollowSets(nullable: set<Symbol>, first: SymbolSets, follow: SymbolSets)
    requires IsLeastNullable(Recitation, nullable)
    requires IsLeastFirst(Recitation, nullable, first)
    requires IsLeastFollow(Recitation, nullable, first, follow)
    ensures follow == RecitationFollow
  {
    RecitationNullable(nullable);
    RecitationFirstSets(nullable, first);
    RecitationFollowSolution();
    RecitationFollowLower(follow);
    SameWhenBelowBothWays(follow, RecitationFollow);
  }

  lemma RecitationSelectDefined()
    ensures SelectDefined(Recitation, RecitationFirst, RecitationFollow)
  {
    RecitationSymbols();
    RuleSymbolsKnown(Recitation);
  }

  /** SELECT of each recitation rule. */
  lemma RecitationSelects()
    ensures SelectDefined(Recitation, RecitationFirst, RecitationFollow)
    ensures SelectOf(Recitation[0], {EP}, RecitationFirst, RecitationFollow) == {ID}
    ensures SelectOf(Recitation[1], {EP}, RecitationFirst, RecitationFollow) == {IF}
    ensures SelectOf(Recitation[2], {EP}, RecitationFirst, RecitationFollow) == {ID, LP}
    ensures SelectOf(Recitation[3], {EP}, RecitationFirst, RecitationFollow) == {ID}
    ensures SelectOf(Recitation[4], {EP}, RecitationFirst, RecitationFollow) == {LP}
    ensures SelectOf(Recitation[5], {EP}, RecitationFirst, RecitationFollow) == {EOF, ELSE, RP}
    ensures SelectOf(Recitation[6], {EP}, RecitationFirst, RecitationFollow) == {PLUS}
  {
    var g, n, f, fo := Recitation, {EP}, RecitationFirst, RecitationFollow;
    RecitationSelectDefined();
    LeadingSelect(g[0], n, f, fo);
    LeadingSelect(g[1], n, f, fo);
    LeadingSelect(g[2], n, f, fo);
    LeadingSelect(g[3], n, f, fo);
    LeadingSelect(g[4], n, f, fo);
    LeadingSelect(g[6], n, f, fo);
  }

  /** Only rules 0/1, 3/4 and 5/6 share a head. */
  lemma RecitationSameHeads()
    ensures forall i, j :: 0 <= i < j < |Recitation| && Recitation[i].head == Recitation[j].head ==>
              (i == 0 && j == 1) || (i == 3 && j == 4) || (i == 5 && j == 6)
  {
    var g := Recitation;
    forall i, j | 0 <= i < j < |g| && g[i].head == g[j].head
      ensures (i == 0 && j == 1) || (i == 3 && j == 4) || (i == 5 && j == 6)
    {
      assert i == 0 || i == 1 || i == 2 || i == 3 || i == 4 || i == 5;
      assert j == 1 || j == 2 || j == 3 || j == 4 || j == 5 || j == 6;
    }
  }

  lemma RecitationSelectsDisjoint()
    ensures SelectDefined(Recitation, RecitationFirst, RecitationFollow)
    ensures IsLL1Grammar(Recitation, {EP}, RecitationFirst, RecitationFollow)
  {
    RecitationSelects();
    RecitationSameHeads();
  }

  /** The recitation grammar is LL(1). */
  lemma RecitationIsLL1(nullable: set<Symbol>, first: SymbolSets, follow: SymbolSets)
    requires IsLeastNullable(Recitation, nullable)
    requires IsLeastFirst(Recitation, nullable, first)
    requires IsLeastFollow(Recitation, nullable, first, follow)
    ensures SelectDefined(Recitation, first, follow)
    ensures IsLL1Grammar(Recitation, nullable, first, follow)
  {
    RecitationNullable(nullable);
    RecitationFirstSets(nullable, first);
    RecitationFollowSets(nullable, first, follow);
    RecitationSelectsDisjoint();
  }

  /** Running the analyser on the recitation grammar reports LL(1). */
  method RecitationVerdict() returns (ll1: bool)
    ensures ll1
  {
    ghost var nullable, first, follow;
    ll1, nullable, first, follow := IsLL1(Recitation);
    RecitationIsLL1(nullable, first, follow);
  }
}
