/** The grammar behind the JSON parser's methods, run through the analyser:
    its NULLABLE, FIRST and FOLLOW sets, the fact that the SELECT set of each
    rule is exactly the list of lookaheads on which the parser's method
    takes that rule's branch, and its LL(1) verdict. */
module ParserGrammar {
  import opened Symbols
  import opened Grammar
  import opened Analysis
  import opened Properties
  import opened Fixtures
  import P = JsonParser

  const ParserNullable: set<Symbol> := {MembersRightSet, MembersRightArr}

  const ParserFirst: SymbolSets := map[
    LB := {LB}, LS := {LS}, RB := {RB}, RS := {RS}, COMMA := {COMMA}, STRING := {STRING},
    COLON := {COLON}, INT := {INT},
    Obj := {LB, LS}, ObjRightSet := {RB, STRING}, ObjRightArr := {RS, STRING, INT, LB, LS},
    MembersSet := {STRING}, MembersArr := {STRING, INT, LB, LS},
    MembersRightSet := {COMMA}, MembersRightArr := {COMMA},
    KeyValue := {STRING}, Value := {STRING, INT, LB, LS}]

  const ParserFollow: SymbolSets := map[
    Obj := {EOF, COMMA, RB, RS}, ObjRightSet := {EOF, COMMA, RB, RS}, ObjRightArr := {EOF, COMMA, RB, RS},
    MembersSet := {RB}, MembersRightSet := {RB}, MembersArr := {RS}, MembersRightArr := {RS},
    KeyValue := {COMMA, RB}, Value := {COMMA, RB, RS}]

  const ParserNonterminals: set<Symbol> := {Obj, ObjRightSet, ObjRightArr, MembersSet, MembersArr,
                                            MembersRightSet, MembersRightArr, KeyValue, Value}

  const ParserTerminals: set<Symbol> := {LB, LS, RB, RS, COMMA, STRING, COLON, INT}

  /** The first eight rules: obj, its right parts and the members lists. */
  lemma ParserLowRules()
    ensures P.JsonGrammar[..8] ==
      [Rule(Obj, [LB, ObjRightSet]), Rule(Obj, [LS, ObjRightArr]),
       Rule(ObjRightSet, [RB]), Rule(ObjRightSet, [MembersSet, RB]),
       Rule(ObjRightArr, [RS]), Rule(ObjRightArr, [MembersArr, RS]),
       Rule(MembersSet, [KeyValue, MembersRightSet]), Rule(MembersArr, [Value, MembersRightArr])]
  {
  }

  /** The last eight rules: the list continuations, keyvalue and value. */
  lemma ParserHighRules()
    ensures P.JsonGrammar[8..] ==
      [Rule(MembersRightSet, [COMMA, MembersSet]), Rule(MembersRightSet, []),
       Rule(MembersRightArr, [COMMA, MembersArr]), Rule(MembersRightArr, []),
       Rule(KeyValue, [STRING, COLON, Value]),
       Rule(Value, [STRING]), Rule(Value, [INT]), Rule(Value, [Obj])]
  {
  }

  lemma ParserLowHeads()
    ensures Nonterminals(P.JsonGrammar[..8]) == {Obj, ObjRightSet, ObjRightArr, MembersSet, MembersArr}
  {
    var h := P.JsonGrammar[..8];
    ParserLowRules();
    assert h[0].head == Obj && h[2].head == ObjRightSet && h[4].head == ObjRightArr;
    assert h[6].head == MembersSet && h[7].head == MembersArr;
    forall x | x in Nonterminals(h) ensures x in {Obj, ObjRightSet, ObjRightArr, MembersSet, MembersArr} {
      var k :| 0 <= k < |h| && h[k].head == x;
      assert k == 0 || k == 1 || k == 2 || k == 3 || k == 4 || k == 5 || k == 6 || k == 7;
    }
  }

  lemma ParserLowBodies()
    ensures BodySymbols(P.JsonGrammar[..8]) - ParserNonterminals == {LB, LS, RB, RS}
  {
    var h := P.JsonGrammar[..8];
    ParserLowRules();
    assert h[0].body[0] == LB && h[1].body[0] == LS && h[2].body[0] == RB && h[4].body[0] == RS;
    forall x | x in BodySymbols(h) - ParserNonterminals ensures x in {LB, LS, RB, RS} {
      var k, i :| 0 <= k < |h| && 0 <= i < |h[k].body| && h[k].body[i] == x;
      assert k == 0 || k == 1 || k == 2 || k == 3 || k == 4 || k == 5 || k == 6 || k == 7;
    }
  }

  lemma ParserHighHeads()
    ensures Nonterminals(P.JsonGrammar[8..]) == {MembersRightSet, MembersRightArr, KeyValue, Value}
  {
    var h := P.JsonGrammar[8..];
    ParserHighRules();
    assert h[0].head == MembersRightSet && h[2].head == MembersRightArr && h[4].head == KeyValue;
    assert h[5].head == Value;
    forall x | x in Nonterminals(h) ensures x in {MembersRightSet, MembersRightArr, KeyValue, Value} {
      var k :| 0 <= k < |h| && h[k].head == x;
      assert k == 0 || k == 1 || k == 2 || k == 3 || k == 4 || k == 5 || k == 6 || k == 7;
    }
  }

  lemma ParserHighBodies()
    ensures BodySymbols(P.JsonGrammar[8..]) - ParserNonterminals == {COMMA, STRING, COLON, INT}
  {
    var h := P.JsonGrammar[8..];
    ParserHighRules();
    assert h[0].body[0] == COMMA && h[4].body[0] == STRING && h[4].body[1] == COLON && h[6].body[0] == INT;
    forall x | x in BodySymbols(h) - ParserNonterminals ensures x in {COMMA, STRING, COLON, INT} {
      var k, i :| 0 <= k < |h| && 0 <= i < |h[k].body| && h[k].body[i] == x;
      assert k == 0 || k == 1 || k == 2 || k == 3 || k == 4 || k == 5 || k == 6 || k == 7;
    }
  }

  lemma ParserHeads()
    ensures Nonterminals(P.JsonGrammar) == ParserNonterminals
  {
    SymbolsOfSplit(P.JsonGrammar, 8);
    ParserLowHeads();
    ParserHighHeads();
  }

  lemma ParserSymbols()
    ensures Nonterminals(P.JsonGrammar) == ParserNonterminals
    ensures Terminals(P.JsonGrammar) == ParserTerminals
  {
    ParserHeads();
    ParserLowBodies();
    ParserHighBodies();
    TerminalsOfSplit(P.JsonGrammar, 8, ParserNonterminals, {LB, LS, RB, RS}, {COMMA, STRING, COLON, INT});
  }

  /** Only the heads of the two epsilon rules are nullable. */
  lemma ParserNullableSet(nullable: set<Symbol>)
    requires IsLeastNullable(P.JsonGrammar, nullable)
    ensures nullable == ParserNullable
  {
    var g := P.JsonGrammar;
    assert RuleNullableClosed(g[9], nullable) && RuleNullableClosed(g[11], nullable);
    forall k | 0 <= k < |g| ensures RuleNullableClosed(g[k], ParserNullable) {
      if k != 9 && k != 11 {
        LeadingNotNullable(g[k], ParserNullable);
      }
    }
    assert NullableClosed(g, ParserNullable);
  }

  // ------------------------------------------------------------------- FIRST

  lemma ParserFirstRule(k: int)
    requires 0 <= k < 4
    ensures RuleFirstClosed(P.JsonGrammar[k], ParserNullable, ParserFirst)
  {
    var g, n, f := P.JsonGrammar, ParserNullable, ParserFirst;
    if k == 0 { LeadingFirstClosed(g[0], n, f); }
    else if k == 1 { LeadingFirstClosed(g[1], n, f); }
    else if k == 2 { LeadingFirstClosed(g[2], n, f); }
    else { LeadingFirstClosed(g[3], n, f); }
  }

  lemma ParserFirstRuleMiddle(k: int)
    requires 4 <= k < 8
    ensures RuleFirstClosed(P.JsonGrammar[k], ParserNullable, ParserFirst)
  {
    var g, n, f := P.JsonGrammar, ParserNullable, ParserFirst;
    if k == 4 { LeadingFirstClosed(g[4], n, f); }
    else if k == 5 { LeadingFirstClosed(g[5], n, f); }
    else if k == 6 { LeadingFirstClosed(g[6], n, f); }
    else { LeadingFirstClosed(g[7], n, f); }
  }

  lemma ParserFirstRuleRest(k: int)
    requires 8 <= k < |P.JsonGrammar|
    ensures RuleFirstClosed(P.JsonGrammar[k], ParserNullable, ParserFirst)
  {
    var g, n, f := P.JsonGrammar, ParserNullable, ParserFirst;
    if k == 8 { LeadingFirstClosed(g[8], n, f); }
    else if k == 10 { LeadingFirstClosed(g[10], n, f); }
    else if k == 12 { LeadingFirstClosed(g[12], n, f); }
    else if k == 13 { LeadingFirstClosed(g[13], n, f); }
    else if k == 14 { LeadingFirstClosed(g[14], n, f); }
    else if k == 15 { LeadingFirstClosed(g[15], n, f); }
  }

  lemma ParserFirstDomain()
    ensures ParserFirst.Keys == ParserTerminals + ParserNonterminals
  {
  }

  lemma ParserFirstOfTerminals()
    ensures forall t :: t in ParserTerminals ==> t in ParserFirst && t in ParserFirst[t]
  {
  }

  lemma ParserFirstKeyed()
    ensures ParserFirst.Keys == AllSymbols(P.JsonGrammar)
    ensures forall t :: t in Terminals(P.JsonGrammar) ==> t in ParserFirst[t]
  {
    ParserSymbols();
    ParserFirstDomain();
    ParserFirstOfTerminals();
  }

  lemma ParserFirstSolution()
    ensures IsFirstSolution(P.JsonGrammar, ParserNullable, ParserFirst)
  {
    ParserFirstKeyed();
    forall k | 0 <= k < |P.JsonGrammar| ensures RuleFirstClosed(P.JsonGrammar[k], ParserNullable, ParserFirst) {
      if k < 4 { ParserFirstRule(k); }
      else if k < 8 { ParserFirstRuleMiddle(k); }
      else { ParserFirstRuleRest(k); }
    }
  }

  lemma ParserFirstKeys(first: SymbolSets)
    requires first.Keys == AllSymbols(P.JsonGrammar)
    requires forall t :: t in Terminals(P.JsonGrammar) ==> t in first[t]
    ensures first.Keys == ParserFirst.Keys
    ensures LB in first[LB] && LS in first[LS] && RB in first[RB] && RS in first[RS]
    ensures COMMA in first[COMMA] && STRING in first[STRING] && COLON in first[COLON] && INT in first[INT]
  {
    ParserSymbols();
  }

  /** What the leading symbols of rules 0 to 3 put into FIRST. */
  lemma ParserFirstObjectChains(first: SymbolSets)
    requires first.Keys == ParserFirst.Keys && FirstClosed(P.JsonGrammar, ParserNullable, first)
    requires LB in first[LB] && LS in first[LS] && RB in first[RB]
    ensures LB in first[Obj] && LS in first[Obj]
    ensures RB in first[ObjRightSet] && first[MembersSet] <= first[ObjRightSet]
  {
    var g, n := P.JsonGrammar, ParserNullable;
    LeadingFirstBelow(g, 0, n, first);
    LeadingFirstBelow(g, 1, n, first);
    LeadingFirstBelow(g, 2, n, first);
    LeadingFirstBelow(g, 3, n, first);
  }

  /** What the leading symbols of rules 4 to 7 put into FIRST. */
  lemma ParserFirstMemberChains(first: SymbolSets)
    requires first.Keys == ParserFirst.Keys && FirstClosed(P.JsonGrammar, ParserNullable, first)
    requires RS in first[RS]
    ensures RS in first[ObjRightArr] && first[MembersArr] <= first[ObjRightArr]
    ensures first[KeyValue] <= first[MembersSet] && first[Value] <= first[MembersArr]
  {
    var g, n := P.JsonGrammar, ParserNullable;
    LeadingFirstBelow(g, 4, n, first);
    LeadingFirstBelow(g, 5, n, first);
    LeadingFirstBelow(g, 6, n, first);
    LeadingFirstBelow(g, 7, n, first);
  }

  /** What the leading symbols of rules 8 to 15 put into FIRST. */
  lemma ParserFirstValueChains(first: SymbolSets)
    requires first.Keys == ParserFirst.Keys && FirstClosed(P.JsonGrammar, ParserNullable, first)
    requires COMMA in first[COMMA] && STRING in first[STRING] && INT in first[INT]
    ensures COMMA in first[MembersRightSet] && COMMA in first[MembersRightArr]
    ensures STRING in first[KeyValue] && STRING in first[Value] && INT in first[Value]
    ensures first[Obj] <= first[Value]
  {
    var g, n := P.JsonGrammar, ParserNullable;
    LeadingFirstBelow(g, 8, n, first);
    LeadingFirstBelow(g, 10, n, first);
    LeadingFirstBelow(g, 12, n, first);
    LeadingFirstBelow(g, 13, n, first);
    LeadingFirstBelow(g, 14, n, first);
    LeadingFirstBelow(g, 15, n, first);
  }

  lemma ParserFirstCollected(first: SymbolSets)
    requires first.Keys == ParserFirst.Keys
    requires LB in first[LB] && LS in first[LS] && RB in first[RB] && RS in first[RS]
    requires COMMA in first[COMMA] && STRING in first[STRING] && COLON in first[COLON] && INT in first[INT]
    requires LB in first[Obj] && LS in first[Obj]
    requires RB in first[ObjRightSet] && first[MembersSet] <= first[ObjRightSet]
    requires RS in first[ObjRightArr] && first[MembersArr] <= first[ObjRightArr]
    requires first[KeyValue] <= first[MembersSet] && first[Value] <= first[MembersArr]
    requires COMMA in first[MembersRightSet] && COMMA in first[MembersRightArr]
    requires STRING in first[KeyValue] && STRING in first[Value] && INT in first[Value]
    requires first[Obj] <= first[Value]
    ensures Below(ParserFirst, first)
  {
  }

  /** Every FIRST solution contains the FIRST sets above. */
  lemma ParserFirstLower(first: SymbolSets)
    requires IsFirstSolution(P.JsonGrammar, ParserNullable, first)
    ensures Below(ParserFirst, first)
  {
    ParserFirstKeys(first);
    ParserFirstObjectChains(first);
    ParserFirstMemberChains(first);
    ParserFirstValueChains(first);
    ParserFirstCollected(first);
  }

  /** The FIRST map of the parser's grammar is `ParserFirst`: an element of
      an array starts with a string, an integer, `{` or `[`. */
  lemma ParserFirstSets(nullable: set<Symbol>, first: SymbolSets)
    requires IsLeastNullable(P.JsonGrammar, nullable)
    requires IsLeastFirst(P.JsonGrammar, nullable, first)
    ensures first == ParserFirst
  {
    ParserNullableSet(nullable);
    ParserFirstSolution();
    ParserFirstLower(first);
    SameWhenBelowBothWays(first, ParserFirst);
  }

  // ------------------------------------------------------------------ FOLLOW

  lemma ParserFollowMembersSet()
    ensures RuleFollowClosed(P.JsonGrammar[6], ParserNonterminals, ParserNullable, ParserFirst, ParserFollow)
  {
    FollowRuleClosed(P.JsonGrammar[6], ParserNonterminals, ParserNullable, ParserFirst, ParserFollow, {0, 1});
  }

  lemma ParserFollowMembersArr()
    ensures RuleFollowClosed(P.JsonGrammar[7], ParserNonterminals, ParserNullable, ParserFirst, ParserFollow)
  {
    FollowRuleClosed(P.JsonGrammar[7], ParserNonterminals, ParserNullable, ParserFirst, ParserFollow, {0, 1});
  }

  lemma ParserFollowObjRule(k: int)
    requires 0 <= k < 2
    ensures RuleFollowClosed(P.JsonGrammar[k], ParserNonterminals, ParserNullable, ParserFirst, ParserFollow)
  {
    var g, nt, n, f, fo := P.JsonGrammar, ParserNonterminals, ParserNullable, ParserFirst, ParserFollow;
    if k == 0 { FollowRuleClosed(g[0], nt, n, f, fo, {1}); }
    else { FollowRuleClosed(g[1], nt, n, f, fo, {1}); }
  }

  lemma ParserFollowSetRule(k: int)
    requires 2 <= k < 4
    ensures RuleFollowClosed(P.JsonGrammar[k], ParserNonterminals, ParserNullable, ParserFirst, ParserFollow)
  {
    var g, nt, n, f, fo := P.JsonGrammar, ParserNonterminals, ParserNullable, ParserFirst, ParserFollow;
    if k == 2 { FollowRuleClosed(g[2], nt, n, f, fo, {}); }
    else { FollowRuleClosed(g[3], nt, n, f, fo, {0}); }
  }

  lemma ParserFollowArrRule(k: int)
    requires 4 <= k < 6
    ensures RuleFollowClosed(P.JsonGrammar[k], ParserNonterminals, ParserNullable, ParserFirst, ParserFollow)
  {
    var g, nt, n, f, fo := P.JsonGrammar, ParserNonterminals, ParserNullable, ParserFirst, ParserFollow;
    if k == 4 { FollowRuleClosed(g[4], nt, n, f, fo, {}); }
    else { FollowRuleClosed(g[5], nt, n, f, fo, {0}); }
  }

  lemma ParserFollowListRule(k: int)
    requires 8 <= k < 12
    ensures RuleFollowClosed(P.JsonGrammar[k], ParserNonterminals, ParserNullable, ParserFirst, ParserFollow)
  {
    var g, nt, n, f, fo := P.JsonGrammar, ParserNonterminals, ParserNullable, ParserFirst, ParserFollow;
    if k == 8 { FollowRuleClosed(g[8], nt, n, f, fo, {1}); }
    else if k == 9 { FollowRuleClosed(g[9], nt, n, f, fo, {}); }
    else if k == 10 { FollowRuleClosed(g[10], nt, n, f, fo, {1}); }
    else { FollowRuleClosed(g[11], nt, n, f, fo, {}); }
  }

  lemma ParserFollowValueRule(k: int)
    requires 12 <= k < |P.JsonGrammar|
    ensures RuleFollowClosed(P.JsonGrammar[k], ParserNonterminals, ParserNullable, ParserFirst, ParserFollow)
  {
    var g, nt, n, f, fo := P.JsonGrammar, ParserNonterminals, ParserNullable, ParserFirst, ParserFollow;
    if k == 12 { FollowRuleClosed(g[12], nt, n, f, fo, {2}); }
    else if k == 13 { FollowRuleClosed(g[13], nt, n, f, fo, {}); }
    else if k == 14 { FollowRuleClosed(g[14], nt, n, f, fo, {}); }
    else { FollowRuleClosed(g[15], nt, n, f, fo, {0}); }
  }

  lemma ParserFollowSolution()
    ensures IsFollowSolution(P.JsonGrammar, ParserNullable, ParserFirst, ParserFollow)
  {
    ParserHeads();
    forall k | 0 <= k < |P.JsonGrammar|
      ensures RuleFollowClosed(P.JsonGrammar[k], ParserNonterminals, ParserNullable, ParserFirst, ParserFollow)
    {
      if k < 2 { ParserFollowObjRule(k); }
      else if k < 4 { ParserFollowSetRule(k); }
      else if k < 6 { ParserFollowArrRule(k); }
      else if k == 6 { ParserFollowMembersSet(); }
      else if k == 7 { ParserFollowMembersArr(); }
      else if k < 12 { ParserFollowListRule(k); }
      else { ParserFollowValueRule(k); }
    }
  }

  lemma ParserFollowKeys(follow: SymbolSets)
    requires follow.Keys == Nonterminals(P.JsonGrammar)
    ensures follow.Keys == ParserFollow.Keys
  {
    ParserHeads();
  }

  /** Rule 3 puts `}` after the members of an object. */
  lemma ParserFollowCloseSet(follow: SymbolSets)
    requires follow.Keys == ParserFollow.Keys && FollowClosed(P.JsonGrammar, ParserNullable, ParserFirst, follow)
    ensures RB in follow[MembersSet]
  {
    var g, n, f := P.JsonGrammar, ParserNullable, ParserFirst;
    ParserHeads();
    assert g[3].body[1..1] == [];
    FollowFirstBelow(g, 3, n, f, follow, 0, 1);
  }

  /** Rule 5 puts `]` after the elements of an array. */
  lemma ParserFollowCloseArr(follow: SymbolSets)
    requires follow.Keys == ParserFollow.Keys && FollowClosed(P.JsonGrammar, ParserNullable, ParserFirst, follow)
    ensures RS in follow[MembersArr]
  {
    var g, n, f := P.JsonGrammar, ParserNullable, ParserFirst;
    ParserHeads();
    assert g[5].body[1..1] == [];
    FollowFirstBelow(g, 5, n, f, follow, 0, 1);
  }

  /** What rule 6, members_set -> keyvalue members_right_set, passes on. */
  lemma ParserFollowSetChains(follow: SymbolSets)
    requires follow.Keys == ParserFollow.Keys && FollowClosed(P.JsonGrammar, ParserNullable, ParserFirst, follow)
    ensures COMMA in follow[KeyValue]
    ensures follow[MembersSet] <= follow[KeyValue] && follow[MembersSet] <= follow[MembersRightSet]
  {
    var g, n, f := P.JsonGrammar, ParserNullable, ParserFirst;
    ParserHeads();
    assert g[6].body[1..1] == [] && g[6].body[1..] == [MembersRightSet] && g[6].body[2..] == [];
    FollowFirstBelow(g, 6, n, f, follow, 0, 1);
    FollowAfterBelow(g, 6, n, f, follow, 0);
    FollowAfterBelow(g, 6, n, f, follow, 1);
  }

  /** What rule 7, members_arr -> value members_right_arr, passes on. */
  lemma ParserFollowArrChains(follow: SymbolSets)
    requires follow.Keys == ParserFollow.Keys && FollowClosed(P.JsonGrammar, ParserNullable, ParserFirst, follow)
    ensures COMMA in follow[Value]
    ensures follow[MembersArr] <= follow[Value] && follow[MembersArr] <= follow[MembersRightArr]
  {
    var g, n, f := P.JsonGrammar, ParserNullable, ParserFirst;
    ParserHeads();
    assert g[7].body[1..1] == [] && g[7].body[1..] == [MembersRightArr] && g[7].body[2..] == [];
    FollowFirstBelow(g, 7, n, f, follow, 0, 1);
    FollowAfterBelow(g, 7, n, f, follow, 0);
    FollowAfterBelow(g, 7, n, f, follow, 1);
  }

  /** What rules 0 and 1 pass on from obj to its right parts. */
  lemma ParserFollowObjChains(follow: SymbolSets)
    requires follow.Keys == ParserFollow.Keys && FollowClosed(P.JsonGrammar, ParserNullable, ParserFirst, follow)
    ensures follow[Obj] <= follow[ObjRightSet] && follow[Obj] <= follow[ObjRightArr]
  {
    var g, n, f := P.JsonGrammar, ParserNullable, ParserFirst;
    ParserHeads();
    assert g[0].body[2..] == [] && g[1].body[2..] == [];
    FollowAfterBelow(g, 0, n, f, follow, 1);
    FollowAfterBelow(g, 1, n, f, follow, 1);
  }

  /** What rules 12 and 15 pass on from keyvalue to value and from value to obj. */
  lemma ParserFollowValueChains(follow: SymbolSets)
    requires follow.Keys == ParserFollow.Keys && FollowClosed(P.JsonGrammar, ParserNullable, ParserFirst, follow)
    ensures follow[KeyValue] <= follow[Value] && follow[Value] <= follow[Obj]
  {
    var g, n, f := P.JsonGrammar, ParserNullable, ParserFirst;
    ParserHeads();
    assert g[12].body[3..] == [] && g[15].body[1..] == [];
    FollowAfterBelow(g, 12, n, f, follow, 2);
    FollowAfterBelow(g, 15, n, f, follow, 0);
  }

  lemma ParserFollowCollected(follow: SymbolSets)
    requires follow.Keys == ParserFollow.Keys
    requires EOF in follow[Obj]
    requires RB in follow[MembersSet] && COMMA in follow[KeyValue]
    requires follow[MembersSet] <= follow[KeyValue] && follow[MembersSet] <= follow[MembersRightSet]
    requires RS in follow[MembersArr] && COMMA in follow[Value]
    requires follow[MembersArr] <= follow[Value] && follow[MembersArr] <= follow[MembersRightArr]
    requires follow[Obj] <= follow[ObjRightSet] && follow[Obj] <= follow[ObjRightArr]
    requires follow[KeyValue] <= follow[Value] && follow[Value] <= follow[Obj]
    ensures Below(ParserFollow, follow)
  {
  }

  /** Every FOLLOW solution contains the FOLLOW sets above. */
  lemma ParserFollowLower(follow: SymbolSets)
    requires IsFollowSolution(P.JsonGrammar, ParserNullable, ParserFirst, follow)
    ensures Below(ParserFollow, follow)
  {
    ParserFollowKeys(follow);
    ParserFollowCloseSet(follow);
    ParserFollowCloseArr(follow);
    ParserFollowSetChains(follow);
    ParserFollowArrChains(follow);
    ParserFollowObjChains(follow);
    ParserFollowValueChains(follow);
    ParserFollowCollected(follow);
  }

  /** The FOLLOW map of the parser's grammar is `ParserFollow`: a nested
      value can be followed by `,`, `}` or `]`. */
  lemma ParserFollowSets(nullable: set<Symbol>, first: SymbolSets, follow: SymbolSets)
    requires IsLeastNullable(P.JsonGrammar, nullable)
    requires IsLeastFirst(P.JsonGrammar, nullable, first)
    requires IsLeastFollow(P.JsonGrammar, nullable, first, follow)
    ensures follow == ParserFollow
  {
    ParserNullableSet(nullable);
    ParserFirstSets(nullable, first);
    ParserFollowSolution();
    ParserFollowLower(follow);
    SameWhenBelowBothWays(follow, ParserFollow);
  }

  // ------------------------------------------------------------------ SELECT

  lemma ParserSelectDefined()
    ensures SelectDefined(P.JsonGrammar, ParserFirst, ParserFollow)
  {
    ParserSymbols();
    RuleSymbolsKnown(P.JsonGrammar);
  }

  /** SELECT of the obj rules: the lists `ParseObj` tests. */
  lemma ParserObjSelects()
    ensures SelectDefined(P.JsonGrammar, ParserFirst, ParserFollow)
    ensures SelectOf(P.JsonGrammar[0], ParserNullable, ParserFirst, ParserFollow) == {LB}
    ensures SelectOf(P.JsonGrammar[1], ParserNullable, ParserFirst, ParserFollow) == {LS}
  {
    var g, n, f, fo := P.JsonGrammar, ParserNullable, ParserFirst, ParserFollow;
    ParserSelectDefined();
    LeadingSelect(g[0], n, f, fo);
    LeadingSelect(g[1], n, f, fo);
  }

  /** SELECT of the obj_right_set rules: the lists `ParseObjRightSet` tests. */
  lemma ParserObjectSelects()
    ensures SelectDefined(P.JsonGrammar, ParserFirst, ParserFollow)
    ensures SelectOf(P.JsonGrammar[2], ParserNullable, ParserFirst, ParserFollow) == {RB}
    ensures SelectOf(P.JsonGrammar[3], ParserNullable, ParserFirst, ParserFollow) == {STRING}
  {
    var g, n, f, fo := P.JsonGrammar, ParserNullable, ParserFirst, ParserFollow;
    ParserSelectDefined();
    LeadingSelect(g[2], n, f, fo);
    LeadingSelect(g[3], n, f, fo);
  }

  /** SELECT of the obj_right_arr rules and of the two members rules: the
      lists `ParseObjRightArr`, `ParseMembersSet` and `ParseMembersArr` test. */
  lemma ParserArraySelects()
    ensures SelectDefined(P.JsonGrammar, ParserFirst, ParserFollow)
    ensures SelectOf(P.JsonGrammar[4], ParserNullable, ParserFirst, ParserFollow) == {RS}
    ensures SelectOf(P.JsonGrammar[5], ParserNullable, ParserFirst, ParserFollow) == {STRING, INT, LB, LS}
    ensures SelectOf(P.JsonGrammar[6], ParserNullable, ParserFirst, ParserFollow) == {STRING}
    ensures SelectOf(P.JsonGrammar[7], ParserNullable, ParserFirst, ParserFollow) == {STRING, INT, LB, LS}
  {
    var g, n, f, fo := P.JsonGrammar, ParserNullable, ParserFirst, ParserFollow;
    ParserSelectDefined();
    LeadingSelect(g[4], n, f, fo);
    LeadingSelect(g[5], n, f, fo);
    LeadingSelect(g[6], n, f, fo);
    LeadingSelect(g[7], n, f, fo);
  }

  /** SELECT of the list continuations; each epsilon rule selects on the
      closing bracket that follows the list, as in `ParseMembersRightSet`
      and `ParseMembersRightArr`. */
  lemma ParserListSelects()
    ensures SelectDefined(P.JsonGrammar, ParserFirst, ParserFollow)
    ensures SelectOf(P.JsonGrammar[8], ParserNullable, ParserFirst, ParserFollow) == {COMMA}
    ensures SelectOf(P.JsonGrammar[9], ParserNullable, ParserFirst, ParserFollow) == {RB}
    ensures SelectOf(P.JsonGrammar[10], ParserNullable, ParserFirst, ParserFollow) == {COMMA}
    ensures SelectOf(P.JsonGrammar[11], ParserNullable, ParserFirst, ParserFollow) == {RS}
  {
    var g, n, f, fo := P.JsonGrammar, ParserNullable, ParserFirst, ParserFollow;
    ParserSelectDefined();
    LeadingSelect(g[8], n, f, fo);
    LeadingSelect(g[10], n, f, fo);
  }

  /** SELECT of the keyvalue and value rules: `ParseKeyValue` tests `string`,
      `ParseValue` takes `string` or `int` as a leaf and `{` or `[` as an obj. */
  lemma ParserValueSelects()
    ensures SelectDefined(P.JsonGrammar, ParserFirst, ParserFollow)
    ensures SelectOf(P.JsonGrammar[12], ParserNullable, ParserFirst, ParserFollow) == {STRING}
    ensures SelectOf(P.JsonGrammar[13], ParserNullable, ParserFirst, ParserFollow) == {STRING}
    ensures SelectOf(P.JsonGrammar[14], ParserNullable, ParserFirst, ParserFollow) == {INT}
    ensures SelectOf(P.JsonGrammar[15], ParserNullable, ParserFirst, ParserFollow) == {LB, LS}
  {
    var g, n, f, fo := P.JsonGrammar, ParserNullable, ParserFirst, ParserFollow;
    ParserSelectDefined();
    LeadingSelect(g[12], n, f, fo);
    LeadingSelect(g[13], n, f, fo);
    LeadingSelect(g[14], n, f, fo);
    LeadingSelect(g[15], n, f, fo);
  }

  /** The parser's dispatch list for rules 0 to 7, as the SELECT lemmas state them. */
  lemma DispatchLow()
    ensures P.Dispatch[0] == {LB} && P.Dispatch[1] == {LS} && P.Dispatch[2] == {RB}
    ensures P.Dispatch[3] == {STRING} && P.Dispatch[4] == {RS} && P.Dispatch[5] == {STRING, INT, LB, LS}
    ensures P.Dispatch[6] == {STRING} && P.Dispatch[7] == {STRING, INT, LB, LS}
  {
  }

  /** The parser's dispatch list for rules 8 to 15. */
  lemma DispatchHigh()
    ensures P.Dispatch[8] == {COMMA} && P.Dispatch[9] == {RB} && P.Dispatch[10] == {COMMA}
    ensures P.Dispatch[11] == {RS} && P.Dispatch[12] == {STRING} && P.Dispatch[13] == {STRING}
    ensures P.Dispatch[14] == {INT} && P.Dispatch[15] == {LB, LS}
  {
  }

  /** SELECT of rule k is the parser's dispatch list for it. */
  lemma ParserDispatchAt(k: int)
    requires 0 <= k < 16
    ensures SelectDefined(P.JsonGrammar, ParserFirst, ParserFollow)
    ensures SelectOf(P.JsonGrammar[k], ParserNullable, ParserFirst, ParserFollow) == P.Dispatch[k]
  {
    if k < 2 {
      ParserObjSelects(); DispatchLow();
      if k == 0 { } else { }
    } else if k < 4 {
      ParserObjectSelects(); DispatchLow();
      if k == 2 { } else { }
    } else if k < 8 {
      ParserArraySelects(); DispatchLow();
      if k == 4 { } else if k == 5 { } else if k == 6 { } else { }
    } else if k < 12 {
      ParserListSelects(); DispatchHigh();
      if k == 8 { } else if k == 9 { } else if k == 10 { } else { }
    } else {
      ParserValueSelects(); DispatchHigh();
      if k == 12 { } else if k == 13 { } else if k == 14 { } else { }
    }
  }

  /** For every rule, the SELECT set computed from the least solutions is
      exactly the list of lookaheads on which the parser takes that rule's
      branch, and which its error contracts name. */
  lemma ParserSelectIsDispatch(nullable: set<Symbol>, first: SymbolSets, follow: SymbolSets)
    requires IsLeastNullable(P.JsonGrammar, nullable)
    requires IsLeastFirst(P.JsonGrammar, nullable, first)
    requires IsLeastFollow(P.JsonGrammar, nullable, first, follow)
    ensures |P.Dispatch| == |P.JsonGrammar|
    ensures SelectDefined(P.JsonGrammar, first, follow)
    ensures forall k :: 0 <= k < |P.JsonGrammar| ==>
              SelectOf(P.JsonGrammar[k], nullable, first, follow) == P.Dispatch[k]
  {
    ParserNullableSet(nullable);
    ParserFirstSets(nullable, first);
    ParserFollowSets(nullable, first, follow);
    ParserSelectDefined();
    forall k | 0 <= k < |P.JsonGrammar|
      ensures SelectOf(P.JsonGrammar[k], nullable, first, follow) == P.Dispatch[k]
    {
      ParserDispatchAt(k);
    }
  }

  /** Rules i < j with the same head are alternatives of one parser method. */
  predicate Alternatives(i: int, j: int)
  {
    (j == i + 1 && i in {0, 2, 4, 8, 10, 13, 14}) || (i == 13 && j == 15)
  }

  lemma ParserSameHeadsLow()
    ensures forall i, j :: 0 <= i < 8 && i < j < |P.JsonGrammar| && P.JsonGrammar[i].head == P.JsonGrammar[j].head ==>
              Alternatives(i, j)
  {
    var g := P.JsonGrammar;
    forall i, j | 0 <= i < 8 && i < j < |g| && g[i].head == g[j].head
      ensures Alternatives(i, j)
    {
      assert i == 0 || i == 1 || i == 2 || i == 3 || i == 4 || i == 5 || i == 6 || i == 7;
      assert j == 1 || j == 2 || j == 3 || j == 4 || j == 5 || j == 6 || j == 7 || j == 8
          || j == 9 || j == 10 || j == 11 || j == 12 || j == 13 || j == 14 || j == 15;
    }
  }

  lemma ParserSameHeadsHigh()
    ensures forall i, j :: 8 <= i < j < |P.JsonGrammar| && P.JsonGrammar[i].head == P.JsonGrammar[j].head ==>
              Alternatives(i, j)
  {
    var g := P.JsonGrammar;
    forall i, j | 8 <= i < j < |g| && g[i].head == g[j].head
      ensures Alternatives(i, j)
    {
      assert i == 8 || i == 9 || i == 10 || i == 11 || i == 12 || i == 13 || i == 14;
      assert j == 9 || j == 10 || j == 11 || j == 12 || j == 13 || j == 14 || j == 15;
    }
  }

  /** `ParseObj` and `ParseObjRightSet` never have two candidate branches. */
  lemma ParserObjectDisjoint()
    ensures SelectDefined(P.JsonGrammar, ParserFirst, ParserFollow)
    ensures SelectOf(P.JsonGrammar[0], ParserNullable, ParserFirst, ParserFollow) *
            SelectOf(P.JsonGrammar[1], ParserNullable, ParserFirst, ParserFollow) == {}
    ensures SelectOf(P.JsonGrammar[2], ParserNullable, ParserFirst, ParserFollow) *
            SelectOf(P.JsonGrammar[3], ParserNullable, ParserFirst, ParserFollow) == {}
  {
    ParserObjSelects();
    ParserObjectSelects();
  }

  /** Nor does `ParseObjRightArr`. */
  lemma ParserArrayDisjoint()
    ensures SelectDefined(P.JsonGrammar, ParserFirst, ParserFollow)
    ensures SelectOf(P.JsonGrammar[4], ParserNullable, ParserFirst, ParserFollow) *
            SelectOf(P.JsonGrammar[5], ParserNullable, ParserFirst, ParserFollow) == {}
  {
    ParserArraySelects();
  }

  /** Nor do `ParseMembersRightSet` and `ParseMembersRightArr`. */
  lemma ParserListDisjoint()
    ensures SelectDefined(P.JsonGrammar, ParserFirst, ParserFollow)
    ensures SelectOf(P.JsonGrammar[8], ParserNullable, ParserFirst, ParserFollow) *
            SelectOf(P.JsonGrammar[9], ParserNullable, ParserFirst, ParserFollow) == {}
    ensures SelectOf(P.JsonGrammar[10], ParserNullable, ParserFirst, ParserFollow) *
            SelectOf(P.JsonGrammar[11], ParserNullable, ParserFirst, ParserFollow) == {}
  {
    ParserListSelects();
  }

  /** Nor does `ParseValue`. */
  lemma ParserValueDisjoint()
    ensures SelectDefined(P.JsonGrammar, ParserFirst, ParserFollow)
    ensures SelectOf(P.JsonGrammar[13], ParserNullable, ParserFirst, ParserFollow) *
            SelectOf(P.JsonGrammar[14], ParserNullable, ParserFirst, ParserFollow) == {}
    ensures SelectOf(P.JsonGrammar[13], ParserNullable, ParserFirst, ParserFollow) *
            SelectOf(P.JsonGrammar[15], ParserNullable, ParserFirst, ParserFollow) == {}
    ensures SelectOf(P.JsonGrammar[14], ParserNullable, ParserFirst, ParserFollow) *
            SelectOf(P.JsonGrammar[15], ParserNullable, ParserFirst, ParserFollow) == {}
  {
    ParserValueSelects();
  }

  lemma ParserAlternativesDisjoint()
    ensures SelectDefined(P.JsonGrammar, ParserFirst, ParserFollow)
    ensures forall i, j :: 0 <= i < j < |P.JsonGrammar| && Alternatives(i, j) ==>
              SelectOf(P.JsonGrammar[i], ParserNullable, ParserFirst, ParserFollow) *
              SelectOf(P.JsonGrammar[j], ParserNullable, ParserFirst, ParserFollow) == {}
  {
    var g, n, f, fo := P.JsonGrammar, ParserNullable, ParserFirst, ParserFollow;
    ParserSelectDefined();
    forall i, j | 0 <= i < j < |g| && Alternatives(i, j)
      ensures SelectOf(g[i], n, f, fo) * SelectOf(g[j], n, f, fo) == {}
    {
      if i < 4 { ParserObjectDisjoint(); }
      else if i < 8 { ParserArrayDisjoint(); }
      else if i < 12 { ParserListDisjoint(); }
      else { ParserValueDisjoint(); }
    }
  }

  lemma ParserSelectsDisjoint()
    ensures SelectDefined(P.JsonGrammar, ParserFirst, ParserFollow)
    ensures IsLL1Grammar(P.JsonGrammar, ParserNullable, ParserFirst, ParserFollow)
  {
    var g, n, f, fo := P.JsonGrammar, ParserNullable, ParserFirst, ParserFollow;
    ParserAlternativesDisjoint();
    forall i, j | 0 <= i < j < |g| && g[i].head == g[j].head
      ensures SelectOf(g[i], n, f, fo) * SelectOf(g[j], n, f, fo) == {}
    {
      if i < 8 { ParserSameHeadsLow(); } else { ParserSameHeadsHigh(); }
      assert Alternatives(i, j);
    }
  }

  /** The parser's grammar is LL(1), so choosing a branch by the lookahead
      alone, as every parser method does, never has two candidates. */
  lemma ParserGrammarIsLL1(nullable: set<Symbol>, first: SymbolSets, follow: SymbolSets)
    requires IsLeastNullable(P.JsonGrammar, nullable)
    requires IsLeastFirst(P.JsonGrammar, nullable, first)
    requires IsLeastFollow(P.JsonGrammar, nullable, first, follow)
    ensures SelectDefined(P.JsonGrammar, first, follow)
    ensures IsLL1Grammar(P.JsonGrammar, nullable, first, follow)
  {
    ParserNullableSet(nullable);
    ParserFirstSets(nullable, first);
    ParserFollowSets(nullable, first, follow);
    ParserSelectsDisjoint();
  }

  /** Running the analyser on the parser's grammar reports LL(1). */
  method ParserGrammarVerdict() returns (ll1: bool)
    ensures ll1
  {
    ghost var nullable, first, follow;
    ll1, nullable, first, follow := IsLL1(P.JsonGrammar);
    ParserGrammarIsLL1(nullable, first, follow);
  }
}
