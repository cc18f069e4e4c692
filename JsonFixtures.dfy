/** The JSON grammars of the exercise: the first attempt (left-recursive and
    not left-factored, so not LL(1)) and its LL(1) rewrite, with their
    NULLABLE, FIRST, FOLLOW and SELECT sets and the analyser's verdicts. */
module JsonFixtures {
  import opened Symbols
  import opened Grammar
  import opened Analysis
  import opened Properties
  import opened Fixtures

  // ------------------------------------------------------------ first attempt

  /** obj -> { } | { members };  members -> keyvalue | members , members;
      keyvalue -> string : value;  value -> string | int | obj */
  const Json4a: Grammar := [
    Rule(Obj, [LB, RB]),
    Rule(Obj, [LB, Members, RB]),
    Rule(Members, [KeyValue]),
    Rule(Members, [Members, COMMA, Members]),
    Rule(KeyValue, [STRING, COLON, Value]),
    Rule(Value, [STRING]),
    Rule(Value, [INT]),
    Rule(Value, [Obj])
  ]

  const Json4aFirst: SymbolSets := map[
    LB := {LB}, RB := {RB}, COMMA := {COMMA}, STRING := {STRING}, COLON := {COLON}, INT := {INT},
    Obj := {LB}, Members := {STRING}, KeyValue := {STRING}, Value := {STRING, INT, LB}]

  const Json4aFollow: SymbolSets := map[
    Obj := {EOF, COMMA, RB}, Members := {COMMA, RB}, KeyValue := {COMMA, RB}, Value := {COMMA, RB}]

  lemma Json4aSymbols()
    ensures Nonterminals(Json4a) == {Obj, Members, KeyValue, Value}
    ensures Terminals(Json4a) == {LB, RB, COMMA, STRING, COLON, INT}
    ensures LB in BodySymbols(Json4a) && STRING in BodySymbols(Json4a)
    ensures AllSymbols(Json4a) == {Obj, Members, KeyValue, Value, LB, RB, COMMA, STRING, COLON, INT}
  {
    var g := Json4a;
    assert g[0].head == Obj && g[2].head == Members && g[4].head == KeyValue && g[5].head == Value;
    assert g[0].body[0] == LB && g[0].body[1] == RB && g[3].body[1] == COMMA;
    assert g[4].body[0] == STRING && g[4].body[1] == COLON && g[6].body[0] == INT;
  }

  /** No rule of the first attempt has an empty body, so nothing is nullable. */
  lemma Json4aNullable(nullable: set<Symbol>)
    requires IsLeastNullable(Json4a, nullable)
    ensures nullable == {}
  {
    var g := Json4a;
    forall k | 0 <= k < |g| ensures RuleNullableClosed(g[k], {}) {
      LeadingNotNullable(g[k], {});
    }
    assert NullableClosed(g, {});
  }

  lemma Json4aSelectDefined(first: SymbolSets, follow: SymbolSets)
    requires first.Keys == AllSymbols(Json4a) && follow.Keys == Nonterminals(Json4a)
    ensures SelectDefined(Json4a, first, follow)
  {
    RuleSymbolsKnown(Json4a);
  }

  /** Every rule of the first attempt starts with a non-nullable symbol, so
      FIRST of a nonterminal is what its rules' leading symbols start. */
  lemma Json4aFirstRule(k: int)
    requires 0 <= k < |Json4a|
    ensures RuleFirstClosed(Json4a[k], {}, Json4aFirst)
  {
    var g, f := Json4a, Json4aFirst;
    if k == 0 { LeadingFirstClosed(g[0], {}, f); }
    else if k == 1 { LeadingFirstClosed(g[1], {}, f); }
    else if k == 2 { LeadingFirstClosed(g[2], {}, f); }
    else if k == 3 { LeadingFirstClosed(g[3], {}, f); }
    else if k == 4 { LeadingFirstClosed(g[4], {}, f); }
    else if k == 5 { LeadingFirstClosed(g[5], {}, f); }
    else if k == 6 { LeadingFirstClosed(g[6], {}, f); }
    else { LeadingFirstClosed(g[7], {}, f); }
  }

  lemma Json4aFirstSolution()
    ensures IsFirstSolution(Json4a, {}, Json4aFirst)
  {
    Json4aSymbols();
    forall k | 0 <= k < |Json4a| ensures RuleFirstClosed(Json4a[k], {}, Json4aFirst) {
      Json4aFirstRule(k);
    }
  }

  lemma Json4aFirstKeys(first: SymbolSets)
    requires first.Keys == AllSymbols(Json4a)
    requires forall t :: t in Terminals(Json4a) ==> t in first[t]
    ensures first.Keys == Json4aFirst.Keys
    ensures LB in first[LB] && RB in first[RB] && COMMA in first[COMMA] && STRING in first[STRING]
    ensures COLON in first[COLON] && INT in first[INT]
  {
    Json4aSymbols();
  }

  /** What the leading symbols of the rules put into FIRST. */
  lemma Json4aFirstChains(first: SymbolSets)
    requires first.Keys == Json4aFirst.Keys && FirstClosed(Json4a, {}, first)
    requires LB in first[LB] && STRING in first[STRING] && INT in first[INT]
    ensures LB in first[Obj] && first[KeyValue] <= first[Members] && STRING in first[KeyValue]
    ensures STRING in first[Value] && INT in first[Value] && first[Obj] <= first[Value]
  {
    var g := Json4a;
    LeadingFirstBelow(g, 0, {}, first);
    LeadingFirstBelow(g, 2, {}, first);
    LeadingFirstBelow(g, 4, {}, first);
    LeadingFirstBelow(g, 5, {}, first);
    LeadingFirstBelow(g, 6, {}, first);
    LeadingFirstBelow(g, 7, {}, first);
  }

  lemma Json4aFirstCollected(first: SymbolSets)
    requires first.Keys == Json4aFirst.Keys
    requires LB in first[LB] && RB in first[RB] && COMMA in first[COMMA] && STRING in first[STRING]
    requires COLON in first[COLON] && INT in first[INT]
    requires LB in first[Obj] && first[KeyValue] <= first[Members] && STRING in first[KeyValue]
    requires STRING in first[Value] && INT in first[Value] && first[Obj] <= first[Value]
    ensures Below(Json4aFirst, first)
  {
  }

  /** Every FIRST solution contains the FIRST sets above. */
  lemma Json4aFirstLower(first: SymbolSets)
    requires IsFirstSolution(Json4a, {}, first)
    ensures Below(Json4aFirst, first)
  {
    Json4aFirstKeys(first);
    Json4aFirstChains(first);
    Json4aFirstCollected(first);
  }

  /** The FIRST map of the first attempt is `Json4aFirst`: members and
      keyvalue both start with `string` only. */
  lemma Json4aFirstSets(nullable: set<Symbol>, first: SymbolSets)
    requires IsLeastNullable(Json4a, nullable)
    requires IsLeastFirst(Json4a, nullable, first)
    ensures first == Json4aFirst
  {
    Json4aNullable(nullable);
    Json4aFirstSolution();
    Json4aFirstLower(first);
    SameWhenBelowBothWays(first, Json4aFirst);
  }

  /** The obj and members rules: `}` and `,` follow members. */
  lemma Json4aFollowRule(k: int)
    requires 0 <= k < 4
    ensures RuleFollowClosed(Json4a[k], {Obj, Members, KeyValue, Value}, {}, Json4aFirst, Json4aFollow)
  {
    var g, nt, f, fo := Json4a, {Obj, Members, KeyValue, Value}, Json4aFirst, Json4aFollow;
    if k == 0 { FollowRuleClosed(g[0], nt, {}, f, fo, {}); }
    else if k == 1 { FollowRuleClosed(g[1], nt, {}, f, fo, {1}); }
    else if k == 2 { FollowRuleClosed(g[2], nt, {}, f, fo, {0}); }
    else {
      assert g[3].body[1..] == [COMMA, Members] && g[3].body[3..] == [];
      FollowRuleClosed(g[3], nt, {}, f, fo, {0, 2});
    }
  }

  /** The keyvalue and value rules pass their FOLLOW sets on to their last symbol. */
  lemma Json4aFollowRuleRest(k: int)
    requires 4 <= k < |Json4a|
    ensures RuleFollowClosed(Json4a[k], {Obj, Members, KeyValue, Value}, {}, Json4aFirst, Json4aFollow)
  {
    var g, nt, f, fo := Json4a, {Obj, Members, KeyValue, Value}, Json4aFirst, Json4aFollow;
    if k == 4 { FollowRuleClosed(g[4], nt, {}, f, fo, {2}); }
    else if k == 5 { FollowRuleClosed(g[5], nt, {}, f, fo, {}); }
    else if k == 6 { FollowRuleClosed(g[6], nt, {}, f, fo, {}); }
    else { FollowRuleClosed(g[7], nt, {}, f, fo, {0}); }
  }

  lemma Json4aFollowSolution()
    ensures IsFollowSolution(Json4a, {}, Json4aFirst, Json4aFollow)
  {
    Json4aSymbols();
    assert Json4aFollow.Keys == Nonterminals(Json4a);
    forall k | 0 <= k < |Json4a|
      ensures RuleFollowClosed(Json4a[k], Nonterminals(Json4a), {}, Json4aFirst, Json4aFollow)
    {
      if k < 4 { Json4aFollowRule(k); } else { Json4aFollowRuleRest(k); }
    }
  }

  /** What rules 1 and 3 put into FOLLOW(members): the `}` and the `,`
      written after it. */
  lemma Json4aFollowMemberChains(follow: SymbolSets)
    requires follow.Keys == Json4aFollow.Keys && FollowClosed(Json4a, {}, Json4aFirst, follow)
    ensures RB in follow[Members] && COMMA in follow[Members]
  {
    var g, f := Json4a, Json4aFirst;
    assert g[2].head == Members;
    assert g[1].body[2..2] == [] && g[3].body[1..1] == [];
    FollowFirstBelow(g, 1, {}, f, follow, 1, 2);
    FollowFirstBelow(g, 3, {}, f, follow, 0, 1);
  }

  /** What rules 2, 4 and 7 pass on from their heads to their last symbols. */
  lemma Json4aFollowValueChains(follow: SymbolSets)
    requires follow.Keys == Json4aFollow.Keys && FollowClosed(Json4a, {}, Json4aFirst, follow)
    ensures follow[Members] <= follow[KeyValue] && follow[KeyValue] <= follow[Value]
    ensures follow[Value] <= follow[Obj]
  {
    var g, f := Json4a, Json4aFirst;
    assert g[1].head == Obj && g[2].head == Members && g[4].head == KeyValue && g[5].head == Value;
    assert g[2].body[1..] == [] && g[4].body[3..] == [] && g[7].body[1..] == [];
    FollowAfterBelow(g, 2, {}, f, follow, 0);
    FollowAfterBelow(g, 4, {}, f, follow, 2);
    FollowAfterBelow(g, 7, {}, f, follow, 0);
  }

  lemma Json4aFollowCollected(follow: SymbolSets)
    requires follow.Keys == Json4aFollow.Keys
    requires EOF in follow[Obj] && RB in follow[Members] && COMMA in follow[Members]
    requires follow[Members] <= follow[KeyValue] && follow[KeyValue] <= follow[Value]
    requires follow[Value] <= follow[Obj]
    ensures Below(Json4aFollow, follow)
  {
  }

  /** Every FOLLOW solution contains the FOLLOW sets above. */
  lemma Json4aFollowLower(follow: SymbolSets)
    requires IsFollowSolution(Json4a, {}, Json4aFirst, follow)
    ensures Below(Json4aFollow, follow)
  {
    Json4aSymbols();
    assert follow.Keys == Json4aFollow.Keys;
    Json4aFollowMemberChains(follow);
    Json4aFollowValueChains(follow);
    Json4aFollowCollected(follow);
  }

  /** The FOLLOW map of the first attempt is `Json4aFollow`. */
  lemma Json4aFollowSets(nullable: set<Symbol>, first: SymbolSets, follow: SymbolSets)
    requires IsLeastNullable(Json4a, nullable)
    requires IsLeastFirst(Json4a, nullable, first)
    requires IsLeastFollow(Json4a, nullable, first, follow)
    ensures follow == Json4aFollow
  {
    Json4aNullable(nullable);
    Json4aFirstSets(nullable, first);
    Json4aFollowSolution();
    Json4aFollowLower(follow);
    SameWhenBelowBothWays(follow, Json4aFollow);
  }

  lemma Json4aKnownSymbols()
    ensures SelectDefined(Json4a, Json4aFirst, Json4aFollow)
  {
    Json4aSymbols();
    Json4aSelectDefined(Json4aFirst, Json4aFollow);
  }

  /** SELECT of the two obj rules of the first attempt: FIRST of their
      common leading `{`. */
  lemma Json4aObjSelects()
    ensures SelectDefined(Json4a, Json4aFirst, Json4aFollow)
    ensures SelectOf(Json4a[0], {}, Json4aFirst, Json4aFollow) == {LB}
    ensures SelectOf(Json4a[1], {}, Json4aFirst, Json4aFollow) == {LB}
  {
    var g, f, fo := Json4a, Json4aFirst, Json4aFollow;
    Json4aKnownSymbols();
    LeadingSelect(g[0], {}, f, fo);
    LeadingSelect(g[1], {}, f, fo);
  }

  /** SELECT of the two members rules: FIRST(keyvalue) and FIRST(members),
      both exactly `string`. */
  lemma Json4aMembersSelects()
    ensures SelectDefined(Json4a, Json4aFirst, Json4aFollow)
    ensures SelectOf(Json4a[2], {}, Json4aFirst, Json4aFollow) == {STRING}
    ensures SelectOf(Json4a[3], {}, Json4aFirst, Json4aFollow) == {STRING}
  {
    var g, f, fo := Json4a, Json4aFirst, Json4aFollow;
    Json4aKnownSymbols();
    LeadingSelect(g[2], {}, f, fo);
    LeadingSelect(g[3], {}, f, fo);
  }

  /** SELECT of the keyvalue and value rules of the first attempt. */
  lemma Json4aValueSelects()
    ensures SelectDefined(Json4a, Json4aFirst, Json4aFollow)
    ensures SelectOf(Json4a[4], {}, Json4aFirst, Json4aFollow) == {STRING}
    ensures SelectOf(Json4a[5], {}, Json4aFirst, Json4aFollow) == {STRING}
    ensures SelectOf(Json4a[6], {}, Json4aFirst, Json4aFollow) == {INT}
    ensures SelectOf(Json4a[7], {}, Json4aFirst, Json4aFollow) == {LB}
  {
    var g, f, fo := Json4a, Json4aFirst, Json4aFollow;
    Json4aKnownSymbols();
    LeadingSelect(g[4], {}, f, fo);
    LeadingSelect(g[5], {}, f, fo);
    LeadingSelect(g[6], {}, f, fo);
    LeadingSelect(g[7], {}, f, fo);
  }

  /** With the least NULLABLE, FIRST and FOLLOW of the first attempt, the
      two obj rules and the two members rules select on the same terminal. */
  lemma Json4aConflicts()
    ensures SelectDefined(Json4a, Json4aFirst, Json4aFollow)
    ensures LB in SelectOf(Json4a[0], {}, Json4aFirst, Json4aFollow) * SelectOf(Json4a[1], {}, Json4aFirst, Json4aFollow)
    ensures STRING in SelectOf(Json4a[2], {}, Json4aFirst, Json4aFollow) * SelectOf(Json4a[3], {}, Json4aFirst, Json4aFollow)
    ensures !IsLL1Grammar(Json4a, {}, Json4aFirst, Json4aFollow)
  {
    Json4aObjSelects();
    Json4aMembersSelects();
  }

  /** The least NULLABLE, FIRST and FOLLOW of the first attempt. */
  lemma Json4aLeastSets(nullable: set<Symbol>, first: SymbolSets, follow: SymbolSets)
    requires IsLeastNullable(Json4a, nullable)
    requires IsLeastFirst(Json4a, nullable, first)
    requires IsLeastFollow(Json4a, nullable, first, follow)
    ensures nullable == {} && first == Json4aFirst && follow == Json4aFollow
  {
    Json4aNullable(nullable);
    Json4aFirstSets(nullable, first);
    Json4aFollowSets(nullable, first, follow);
  }

  /** The two obj rules share their leading `{`: both select on exactly `{`. */
  lemma Json4aPrefixConflict(nullable: set<Symbol>, first: SymbolSets, follow: SymbolSets)
    requires IsLeastNullable(Json4a, nullable)
    requires IsLeastFirst(Json4a, nullable, first)
    requires IsLeastFollow(Json4a, nullable, first, follow)
    ensures SelectDefined(Json4a, first, follow)
    ensures SelectOf(Json4a[0], nullable, first, follow) == {LB}
    ensures SelectOf(Json4a[1], nullable, first, follow) == {LB}
    ensures !IsLL1Grammar(Json4a, nullable, first, follow)
  {
    Json4aLeastSets(nullable, first, follow);
    Json4aObjSelects();
    Json4aConflicts();
  }

  /** The left-recursive members rule conflicts with members -> keyvalue:
      both select on exactly `string`. */
  lemma Json4aRecursionConflict(nullable: set<Symbol>, first: SymbolSets, follow: SymbolSets)
    requires IsLeastNullable(Json4a, nullable)
    requires IsLeastFirst(Json4a, nullable, first)
    requires IsLeastFollow(Json4a, nullable, first, follow)
    ensures SelectDefined(Json4a, first, follow)
    ensures SelectOf(Json4a[2], nullable, first, follow) == {STRING}
    ensures SelectOf(Json4a[3], nullable, first, follow) == {STRING}
    ensures !IsLL1Grammar(Json4a, nullable, first, follow)
  {
    Json4aLeastSets(nullable, first, follow);
    Json4aMembersSelects();
    Json4aConflicts();
  }

  /** Running the analyser on the first attempt reports conflicts. */
  method Json4aVerdict() returns (ll1: bool)
    ensures !ll1
  {
    ghost var nullable, first, follow;
    ll1, nullable, first, follow := IsLL1(Json4a);
    Json4aPrefixConflict(nullable, first, follow);
  }

  // ------------------------------------------------------------ LL(1) rewrite

  /** obj -> { obj_right;  obj_right -> } | members };
      members -> keyvalue members_right;  members_right -> , members | epsilon;
      keyvalue -> string : value;  value -> string | int | obj */
  const Json4b: Grammar := [
    Rule(Obj, [LB, ObjRight]),
    Rule(ObjRight, [RB]),
    Rule(ObjRight, [Members, RB]),
    Rule(Members, [KeyValue, MembersRight]),
    Rule(MembersRight, [COMMA, Members]),
    Rule(MembersRight, []),
    Rule(KeyValue, [STRING, COLON, Value]),
    Rule(Value, [STRING]),
    Rule(Value, [INT]),
    Rule(Value, [Obj])
  ]

  const Json4bFirst: SymbolSets := map[
    LB := {LB}, RB := {RB}, COMMA := {COMMA}, STRING := {STRING}, COLON := {COLON}, INT := {INT},
    Obj := {LB}, ObjRight := {RB, STRING}, Members := {STRING}, MembersRight := {COMMA},
    KeyValue := {STRING}, Value := {STRING, INT, LB}]

  const Json4bFollow: SymbolSets := map[
    Obj := {EOF, COMMA, RB}, ObjRight := {EOF, COMMA, RB}, Members := {RB}, MembersRight := {RB},
    KeyValue := {COMMA, RB}, Value := {COMMA, RB}]

  lemma Json4bSymbols()
    ensures Nonterminals(Json4b) == {Obj, ObjRight, Members, MembersRight, KeyValue, Value}
    ensures Terminals(Json4b) == {LB, RB, COMMA, STRING, COLON, INT}
  {
    var g := Json4b;
    assert g[0].head == Obj && g[1].head == ObjRight && g[3].head == Members && g[4].head == MembersRight;
    assert g[6].head == KeyValue && g[7].head == Value;
    assert g[0].body[0] == LB && g[1].body[0] == RB && g[4].body[0] == COMMA;
    assert g[6].body[0] == STRING && g[6].body[1] == COLON && g[8].body[0] == INT;
  }

  /** Only members_right, the head of the epsilon rule, is nullable. */
  lemma Json4bNullable(nullable: set<Symbol>)
    requires IsLeastNullable(Json4b, nullable)
    ensures nullable == {MembersRight}
  {
    var g := Json4b;
    assert RuleNullableClosed(g[5], nullable);
    forall k | 0 <= k < |g| ensures RuleNullableClosed(g[k], {MembersRight}) {
      if k != 5 {
        LeadingNotNullable(g[k], {MembersRight});
      }
    }
    assert NullableClosed(g, {MembersRight});
  }

  lemma Json4bFirstRule(k: int)
    requires 0 <= k < |Json4b|
    ensures RuleFirstClosed(Json4b[k], {MembersRight}, Json4bFirst)
  {
    var g, n, f := Json4b, {MembersRight}, Json4bFirst;
    if k == 0 { LeadingFirstClosed(g[0], n, f); }
    else if k == 1 { LeadingFirstClosed(g[1], n, f); }
    else if k == 2 { LeadingFirstClosed(g[2], n, f); }
    else if k == 3 { LeadingFirstClosed(g[3], n, f); }
    else if k == 4 { LeadingFirstClosed(g[4], n, f); }
    else if k == 6 { LeadingFirstClosed(g[6], n, f); }
    else if k == 7 { LeadingFirstClosed(g[7], n, f); }
    else if k == 8 { LeadingFirstClosed(g[8], n, f); }
    else if k == 9 { LeadingFirstClosed(g[9], n, f); }
  }

  lemma Json4bFirstKeyed()
    ensures Json4bFirst.Keys == AllSymbols(Json4b)
    ensures forall t :: t in Terminals(Json4b) ==> t in Json4bFirst[t]
  {
    Json4bSymbols();
  }

  lemma Json4bFirstSolution()
    ensures IsFirstSolution(Json4b, {MembersRight}, Json4bFirst)
  {
    Json4bFirstKeyed();
    forall k | 0 <= k < |Json4b| ensures RuleFirstClosed(Json4b[k], {MembersRight}, Json4bFirst) {
      Json4bFirstRule(k);
    }
  }

  lemma Json4bFirstKeys(first: SymbolSets)
    requires first.Keys == AllSymbols(Json4b)
    requires forall t :: t in Terminals(Json4b) ==> t in first[t]
    ensures first.Keys == Json4bFirst.Keys
    ensures LB in first[LB] && RB in first[RB] && COMMA in first[COMMA] && STRING in first[STRING]
    ensures COLON in first[COLON] && INT in first[INT]
  {
    Json4bSymbols();
  }

  /** What the leading symbols of the rules put into FIRST. */
  lemma Json4bFirstChains(first: SymbolSets)
    requires first.Keys == Json4bFirst.Keys && FirstClosed(Json4b, {MembersRight}, first)
    requires LB in first[LB] && RB in first[RB] && COMMA in first[COMMA] && STRING in first[STRING]
    requires INT in first[INT]
    ensures LB in first[Obj] && RB in first[ObjRight] && first[Members] <= first[ObjRight]
    ensures first[KeyValue] <= first[Members] && COMMA in first[MembersRight] && STRING in first[KeyValue]
    ensures STRING in first[Value] && INT in first[Value] && first[Obj] <= first[Value]
  {
    var g, n := Json4b, {MembersRight};
    LeadingFirstBelow(g, 0, n, first);
    LeadingFirstBelow(g, 1, n, first);
    LeadingFirstBelow(g, 2, n, first);
    LeadingFirstBelow(g, 3, n, first);
    LeadingFirstBelow(g, 4, n, first);
    LeadingFirstBelow(g, 6, n, first);
    LeadingFirstBelow(g, 7, n, first);
    LeadingFirstBelow(g, 8, n, first);
    LeadingFirstBelow(g, 9, n, first);
  }

  lemma Json4bFirstCollected(first: SymbolSets)
    requires first.Keys == Json4bFirst.Keys
    requires LB in first[LB] && RB in first[RB] && COMMA in first[COMMA] && STRING in first[STRING]
    requires COLON in first[COLON] && INT in first[INT]
    requires LB in first[Obj] && RB in first[ObjRight] && first[Members] <= first[ObjRight]
    requires first[KeyValue] <= first[Members] && COMMA in first[MembersRight] && STRING in first[KeyValue]
    requires STRING in first[Value] && INT in first[Value] && first[Obj] <= first[Value]
    ensures Below(Json4bFirst, first)
  {
  }

  /** Every FIRST solution contains the FIRST sets above. */
  lemma Json4bFirstLower(first: SymbolSets)
    requires IsFirstSolution(Json4b, {MembersRight}, first)
    ensures Below(Json4bFirst, first)
  {
    Json4bFirstKeys(first);
    Json4bFirstChains(first);
    Json4bFirstCollected(first);
  }

  /** The FIRST map of the rewrite is `Json4bFirst`. */
  lemma Json4bFirstSets(nullable: set<Symbol>, first: SymbolSets)
    requires IsLeastNullable(Json4b, nullable)
    requires IsLeastFirst(Json4b, nullable, first)
    ensures first == Json4bFirst
  {
    Json4bNullable(nullable);
    Json4bFirstSolution();
    Json4bFirstLower(first);
    SameWhenBelowBothWays(first, Json4bFirst);
  }

  /** members -> keyvalue members_right */
  lemma Json4bFollowMembers()
    ensures RuleFollowClosed(Json4b[3], {Obj, ObjRight, Members, MembersRight, KeyValue, Value},
                             {MembersRight}, Json4bFirst, Json4bFollow)
  {
    FollowRuleClosed(Json4b[3], {Obj, ObjRight, Members, MembersRight, KeyValue, Value},
                     {MembersRight}, Json4bFirst, Json4bFollow, {0, 1});
  }

  lemma Json4bFollowRule(k: int)
    requires 0 <= k < 5
    ensures RuleFollowClosed(Json4b[k], {Obj, ObjRight, Members, MembersRight, KeyValue, Value},
                             {MembersRight}, Json4bFirst, Json4bFollow)
  {
    var g, nt, n, f, fo := Json4b, {Obj, ObjRight, Members, MembersRight, KeyValue, Value},
                           {MembersRight}, Json4bFirst, Json4bFollow;
    if k == 0 { FollowRuleClosed(g[0], nt, n, f, fo, {1}); }
    else if k == 1 { FollowRuleClosed(g[1], nt, n, f, fo, {}); }
    else if k == 2 { FollowRuleClosed(g[2], nt, n, f, fo, {0}); }
    else if k == 3 { Json4bFollowMembers(); }
    else { FollowRuleClosed(g[4], nt, n, f, fo, {1}); }
  }

  lemma Json4bFollowRuleRest(k: int)
    requires 5 <= k < |Json4b|
    ensures RuleFollowClosed(Json4b[k], {Obj, ObjRight, Members, MembersRight, KeyValue, Value},
                             {MembersRight}, Json4bFirst, Json4bFollow)
  {
    var g, nt, n, f, fo := Json4b, {Obj, ObjRight, Members, MembersRight, KeyValue, Value},
                           {MembersRight}, Json4bFirst, Json4bFollow;
    if k == 5 { FollowRuleClosed(g[5], nt, n, f, fo, {}); }
    else if k == 6 { FollowRuleClosed(g[6], nt, n, f, fo, {2}); }
    else if k == 7 { FollowRuleClosed(g[7], nt, n, f, fo, {}); }
    else if k == 8 { FollowRuleClosed(g[8], nt, n, f, fo, {}); }
    else { FollowRuleClosed(g[9], nt, n, f, fo, {0}); }
  }

  lemma Json4bFollowSolution()
    ensures IsFollowSolution(Json4b, {MembersRight}, Json4bFirst, Json4bFollow)
  {
    Json4bSymbols();
    assert Json4bFollow.Keys == Nonterminals(Json4b);
    forall k | 0 <= k < |Json4b|
      ensures RuleFollowClosed(Json4b[k], Nonterminals(Json4b), {MembersRight}, Json4bFirst, Json4bFollow)
    {
      if k < 5 { Json4bFollowRule(k); } else { Json4bFollowRuleRest(k); }
    }
  }

  lemma Json4bFollowKeys(follow: SymbolSets)
    requires follow.Keys == Nonterminals(Json4b)
    ensures follow.Keys == Json4bFollow.Keys
  {
    Json4bSymbols();
  }

  /** What rules 2 and 3 put into the FOLLOW sets of members and its parts. */
  lemma Json4bFollowMemberChains(follow: SymbolSets)
    requires follow.Keys == Json4bFollow.Keys && FollowClosed(Json4b, {MembersRight}, Json4bFirst, follow)
    ensures RB in follow[Members] && COMMA in follow[KeyValue]
    ensures follow[Members] <= follow[KeyValue] && follow[Members] <= follow[MembersRight]
  {
    var g, n, f := Json4b, {MembersRight}, Json4bFirst;
    assert g[3].head == Members && g[4].head == MembersRight && g[6].head == KeyValue;
    assert g[2].body[1..1] == [] && g[3].body[1..1] == [] && g[3].body[1..] == [MembersRight];
    assert g[3].body[2..] == [];
    FollowFirstBelow(g, 2, n, f, follow, 0, 1);
    FollowFirstBelow(g, 3, n, f, follow, 0, 1);
    FollowAfterBelow(g, 3, n, f, follow, 0);
    FollowAfterBelow(g, 3, n, f, follow, 1);
  }

  /** What rules 0, 6 and 9 pass on between obj, obj_right, keyvalue and value. */
  lemma Json4bFollowValueChains(follow: SymbolSets)
    requires follow.Keys == Json4bFollow.Keys && FollowClosed(Json4b, {MembersRight}, Json4bFirst, follow)
    ensures follow[Obj] <= follow[ObjRight] && follow[KeyValue] <= follow[Value]
    ensures follow[Value] <= follow[Obj]
  {
    var g, n, f := Json4b, {MembersRight}, Json4bFirst;
    assert g[1].head == ObjRight && g[7].head == Value && g[0].head == Obj;
    assert g[0].body[2..] == [] && g[6].body[3..] == [] && g[9].body[1..] == [];
    FollowAfterBelow(g, 0, n, f, follow, 1);
    FollowAfterBelow(g, 6, n, f, follow, 2);
    FollowAfterBelow(g, 9, n, f, follow, 0);
  }

  lemma Json4bFollowCollected(follow: SymbolSets)
    requires follow.Keys == Json4bFollow.Keys
    requires EOF in follow[Obj] && RB in follow[Members] && COMMA in follow[KeyValue]
    requires follow[Members] <= follow[KeyValue] && follow[Members] <= follow[MembersRight]
    requires follow[Obj] <= follow[ObjRight] && follow[KeyValue] <= follow[Value]
    requires follow[Value] <= follow[Obj]
    ensures Below(Json4bFollow, follow)
  {
  }

  /** Every FOLLOW solution contains the FOLLOW sets above. */
  lemma Json4bFollowLower(follow: SymbolSets)
    requires IsFollowSolution(Json4b, {MembersRight}, Json4bFirst, follow)
    ensures Below(Json4bFollow, follow)
  {
    Json4bFollowKeys(follow);
    Json4bFollowMemberChains(follow);
    Json4bFollowValueChains(follow);
    Json4bFollowCollected(follow);
  }

  /** The FOLLOW map of the rewrite is `Json4bFollow`: a nested object can be
      followed by `,` or `}` as well as by the end of input. */
  lemma Json4bFollowSets(nullable: set<Symbol>, first: SymbolSets, follow: SymbolSets)
    requires IsLeastNullable(Json4b, nullable)
    requires IsLeastFirst(Json4b, nullable, first)
    requires IsLeastFollow(Json4b, nullable, first, follow)
    ensures follow == Json4bFollow
  {
    Json4bNullable(nullable);
    Json4bFirstSets(nullable, first);
    Json4bFollowSolution();
    Json4bFollowLower(follow);
    SameWhenBelowBothWays(follow, Json4bFollow);
  }

  lemma Json4bSelectDefined()
    ensures SelectDefined(Json4b, Json4bFirst, Json4bFollow)
  {
    Json4bSymbols();
    RuleSymbolsKnown(Json4b);
  }

  /** SELECT of the obj, obj_right and members rules of the rewrite. */
  lemma Json4bObjectSelects()
    ensures SelectDefined(Json4b, Json4bFirst, Json4bFollow)
    ensures SelectOf(Json4b[0], {MembersRight}, Json4bFirst, Json4bFollow) == {LB}
    ensures SelectOf(Json4b[1], {MembersRight}, Json4bFirst, Json4bFollow) == {RB}
    ensures SelectOf(Json4b[2], {MembersRight}, Json4bFirst, Json4bFollow) == {STRING}
    ensures SelectOf(Json4b[3], {MembersRight}, Json4bFirst, Json4bFollow) == {STRING}
    ensures SelectOf(Json4b[4], {MembersRight}, Json4bFirst, Json4bFollow) == {COMMA}
  {
    var g, n, f, fo := Json4b, {MembersRight}, Json4bFirst, Json4bFollow;
    Json4bSelectDefined();
    LeadingSelect(g[0], n, f, fo);
    LeadingSelect(g[1], n, f, fo);
    LeadingSelect(g[2], n, f, fo);
    LeadingSelect(g[3], n, f, fo);
    LeadingSelect(g[4], n, f, fo);
  }

  /** SELECT of the remaining rules: the epsilon rule selects on FOLLOW(members_right). */
  lemma Json4bValueSelects()
    ensures SelectDefined(Json4b, Json4bFirst, Json4bFollow)
    ensures SelectOf(Json4b[5], {MembersRight}, Json4bFirst, Json4bFollow) == {RB}
    ensures SelectOf(Json4b[6], {MembersRight}, Json4bFirst, Json4bFollow) == {STRING}
    ensures SelectOf(Json4b[7], {MembersRight}, Json4bFirst, Json4bFollow) == {STRING}
    ensures SelectOf(Json4b[8], {MembersRight}, Json4bFirst, Json4bFollow) == {INT}
    ensures SelectOf(Json4b[9], {MembersRight}, Json4bFirst, Json4bFollow) == {LB}
  {
    var g, n, f, fo := Json4b, {MembersRight}, Json4bFirst, Json4bFollow;
    Json4bSelectDefined();
    LeadingSelect(g[6], n, f, fo);
    LeadingSelect(g[7], n, f, fo);
    LeadingSelect(g[8], n, f, fo);
    LeadingSelect(g[9], n, f, fo);
  }

  lemma Json4bSameHeads()
    ensures forall i, j :: 0 <= i < j < |Json4b| && Json4b[i].head == Json4b[j].head ==>
              (i == 1 && j == 2) || (i == 4 && j == 5) || (i == 7 && (j == 8 || j == 9)) || (i == 8 && j == 9)
  {
    var g := Json4b;
    forall i, j | 0 <= i < j < |g| && g[i].head == g[j].head
      ensures (i == 1 && j == 2) || (i == 4 && j == 5) || (i == 7 && (j == 8 || j == 9)) || (i == 8 && j == 9)
    {
      assert i == 0 || i == 1 || i == 2 || i == 3 || i == 4 || i == 5 || i == 6 || i == 7 || i == 8;
      assert j == 1 || j == 2 || j == 3 || j == 4 || j == 5 || j == 6 || j == 7 || j == 8 || j == 9;
    }
  }

  lemma Json4bSelectsDisjoint()
    ensures SelectDefined(Json4b, Json4bFirst, Json4bFollow)
    ensures IsLL1Grammar(Json4b, {MembersRight}, Json4bFirst, Json4bFollow)
  {
    Json4bObjectSelects();
    Json4bValueSelects();
    Json4bSameHeads();
  }

  /** The rewrite is LL(1). */
  lemma Json4bIsLL1(nullable: set<Symbol>, first: SymbolSets, follow: SymbolSets)
    requires IsLeastNullable(Json4b, nullable)
    requires IsLeastFirst(Json4b, nullable, first)
    requires IsLeastFollow(Json4b, nullable, first, follow)
    ensures SelectDefined(Json4b, first, follow)
    ensures IsLL1Grammar(Json4b, nullable, first, follow)
  {
    Json4bNullable(nullable);
    Json4bFirstSets(nullable, first);
    Json4bFollowSets(nullable, first, follow);
    Json4bSelectsDisjoint();
  }

  /** Running the analyser on the rewrite reports LL(1). */
  method Json4bVerdict() returns (ll1: bool)
    ensures ll1
  {
    ghost var nullable, first, follow;
    ll1, nullable, first, follow := IsLL1(Json4b);
    Json4bIsLL1(nullable, first, follow);
  }
}
