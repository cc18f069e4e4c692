/** Properties of the analyser's results, derived from their characterisation
    as least solutions: what NULLABLE, FIRST, FOLLOW and SELECT may contain,
    how SELECT follows the "stop after the first non-nullable symbol" walk,
    and which rule pairs can make a grammar fail the LL(1) test. */
module Properties {
  import opened Symbols
  import opened Grammar

  // ---------------------------------------------------------------- NULLABLE

  /** Every head of an epsilon rule is nullable, and only rule heads are. */
  lemma NullableShape(g: Grammar, nullable: set<Symbol>)
    requires IsLeastNullable(g, nullable)
    ensures forall k :: 0 <= k < |g| && g[k].body == [] ==> g[k].head in nullable
    ensures nullable <= Nonterminals(g)
  {
    forall k | 0 <= k < |g| && g[k].body == [] ensures g[k].head in nullable {
      assert RuleNullableClosed(g[k], nullable);
    }
    assert NullableClosed(g, Nonterminals(g)) by {
      forall k | 0 <= k < |g| ensures RuleNullableClosed(g[k], Nonterminals(g)) {
        assert g[k].head in Nonterminals(g);
      }
    }
  }

  /** Least solutions are unique, so the analyser's results are determined by the grammar. */
  lemma LeastSolutionsUnique(g: Grammar, n1: set<Symbol>, n2: set<Symbol>,
                             f1: SymbolSets, f2: SymbolSets, fo1: SymbolSets, fo2: SymbolSets)
    requires |g| > 0
    requires IsLeastNullable(g, n1) && IsLeastNullable(g, n2)
    requires IsLeastFirst(g, n1, f1) && IsLeastFirst(g, n1, f2)
    requires IsLeastFollow(g, n1, f1, fo1) && IsLeastFollow(g, n1, f1, fo2)
    ensures n1 == n2 && f1 == f2 && fo1 == fo2
  {
    assert n1 <= n2 && n2 <= n1;
    SameWhenBelowBothWays(f1, f2);
    SameWhenBelowBothWays(fo1, fo2);
  }

  lemma SameWhenBelowBothWays(a: SymbolSets, b: SymbolSets)
    requires Below(a, b) && Below(b, a)
    ensures a == b
  {
    assert a.Keys == b.Keys;
    forall s | s in a ensures a[s] == b[s] {
    }
  }

  // ------------------------------------------------------------------- FIRST

  /** FIRST(t) = {t} for every terminal t; FIRST of a nonterminal holds only terminals. */
  lemma FirstShape(g: Grammar, nullable: set<Symbol>, first: SymbolSets)
    requires IsLeastFirst(g, nullable, first)
    ensures forall t :: t in Terminals(g) ==> first[t] == {t}
    ensures forall a :: a in Nonterminals(g) ==> first[a] <= Terminals(g)
  {
    RuleSymbolsKnown(g);
    var bound := map s | s in AllSymbols(g) :: if s in Terminals(g) then {s} else Terminals(g);
    forall k | 0 <= k < |g| ensures RuleFirstClosed(g[k], nullable, bound) {
      assert bound[g[k].head] == Terminals(g);
      forall i | 0 <= i < |g[k].body| ensures bound[g[k].body[i]] <= Terminals(g) {
      }
    }
    assert IsFirstSolution(g, nullable, bound);
    assert Below(first, bound);
  }

  // ------------------------------------------------------------------ FOLLOW

  /** Mapping every nonterminal to all terminals and EOF solves the FOLLOW
      constraints when FIRST holds only terminals. */
  lemma FollowBoundIsSolution(g: Grammar, nullable: set<Symbol>, first: SymbolSets)
    requires |g| > 0
    requires first.Keys == AllSymbols(g)
    requires forall s :: s in first ==> first[s] <= Terminals(g)
    ensures IsFollowSolution(g, nullable, first, map a | a in Nonterminals(g) :: Terminals(g) + {EOF})
  {
    RuleSymbolsKnown(g);
    var bound := map a | a in Nonterminals(g) :: Terminals(g) + {EOF};
    forall k | 0 <= k < |g| ensures RuleFollowClosed(g[k], Nonterminals(g), nullable, first, bound) {
      var r := g[k];
      forall i, j | 0 <= i < j < |r.body| && r.body[i] in Nonterminals(g)
        ensures first[r.body[j]] <= bound[r.body[i]]
      {
      }
    }
  }

  /** FOLLOW has no entry for a terminal, and its entries hold only terminals and EOF. */
  lemma FollowShape(g: Grammar, nullable: set<Symbol>, first: SymbolSets, follow: SymbolSets)
    requires |g| > 0
    requires IsLeastFirst(g, nullable, first)
    requires IsLeastFollow(g, nullable, first, follow)
    ensures forall t :: t in Terminals(g) ==> t !in follow
    ensures forall a :: a in follow ==> follow[a] <= Terminals(g) + {EOF}
  {
    FirstShape(g, nullable, first);
    assert forall s :: s in first ==> first[s] <= Terminals(g);
    FollowBoundIsSolution(g, nullable, first);
    var bound := map a | a in Nonterminals(g) :: Terminals(g) + {EOF};
    assert Below(follow, bound);
  }


  /** A body symbol that is never a rule head is a terminal: FIRST is itself,
      it is never nullable and it has no FOLLOW entry. */
  lemma UndeclaredSymbolIsTerminal(g: Grammar, nullable: set<Symbol>, first: SymbolSets,
                                   follow: SymbolSets, s: Symbol)
    requires |g| > 0
    requires IsLeastNullable(g, nullable)
    requires IsLeastFirst(g, nullable, first)
    requires IsLeastFollow(g, nullable, first, follow)
    requires s in BodySymbols(g) && s !in Nonterminals(g)
    ensures s in Terminals(g) && first[s] == {s} && s !in nullable && s !in follow
  {
    NullableShape(g, nullable);
    FirstShape(g, nullable, first);
    FollowShape(g, nullable, first, follow);
  }

  // ------------------------------------------------------------------ SELECT

  /** FIRST of a sequence collects FIRST(s[k]) for exactly the positions k whose
      prefix s[..k] is nullable. */
  lemma {:induction false} FirstOfSeqPositions(s: seq<Symbol>, nullable: set<Symbol>, first: SymbolSets, x: Symbol)
    requires forall i :: 0 <= i < |s| ==> s[i] in first
    ensures x in FirstOfSeq(s, nullable, first) <==>
            exists k :: 0 <= k < |s| && AllIn(s[..k], nullable) && x in first[s[k]]
  {
    if s != [] {
      FirstOfSeqPositions(s[1..], nullable, first, x);
      if x in FirstOfSeq(s, nullable, first) {
        if x in first[s[0]] {
          assert AllIn(s[..0], nullable);
        } else {
          var k :| 0 <= k < |s[1..]| && AllIn(s[1..][..k], nullable) && x in first[s[1..][k]];
          assert AllIn(s[..k + 1], nullable) by {
            assert s[..k + 1] == [s[0]] + s[1..][..k];
          }
          assert x in first[s[k + 1]];
        }
      }
      if exists k :: 0 <= k < |s| && AllIn(s[..k], nullable) && x in first[s[k]] {
        var k :| 0 <= k < |s| && AllIn(s[..k], nullable) && x in first[s[k]];
        if k > 0 {
          assert s[..k][0] == s[0];
          assert AllIn(s[1..][..k - 1], nullable) by {
            assert s[1..][..k - 1] == s[..k][1..];
          }
          assert s[1..][k - 1] == s[k];
        }
      }
    }
  }

  /** When body[k] is the first non-nullable symbol, SELECT is the union of
      FIRST(body[0]) .. FIRST(body[k]) and takes nothing from FOLLOW. */
  lemma SelectStopsAtFirstNonNullable(r: Rule, nullable: set<Symbol>, first: SymbolSets,
                                      follow: SymbolSets, k: int, x: Symbol)
    requires forall i :: 0 <= i < |r.body| ==> r.body[i] in first
    requires r.head in follow
    requires 0 <= k < |r.body| && AllIn(r.body[..k], nullable) && r.body[k] !in nullable
    ensures x in SelectOf(r, nullable, first, follow) <==>
            exists i :: 0 <= i <= k && x in first[r.body[i]]
  {
    FirstOfSeqPositions(r.body, nullable, first, x);
    assert !AllIn(r.body, nullable);
    if exists i :: 0 <= i < |r.body| && AllIn(r.body[..i], nullable) && x in first[r.body[i]] {
      var i :| 0 <= i < |r.body| && AllIn(r.body[..i], nullable) && x in first[r.body[i]];
      assert i <= k;
    }
    if exists i :: 0 <= i <= k && x in first[r.body[i]] {
      var i :| 0 <= i <= k && x in first[r.body[i]];
      assert AllIn(r.body[..i], nullable) by {
        forall p | 0 <= p < i ensures r.body[..i][p] in nullable {
          assert r.body[..i][p] == r.body[..k][p];
        }
      }
    }
  }

  /** When the whole body is nullable, SELECT is FIRST of every body symbol
      plus FOLLOW(head); for an epsilon rule it is exactly FOLLOW(head). */
  lemma SelectOfNullableBody(r: Rule, nullable: set<Symbol>, first: SymbolSets, follow: SymbolSets, x: Symbol)
    requires forall i :: 0 <= i < |r.body| ==> r.body[i] in first
    requires r.head in follow
    requires AllIn(r.body, nullable)
    ensures x in SelectOf(r, nullable, first, follow) <==>
            (exists i :: 0 <= i < |r.body| && x in first[r.body[i]]) || x in follow[r.head]
    ensures r.body == [] ==> SelectOf(r, nullable, first, follow) == follow[r.head]
  {
    FirstOfSeqPositions(r.body, nullable, first, x);
    if exists i :: 0 <= i < |r.body| && x in first[r.body[i]] {
      var i :| 0 <= i < |r.body| && x in first[r.body[i]];
      assert AllIn(r.body[..i], nullable) by {
        forall p | 0 <= p < i ensures r.body[..i][p] in nullable {
          assert r.body[..i][p] == r.body[p];
        }
      }
    }
  }

  /** SELECT of a rule lies within FIRST(head) + FOLLOW(head): a lookahead that
      predicts a rule can begin or follow its head. */
  lemma SelectWithinFirstAndFollow(g: Grammar, nullable: set<Symbol>, first: SymbolSets,
                                   follow: SymbolSets, k: int)
    requires 0 <= k < |g|
    requires FirstClosed(g, nullable, first) && SelectDefined(g, first, follow)
    requires g[k].head in first
    ensures SelectOf(g[k], nullable, first, follow) <= first[g[k].head] + follow[g[k].head]
  {
    var r := g[k];
    assert RuleFirstClosed(r, nullable, first);
    forall x | x in FirstOfSeq(r.body, nullable, first) ensures x in first[r.head] {
      FirstOfSeqPositions(r.body, nullable, first, x);
    }
  }

  /** Every SELECT set holds only terminals and EOF. */
  lemma SelectWithinTerminals(g: Grammar, nullable: set<Symbol>, first: SymbolSets,
                              follow: SymbolSets, k: int)
    requires |g| > 0 && 0 <= k < |g|
    requires IsLeastFirst(g, nullable, first) && IsLeastFollow(g, nullable, first, follow)
    ensures SelectDefined(g, first, follow)
    ensures SelectOf(g[k], nullable, first, follow) <= Terminals(g) + {EOF}
  {
    RuleSymbolsKnown(g);
    FirstShape(g, nullable, first);
    FollowShape(g, nullable, first, follow);
    var r := g[k];
    forall x | x in FirstOfSeq(r.body, nullable, first) ensures x in Terminals(g) {
      FirstOfSeqPositions(r.body, nullable, first, x);
      var i :| 0 <= i < |r.body| && AllIn(r.body[..i], nullable) && x in first[r.body[i]];
      assert r.body[i] in Terminals(g) || r.body[i] in Nonterminals(g);
    }
  }

  // ------------------------------------------------------------------- LL(1)

  /** Only rules with the same head are compared: a grammar whose rules all
      have different heads is LL(1) whatever its SELECT sets are. */
  lemma DistinctHeadsAreLL1(g: Grammar, nullable: set<Symbol>, first: SymbolSets, follow: SymbolSets)
    requires SelectDefined(g, first, follow)
    requires forall i, j :: 0 <= i < j < |g| ==> g[i].head != g[j].head
    ensures IsLL1Grammar(g, nullable, first, follow)
  {
  }

  /** A rule listed twice conflicts with itself as soon as its SELECT set is
      non-empty, because both copies share one SELECT entry. */
  lemma DuplicateRuleConflicts(g: Grammar, nullable: set<Symbol>, first: SymbolSets,
                               follow: SymbolSets, i: int, j: int)
    requires SelectDefined(g, first, follow)
    requires 0 <= i < j < |g| && g[i] == g[j]
    requires SelectOf(g[i], nullable, first, follow) != {}
    ensures !IsLL1Grammar(g, nullable, first, follow)
  {
    var s := SelectOf(g[i], nullable, first, follow);
    assert s * s == s;
  }

  /** Two rules for the same head that both start with the same terminal
      (a common prefix left unfactored) make the grammar not LL(1), whatever
      the rest of the rules: both SELECT sets contain that terminal. */
  lemma SharedLeadingTerminalConflicts(g: Grammar, nullable: set<Symbol>, first: SymbolSets,
                                       follow: SymbolSets, i: int, j: int)
    requires |g| > 0
    requires IsLeastNullable(g, nullable)
    requires IsLeastFirst(g, nullable, first)
    requires IsLeastFollow(g, nullable, first, follow)
    requires 0 <= i < j < |g| && g[i].head == g[j].head
    requires |g[i].body| > 0 && |g[j].body| > 0 && g[i].body[0] == g[j].body[0]
    requires g[i].body[0] !in Nonterminals(g)
    ensures SelectDefined(g, first, follow)
    ensures g[i].body[0] in SelectOf(g[i], nullable, first, follow) * SelectOf(g[j], nullable, first, follow)
    ensures !IsLL1Grammar(g, nullable, first, follow)
  {
    var t := g[i].body[0];
    RuleSymbolsKnown(g);
    UndeclaredSymbolIsTerminal(g, nullable, first, follow, t);
    SelectWithinTerminals(g, nullable, first, follow, i);
    assert t in first[g[i].body[0]] && t in first[g[j].body[0]];
  }

  // ------------------------------------------------- rule-by-rule facts

  /** The terminals of a grammar, collected from its two halves. */
  lemma TerminalsOfSplit(g: Grammar, m: int, heads: set<Symbol>, low: set<Symbol>, high: set<Symbol>)
    requires 0 <= m <= |g|
    requires Nonterminals(g) == heads
    requires BodySymbols(g[..m]) - heads == low && BodySymbols(g[m..]) - heads == high
    ensures Terminals(g) == low + high
  {
    SymbolsOfSplit(g, m);
  }

  /** The heads and body symbols of a grammar are those of its two halves. */
  lemma SymbolsOfSplit(g: Grammar, m: int)
    requires 0 <= m <= |g|
    ensures Nonterminals(g) == Nonterminals(g[..m]) + Nonterminals(g[m..])
    ensures BodySymbols(g) == BodySymbols(g[..m]) + BodySymbols(g[m..])
  {
    forall x | x in Nonterminals(g) ensures x in Nonterminals(g[..m]) + Nonterminals(g[m..]) {
      var k :| 0 <= k < |g| && g[k].head == x;
      if k < m { assert g[..m][k] == g[k]; } else { assert g[m..][k - m] == g[k]; }
    }
    forall x | x in Nonterminals(g[m..]) ensures x in Nonterminals(g) {
      var k :| 0 <= k < |g[m..]| && g[m..][k].head == x;
      assert g[k + m] == g[m..][k];
    }
    forall x | x in BodySymbols(g) ensures x in BodySymbols(g[..m]) + BodySymbols(g[m..]) {
      var k, i :| 0 <= k < |g| && 0 <= i < |g[k].body| && g[k].body[i] == x;
      if k < m { assert g[..m][k] == g[k]; } else { assert g[m..][k - m] == g[k]; }
    }
    forall x | x in BodySymbols(g[m..]) ensures x in BodySymbols(g) {
      var k, i :| 0 <= k < |g[m..]| && 0 <= i < |g[m..][k].body| && g[m..][k].body[i] == x;
      assert g[k + m] == g[m..][k];
    }
  }

  /** A rule whose body starts with a non-nullable symbol adds nothing to NULLABLE. */
  lemma LeadingNotNullable(r: Rule, nullable: set<Symbol>)
    requires |r.body| > 0 && r.body[0] !in nullable
    ensures RuleNullableClosed(r, nullable)
  {
    assert !AllIn(r.body, nullable);
  }

  /** Such a rule's FIRST constraint only concerns its leading symbol. */
  lemma LeadingFirstClosed(r: Rule, nullable: set<Symbol>, first: SymbolSets)
    requires r.head in first && forall i :: 0 <= i < |r.body| ==> r.body[i] in first
    requires |r.body| > 0 && r.body[0] !in nullable && first[r.body[0]] <= first[r.head]
    ensures RuleFirstClosed(r, nullable, first)
  {
    forall i | 0 < i < |r.body| ensures !AllIn(r.body[..i], nullable) {
      assert r.body[..i][0] == r.body[0];
    }
  }

  /** Any FIRST solution contains FIRST of a rule's leading symbol in FIRST of its head. */
  lemma LeadingFirstBelow(g: Grammar, k: int, nullable: set<Symbol>, first: SymbolSets)
    requires FirstClosed(g, nullable, first) && 0 <= k < |g| && |g[k].body| > 0
    ensures first[g[k].body[0]] <= first[g[k].head]
  {
    assert RuleFirstClosed(g[k], nullable, first);
    assert AllIn(g[k].body[..0], nullable);
  }

  /** Both FOLLOW constraints at position i hold once FIRST of the rest of the
      body, and FOLLOW(head) when the rest is nullable, are in FOLLOW(body[i]). */
  lemma FollowPositionClosed(r: Rule, i: int, nullable: set<Symbol>, first: SymbolSets, follow: SymbolSets)
    requires 0 <= i < |r.body| && r.head in follow && r.body[i] in follow
    requires forall j :: 0 <= j < |r.body| ==> r.body[j] in first
    requires FirstOfSeq(r.body[i + 1..], nullable, first) <= follow[r.body[i]]
    requires AllIn(r.body[i + 1..], nullable) ==> follow[r.head] <= follow[r.body[i]]
    ensures FollowAfterAt(r, i, nullable, follow)
    ensures forall j :: i < j < |r.body| ==> FollowFirstAt(r, i, j, nullable, first, follow)
  {
    var rest := r.body[i + 1..];
    forall j, x | i < j < |r.body| && AllIn(r.body[i + 1..j], nullable) && x in first[r.body[j]]
      ensures x in follow[r.body[i]]
    {
      assert rest[..j - i - 1] == r.body[i + 1..j] && rest[j - i - 1] == r.body[j];
      FirstOfSeqPositions(rest, nullable, first, x);
    }
  }

  /** A rule's FOLLOW constraints hold when they hold at each listed position
      and no other position holds a nonterminal. */
  lemma FollowRuleClosed(r: Rule, nonterminals: set<Symbol>, nullable: set<Symbol>,
                         first: SymbolSets, follow: SymbolSets, positions: set<int>)
    requires r.head in follow && forall j :: 0 <= j < |r.body| ==> r.body[j] in first
    requires forall i :: 0 <= i < |r.body| && r.body[i] in nonterminals ==> i in positions
    requires forall i :: i in positions ==>
               && 0 <= i < |r.body| && r.body[i] in follow
               && FirstOfSeq(r.body[i + 1..], nullable, first) <= follow[r.body[i]]
               && (AllIn(r.body[i + 1..], nullable) ==> follow[r.head] <= follow[r.body[i]])
    ensures RuleFollowClosed(r, nonterminals, nullable, first, follow)
  {
    forall i | 0 <= i < |r.body| && r.body[i] in nonterminals
      ensures FollowAfterAt(r, i, nullable, follow)
      ensures forall j :: i < j < |r.body| ==> FollowFirstAt(r, i, j, nullable, first, follow)
    {
      FollowPositionClosed(r, i, nullable, first, follow);
    }
  }

  /** In any FOLLOW solution, FOLLOW(head) is in FOLLOW(body[i]) when the rest
      of the body after the nonterminal at i is nullable. */
  lemma FollowAfterBelow(g: Grammar, k: int, nullable: set<Symbol>, first: SymbolSets, follow: SymbolSets, i: int)
    requires FollowClosed(g, nullable, first, follow) && 0 <= k < |g|
    requires 0 <= i < |g[k].body| && g[k].body[i] in Nonterminals(g) && AllIn(g[k].body[i + 1..], nullable)
    ensures follow[g[k].head] <= follow[g[k].body[i]]
  {
    assert RuleFollowClosed(g[k], Nonterminals(g), nullable, first, follow);
    assert FollowAfterAt(g[k], i, nullable, follow);
  }

  /** In any FOLLOW solution, FIRST(body[j]) is in FOLLOW(body[i]) when the
      symbols strictly between are nullable. */
  lemma FollowFirstBelow(g: Grammar, k: int, nullable: set<Symbol>, first: SymbolSets, follow: SymbolSets,
                         i: int, j: int)
    requires FollowClosed(g, nullable, first, follow) && 0 <= k < |g|
    requires 0 <= i < j < |g[k].body| && g[k].body[i] in Nonterminals(g) && AllIn(g[k].body[i + 1..j], nullable)
    ensures first[g[k].body[j]] <= follow[g[k].body[i]]
  {
    assert RuleFollowClosed(g[k], Nonterminals(g), nullable, first, follow);
    assert FollowFirstAt(g[k], i, j, nullable, first, follow);
  }

  /** SELECT of a rule whose leading symbol is not nullable is FIRST of that symbol. */
  lemma LeadingSelect(r: Rule, nullable: set<Symbol>, first: SymbolSets, follow: SymbolSets)
    requires forall i :: 0 <= i < |r.body| ==> r.body[i] in first
    requires r.head in follow
    requires |r.body| > 0 && r.body[0] !in nullable
    ensures SelectOf(r, nullable, first, follow) == first[r.body[0]]
  {
    assert !AllIn(r.body, nullable);
  }
}
