/** Grammars as ordered lists of rules, and the textbook characterisation of
    NULLABLE, FIRST, FOLLOW and SELECT that the analyser computes.

    Each of NULLABLE, FIRST and FOLLOW is specified as the LEAST solution of
    its closure constraints: a candidate is a "solution" when every rule's
    constraint holds on it, and the analyser's result is a solution that is
    contained in every other solution. */
module Grammar {
  import opened Symbols

  /** A rule `head -> body`; an empty body is an epsilon rule. Rules are values,
      so two rules with equal head and body are the same dictionary key. */
  datatype Rule = Rule(head: Symbol, body: seq<Symbol>)

  /** The first rule's head is the start symbol. */
  type Grammar = seq<Rule>

  type SymbolSets = map<Symbol, set<Symbol>>

  function Start(g: Grammar): Symbol
    requires |g| > 0
  {
    g[0].head
  }

  /** Nonterminals are exactly the rule heads. */
  function Nonterminals(g: Grammar): set<Symbol>
  {
    set k | 0 <= k < |g| :: g[k].head
  }

  function BodySymbols(g: Grammar): set<Symbol>
  {
    set k, i | 0 <= k < |g| && 0 <= i < |g[k].body| :: g[k].body[i]
  }

  /** Terminals are the body symbols that are never a rule head. */
  function Terminals(g: Grammar): set<Symbol>
  {
    BodySymbols(g) - Nonterminals(g)
  }

  function AllSymbols(g: Grammar): set<Symbol>
  {
    Terminals(g) + Nonterminals(g)
  }

  /** A sequence of symbols is nullable when every element is in `nullable`. */
  predicate AllIn(s: seq<Symbol>, nullable: set<Symbol>)
  {
    forall i :: 0 <= i < |s| ==> s[i] in nullable
  }

  // ---------------------------------------------------------------- NULLABLE

  /** A rule respects `nullable`: a body made only of nullable symbols
      (vacuously, an empty body) has a nullable head. */
  ghost predicate RuleNullableClosed(r: Rule, nullable: set<Symbol>)
  {
    AllIn(r.body, nullable) ==> r.head in nullable
  }

  ghost predicate NullableClosed(g: Grammar, nullable: set<Symbol>)
  {
    forall k :: 0 <= k < |g| ==> RuleNullableClosed(g[k], nullable)
  }

  ghost predicate IsLeastNullable(g: Grammar, nullable: set<Symbol>)
  {
    && NullableClosed(g, nullable)
    && forall m :: NullableClosed(g, m) ==> nullable <= m
  }

  // ------------------------------------------------------------------- FIRST

  /** For every position i of the rule whose prefix body[..i] is nullable,
      FIRST(body[i]) is contained in FIRST(head). */
  ghost predicate RuleFirstClosed(r: Rule, nullable: set<Symbol>, first: SymbolSets)
  {
    && r.head in first
    && (forall i :: 0 <= i < |r.body| ==> r.body[i] in first)
    && forall i :: 0 <= i < |r.body| && AllIn(r.body[..i], nullable) ==>
         first[r.body[i]] <= first[r.head]
  }

  ghost predicate FirstClosed(g: Grammar, nullable: set<Symbol>, first: SymbolSets)
  {
    forall k :: 0 <= k < |g| ==> RuleFirstClosed(g[k], nullable, first)
  }

  /** A FIRST solution has an entry for every symbol, contains t in the entry
      of every terminal t, and satisfies every rule's constraint. */
  ghost predicate IsFirstSolution(g: Grammar, nullable: set<Symbol>, first: SymbolSets)
  {
    && first.Keys == AllSymbols(g)
    && (forall t :: t in Terminals(g) ==> t in first[t])
    && FirstClosed(g, nullable, first)
  }

  /** Pointwise inclusion of two symbol-indexed families of sets. */
  ghost predicate Below(a: SymbolSets, b: SymbolSets)
  {
    forall s :: s in a ==> s in b && a[s] <= b[s]
  }

  ghost predicate IsLeastFirst(g: Grammar, nullable: set<Symbol>, first: SymbolSets)
  {
    && IsFirstSolution(g, nullable, first)
    && forall other :: IsFirstSolution(g, nullable, other) ==> Below(first, other)
  }

  // ------------------------------------------------------------------ FOLLOW

  /** Rule (a) at nonterminal position i: if body[i+1..] is nullable,
      FOLLOW(head) is contained in FOLLOW(body[i]). */
  ghost predicate FollowAfterAt(r: Rule, i: int, nullable: set<Symbol>, follow: SymbolSets)
    requires 0 <= i < |r.body|
    requires r.head in follow && r.body[i] in follow
  {
    AllIn(r.body[i + 1..], nullable) ==> follow[r.head] <= follow[r.body[i]]
  }

  /** Rule (b) at nonterminal position i and a later position j: if
      body[i+1..j] is nullable, FIRST(body[j]) is contained in FOLLOW(body[i]). */
  ghost predicate FollowFirstAt(r: Rule, i: int, j: int, nullable: set<Symbol>,
                                first: SymbolSets, follow: SymbolSets)
    requires 0 <= i < j < |r.body|
    requires r.body[j] in first && r.body[i] in follow
  {
    AllIn(r.body[i + 1..j], nullable) ==> first[r.body[j]] <= follow[r.body[i]]
  }

  /** Both FOLLOW constraints hold at every nonterminal position of the rule;
      terminal positions carry no constraint. */
  ghost predicate RuleFollowClosed(r: Rule, nonterminals: set<Symbol>, nullable: set<Symbol>,
                                   first: SymbolSets, follow: SymbolSets)
  {
    && r.head in follow
    && (forall j :: 0 <= j < |r.body| ==> r.body[j] in first)
    && forall i :: 0 <= i < |r.body| && r.body[i] in nonterminals ==>
         && r.body[i] in follow
         && FollowAfterAt(r, i, nullable, follow)
         && forall j :: i < j < |r.body| ==> FollowFirstAt(r, i, j, nullable, first, follow)
  }

  ghost predicate FollowClosed(g: Grammar, nullable: set<Symbol>, first: SymbolSets, follow: SymbolSets)
  {
    forall k :: 0 <= k < |g| ==> RuleFollowClosed(g[k], Nonterminals(g), nullable, first, follow)
  }

  /** A FOLLOW solution has an entry for every nonterminal, EOF in the start
      symbol's entry, and satisfies every rule's constraint. */
  ghost predicate IsFollowSolution(g: Grammar, nullable: set<Symbol>, first: SymbolSets, follow: SymbolSets)
    requires |g| > 0
  {
    && follow.Keys == Nonterminals(g)
    && EOF in follow[Start(g)]
    && FollowClosed(g, nullable, first, follow)
  }

  ghost predicate IsLeastFollow(g: Grammar, nullable: set<Symbol>, first: SymbolSets, follow: SymbolSets)
    requires |g| > 0
  {
    && IsFollowSolution(g, nullable, first, follow)
    && forall other :: IsFollowSolution(g, nullable, first, other) ==> Below(follow, other)
  }

  // ------------------------------------------------------------------ SELECT

  /** FIRST of a symbol sequence: FIRST of each symbol of the nullable prefix
      and of the first non-nullable symbol. */
  function FirstOfSeq(s: seq<Symbol>, nullable: set<Symbol>, first: SymbolSets): set<Symbol>
    requires forall i :: 0 <= i < |s| ==> s[i] in first
  {
    if s == [] then {}
    else first[s[0]] + (if s[0] in nullable then FirstOfSeq(s[1..], nullable, first) else {})
  }

  /** SELECT(A -> alpha) = FIRST(alpha), plus FOLLOW(A) when alpha is nullable. */
  function SelectOf(r: Rule, nullable: set<Symbol>, first: SymbolSets, follow: SymbolSets): set<Symbol>
    requires forall i :: 0 <= i < |r.body| ==> r.body[i] in first
    requires r.head in follow
  {
    FirstOfSeq(r.body, nullable, first) + (if AllIn(r.body, nullable) then follow[r.head] else {})
  }

  // ------------------------------------------------------------------- LL(1)

  /** Every rule's SELECT set can be formed from the given FIRST and FOLLOW. */
  ghost predicate SelectDefined(g: Grammar, first: SymbolSets, follow: SymbolSets)
  {
    forall k :: 0 <= k < |g| ==>
      && g[k].head in follow
      && forall i :: 0 <= i < |g[k].body| ==> g[k].body[i] in first
  }

  /** Rules i < j share a head and their entries in `select` intersect. */
  predicate Conflict(g: Grammar, select: map<Rule, set<Symbol>>, i: int, j: int)
    requires forall k :: 0 <= k < |g| ==> g[k] in select
  {
    && 0 <= i < j < |g|
    && g[i].head == g[j].head
    && select[g[i]] * select[g[j]] != {}
  }

  /** LL(1): no two rules with the same head have intersecting SELECT sets. */
  ghost predicate IsLL1Grammar(g: Grammar, nullable: set<Symbol>, first: SymbolSets, follow: SymbolSets)
    requires SelectDefined(g, first, follow)
  {
    forall i, j :: 0 <= i < j < |g| && g[i].head == g[j].head ==>
      SelectOf(g[i], nullable, first, follow) * SelectOf(g[j], nullable, first, follow) == {}
  }

  /** Every head is a nonterminal and every body symbol has a FIRST entry. */
  lemma RuleSymbolsKnown(g: Grammar)
    ensures forall k :: 0 <= k < |g| ==> g[k].head in Nonterminals(g)
    ensures forall k, i :: 0 <= k < |g| && 0 <= i < |g[k].body| ==>
              g[k].body[i] in BodySymbols(g) && g[k].body[i] in AllSymbols(g)
  {
  }
}
