# LL(1) grammar analyser and recursive-descent JSON parser

This project models two pieces of a compilers exercise and proves properties of them in Dafny.

**The LL(1) analyser.** A grammar is an ordered list of rules `head -> body`. The start symbol is the head of the first rule. The analyser works in this order:
- It splits the symbols into nonterminals (the rule heads) and terminals (the body symbols that are not heads).
- It computes NULLABLE, FIRST and FOLLOW by full passes over the rules, repeated until a pass changes nothing.
- From those it builds the SELECT table, keyed by the rule value.
- It calls the grammar LL(1) when no two rules with the same head have intersecting SELECT sets.

**The JSON parser.** A class with a token list, a position `pos` and the current lookahead terminal `t`:
- `advance` and `match` move the position along.
- There is one `parse_*` method per nonterminal. Each picks its alternative by the lookahead alone and returns a parse tree, or fails with a syntax error.

Modules:
- `Symbols`: the terminal and nonterminal names, as strings.
- `Grammar`: rules, grammars, and the reference definitions of the analyser's results. NULLABLE, FIRST and FOLLOW are each the *least* solution of their closure constraints. `FirstOfSeq` and `SelectOf` define SELECT. `IsLL1Grammar` is the LL(1) condition.
- `Analysis`: the analyser's loops as methods with loop invariants. Each is proved to return exactly the least solution, and the LL(1) flag is proved equivalent to `IsLL1Grammar`.
- `Properties`: general lemmas about those results.
- `Fixtures` and `JsonFixtures`: the example grammars `grammar_recitation`, `grammar_json_4a` and `grammar_json_4b`, with their NULLABLE, FIRST, FOLLOW and SELECT sets and their LL(1) verdicts.
- `JsonParser`: the parser as a class. Also the grammar its methods encode, and a derivation relation between trees and token stretches.
- `ParserGrammar`: the parser's grammar run through the analyser. The grammar is LL(1). For every rule, the SELECT set equals the rule's entry in `JsonParser.Dispatch`: the list of lookaheads on which the parser takes that rule's branch. The `Parse*` contracts are written in terms of that same table.

## Model

| member | source | states |
|---|---|---|
| Analysis.FindTerminalsAndNonterminals | ex1/grammar.py:144-156 | The nonterminals are exactly the rule heads. The terminals are exactly the body symbols that are not heads. The two sets are disjoint. |
| Analysis.IsNullable | ex1/grammar.py:72-76 | True exactly when every symbol of the sequence is in the nullable set; the empty sequence is nullable. |
| Analysis.CalculateNullable | ex1/grammar.py:27-47 | Returns the least set closed under "every body symbol nullable implies the head nullable"; the loop makes at most one pass per nonterminal plus one. |
| Analysis.FirstRulePass | ex1/grammar.py:62-68 | One rule's positions: FIRST of each symbol after a nullable prefix is added to FIRST(head). The map only grows and stays below every FIRST solution. A pass without change means the rule's constraint holds. |
| Analysis.FirstPass | ex1/grammar.py:60-68 | One pass over all rules. A change strictly shrinks the set of missing (nonterminal, terminal) pairs; no change means every rule's constraint holds. |
| Analysis.FirstInitial | ex1/grammar.py:54-58 | FIRST(t) = {t} for each terminal and {} for each nonterminal lies below every FIRST solution. |
| Analysis.CalculateFirst | ex1/grammar.py:50-69 | Returns the least FIRST map: keys are terminals and nonterminals, FIRST(t) = {t}, and for every rule FIRST(body[i]) ⊆ FIRST(head) whenever body[..i] is nullable. |
| Analysis.FollowAfterPass | ex1/grammar.py:93-100 | At each nonterminal position with a nullable rest of body, FOLLOW(head) is added to FOLLOW(body[i]); no change means each such inclusion already holds. |
| Analysis.FollowFirstPass | ex1/grammar.py:105-110 | For a nonterminal at position i, FIRST(body[j]) is added to FOLLOW(body[i]) for every j > i with nullable body[i+1..j]; no change means each inclusion holds. |
| Analysis.FollowRulePass | ex1/grammar.py:92-110 | Both FOLLOW steps over one rule, skipping terminal positions; no change means the rule's FOLLOW constraint holds. |
| Analysis.FollowPass | ex1/grammar.py:90-110 | One pass over all rules. A change shrinks the set of missing (nonterminal, symbol) pairs; no change means every rule's constraint holds. |
| Analysis.CalculateFollow | ex1/grammar.py:79-112 | Returns the least FOLLOW map: keys are the nonterminals, EOF ∈ FOLLOW(start), and both closure constraints hold. An empty grammar is excluded, as `grammar[0]` fails there. |
| Analysis.SelectOfRule | ex1/grammar.py:121-132 | Equals the reference `SelectOf`: FIRST of body symbols up to and including the first non-nullable one, plus FOLLOW(head) when the whole body is nullable. |
| Analysis.CalculateSelect | ex1/grammar.py:115-134 | The table's keys are exactly the rules, and each rule maps to its reference SELECT set; duplicate rules share one entry. |
| Analysis.NoSelectConflicts | ex1/grammar.py:195-206 | The flag stays true exactly when no pair i < j of same-head rules has intersecting SELECT entries. |
| Analysis.ConflictFreeIsLL1 | ex1/grammar_with_extra_checks.py:221-227 | Over a table that holds the reference SELECT sets, having no conflicting pair is equivalent to `IsLL1Grammar`. |
| Analysis.IsLL1 | ex1/grammar_with_extra_checks.py:214-230 | Runs all the steps on a non-empty grammar; the empty grammar is excluded because the source fails on it. The nullable set, FIRST and FOLLOW are the least solutions, and the result is true iff same-head rules have pairwise disjoint SELECT sets. |
| Properties.NullableShape | ex1/grammar.py:36-47 | Every head of an epsilon rule is nullable, and only rule heads are nullable. |
| Properties.LeastSolutionsUnique | ex1/grammar.py:27-112 | The least NULLABLE, FIRST and FOLLOW solutions are unique, so the analyser's results are determined by the grammar. |
| Properties.FirstShape | ex1/grammar_with_extra_checks.py:55-69 | In the least FIRST map, FIRST(t) = {t} for terminals and FIRST(A) contains only terminals. |
| Properties.FollowShape | ex1/grammar_with_extra_checks.py:87-114 | The least FOLLOW map has no terminal keys, and every entry lies within terminals ∪ {EOF}. |
| Properties.UndeclaredSymbolIsTerminal | ex1/grammar_with_extra_checks.py:148-160 | A body symbol that never heads a rule is a terminal, has FIRST = {itself}, is not nullable, and has no FOLLOW entry. |
| Properties.FirstOfSeqPositions | ex1/grammar.py:123-128 | x is in FIRST of a sequence iff x ∈ FIRST(s[j]) for some j whose prefix s[..j] is nullable. |
| Properties.SelectStopsAtFirstNonNullable | ex1/grammar.py:124-128 | When body[k] is the first non-nullable symbol, SELECT is exactly the union of FIRST(body[0..k]); FOLLOW(head) is not added. |
| Properties.SelectOfNullableBody | ex1/grammar.py:130-132 | For a nullable body, SELECT is the union of FIRST of all its symbols together with FOLLOW(head). For an epsilon rule, SELECT equals FOLLOW(head). |
| Properties.SelectWithinFirstAndFollow | ex1/grammar.py:121-132 | Under closed FIRST constraints, SELECT(head -> body) ⊆ FIRST(head) ∪ FOLLOW(head). |
| Properties.SelectWithinTerminals | ex1/grammar_with_extra_checks.py:119-138 | With the least solutions, every SELECT set lies within terminals ∪ {EOF}. |
| Properties.DistinctHeadsAreLL1 | ex1/grammar_with_extra_checks.py:226 | A grammar whose rules all have distinct heads is LL(1), whatever the SELECT sets are. |
| Properties.DuplicateRuleConflicts | ex1/grammar_with_extra_checks.py:224-227 | A rule listed twice with a nonempty SELECT set makes the grammar not LL(1). |
| Properties.SharedLeadingTerminalConflicts | ex1/grammar_with_extra_checks.py:214-230 | Two rules with the same head whose bodies begin with the same terminal both have it in SELECT, so the grammar is not LL(1). |
| Fixtures.RecitationNullable | ex1/grammar_with_extra_checks.py:16-47 | On `grammar_recitation`, the least nullable set is {EP}. |
| Fixtures.RecitationFirstSets | ex1/grammar_with_extra_checks.py:16-69 | On `grammar_recitation`, the least FIRST map is the listed one; in particular FIRST(E) = FIRST(T) = {ID, LP}. |
| Fixtures.RecitationFollowSets | ex1/grammar_with_extra_checks.py:83-114 | On `grammar_recitation`, the least FOLLOW map is the listed one. |
| Fixtures.RecitationSelects | ex1/grammar_with_extra_checks.py:119-138 | The SELECT set of each of the seven recitation rules, e.g. {EOF, ELSE, RP} for the epsilon rule of EP. |
| Fixtures.RecitationIsLL1 | ex1/grammar_with_extra_checks.py:214-230 | With the least solutions, `grammar_recitation` is LL(1). |
| Fixtures.RecitationVerdict | ex1/grammar_with_extra_checks.py:214-230 | `is_LL1(grammar_recitation)` returns True. |
| JsonFixtures.Json4aNullable | ex1/grammar_with_extra_checks.py:233-245 | `grammar_json_4a` has no nullable symbol. |
| JsonFixtures.Json4aFirstSets | ex1/grammar_with_extra_checks.py:233-245 | The least FIRST map of `grammar_json_4a` is the listed one: obj {LB}, members and keyvalue {STRING}, value {STRING, INT, LB}. |
| JsonFixtures.Json4aFollowSets | ex1/grammar_with_extra_checks.py:233-245 | The least FOLLOW map of `grammar_json_4a` is the listed one: obj {EOF, COMMA, RB}, and members, keyvalue and value {COMMA, RB}. |
| JsonFixtures.Json4aObjSelects | ex1/grammar_with_extra_checks.py:237-238 | Under those FIRST and FOLLOW maps, both obj rules have SELECT exactly {LB}. |
| JsonFixtures.Json4aMembersSelects | ex1/grammar_with_extra_checks.py:239-240 | Under those maps, `members -> keyvalue` and `members -> members , members` both have SELECT exactly {STRING}. |
| JsonFixtures.Json4aValueSelects | ex1/grammar_with_extra_checks.py:241-244 | Under those maps, the keyvalue and value rules have SELECT {STRING}, {STRING}, {INT} and {LB}. |
| JsonFixtures.Json4aPrefixConflict | ex1/grammar_with_extra_checks.py:233-245 | Under the least solutions, the two rules for obj, `{ }` and `{ members }`, both have SELECT exactly {LB}, so `grammar_json_4a` is not LL(1). |
| JsonFixtures.Json4aRecursionConflict | ex1/grammar_with_extra_checks.py:233-245 | Under the least solutions, `members -> keyvalue` and the left-recursive `members -> members , members` both have SELECT exactly {STRING}, so `grammar_json_4a` is not LL(1). |
| JsonFixtures.Json4aVerdict | ex1/grammar_with_extra_checks.py:214-245 | `is_LL1(grammar_json_4a)` returns False. |
| JsonFixtures.Json4bNullable | ex1/grammar_with_extra_checks.py:247-261 | In `grammar_json_4b` only members_right is nullable. |
| JsonFixtures.Json4bFirstSets | ex1/grammar_with_extra_checks.py:247-261 | The least FIRST map of `grammar_json_4b` is the listed one. |
| JsonFixtures.Json4bFollowSets | ex1/grammar_with_extra_checks.py:247-261 | The least FOLLOW map of `grammar_json_4b` is the listed one. |
| JsonFixtures.Json4bObjectSelects | ex1/grammar_with_extra_checks.py:251-255 | The SELECT sets of the obj, obj_right, members and first members_right rules. |
| JsonFixtures.Json4bValueSelects | ex1/grammar_with_extra_checks.py:256-260 | The SELECT sets of the epsilon members_right rule ({RB}), keyvalue and the three value rules. |
| JsonFixtures.Json4bIsLL1 | ex1/grammar_with_extra_checks.py:247-261 | With the least solutions, `grammar_json_4b` is LL(1). |
| JsonFixtures.Json4bVerdict | ex1/grammar_with_extra_checks.py:214-261 | `is_LL1(grammar_json_4b)` returns True. |
| JsonParser.DerivesLeaves | ex1/parser.py:83-175 | The leaves of a tree that derives a token stretch, read left to right, are exactly the values of those tokens. Epsilon nodes contribute nothing. |
| JsonParser.JsonParser.constructor | ex1/parser.py:18-30 | For a nonempty token list, the parser starts at position 0 with the first token's terminal as lookahead. An empty list is excluded, as the first `advance` reads `tokens[-1]`. |
| JsonParser.JsonParser.Advance | ex1/parser.py:32-48 | Returns the value at the old position (EOF past the end; the last token at -1), increments the position by one, and sets the lookahead to the token's terminal or EOF. |
| JsonParser.JsonParser.Match | ex1/parser.py:50-64 | On the expected terminal, it returns that token's value and advances once. Otherwise it returns the `expected` error and leaves position and lookahead unchanged. |
| JsonParser.JsonParser.Parse | ex1/parser.py:73-81 | On success, the tree is an obj node deriving the tokens consumed before the end marker. Its leaves are those tokens' values. When the list holds no EOF token, the whole list was consumed. A lookahead other than LB or LS fails without consuming input. |
| JsonParser.JsonParser.ParseKeyValue | ex1/parser.py:83-95 | On STRING, a success is a keyvalue node for `STRING : value` deriving the consumed tokens; it can still fail later, e.g. when no COLON follows. Any other lookahead fails with `no rule` without consuming input. |
| JsonParser.JsonParser.ParseObj | ex1/parser.py:97-107 | On LB or LS, a success is an obj node deriving at least one consumed token. Any other lookahead fails without consuming input. |
| JsonParser.JsonParser.ParseObjRightSet | ex1/parser.py:109-118 | On RB, it always succeeds with the node `(obj_right_set, (value,))` after consuming exactly that token. On STRING, a success is an obj_right_set node deriving the consumed tokens. Any other lookahead fails without consuming input. |
| JsonParser.JsonParser.ParseObjRightArr | ex1/parser.py:120-129 | On RS, it always succeeds with the node `(obj_right_arr, (value,))` after consuming exactly that token. On STRING, INT, LB or LS, a success is an obj_right_arr node deriving the consumed tokens. Any other lookahead fails without consuming input. |
| JsonParser.JsonParser.ParseMembersSet | ex1/parser.py:131-137 | On STRING, a success is a members_set node deriving the consumed tokens. Any other lookahead fails without consuming input. |
| JsonParser.JsonParser.ParseMembersArr | ex1/parser.py:139-145 | On STRING, INT, LB or LS, a success is a members_arr node deriving the consumed tokens. Any other lookahead fails without consuming input. |
| JsonParser.JsonParser.ParseMembersRightSet | ex1/parser.py:147-155 | On RB, it returns the childless node without consuming anything. A COMMA alternative derives the consumed tokens. Any other lookahead fails. |
| JsonParser.JsonParser.ParseMembersRightArr | ex1/parser.py:157-165 | On RS, it returns the childless node without consuming anything. A COMMA alternative derives the consumed tokens. Any other lookahead fails. |
| JsonParser.JsonParser.ParseValue | ex1/parser.py:167-175 | On STRING or INT, it always succeeds with a value node holding that token's value as its one leaf, after consuming exactly that token. On LB or LS, a success is a value node with exactly one child, deriving the consumed tokens. Any other lookahead fails without consuming input. |
| ParserGrammar.ParserSymbols | ex1/parser.py:83-175 | The grammar the parse methods encode has nine nonterminals and eight terminals. |
| ParserGrammar.ParserNullableSet | ex1/parser.py:147-165 | In the parser's grammar, only members_right_set and members_right_arr, the two methods with an empty alternative, are nullable. |
| ParserGrammar.ParserFirstSets | ex1/parser.py:83-175 | The least FIRST map of the parser's grammar is the listed one. |
| ParserGrammar.ParserFollowSets | ex1/parser.py:83-175 | The least FOLLOW map of the parser's grammar is the listed one. |
| ParserGrammar.ParserObjSelects | ex1/parser.py:97-107 | The two obj rules have SELECT {LB} and {LS}, the lists `parse_obj` tests. |
| ParserGrammar.ParserObjectSelects | ex1/parser.py:109-118 | The obj_right_set rules have SELECT {RB} and {STRING}, the lists `parse_obj_right_set` tests. |
| ParserGrammar.ParserArraySelects | ex1/parser.py:120-145 | SELECT sets for obj_right_arr, members_set and members_arr: {RS} and {STRING, INT, LB, LS}; {STRING}; {STRING, INT, LB, LS}. These are the lists those methods test. |
| ParserGrammar.ParserListSelects | ex1/parser.py:147-165 | The members_right rules have SELECT {COMMA} and, for the epsilon rules, {RB} and {RS}. These are the lists those methods test. |
| ParserGrammar.ParserValueSelects | ex1/parser.py:167-175 | keyvalue has SELECT {STRING}. The value rules have {STRING}, {INT} and {LB, LS}; `parse_value` tests STRING and INT together and LB and LS together. |
| ParserGrammar.ParserSelectIsDispatch | ex1/parser.py:97-175 | With the least solutions, the SELECT set of every rule of the parser's grammar equals the parser's dispatch list for that rule, the same table its methods' error contracts use. |
| ParserGrammar.ParserGrammarIsLL1 | ex1/parser.py:97-175 | With the least solutions, the parser's grammar is LL(1), so each method's alternatives have disjoint lookahead sets. |
| ParserGrammar.ParserGrammarVerdict | ex1/grammar_with_extra_checks.py:214-230 | The analyser's LL(1) check returns True on the parser's grammar. |

## Left out

- Printing is not modelled: `analyze_grammar`'s reports, `format_rule`, and the trace `print` in `match`. None of them affects state.
- The `main` functions of all three files are not modelled. Neither are `lexer.lex`, `tree_to_dot` and the file I/O; the lexer's output is the token list given to the constructor.
- `symbols.py` is not modelled beyond its string constants.
- The literal `tests` block of `grammar_with_extra_checks.py` is not modelled. It is a long list of generated grammars over symbols such as `var4` and `term6`.
- `grammar_json_4c` is the same list as `grammar_json_4b`, so it has no fixture of its own.
- `grammar_json_6` in `grammar.py` is not a fixture. As a set of rules, it differs from the parser's grammar only in `members_arr -> keyvalue members_right_arr`; it also lists the rules in a different order. The parser's own grammar is analysed instead, in `ParserGrammar`.
- `grammar_json_6` in `grammar_with_extra_checks.py` names `arr`, `arr_right`, `value_set` and `value_arr`, which `symbols.py` does not define, so that file cannot load it.
- The analyser's inner `for item in S: if item not in D: D.add(item); changing = True` loops are modelled as one set union. The flag is set exactly when the union adds something, which is the same effect.
- The initialisation loops at the top of `calculate_first` and `calculate_follow` (`for t in terminals: first[t] = {t}`) are modelled as map comprehensions.
- The `terminals` and `nonterminals` arguments that `calculate_nullable` and `calculate_select` ignore are not passed.
- Syntax errors are `Result.Err` values rather than exceptions. The message text is reduced to the expected and found terminals.
- Token values are strings; the model does not depend on what they hold.
- JsonParser.JsonParser.Parse: an error result is not proved to mean that the tokens lie outside the grammar's language. Only the first-lookahead error cases are characterised, as in every `Parse*` method.
