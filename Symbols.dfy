/** Terminal and nonterminal names shared by the grammars and the JSON parser.
    A symbol is an opaque string; only equality matters. */
module Symbols {

  type Symbol = string

  /** End-of-input marker: the lookahead once the token list is exhausted,
      and the seed of FOLLOW of the start symbol. */
  const EOF: Symbol := "EOF"

  // terminals of the recitation grammar
  const LP: Symbol := "LP"
  const RP: Symbol := "RP"
  const ASSIGN: Symbol := "ASSIGN"
  const PLUS: Symbol := "PLUS"
  const IF: Symbol := "IF"
  const ELSE: Symbol := "ELSE"
  const ID: Symbol := "ID"

  // nonterminals of the recitation grammar
  const S: Symbol := "S"
  const E: Symbol := "E"
  const T: Symbol := "T"
  const EP: Symbol := "EP"

  // terminals of the JSON grammars
  const LB: Symbol := "LB"
  const RB: Symbol := "RB"
  const LS: Symbol := "LS"
  const RS: Symbol := "RS"
  const COMMA: Symbol := "COMMA"
  const COLON: Symbol := "COLON"
  const INT: Symbol := "INT"
  const STRING: Symbol := "STRING"

  // nonterminals of the JSON grammars
  const Obj: Symbol := "obj"
  const Members: Symbol := "members"
  const KeyValue: Symbol := "keyvalue"
  const Value: Symbol := "value"
  const ObjRight: Symbol := "obj_right"
  const MembersRight: Symbol := "members_right"
  const ObjRightSet: Symbol := "obj_right_set"
  const ObjRightArr: Symbol := "obj_right_arr"
  const MembersSet: Symbol := "members_set"
  const MembersArr: Symbol := "members_arr"
  const MembersRightSet: Symbol := "members_right_set"
  const MembersRightArr: Symbol := "members_right_arr"
}
