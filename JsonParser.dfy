/** The hand-written recursive-descent parser for JSON objects and arrays.

    The parser keeps its position in the token list and the current lookahead
    terminal as mutable state. Each nonterminal has one method that chooses
    an alternative by the lookahead alone (no backtracking), matches terminals
    and calls the methods of the nonterminals in the chosen rule, and returns
    a parse tree whose leaves are the values attached to the matched tokens.
    A syntax error is a `Result.Err` that every caller passes on unchanged.

    Every tree the parser returns is a derivation, in `JsonGrammar`, of
    exactly the tokens it consumed. */
module JsonParser {
  import opened Symbols
  import opened Grammar

  /** The value the lexer attaches to a token (a string's text, a number's digits). */
  type TokenValue = string

  datatype Token = Token(kind: Symbol, value: TokenValue)

  /** A parse tree: a nonterminal with its ordered children, or the value of a
      matched terminal. */
  datatype Tree = Leaf(value: TokenValue) | Node(symbol: Symbol, children: seq<Tree>)

  datatype SyntaxError =
    | Expected(expected: Symbol, found: Symbol)   // `match` saw the wrong terminal
    | NoRule(found: Symbol)                       // no alternative for the lookahead

  datatype Result<T> = Ok(value: T) | Err(error: SyntaxError)

  /** The grammar the parser's methods encode, one rule per branch. The first
      rule's head, `obj`, is the start symbol. */
  const JsonGrammar: Grammar := [
    Rule(Obj, [LB, ObjRightSet]),                 // 0
    Rule(Obj, [LS, ObjRightArr]),                 // 1
    Rule(ObjRightSet, [RB]),                      // 2
    Rule(ObjRightSet, [MembersSet, RB]),          // 3
    Rule(ObjRightArr, [RS]),                      // 4
    Rule(ObjRightArr, [MembersArr, RS]),          // 5
    Rule(MembersSet, [KeyValue, MembersRightSet]),// 6
    Rule(MembersArr, [Value, MembersRightArr]),   // 7
    Rule(MembersRightSet, [COMMA, MembersSet]),   // 8
    Rule(MembersRightSet, []),                    // 9
    Rule(MembersRightArr, [COMMA, MembersArr]),   // 10
    Rule(MembersRightArr, []),                    // 11
    Rule(KeyValue, [STRING, COLON, Value]),       // 12
    Rule(Value, [STRING]),                        // 13
    Rule(Value, [INT]),                           // 14
    Rule(Value, [Obj])                            // 15
  ]

  /** The terminals the parser matches. */
  const JsonTerminals: set<Symbol> := {LB, RB, LS, RS, COMMA, COLON, INT, STRING}

  /** The lookaheads on which the parser takes the branch for rule k of
      `JsonGrammar`: the list each `parse_*` method tests before that branch. */
  const Dispatch: seq<set<Symbol>> := [
    {LB}, {LS},                                   // obj
    {RB}, {STRING},                               // obj_right_set
    {RS}, {STRING, INT, LB, LS},                  // obj_right_arr
    {STRING},                                     // members_set
    {STRING, INT, LB, LS},                        // members_arr
    {COMMA}, {RB},                                // members_right_set
    {COMMA}, {RS},                                // members_right_arr
    {STRING},                                     // keyvalue
    {STRING}, {INT}, {LB, LS}                     // value
  ]

  /** The lookahead at position p: the token's terminal, or EOF past the end. */
  function LookaheadAt(tokens: seq<Token>, p: int): Symbol
    requires 0 <= p
  {
    if p < |tokens| then tokens[p].kind else EOF
  }

  /** The value `advance` hands back at position p: the token's value, or EOF
      past the end. */
  function ValueAt(tokens: seq<Token>, p: int): TokenValue
    requires 0 <= p
  {
    if p < |tokens| then tokens[p].value else EOF
  }

  /** The token list contains no token whose terminal is the end marker. */
  predicate NoEofToken(tokens: seq<Token>)
  {
    forall i :: 0 <= i < |tokens| ==> tokens[i].kind != EOF
  }

  // ------------------------------------------------------------ derivations

  /** The values at the leaves of a tree, left to right. */
  function Leaves(t: Tree): seq<TokenValue>
    decreases t
  {
    match t
    case Leaf(v) => [v]
    case Node(_, cs) => LeavesAll(cs)
  }

  function LeavesAll(cs: seq<Tree>): seq<TokenValue>
    decreases cs
  {
    if cs == [] then [] else Leaves(cs[0]) + LeavesAll(cs[1..])
  }

  /** The values attached to a token sequence, in order. */
  function Values(toks: seq<Token>): seq<TokenValue>
  {
    seq(|toks|, i requires 0 <= i < |toks| => toks[i].value)
  }

  /** Node `t` is built by some rule of `g` for its symbol, and its children
      derive that rule's body over `toks`. */
  ghost predicate Derives(g: Grammar, t: Tree, toks: seq<Token>)
    decreases t, 1
  {
    match t
    case Leaf(_) => false
    case Node(a, cs) =>
      exists k :: 0 <= k < |g| && g[k].head == a && ChildrenDerive(g, g[k].body, cs, toks)
  }

  /** The children `cs` derive the symbols of `body` one by one, each over the
      next stretch of `toks` (as long as the child has leaves), using all of it. */
  ghost predicate ChildrenDerive(g: Grammar, body: seq<Symbol>, cs: seq<Tree>, toks: seq<Token>)
    decreases cs, 0
  {
    if cs == [] then body == [] && toks == []
    else
      && body != []
      && |Leaves(cs[0])| <= |toks|
      && ChildDerives(g, body[0], cs[0], toks[..|Leaves(cs[0])|])
      && ChildrenDerive(g, body[1..], cs[1..], toks[|Leaves(cs[0])|..])
  }

  /** A child for symbol x: a leaf is the single token of x, which heads no
      rule, carrying its value; a node is labelled x and derives the tokens. */
  ghost predicate ChildDerives(g: Grammar, x: Symbol, c: Tree, toks: seq<Token>)
    decreases c, 2
  {
    match c
    case Leaf(v) => x !in Nonterminals(g) && toks == [Token(x, v)]
    case Node(a, _) => a == x && Derives(g, c, toks)
  }

  lemma ValuesAppend(a: seq<Token>, b: seq<Token>)
    ensures Values(a + b) == Values(a) + Values(b)
  {
    assert forall i :: 0 <= i < |a + b| ==> Values(a + b)[i] == (Values(a) + Values(b))[i];
  }

  /** Reading a derived tree's leaves left to right gives back the values of
      the tokens it derives. */
  lemma {:induction false} DerivesLeaves(g: Grammar, t: Tree, toks: seq<Token>)
    requires Derives(g, t, toks)
    ensures Leaves(t) == Values(toks)
    decreases t, 1
  {
    var k :| 0 <= k < |g| && g[k].head == t.symbol && ChildrenDerive(g, g[k].body, t.children, toks);
    ChildrenLeaves(g, g[k].body, t.children, toks);
  }

  lemma {:induction false} ChildrenLeaves(g: Grammar, body: seq<Symbol>, cs: seq<Tree>, toks: seq<Token>)
    requires ChildrenDerive(g, body, cs, toks)
    ensures LeavesAll(cs) == Values(toks)
    decreases cs, 0
  {
    if cs != [] {
      var n := |Leaves(cs[0])|;
      ChildLeaves(g, body[0], cs[0], toks[..n]);
      ChildrenLeaves(g, body[1..], cs[1..], toks[n..]);
      assert toks == toks[..n] + toks[n..];
      ValuesAppend(toks[..n], toks[n..]);
    }
  }

  lemma {:induction false} ChildLeaves(g: Grammar, x: Symbol, c: Tree, toks: seq<Token>)
    requires ChildDerives(g, x, c, toks)
    ensures Leaves(c) == Values(toks)
    decreases c, 2
  {
    if c.Node? {
      DerivesLeaves(g, c, toks);
    }
  }

  /** A single child derives a one-symbol body. */
  lemma ChildOnly(g: Grammar, x: Symbol, c: Tree, toks: seq<Token>)
    requires ChildDerives(g, x, c, toks)
    ensures ChildrenDerive(g, [x], [c], toks)
  {
    ChildLeaves(g, x, c, toks);
    assert |Leaves(c)| == |toks|;
    assert toks[..|toks|] == toks;
    assert [c][1..] == [] && [x][1..] == [];
  }

  /** Derivations of two bodies over adjacent token stretches combine into a
      derivation of the concatenated body over the joined stretch. */
  lemma {:induction false} ChildrenAppend(g: Grammar, b1: seq<Symbol>, c1: seq<Tree>, s1: seq<Token>,
                                          b2: seq<Symbol>, c2: seq<Tree>, s2: seq<Token>)
    requires ChildrenDerive(g, b1, c1, s1) && ChildrenDerive(g, b2, c2, s2)
    ensures ChildrenDerive(g, b1 + b2, c1 + c2, s1 + s2)
    decreases c1
  {
    if c1 == [] {
      assert b1 + b2 == b2 && c1 + c2 == c2 && s1 + s2 == s2;
    } else {
      var n := |Leaves(c1[0])|;
      ChildrenAppend(g, b1[1..], c1[1..], s1[n..], b2, c2, s2);
      assert (c1 + c2)[0] == c1[0] && (b1 + b2)[0] == b1[0];
      assert (s1 + s2)[..n] == s1[..n];
      assert (c1 + c2)[1..] == c1[1..] + c2;
      assert (b1 + b2)[1..] == b1[1..] + b2;
      assert (s1 + s2)[n..] == s1[n..] + s2;
    }
  }

  lemma NodeOf0(g: Grammar, k: int)
    requires 0 <= k < |g| && g[k].body == []
    ensures Derives(g, Node(g[k].head, []), [])
  {
    assert ChildrenDerive(g, g[k].body, [], []);
  }

  lemma NodeOf1(g: Grammar, k: int, c1: Tree, s1: seq<Token>)
    requires 0 <= k < |g| && |g[k].body| == 1
    requires ChildDerives(g, g[k].body[0], c1, s1)
    ensures Derives(g, Node(g[k].head, [c1]), s1)
  {
    ChildOnly(g, g[k].body[0], c1, s1);
    assert g[k].body == [g[k].body[0]];
    assert ChildrenDerive(g, g[k].body, [c1], s1);
  }

  lemma NodeOf2(g: Grammar, k: int, c1: Tree, s1: seq<Token>, c2: Tree, s2: seq<Token>)
    requires 0 <= k < |g| && |g[k].body| == 2
    requires ChildDerives(g, g[k].body[0], c1, s1)
    requires ChildDerives(g, g[k].body[1], c2, s2)
    ensures Derives(g, Node(g[k].head, [c1, c2]), s1 + s2)
  {
    var b := g[k].body;
    ChildOnly(g, b[0], c1, s1);
    ChildOnly(g, b[1], c2, s2);
    ChildrenAppend(g, [b[0]], [c1], s1, [b[1]], [c2], s2);
    assert [b[0]] + [b[1]] == b && [c1] + [c2] == [c1, c2];
    assert ChildrenDerive(g, g[k].body, [c1, c2], s1 + s2);
  }

  /** Rule k with a two-symbol body, its children deriving adjacent stretches
      of `tokens`, gives a node for its head over the joined stretch. */
  lemma JoinOf2(tokens: seq<Token>, k: int, c1: Tree, c2: Tree, p0: int, p1: int, p2: int)
    requires 0 <= k < |JsonGrammar| && |JsonGrammar[k].body| == 2
    requires 0 <= p0 <= p1 <= p2 <= |tokens|
    requires ChildDerives(JsonGrammar, JsonGrammar[k].body[0], c1, tokens[p0..p1])
    requires ChildDerives(JsonGrammar, JsonGrammar[k].body[1], c2, tokens[p1..p2])
    ensures ChildDerives(JsonGrammar, JsonGrammar[k].head, Node(JsonGrammar[k].head, [c1, c2]), tokens[p0..p2])
  {
    NodeOf2(JsonGrammar, k, c1, tokens[p0..p1], c2, tokens[p1..p2]);
    assert tokens[p0..p1] + tokens[p1..p2] == tokens[p0..p2];
  }

  lemma NodeOf3(g: Grammar, k: int, c1: Tree, s1: seq<Token>, c2: Tree, s2: seq<Token>,
                c3: Tree, s3: seq<Token>)
    requires 0 <= k < |g| && |g[k].body| == 3
    requires ChildDerives(g, g[k].body[0], c1, s1)
    requires ChildDerives(g, g[k].body[1], c2, s2)
    requires ChildDerives(g, g[k].body[2], c3, s3)
    ensures Derives(g, Node(g[k].head, [c1, c2, c3]), s1 + s2 + s3)
  {
    var b := g[k].body;
    ChildOnly(g, b[0], c1, s1);
    ChildOnly(g, b[1], c2, s2);
    ChildOnly(g, b[2], c3, s3);
    ChildrenAppend(g, [b[0]], [c1], s1, [b[1]], [c2], s2);
    ChildrenAppend(g, [b[0]] + [b[1]], [c1] + [c2], s1 + s2, [b[2]], [c3], s3);
    assert [b[0]] + [b[1]] + [b[2]] == b && [c1] + [c2] + [c3] == [c1, c2, c3];
    assert ChildrenDerive(g, g[k].body, [c1, c2, c3], s1 + s2 + s3);
  }

  /** The terminals the parse methods match heads no rule of `JsonGrammar`. */
  lemma JsonTerminalsHeadNoRule()
    ensures forall x :: x in Nonterminals(JsonGrammar) ==> x !in JsonTerminals
  {
    forall x | x in Nonterminals(JsonGrammar) ensures x !in JsonTerminals {
      var k :| 0 <= k < |JsonGrammar| && JsonGrammar[k].head == x;
      assert k == 0 || k == 1 || k == 2 || k == 3 || k == 4 || k == 5 || k == 6 || k == 7
          || k == 8 || k == 9 || k == 10 || k == 11 || k == 12 || k == 13 || k == 14 || k == 15;
    }
  }

  /** The token at p, of terminal x, is a leaf child for x. */
  lemma TokenLeaf(tokens: seq<Token>, p: int, x: Symbol)
    requires 0 <= p < |tokens| && tokens[p].kind == x && x in JsonTerminals
    ensures ChildDerives(JsonGrammar, x, Leaf(tokens[p].value), tokens[p..p + 1])
  {
    JsonTerminalsHeadNoRule();
    assert tokens[p..p + 1] == [Token(x, tokens[p].value)];
  }

  // ----------------------------------------------------------------- parser

  class JsonParser {
    const tokens: seq<Token>
    var pos: int
    /** The current lookahead terminal. */
    var t: Symbol

    /** The lookahead agrees with the position. */
    ghost predicate Synced()
      reads this
    {
      0 <= pos && t == LookaheadAt(tokens, pos)
    }

    /** Synced, and no further than one past the last token. */
    ghost predicate Valid()
      reads this
    {
      Synced() && pos <= |tokens|
    }

    /** `tree` is a node for x deriving exactly tokens[from..to]. */
    ghost predicate Yields(x: Symbol, tree: Tree, from: int, to: int)
    {
      && 0 <= from <= to <= |tokens|
      && tree.Node?
      && ChildDerives(JsonGrammar, x, tree, tokens[from..to])
    }

    /** Positions the parser before the first token. Python's `tokens[-1]`
        read on the way makes an empty list an error. */
    constructor (tokens: seq<Token>)
      requires |tokens| > 0
      ensures this.tokens == tokens && pos == 0 && Valid()
    {
      this.tokens := tokens;
      pos := -1;
      new;
      var _ := Advance();
    }

    /** Returns the value at the current position (EOF past the end; at
        position -1 Python's index reads the last token) and moves on by one. */
    method Advance() returns (v: TokenValue)
      requires -1 <= pos && (pos == -1 ==> |tokens| > 0)
      modifies this
      ensures pos == old(pos) + 1 && Synced()
      ensures v == if old(pos) == -1 then tokens[|tokens| - 1].value else ValueAt(tokens, old(pos))
    {
      if pos < |tokens| {
        v := tokens[if pos < 0 then pos + |tokens| else pos].value;
      } else {
        v := EOF;
      }
      pos := pos + 1;
      if pos < |tokens| {
        t := tokens[pos].kind;
      } else {
        t := EOF;
      }
    }

    /** Consumes the current token if its terminal is `terminal`. */
    method Match(terminal: Symbol) returns (r: Result<TokenValue>)
      requires Synced()
      modifies this
      ensures Synced()
      ensures old(t) == terminal ==> r == Ok(ValueAt(tokens, old(pos))) && pos == old(pos) + 1
      ensures old(t) != terminal ==> r == Err(Expected(terminal, old(t))) && pos == old(pos)
    {
      if t == terminal {
        var v := Advance();
        r := Ok(v);
      } else {
        r := Err(Expected(terminal, t));
      }
    }

    /** Parses `obj` and then requires the end marker. On success the tree
        derives the tokens before the end marker, and when the list holds no
        EOF token that is the whole list. */
    method Parse() returns (r: Result<Tree>)
      requires Valid()
      modifies this
      ensures Synced() && old(pos) <= pos
      ensures r.Ok? ==> 0 < pos && Yields(Obj, r.value, old(pos), pos - 1) && LookaheadAt(tokens, pos - 1) == EOF
      ensures r.Ok? && NoEofToken(tokens) ==> pos == |tokens| + 1
      ensures r.Ok? ==> Leaves(r.value) == Values(tokens[old(pos)..pos - 1])
      ensures old(t) !in Dispatch[0] + Dispatch[1] ==> r == Err(NoRule(old(t))) && pos == old(pos)
    {
      ghost var p0 := pos;
      var result := ParseObj();
      if result.Err? {
        return Err(result.error);
      }
      ghost var p1 := pos;
      var m := Match(EOF);
      if m.Err? {
        return Err(m.error);
      }
      r := Ok(result.value);
      ChildLeaves(JsonGrammar, Obj, result.value, tokens[p0..p1]);
    }

    method ParseKeyValue() returns (r: Result<Tree>)
      requires Valid()
      modifies this
      decreases |tokens| - pos, 1
      ensures Valid() && old(pos) <= pos
      ensures r.Ok? ==> old(pos) < pos && Yields(KeyValue, r.value, old(pos), pos)
      ensures old(t) !in Dispatch[12] ==> r == Err(NoRule(old(t))) && pos == old(pos)
    {
      if t == STRING {
        ghost var p0 := pos;
        var c1 := Match(STRING);
        ghost var p1 := pos;
        var c2 := Match(COLON);
        if c2.Err? {
          return Err(c2.error);
        }
        ghost var p2 := pos;
        var c3 := ParseValue();
        if c3.Err? {
          return Err(c3.error);
        }
        r := Ok(Node(KeyValue, [Leaf(c1.value), Leaf(c2.value), c3.value]));
        TokenLeaf(tokens, p0, STRING);
        TokenLeaf(tokens, p1, COLON);
        NodeOf3(JsonGrammar, 12, Leaf(c1.value), tokens[p0..p1], Leaf(c2.value), tokens[p1..p2],
                c3.value, tokens[p2..pos]);
        assert tokens[p0..p1] + tokens[p1..p2] + tokens[p2..pos] == tokens[p0..pos];
      } else {
        r := Err(NoRule(t));
      }
    }

    method ParseObj() returns (r: Result<Tree>)
      requires Valid()
      modifies this
      decreases |tokens| - pos, 0
      ensures Valid() && old(pos) <= pos
      ensures r.Ok? ==> old(pos) < pos && Yields(Obj, r.value, old(pos), pos)
      ensures old(t) !in Dispatch[0] + Dispatch[1] ==> r == Err(NoRule(old(t))) && pos == old(pos)
    {
      if t == LB {
        ghost var p0 := pos;
        var c1 := Match(LB);
        ghost var p1 := pos;
        var c2 := ParseObjRightSet();
        if c2.Err? {
          return Err(c2.error);
        }
        r := Ok(Node(Obj, [Leaf(c1.value), c2.value]));
        TokenLeaf(tokens, p0, LB);
        JoinOf2(tokens, 0, Leaf(c1.value), c2.value, p0, p1, pos);
      } else if t == LS {
        ghost var p0 := pos;
        var c1 := Match(LS);
        ghost var p1 := pos;
        var c2 := ParseObjRightArr();
        if c2.Err? {
          return Err(c2.error);
        }
        r := Ok(Node(Obj, [Leaf(c1.value), c2.value]));
        TokenLeaf(tokens, p0, LS);
        JoinOf2(tokens, 1, Leaf(c1.value), c2.value, p0, p1, pos);
      } else {
        r := Err(NoRule(t));
      }
    }

    method ParseObjRightSet() returns (r: Result<Tree>)
      requires Valid()
      modifies this
      decreases |tokens| - pos, 3
      ensures Valid() && old(pos) <= pos
      ensures r.Ok? ==> old(pos) < pos && Yields(ObjRightSet, r.value, old(pos), pos)
      ensures old(t) in Dispatch[2] ==> r == Ok(Node(ObjRightSet, [Leaf(ValueAt(tokens, old(pos)))])) && pos == old(pos) + 1
      ensures old(t) !in Dispatch[2] + Dispatch[3] ==> r == Err(NoRule(old(t))) && pos == old(pos)
    {
      if t == RB {
        ghost var p0 := pos;
        var c1 := Match(RB);
        r := Ok(Node(ObjRightSet, [Leaf(c1.value)]));
        TokenLeaf(tokens, p0, RB);
        NodeOf1(JsonGrammar, 2, Leaf(c1.value), tokens[p0..pos]);
      } else if t == STRING {
        ghost var p0 := pos;
        var c1 := ParseMembersSet();
        if c1.Err? {
          return Err(c1.error);
        }
        ghost var p1 := pos;
        var c2 := Match(RB);
        if c2.Err? {
          return Err(c2.error);
        }
        r := Ok(Node(ObjRightSet, [c1.value, Leaf(c2.value)]));
        TokenLeaf(tokens, p1, RB);
        JoinOf2(tokens, 3, c1.value, Leaf(c2.value), p0, p1, pos);
      } else {
        r := Err(NoRule(t));
      }
    }

    method ParseObjRightArr() returns (r: Result<Tree>)
      requires Valid()
      modifies this
      decreases |tokens| - pos, 3
      ensures Valid() && old(pos) <= pos
      ensures r.Ok? ==> old(pos) < pos && Yields(ObjRightArr, r.value, old(pos), pos)
      ensures old(t) in Dispatch[4] ==> r == Ok(Node(ObjRightArr, [Leaf(ValueAt(tokens, old(pos)))])) && pos == old(pos) + 1
      ensures old(t) !in Dispatch[4] + Dispatch[5] ==> r == Err(NoRule(old(t))) && pos == old(pos)
    {
      if t == RS {
        ghost var p0 := pos;
        var c1 := Match(RS);
        r := Ok(Node(ObjRightArr, [Leaf(c1.value)]));
        TokenLeaf(tokens, p0, RS);
        NodeOf1(JsonGrammar, 4, Leaf(c1.value), tokens[p0..pos]);
      } else if t in {STRING, INT, LB, LS} {
        ghost var p0 := pos;
        var c1 := ParseMembersArr();
        if c1.Err? {
          return Err(c1.error);
        }
        ghost var p1 := pos;
        var c2 := Match(RS);
        if c2.Err? {
          return Err(c2.error);
        }
        r := Ok(Node(ObjRightArr, [c1.value, Leaf(c2.value)]));
        TokenLeaf(tokens, p1, RS);
        JoinOf2(tokens, 5, c1.value, Leaf(c2.value), p0, p1, pos);
      } else {
        r := Err(NoRule(t));
      }
    }

    method ParseMembersSet() returns (r: Result<Tree>)
      requires Valid()
      modifies this
      decreases |tokens| - pos, 2
      ensures Valid() && old(pos) <= pos
      ensures r.Ok? ==> old(pos) < pos && Yields(MembersSet, r.value, old(pos), pos)
      ensures old(t) !in Dispatch[6] ==> r == Err(NoRule(old(t))) && pos == old(pos)
    {
      if t == STRING {
        ghost var p0 := pos;
        var c1 := ParseKeyValue();
        if c1.Err? {
          return Err(c1.error);
        }
        ghost var p1 := pos;
        var c2 := ParseMembersRightSet();
        if c2.Err? {
          return Err(c2.error);
        }
        r := Ok(Node(MembersSet, [c1.value, c2.value]));
        JoinOf2(tokens, 6, c1.value, c2.value, p0, p1, pos);
      } else {
        r := Err(NoRule(t));
      }
    }

    method ParseMembersArr() returns (r: Result<Tree>)
      requires Valid()
      modifies this
      decreases |tokens| - pos, 2
      ensures Valid() && old(pos) <= pos
      ensures r.Ok? ==> old(pos) < pos && Yields(MembersArr, r.value, old(pos), pos)
      ensures old(t) !in Dispatch[7] ==> r == Err(NoRule(old(t))) && pos == old(pos)
    {
      if t in {STRING, INT, LB, LS} {
        ghost var p0 := pos;
        var c1 := ParseValue();
        if c1.Err? {
          return Err(c1.error);
        }
        ghost var p1 := pos;
        var c2 := ParseMembersRightArr();
        if c2.Err? {
          return Err(c2.error);
        }
        r := Ok(Node(MembersArr, [c1.value, c2.value]));
        JoinOf2(tokens, 7, c1.value, c2.value, p0, p1, pos);
      } else {
        r := Err(NoRule(t));
      }
    }

    /** Nullable: on the lookahead RB (its FOLLOW) it returns an empty node
        without consuming anything. */
    method ParseMembersRightSet() returns (r: Result<Tree>)
      requires Valid()
      modifies this
      decreases |tokens| - pos, 0
      ensures Valid() && old(pos) <= pos
      ensures r.Ok? ==> Yields(MembersRightSet, r.value, old(pos), pos)
      ensures old(t) in Dispatch[9] ==> r == Ok(Node(MembersRightSet, [])) && pos == old(pos)
      ensures old(t) !in Dispatch[8] + Dispatch[9] ==> r == Err(NoRule(old(t))) && pos == old(pos)
    {
      if t == COMMA {
        ghost var p0 := pos;
        var c1 := Match(COMMA);
        ghost var p1 := pos;
        var c2 := ParseMembersSet();
        if c2.Err? {
          return Err(c2.error);
        }
        r := Ok(Node(MembersRightSet, [Leaf(c1.value), c2.value]));
        TokenLeaf(tokens, p0, COMMA);
        JoinOf2(tokens, 8, Leaf(c1.value), c2.value, p0, p1, pos);
      } else if t == RB {
        r := Ok(Node(MembersRightSet, []));
        NodeOf0(JsonGrammar, 9);
      } else {
        r := Err(NoRule(t));
      }
    }

    /** Nullable: on the lookahead RS (its FOLLOW) it returns an empty node
        without consuming anything. */
    method ParseMembersRightArr() returns (r: Result<Tree>)
      requires Valid()
      modifies this
      decreases |tokens| - pos, 0
      ensures Valid() && old(pos) <= pos
      ensures r.Ok? ==> Yields(MembersRightArr, r.value, old(pos), pos)
      ensures old(t) in Dispatch[11] ==> r == Ok(Node(MembersRightArr, [])) && pos == old(pos)
      ensures old(t) !in Dispatch[10] + Dispatch[11] ==> r == Err(NoRule(old(t))) && pos == old(pos)
    {
      if t == COMMA {
        ghost var p0 := pos;
        var c1 := Match(COMMA);
        ghost var p1 := pos;
        var c2 := ParseMembersArr();
        if c2.Err? {
          return Err(c2.error);
        }
        r := Ok(Node(MembersRightArr, [Leaf(c1.value), c2.value]));
        TokenLeaf(tokens, p0, COMMA);
        JoinOf2(tokens, 10, Leaf(c1.value), c2.value, p0, p1, pos);
      } else if t == RS {
        r := Ok(Node(MembersRightArr, []));
        NodeOf0(JsonGrammar, 11);
      } else {
        r := Err(NoRule(t));
      }
    }

    method ParseValue() returns (r: Result<Tree>)
      requires Valid()
      modifies this
      decreases |tokens| - pos, 1
      ensures Valid() && old(pos) <= pos
      ensures r.Ok? ==> old(pos) < pos && Yields(Value, r.value, old(pos), pos)
      ensures r.Ok? ==> r.value.Node? && r.value.symbol == Value && |r.value.children| == 1
      ensures old(t) in Dispatch[13] + Dispatch[14] ==>
                r == Ok(Node(Value, [Leaf(ValueAt(tokens, old(pos)))])) && pos == old(pos) + 1
      ensures old(t) !in Dispatch[13] + Dispatch[14] + Dispatch[15] ==> r == Err(NoRule(old(t))) && pos == old(pos)
    {
      if t in {STRING, INT} {
        ghost var p0 := pos;
        ghost var x := t;
        var c1 := Match(t);
        r := Ok(Node(Value, [Leaf(c1.value)]));
        TokenLeaf(tokens, p0, x);
        NodeOf1(JsonGrammar, if x == STRING then 13 else 14, Leaf(c1.value), tokens[p0..pos]);
      } else if t in {LB, LS} {
        ghost var p0 := pos;
        var c1 := ParseObj();
        if c1.Err? {
          return Err(c1.error);
        }
        r := Ok(Node(Value, [c1.value]));
        NodeOf1(JsonGrammar, 15, c1.value, tokens[p0..pos]);
      } else {
        r := Err(NoRule(t));
      }
    }
  }
}
