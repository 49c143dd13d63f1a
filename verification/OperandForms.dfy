/**
 Prefix and post operators, member accesses, parentheses and names, with the tokens written
 out as in `OperatorPrecedence`.
 */
module OperandForms {
  import opened Tokens
  import opened ExpressionGrammar
  import opened ExpressionParsing
  import opened OperatorPrecedence
  import ParserSoundness
  import ParserCompleteness

  lemma PrefixOperator(a: Kind)
    requires a in PREFIX_OPERATORS
    ensures IsPrefixOperator(a)
  {
  }

  lemma UpdateOperator(u: Kind)
    requires u in {Punct(PlusPlus), Punct(MinusMinus)}
    ensures IsUpdateOperator(u)
    ensures ConvertToPostOperator(u) == if u == Punct(PlusPlus) then Punct(PostPlusPlus) else Punct(PostMinusMinus)
  {
  }

  lemma Prefixed(s: Source, i: nat, layer: int, operand: Expr, j: nat)
    requires i < |s.tokens| && IsPrefixOperator(s.tokens[i].kind) && layer >= UNARY
    requires Spans(s.tokens, layer, i + 1, operand, j)
    ensures i < j <= |s.tokens|
    ensures Spans(s.tokens, UNARY, i, UnaryExpression(Between(s, i, j - 1), s.tokens[i].kind, operand), j)
  {
    hide Canonical, LaidOut, LayerOf, IsPrefixOperator;
    Weaken(s.tokens, layer, UNARY, i + 1, operand, j);
    PrefixSpans(s.tokens, i, operand, j);
  }

  lemma Updated(s: Source, i: nat, layer: int, operand: Expr, j: nat)
    requires i < |s.tokens| && IsUpdateOperator(s.tokens[i].kind) && layer >= LEFT_HAND_SIDE
    requires Spans(s.tokens, layer, i + 1, operand, j)
    ensures i < j <= |s.tokens|
    ensures Spans(s.tokens, UPDATE, i, UnaryExpression(Between(s, i, j - 1), s.tokens[i].kind, operand), j)
  {
    hide Canonical, LaidOut, LayerOf;
    Weaken(s.tokens, layer, LEFT_HAND_SIDE, i + 1, operand, j);
    PrefixSpans(s.tokens, i, operand, j);
  }

  lemma Posted(s: Source, i: nat, layer: int, operand: Expr, j: nat)
    requires j < |s.tokens| && IsUpdateOperator(s.tokens[j].kind) && !s.tokens[j].newlineBefore && layer >= LEFT_HAND_SIDE
    requires Spans(s.tokens, layer, i, operand, j)
    ensures i < j
    ensures Spans(s.tokens, UPDATE, i,
                  UnaryExpression(Between(s, i, j), ConvertToPostOperator(s.tokens[j].kind), operand), j + 1)
  {
    hide Canonical, LaidOut, LayerOf;
    Weaken(s.tokens, layer, LEFT_HAND_SIDE, i, operand, j);
    PostSpans(s.tokens, i, operand, j);
  }

  /** Prefix operators nest to the right. */
  lemma PrefixesNest(s: Source, a: Kind, b: Kind, x: Kind)
    requires IsOperand(x) && Reads(s, [a, b, x])
    requires {a, b} <= {
                Punct(BitNot), Punct(DotDotDot), Punct(LogicalNot), Punct(Minus), Punct(Plus),
                Name(Await), Name(Delete), Name(TypeOf), Name(Void)}
    ensures ParseExpression(s, 0) ==
            Parsed(UnaryExpression(Between(s, 0, 2), a, UnaryExpression(Between(s, 1, 2), b, Operand(s, 2))), 3)
  {
    hide IsOperand, Operand, Spans, CategoryOf, ParseExpression, IsPrefixOperator, IsUpdateOperator;
    assert a in {a, b} && b in {a, b};
    PrefixOperator(a);
    PrefixOperator(b);
    assert s.tokens[0].kind == a && s.tokens[1].kind == b;
    OperandSpans(s, 2);
    Prefixed(s, 1, PRIMARY, Operand(s, 2), 3);
    var inner := UnaryExpression(Between(s, 1, 2), b, Operand(s, 2));
    Prefixed(s, 0, UNARY, inner, 3);
    Whole(s, UNARY, UnaryExpression(Between(s, 0, 2), a, inner));
  }

  /** A prefix operator binds tighter than every binary operator, `**` among them, on both sides of it. */
  lemma PrefixBeforeBinary(s: Source, a: Kind, x: Kind, q: Kind, b: Kind, y: Kind)
    requires IsOperand(x) && IsOperand(y) && Reads(s, [a, x, q, b, y])
    requires {a, b} <= PREFIX_OPERATORS
    requires q in BINARY_OPERATORS
    ensures ParseExpression(s, 0) ==
            Parsed(BinaryExpression(Between(s, 0, 4), q, UnaryExpression(Between(s, 0, 1), a, Operand(s, 1)),
                                    UnaryExpression(Between(s, 3, 4), b, Operand(s, 4))), 5)
  {
    hide IsOperand, Operand, Spans, CategoryOf, ParseExpression, IsPrefixOperator, IsUpdateOperator;
    assert a in {a, b} && b in {a, b};
    PrefixOperator(a);
    PrefixOperator(b);
    BinaryOperator(q);
    assert s.tokens[0].kind == a && s.tokens[2].kind == q && s.tokens[3].kind == b;
    OperandSpans(s, 1);
    OperandSpans(s, 4);
    Prefixed(s, 0, PRIMARY, Operand(s, 1), 2);
    Prefixed(s, 3, PRIMARY, Operand(s, 4), 5);
    var left := UnaryExpression(Between(s, 0, 1), a, Operand(s, 1));
    var right := UnaryExpression(Between(s, 3, 4), b, Operand(s, 4));
    Joined(s, 0, UNARY, left, 2, UNARY, right, 5);
    Whole(s, CategoryOf(q), BinaryExpression(Between(s, 0, 4), q, left, right));
  }

  /** `++` and `--` after an operand bind tighter than a prefix operator in front of it. */
  lemma PostBeforePrefix(s: Source, a: Kind, x: Kind, u: Kind)
    requires IsOperand(x) && Reads(s, [a, x, u]) && !s.tokens[2].newlineBefore
    requires a in PREFIX_OPERATORS
    requires u in {Punct(PlusPlus), Punct(MinusMinus)}
    ensures ParseExpression(s, 0) ==
            Parsed(UnaryExpression(Between(s, 0, 2), a,
                     UnaryExpression(Between(s, 1, 2), if u == Punct(PlusPlus) then Punct(PostPlusPlus) else Punct(PostMinusMinus),
                                     Operand(s, 1))), 3)
  {
    hide IsOperand, Operand, Spans, CategoryOf, ParseExpression, IsPrefixOperator, ConvertToPostOperator;
    PrefixOperator(a);
    UpdateOperator(u);
    assert s.tokens[0].kind == a && s.tokens[2].kind == u;
    OperandSpans(s, 1);
    Posted(s, 1, PRIMARY, Operand(s, 1), 2);
    var inner := UnaryExpression(Between(s, 1, 2), ConvertToPostOperator(u), Operand(s, 1));
    Prefixed(s, 0, UPDATE, inner, 3);
    Whole(s, UNARY, UnaryExpression(Between(s, 0, 2), a, inner));
  }

  /** In front of an operand they stay as they are, and either way they bind tighter than a binary operator. */
  lemma UpdateBeforeBinary(s: Source, u: Kind, x: Kind, q: Kind, y: Kind, v: Kind)
    requires IsOperand(x) && IsOperand(y) && Reads(s, [u, x, q, y, v]) && !s.tokens[4].newlineBefore
    requires u in {Punct(PlusPlus), Punct(MinusMinus)} && v in {Punct(PlusPlus), Punct(MinusMinus)}
    requires q in BINARY_OPERATORS
    ensures ParseExpression(s, 0) ==
            Parsed(BinaryExpression(Between(s, 0, 4), q, UnaryExpression(Between(s, 0, 1), u, Operand(s, 1)),
                     UnaryExpression(Between(s, 3, 4), if v == Punct(PlusPlus) then Punct(PostPlusPlus) else Punct(PostMinusMinus),
                                     Operand(s, 3))), 5)
  {
    hide IsOperand, Operand, Spans, CategoryOf, ParseExpression, IsPrefixOperator, ConvertToPostOperator;
    UpdateOperator(u);
    UpdateOperator(v);
    BinaryOperator(q);
    assert s.tokens[0].kind == u && s.tokens[2].kind == q && s.tokens[4].kind == v;
    OperandSpans(s, 1);
    OperandSpans(s, 3);
    Updated(s, 0, PRIMARY, Operand(s, 1), 2);
    Posted(s, 3, PRIMARY, Operand(s, 3), 4);
    var left := UnaryExpression(Between(s, 0, 1), u, Operand(s, 1));
    var right := UnaryExpression(Between(s, 3, 4), ConvertToPostOperator(v), Operand(s, 3));
    Joined(s, 0, UPDATE, left, 2, UPDATE, right, 5);
    Whole(s, CategoryOf(q), BinaryExpression(Between(s, 0, 4), q, left, right));
  }

  /**
   `++` or `--` at the start of a line does not belong to the operand before it: the expression
   ends there, or is an error when no semicolon may be inserted.
   */
  lemma NewlineBeforeUpdate(s: Source, x: Kind, u: Kind)
    requires IsOperand(x) && Reads(s, [x, u]) && s.tokens[1].newlineBefore
    requires u in {Punct(PlusPlus), Punct(MinusMinus)}
    ensures ParseExpression(s, 0) == if s.disableAutomaticSemicolon then Failed else Parsed(Operand(s, 0), 1)
  {
    UpdateOperator(u);
    OperandSpans(s, 0);
    if s.disableAutomaticSemicolon {
      OperandThenFailure(s);
    } else {
      hide Spans, ParseExpression, IsOperand, Operand, CategoryOf;
      Weaken(s.tokens, PRIMARY, COMMA, 0, Operand(s, 0), 1);
      UpdateStops(s);
      ParserCompleteness.Complete(s, COMMA, 0, Operand(s, 0), 1);
    }
  }

  lemma UpdateStops(s: Source)
    requires |s.tokens| == 2 && IsUpdateOperator(s.tokens[1].kind)
    requires s.tokens[1].newlineBefore && !s.disableAutomaticSemicolon
    ensures ParserCompleteness.Stops(s, COMMA, 1)
    ensures ParserCompleteness.Stops(s, ASSIGN, 1)
  {
  }

  /** Each level hands on the failure of the one below. */
  lemma OperandThenFailure(s: Source)
    requires |s.tokens| == 2 && IsOperand(s.tokens[0].kind) && IsUpdateOperator(s.tokens[1].kind)
    requires s.tokens[1].newlineBefore && s.disableAutomaticSemicolon
    ensures ParseExpression(s, 0) == Failed
  {
    UnaryFails(s);
    BinaryFails(s, LOGICAL_OR);
    assert ParseConditional(s, 0) == Failed;
    assert ParseAssignment(s, 0) == Failed;
    assert ParseComma(s, 0) == Failed;
  }

  lemma UnaryFails(s: Source)
    requires |s.tokens| == 2 && IsOperand(s.tokens[0].kind) && IsUpdateOperator(s.tokens[1].kind)
    requires s.tokens[1].newlineBefore && s.disableAutomaticSemicolon
    ensures ParseUnary(s, 0) == Failed
  {
    OperandSpans(s, 0);
    hide ParseLeftHandSide;
    ParserCompleteness.Complete(s, LEFT_HAND_SIDE, 0, Operand(s, 0), 1);
  }

  lemma {:induction false} BinaryFails(s: Source, category: nat)
    requires LOGICAL_OR <= category <= NONE && s.tokens != [] && ParseUnary(s, 0) == Failed
    ensures ParseBinary(s, category, 0) == Failed
    decreases NONE - category
  {
    hide ParseUnary;
    if category < NONE {
      BinaryFails(s, category + 1);
    }
  }

  /** No other token than those with a place above continues an expression: it ends in front of it. */
  lemma OtherTokenEnds(s: Source, x: Kind, t: Kind)
    requires |s.tokens| >= 2 && s.tokens[0].kind == x && s.tokens[1].kind == t && IsOperand(x)
    requires t !in BINARY_OPERATORS
    requires t !in ASSIGNMENT_OPERATORS
    requires t !in {Punct(Comma), Punct(Question), Punct(Dot), Punct(LeftBracket), Punct(LeftParenthesis),
                    Punct(PlusPlus), Punct(MinusMinus), Punct(Arrow), Name(Function)}
    ensures ParseExpression(s, 0) == Parsed(Operand(s, 0), 1)
  {
    NoOperator(t);
    hide ParseExpression, IsBinaryOperator, IsAssignmentOperator, CategoryOf, Spans;
    OperandSpans(s, 0);
    Weaken(s.tokens, PRIMARY, COMMA, 0, Operand(s, 0), 1);
    ParserCompleteness.Complete(s, COMMA, 0, Operand(s, 0), 1);
  }

  lemma NoOperator(t: Kind)
    requires t !in BINARY_OPERATORS
    requires t !in ASSIGNMENT_OPERATORS
    ensures !IsBinaryOperator(t) && !IsAssignmentOperator(t)
  {
  }

  // ----- Members and parentheses

  /** Member accesses chain to the left and bind tighter than the operators around them. */
  lemma MembersFirst(s: Source, a: Kind, x: Kind, n: Word, y: Kind, q: Kind, z: Kind, m: Word, u: Kind)
    requires IsOperand(x) && IsOperand(y) && IsOperand(z) && a in PREFIX_OPERATORS
    requires q in BINARY_OPERATORS
    requires u in {Punct(PlusPlus), Punct(MinusMinus)}
    requires Reads(s, [a, x, Punct(Dot), Name(n), Punct(LeftBracket), y, q, z, Punct(RightBracket), Punct(Dot), Name(m), u])
    requires !s.tokens[11].newlineBefore
    ensures ParseExpression(s, 0) ==
            Parsed(UnaryExpression(Between(s, 0, 11), a,
                     UnaryExpression(Between(s, 1, 11), if u == Punct(PlusPlus) then Punct(PostPlusPlus) else Punct(PostMinusMinus),
                       MemberExpression(Between(s, 1, 10),
                         ComputedMemberExpression(Between(s, 1, 8),
                           MemberExpression(Between(s, 1, 3), Operand(s, 1), n),
                           BinaryExpression(Between(s, 5, 7), q, Operand(s, 5), Operand(s, 7))),
                         m))), 12)
  {
    hide IsOperand, Operand, Between, ParseExpression, IsPrefixOperator, ConvertToPostOperator, IsBinaryOperator, Reads;
    PrefixOperator(a);
    UpdateOperator(u);
    BinaryOperator(q);
    MembersWithin(s, a, x, n, y, q, z, m, u);
  }

  lemma MembersWithin(s: Source, a: Kind, x: Kind, n: Word, y: Kind, q: Kind, z: Kind, m: Word, u: Kind)
    requires IsOperand(x) && IsOperand(y) && IsOperand(z)
    requires IsPrefixOperator(a) && IsBinaryOperator(q) && IsUpdateOperator(u)
    requires Reads(s, [a, x, Punct(Dot), Name(n), Punct(LeftBracket), y, q, z, Punct(RightBracket), Punct(Dot), Name(m), u])
    requires !s.tokens[11].newlineBefore
    ensures ParseExpression(s, 0) ==
            Parsed(UnaryExpression(Between(s, 0, 11), a,
                     UnaryExpression(Between(s, 1, 11), ConvertToPostOperator(u),
                       MemberExpression(Between(s, 1, 10),
                         ComputedMemberExpression(Between(s, 1, 8),
                           MemberExpression(Between(s, 1, 3), Operand(s, 1), n),
                           BinaryExpression(Between(s, 5, 7), q, Operand(s, 5), Operand(s, 7))),
                         m))), 12)
  {
    hide IsOperand, Operand, Between, Spans, CategoryOf, ParseExpression, IsPrefixOperator, ConvertToPostOperator;
    hide IsBinaryOperator;
    assert s.tokens[0].kind == a && s.tokens[11].kind == u && s.tokens[6].kind == q;
    MemberChain(s, n, q, m);
    var key := BinaryExpression(Between(s, 5, 7), q, Operand(s, 5), Operand(s, 7));
    var inner := MemberExpression(Between(s, 1, 10),
      ComputedMemberExpression(Between(s, 1, 8), MemberExpression(Between(s, 1, 3), Operand(s, 1), n), key), m);
    Posted(s, 1, LEFT_HAND_SIDE, inner, 11);
    var post := UnaryExpression(Between(s, 1, 11), ConvertToPostOperator(u), inner);
    Prefixed(s, 0, UPDATE, post, 12);
    Whole(s, UNARY, UnaryExpression(Between(s, 0, 11), a, post));
  }

  lemma MemberChain(s: Source, n: Word, q: Kind, m: Word)
    requires |s.tokens| > 10 && IsOperand(s.tokens[1].kind) && IsOperand(s.tokens[5].kind) && IsOperand(s.tokens[7].kind)
    requires Is(s.tokens, 2, Punct(Dot)) && Is(s.tokens, 3, Name(n)) && Is(s.tokens, 4, Punct(LeftBracket))
    requires s.tokens[6].kind == q && IsBinaryOperator(q)
    requires Is(s.tokens, 8, Punct(RightBracket)) && Is(s.tokens, 9, Punct(Dot)) && Is(s.tokens, 10, Name(m))
    ensures Spans(s.tokens, LEFT_HAND_SIDE, 1,
                  MemberExpression(Between(s, 1, 10),
                    ComputedMemberExpression(Between(s, 1, 8), MemberExpression(Between(s, 1, 3), Operand(s, 1), n),
                                             BinaryExpression(Between(s, 5, 7), q, Operand(s, 5), Operand(s, 7))), m), 11)
  {
    hide IsOperand, Operand, Spans, CategoryOf;
    OperandSpans(s, 1);
    Weaken(s.tokens, PRIMARY, LEFT_HAND_SIDE, 1, Operand(s, 1), 2);
    MemberSpans(s.tokens, 1, Operand(s, 1), 2, n);
    JoinedOperands(s, 5);
    var key := BinaryExpression(Between(s, 5, 7), q, Operand(s, 5), Operand(s, 7));
    Weaken(s.tokens, CategoryOf(q), COMMA, 5, key, 8);
    var first := MemberExpression(Between(s, 1, 3), Operand(s, 1), n);
    ComputedMemberSpans(s.tokens, 1, first, 4, key, 8);
    MemberSpans(s.tokens, 1, ComputedMemberExpression(Between(s, 1, 8), first, key), 9, m);
  }

  /** Parentheses override every precedence, on both sides of an operator. */
  lemma ParenthesesFirst(s: Source, x: Kind, p: Kind, y: Kind, q: Kind, z: Kind, r: Kind, w: Kind)
    requires IsOperand(x) && IsOperand(y) && IsOperand(z) && IsOperand(w)
    requires {p, q, r} <= BINARY_OPERATORS
    requires Reads(s, [Punct(LeftParenthesis), x, p, y, Punct(RightParenthesis), q,
                       Punct(LeftParenthesis), z, r, w, Punct(RightParenthesis)])
    ensures ParseExpression(s, 0) ==
            Parsed(BinaryExpression(Between(s, 0, 10), q,
                     GroupExpression(Between(s, 0, 4), BinaryExpression(Between(s, 1, 3), p, Operand(s, 1), Operand(s, 3))),
                     GroupExpression(Between(s, 6, 10), BinaryExpression(Between(s, 7, 9), r, Operand(s, 7), Operand(s, 9)))), 11)
  {
    hide IsOperand, Operand, Between, CategoryOf, ParseExpression, IsBinaryOperator, Reads;
    assert p in {p, q, r} && q in {p, q, r} && r in {p, q, r};
    BinaryOperator(p);
    BinaryOperator(q);
    BinaryOperator(r);
    GroupedBothWays(s, x, p, y, q, z, r, w);
  }

  lemma GroupedBothWays(s: Source, x: Kind, p: Kind, y: Kind, q: Kind, z: Kind, r: Kind, w: Kind)
    requires IsOperand(x) && IsOperand(y) && IsOperand(z) && IsOperand(w)
    requires IsBinaryOperator(p) && IsBinaryOperator(q) && IsBinaryOperator(r) && CategoryOf(q) <= EXPONENTIATION
    requires Reads(s, [Punct(LeftParenthesis), x, p, y, Punct(RightParenthesis), q,
                       Punct(LeftParenthesis), z, r, w, Punct(RightParenthesis)])
    ensures ParseExpression(s, 0) ==
            Parsed(BinaryExpression(Between(s, 0, 10), q,
                     GroupExpression(Between(s, 0, 4), BinaryExpression(Between(s, 1, 3), p, Operand(s, 1), Operand(s, 3))),
                     GroupExpression(Between(s, 6, 10), BinaryExpression(Between(s, 7, 9), r, Operand(s, 7), Operand(s, 9)))), 11)
  {
    hide IsOperand, Operand, Between, Spans, CategoryOf, ParseExpression;
    assert s.tokens[2].kind == p && s.tokens[5].kind == q && s.tokens[8].kind == r;
    GroupedOperands(s, 0);
    GroupedOperands(s, 6);
    var left := GroupExpression(Between(s, 0, 4), BinaryExpression(Between(s, 1, 3), p, Operand(s, 1), Operand(s, 3)));
    var right := GroupExpression(Between(s, 6, 10), BinaryExpression(Between(s, 7, 9), r, Operand(s, 7), Operand(s, 9)));
    Joined(s, 0, PRIMARY, left, 5, PRIMARY, right, 11);
    Whole(s, CategoryOf(q), BinaryExpression(Between(s, 0, 10), q, left, right));
  }

  lemma GroupedOperands(s: Source, i: nat)
    requires i + 4 < |s.tokens| && Is(s.tokens, i, Punct(LeftParenthesis)) && Is(s.tokens, i + 4, Punct(RightParenthesis))
    requires IsOperand(s.tokens[i + 1].kind) && IsBinaryOperator(s.tokens[i + 2].kind) && IsOperand(s.tokens[i + 3].kind)
    ensures Spans(s.tokens, PRIMARY, i,
                  GroupExpression(Between(s, i, i + 4),
                                  BinaryExpression(Between(s, i + 1, i + 3), s.tokens[i + 2].kind,
                                                   Operand(s, i + 1), Operand(s, i + 3))), i + 5)
  {
    hide IsOperand, Operand, Spans, CategoryOf;
    JoinedOperands(s, i + 1);
    var inner := BinaryExpression(Between(s, i + 1, i + 3), s.tokens[i + 2].kind, Operand(s, i + 1), Operand(s, i + 3));
    Weaken(s.tokens, CategoryOf(s.tokens[i + 2].kind), COMMA, i + 1, inner, i + 4);
    GroupSpans(s.tokens, i, inner, i + 4);
  }

  // ----- Single tokens

  /**
   What one token is as an expression: a literal, a literal name, a reference, or nothing.
   `this` and `super` are references like the names that are no keywords.
   */
  lemma SingleToken(s: Source, kind: Kind)
    requires Reads(s, [kind])
    ensures ParseExpression(s, 0) ==
            if kind.Literal? || kind == Name(True) || kind == Name(False) || kind == Name(Null) then
              Parsed(LiteralExpression(Between(s, 0, 0), kind), 1)
            else if kind.Name? && (kind.word == This || kind.word == Super || kind.word == Async || kind.word.Identifier?) then
              Parsed(ReferenceExpression(Between(s, 0, 0), kind.word), 1)
            else Failed
  {
    hide ParseExpression;
    assert s.tokens[0].kind == kind;
    if kind.Literal? || kind == Name(True) || kind == Name(False) || kind == Name(Null) {
      Whole(s, PRIMARY, LiteralExpression(Between(s, 0, 0), kind));
    } else if kind.Name? && (kind.word == This || kind.word == Super || kind.word == Async || kind.word.Identifier?) {
      Whole(s, PRIMARY, ReferenceExpression(Between(s, 0, 0), kind.word));
    } else if ParseExpression(s, 0).Parsed? {
      ParserSoundness.ExpressionIsSound(s, 0);
      OneTokenTree(s, ParseExpression(s, 0).expr);
    }
  }

  /** A tree written by one token is a literal or a reference. */
  lemma OneTokenTree(s: Source, e: Expr)
    requires |s.tokens| == 1 && Spans(s.tokens, COMMA, 0, e, 1)
    ensures e.LiteralExpression? || e.ReferenceExpression?
  {
    hide LaidOut, Canonical, LayerOf;
    match e
    case LiteralExpression(_, _) =>
    case ReferenceExpression(_, _) =>
    case GroupExpression(_, _) => GroupParts(s.tokens, 0, e, 1);
    case MemberExpression(_, _, _) => MemberParts(s.tokens, 0, e, 1);
    case ComputedMemberExpression(_, _, _) => var _ := ComputedMemberParts(s.tokens, 0, e, 1);
    case UnaryExpression(_, op, _) =>
      if IsPostOperator(op) {
        PostParts(s.tokens, 0, e, 1);
      } else {
        PrefixParts(s.tokens, 0, e, 1);
      }
    case BinaryExpression(_, _, _, _) => var _ := BinaryParts(s.tokens, 0, e, 1);
    case ConditionalExpression(_, _, _, _) => var _, _ := ConditionalParts(s.tokens, 0, e, 1);
    case AssignmentExpression(_, _, _, _) => var _ := AssignmentParts(s.tokens, 0, e, 1);
    case CommaExpression(_, items) =>
      CommaParts(s.tokens, 0, e, 1);
      var _ := ItemsParts(s.tokens, 0, items, 1);
  }
}
