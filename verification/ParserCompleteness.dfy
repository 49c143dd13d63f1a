/**
 The parser finds every canonical tree again from its tokens, provided the token after the
 tree cannot continue it.
 */
module ParserCompleteness {
  import opened Tokens
  import opened ExpressionGrammar
  import opened ExpressionParsing

  /** The parse function for each layer. */
  function ParseLayer(s: Source, layer: int, i: nat): Result
    requires COMMA <= layer <= LEFT_HAND_SIDE && i < |s.tokens|
  {
    if layer == COMMA then ParseExpression(s, i)
    else if layer == ASSIGN then ParseAssignment(s, i)
    else if layer == CONDITIONAL then ParseConditional(s, i)
    else if layer <= UNARY then ParseBinary(s, layer, i)
    else if layer == UPDATE then ParseUpdate(s, i)
    else ParseLeftHandSide(s, i)
  }

  /** No token at `j`, or one that does not continue an expression of the layer. */
  predicate Stops(s: Source, layer: int, j: nat) {
    j < |s.tokens| ==> StopsAt(s.tokens[j], s.disableAutomaticSemicolon, layer)
  }

  predicate StopsAt(t: Token, disableAutomaticSemicolon: bool, layer: int) {
    && t.kind != Punct(Arrow) && t.kind != Name(Function) && t.kind != Punct(LeftParenthesis)
    && t.kind != Punct(LeftBracket) && t.kind != Punct(Dot)
    && (layer <= UPDATE && IsUpdateOperator(t.kind) ==> t.newlineBefore && !disableAutomaticSemicolon)
    && (IsBinaryOperator(t.kind) ==> CategoryOf(t.kind) < layer)
    && (layer <= CONDITIONAL ==> t.kind != Punct(Question))
    && (layer <= ASSIGN ==> !IsAssignmentOperator(t.kind))
    && (layer <= COMMA ==> t.kind != Punct(Comma))
  }

  // Where a part of a tree ends, the next token of the tree stops it.

  lemma AssignmentOperatorStops(s: Source, j: nat)
    requires j < |s.tokens| && IsAssignmentOperator(s.tokens[j].kind)
    ensures Stops(s, CONDITIONAL, j)
  {
  }

  lemma BinaryOperatorStops(s: Source, j: nat)
    requires j < |s.tokens| && IsBinaryOperator(s.tokens[j].kind)
    ensures Stops(s, CategoryOf(s.tokens[j].kind) + 1, j)
  {
  }

  lemma PunctuatorStops(s: Source, j: nat)
    ensures At(s, j, Punct(Comma)) || At(s, j, Punct(Colon)) ==> Stops(s, ASSIGN, j)
    ensures At(s, j, Punct(Question)) ==> Stops(s, LOGICAL_OR, j)
    ensures At(s, j, Punct(RightParenthesis)) || At(s, j, Punct(RightBracket)) ==> Stops(s, COMMA, j) && Stops(s, ASSIGN, j)
  {
  }

  /** An update or left-hand side expression does not start with the operators of outer layers. */
  lemma {:induction false} FirstToken(s: Source, i: nat, e: Expr, j: nat)
    requires Spans(s.tokens, UPDATE, i, e, j)
    ensures !IsPrefixOperator(s.tokens[i].kind) && s.tokens[i].kind != Name(Yield)
    ensures LayerOf(e) >= LEFT_HAND_SIDE ==> !IsUpdateOperator(s.tokens[i].kind) && s.tokens[i].kind != Name(New)
    decreases e
  {
    match e
    case MemberExpression(_, container, _) =>
      MemberParts(s.tokens, i, e, j);
      FirstToken(s, i, container, j - 2);
    case ComputedMemberExpression(_, container, _) =>
      var k := ComputedMemberParts(s.tokens, i, e, j);
      FirstToken(s, i, container, k);
    case UnaryExpression(_, op, operand) =>
      if IsPostOperator(op) {
        PostParts(s.tokens, i, e, j);
        FirstToken(s, i, operand, j - 1);
      } else {
        PrefixParts(s.tokens, i, e, j);
      }
    case _ =>
  }

  /** No expression starts with a closing parenthesis. */
  lemma {:induction false} LeafNotClosing(s: Source, i: nat, e: Expr, j: nat)
    requires e.LiteralExpression? || e.ReferenceExpression?
    requires Spans(s.tokens, COMMA, i, e, j)
    ensures s.tokens[i].kind != Punct(RightParenthesis)
  {
  }

  lemma {:induction false} NotClosing(s: Source, i: nat, e: Expr, j: nat)
    requires Spans(s.tokens, COMMA, i, e, j)
    ensures s.tokens[i].kind != Punct(RightParenthesis)
    decreases e
  {
    SpansBounds(s.tokens, COMMA, i, e, j);
    hide LaidOut, Canonical, LayerOf, CategoryOfPunctuator;
    match e
    case LiteralExpression(_, _) => LeafNotClosing(s, i, e, j);
    case ReferenceExpression(_, _) => LeafNotClosing(s, i, e, j);
    case GroupExpression(_, _) => GroupParts(s.tokens, i, e, j);
    case MemberExpression(_, container, _) =>
      MemberParts(s.tokens, i, e, j);
      NotClosing(s, i, container, j - 2);
    case ComputedMemberExpression(_, container, _) =>
      var k := ComputedMemberParts(s.tokens, i, e, j);
      NotClosing(s, i, container, k);
    case UnaryExpression(_, op, operand) =>
      if IsPostOperator(op) {
        PostParts(s.tokens, i, e, j);
        NotClosing(s, i, operand, j - 1);
      } else {
        PrefixParts(s.tokens, i, e, j);
      }
    case BinaryExpression(_, _, left, _) =>
      var k := BinaryParts(s.tokens, i, e, j);
      NotClosing(s, i, left, k);
    case ConditionalExpression(_, condition, _, _) =>
      var k, _ := ConditionalParts(s.tokens, i, e, j);
      NotClosing(s, i, condition, k);
    case AssignmentExpression(_, _, left, _) =>
      var k := AssignmentParts(s.tokens, i, e, j);
      NotClosing(s, i, left, k);
    case CommaExpression(_, items) =>
      CommaParts(s.tokens, i, e, j);
      FirstItemNotClosing(s, i, items, j);
  }

  lemma {:induction false} FirstItemNotClosing(s: Source, i: nat, items: seq<Expr>, j: nat)
    requires ItemsSpan(s.tokens, i, items, j)
    ensures i < |s.tokens| && s.tokens[i].kind != Punct(RightParenthesis)
    decreases items
  {
    hide ItemsSpan, Spans;
    var k := ItemsParts(s.tokens, i, items, j);
    if |items| == 1 {
      SpansBounds(s.tokens, ASSIGN, i, items[0], j);
      NotClosing(s, i, items[0], j);
    } else {
      FirstItemNotClosing(s, i, items[..|items| - 1], k);
    }
  }

  lemma SpansBounds(tokens: seq<Token>, layer: int, i: nat, e: Expr, j: nat)
    requires COMMA <= layer && Spans(tokens, layer, i, e, j)
    ensures i < j <= |tokens| && Spans(tokens, COMMA, i, e, j)
  {
  }

  /**
   The main result: the parser of any layer finds the tree. A conditional must not be followed
   by an assignment operator, whatever the layer, since its false branch would take it.
   */
  lemma {:induction false} Complete(s: Source, layer: int, i: nat, e: Expr, j: nat)
    requires COMMA <= layer <= LEFT_HAND_SIDE
    requires Spans(s.tokens, layer, i, e, j) && Stops(s, layer, j)
    requires e.ConditionalExpression? ==> Stops(s, ASSIGN, j)
    ensures ParseLayer(s, layer, i) == Parsed(e, j)
    decreases e, 20 - layer, 1
  {
    hide Canonical, LaidOut;
    hide ParseComma, ParseAssignment, ParseConditional, ParseBinary, ParseUpdate;
    if layer == LEFT_HAND_SIDE {
      CompleteLeftHandSide(s, i, e, j);
    } else if LayerOf(e) > layer {
      Complete(s, layer + 1, i, e, j);
      Descend(s, layer, i, e, j);
    } else {
      match e
      case CommaExpression(_, _) => CompleteComma(s, i, e, j);
      case AssignmentExpression(_, _, _, _) => CompleteAssignment(s, i, e, j);
      case ConditionalExpression(_, _, _, _) => CompleteConditional(s, i, e, j);
      case BinaryExpression(_, _, _, _) =>
        var _ := BinaryParts(s.tokens, i, e, j);
        CompleteBinary(s, layer, i, e, j);
      case UnaryExpression(_, _, _) => CompleteUnary(s, layer, i, e, j);
    }
  }

  /** A tree of a higher layer is passed through unchanged. */
  lemma Descend(s: Source, layer: int, i: nat, e: Expr, j: nat)
    requires COMMA <= layer < LEFT_HAND_SIDE
    requires Spans(s.tokens, layer + 1, i, e, j) && Stops(s, layer, j)
    requires ParseLayer(s, layer + 1, i) == Parsed(e, j)
    ensures ParseLayer(s, layer, i) == Parsed(e, j)
  {
    hide Canonical, LaidOut;
    if layer == UNARY {
      FirstToken(s, i, e, j);
      assert ParseUnary(s, i) == ParseUpdate(s, i);
    } else if layer == UPDATE {
      hide ParseLeftHandSide;
      FirstToken(s, i, e, j);
      assert ParseLeftHandSide(s, i) == Parsed(e, j);
    } else if LOGICAL_OR <= layer {
      hide ParseUnary;
      assert BinaryLoop(s, layer, i, e, j) == Parsed(e, j);
      assert ParseBinary(s, layer + 1, i) == Parsed(e, j);
    } else if layer == COMMA {
      hide ParseAssignment;
      assert ParseAssignment(s, i) == Parsed(e, j);
      assert CommaLoop(s, i, [e], j) == Parsed(e, j);
      assert ParseComma(s, i) == CommaLoop(s, i, [e], j);
    } else if layer == ASSIGN {
      hide ParseConditional;
      assert ParseConditional(s, i) == Parsed(e, j);
    } else {
      hide ParseBinary;
      assert ParseBinary(s, LOGICAL_OR, i) == Parsed(e, j);
    }
  }

  lemma {:induction false} CompleteComma(s: Source, i: nat, e: Expr, j: nat)
    requires e.CommaExpression?
    requires Spans(s.tokens, COMMA, i, e, j) && Stops(s, COMMA, j)
    ensures ParseExpression(s, i) == Parsed(e, j)
    decreases e, 0, 1
  {
    hide ParseAssignment;
    CommaParts(s.tokens, i, e, j);
    CommaChain(s, i, e.items, j);
  }

  /** The items are what the comma loop has collected when it gets to `j`. */
  lemma {:induction false} CommaChain(s: Source, i: nat, items: seq<Expr>, j: nat)
    requires ItemsSpan(s.tokens, i, items, j) && Stops(s, ASSIGN, j)
    ensures items != [] && i < j && ParseComma(s, i) == CommaLoop(s, i, items, j)
    decreases items, 0, 0
  {
    hide Canonical, LaidOut, ParseAssignment, ItemsSpan, StopsAt, CategoryOfPunctuator;
    var n := |items| - 1;
    var k := ItemsParts(s.tokens, i, items, j);
    PunctuatorStops(s, k);
    if n == 0 {
      Complete(s, ASSIGN, i, items[0], j);
      assert items == [items[0]];
    } else {
      CommaChain(s, i, items[..n], k);
      Complete(s, ASSIGN, k + 1, items[n], j);
      assert items[..n] + [items[n]] == items;
    }
  }

  lemma {:induction false} CompleteAssignment(s: Source, i: nat, e: Expr, j: nat)
    requires e.AssignmentExpression?
    requires Spans(s.tokens, ASSIGN, i, e, j) && Stops(s, ASSIGN, j)
    ensures ParseAssignment(s, i) == Parsed(e, j)
    decreases e, 0, 0
  {
    hide Canonical, LaidOut, ParseConditional, StopsAt, CategoryOfPunctuator;
    var k := AssignmentParts(s.tokens, i, e, j);
    AssignmentOperatorStops(s, k);
    Complete(s, CONDITIONAL, i, e.left, k);
    Complete(s, ASSIGN, k + 1, e.right, j);
    assert ParseConditional(s, i) == Parsed(e.left, k) && ParseAssignment(s, k + 1) == Parsed(e.right, j);
  }

  lemma {:induction false} CompleteConditional(s: Source, i: nat, e: Expr, j: nat)
    requires e.ConditionalExpression?
    requires Spans(s.tokens, CONDITIONAL, i, e, j) && Stops(s, ASSIGN, j)
    ensures ParseConditional(s, i) == Parsed(e, j)
    decreases e, 0, 0
  {
    hide Canonical, LaidOut, ParseBinary, ParseAssignment, StopsAt, CategoryOfPunctuator;
    var k, m := ConditionalParts(s.tokens, i, e, j);
    PunctuatorStops(s, k);
    PunctuatorStops(s, m);
    Complete(s, LOGICAL_OR, i, e.condition, k);
    Complete(s, ASSIGN, k + 1, e.yes, m);
    Complete(s, ASSIGN, m + 1, e.no, j);
    assert ParseBinary(s, LOGICAL_OR, i) == Parsed(e.condition, k);
    assert ParseAssignment(s, k + 1) == Parsed(e.yes, m) && ParseAssignment(s, m + 1) == Parsed(e.no, j);
  }

  lemma {:induction false} CompleteBinary(s: Source, category: nat, i: nat, e: Expr, j: nat)
    requires LOGICAL_OR <= category <= EXPONENTIATION
    requires Spans(s.tokens, category, i, e, j) && Stops(s, category, j) && e.BinaryExpression?
    ensures ParseBinary(s, category, i) == Parsed(e, j)
    decreases e, 20 - category, 0, 1
  {
    hide ParseBinary, Canonical, LaidOut;
    BinaryChain(s, category, i, e, j);
  }

  /** A left-leaning chain of one precedence is what the loop has built when it gets to `j`. */
  lemma {:induction false} BinaryChain(s: Source, category: nat, i: nat, e: Expr, j: nat)
    requires LOGICAL_OR <= category <= EXPONENTIATION
    requires Spans(s.tokens, category, i, e, j) && Stops(s, category + 1, j)
    ensures ParseBinary(s, category, i) == BinaryLoop(s, category, i, e, j)
    decreases e, 20 - category, 0, 0
  {
    hide Canonical, LaidOut, ParseUnary, StopsAt, CategoryOfPunctuator;
    if LayerOf(e) > category {
      Complete(s, category + 1, i, e, j);
    } else {
      var k := BinaryParts(s.tokens, i, e, j);
      BinaryOperatorStops(s, k);
      BinaryChain(s, category, i, e.left, k);
      Complete(s, category + 1, k + 1, e.right, j);
    }
  }

  lemma {:induction false} CompleteUnary(s: Source, layer: int, i: nat, e: Expr, j: nat)
    requires e.UnaryExpression? && layer == LayerOf(e)
    requires Spans(s.tokens, layer, i, e, j) && Stops(s, layer, j)
    ensures ParseLayer(s, layer, i) == Parsed(e, j)
    decreases e, 0, 0
  {
    hide Canonical, LaidOut, ParseLeftHandSide;
    if IsPostOperator(e.op) {
      PostParts(s.tokens, i, e, j);
      Complete(s, LEFT_HAND_SIDE, i, e.operand, j - 1);
      FirstToken(s, i, e.operand, j - 1);
    } else {
      PrefixParts(s.tokens, i, e, j);
      if IsPrefixOperator(e.op) {
        Complete(s, UNARY, i + 1, e.operand, j);
        assert ParseUnary(s, i + 1) == Parsed(e.operand, j);
        assert ParseBinary(s, NONE, i) == ParseUnary(s, i);
      } else {
        Complete(s, LEFT_HAND_SIDE, i + 1, e.operand, j);
      }
    }
  }

  lemma {:induction false} CompleteLeftHandSide(s: Source, i: nat, e: Expr, j: nat)
    requires Spans(s.tokens, LEFT_HAND_SIDE, i, e, j) && Stops(s, LEFT_HAND_SIDE, j)
    ensures ParseLeftHandSide(s, i) == Parsed(e, j)
    decreases e, 0, 1
  {
    hide ParseNew, Canonical, LaidOut;
    MemberChain(s, i, e, j);
    assert NewLoop(s, i, e, j) == Parsed(e, j);
  }

  /** A chain of members is what the loop of `HandleNewExpression` has built when it gets to `j`. */
  lemma {:induction false} MemberChain(s: Source, i: nat, e: Expr, j: nat)
    requires Spans(s.tokens, LEFT_HAND_SIDE, i, e, j)
    requires !At(s, j, Punct(Arrow)) && !At(s, j, Name(Function))
    ensures ParseNew(s, i) == NewLoop(s, i, e, j)
    decreases e, 0, 0
  {
    hide ParseExpression, Canonical, LaidOut, StopsAt, CategoryOfPunctuator, ParseNew, NewLoop;
    match e
    case MemberExpression(_, container, name) =>
      MemberParts(s.tokens, i, e, j);
      MemberChain(s, i, container, j - 2);
      MemberStep(s, i, container, j - 2, name);
    case ComputedMemberExpression(_, container, key) =>
      var k := ComputedMemberParts(s.tokens, i, e, j);
      MemberChain(s, i, container, k);
      PunctuatorStops(s, j - 1);
      Complete(s, COMMA, k + 1, key, j - 1);
      ComputedMemberStep(s, i, container, k, key, j - 1);
    case GroupExpression(_, inner) =>
      GroupParts(s.tokens, i, e, j);
      PunctuatorStops(s, j - 1);
      Complete(s, COMMA, i + 1, inner, j - 1);
      NotClosing(s, i + 1, inner, j - 1);
      GroupStep(s, i, inner, j - 1);
    case LiteralExpression(_, _) => OneToken(s, i, e, j);
    case ReferenceExpression(_, _) => OneToken(s, i, e, j);
  }

  lemma MemberStep(s: Source, i: nat, container: Expr, k: nat, name: Word)
    requires i < k && At(s, k, Punct(Dot)) && At(s, k + 1, Name(name))
    ensures NewLoop(s, i, container, k) == NewLoop(s, i, MemberExpression(RangeOf(s.tokens, i, k + 2), container, name), k + 2)
  {
  }

  lemma ComputedMemberStep(s: Source, i: nat, container: Expr, k: nat, key: Expr, j: nat)
    requires i < k < j && At(s, k, Punct(LeftBracket)) && At(s, j, Punct(RightBracket))
    requires ParseExpression(s, k + 1) == Parsed(key, j)
    ensures NewLoop(s, i, container, k)
         == NewLoop(s, i, ComputedMemberExpression(RangeOf(s.tokens, i, j + 1), container, key), j + 1)
  {
    hide ParseExpression;
  }

  lemma GroupStep(s: Source, i: nat, inner: Expr, j: nat)
    requires i + 1 < j && At(s, i, Punct(LeftParenthesis)) && At(s, j, Punct(RightParenthesis))
    requires !At(s, i + 1, Punct(RightParenthesis)) && !At(s, j + 1, Punct(Arrow))
    requires ParseExpression(s, i + 1) == Parsed(inner, j)
    ensures ParseNew(s, i) == NewLoop(s, i, GroupExpression(RangeOf(s.tokens, i, j + 1), inner), j + 1)
  {
    hide ParseExpression, NewLoop;
    assert ParsePrimary(s, i) == ParseParenthesis(s, i);
  }

  lemma OneToken(s: Source, i: nat, e: Expr, j: nat)
    requires e.LiteralExpression? || e.ReferenceExpression?
    requires Spans(s.tokens, COMMA, i, e, j)
    requires !At(s, j, Punct(Arrow)) && !At(s, j, Name(Function))
    ensures ParseNew(s, i) == NewLoop(s, i, e, j)
  {
    hide NewLoop;
    assert ParsePrimary(s, i) == Parsed(e, j);
  }
}
