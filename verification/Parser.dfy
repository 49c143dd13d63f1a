/**
 The expression parser with its token cursor and range stack. Each method is proved to return
 what the function of the same name in `ExpressionParsing` says, to leave the cursor where that
 says, and to give back the start of the enclosing node on every return. Reporting an error
 is `None`: recovery from it is left out.
 */
module ExpressionParser {
  import opened Tokens
  import opened ExpressionGrammar
  import opened ExpressionParsing
  import opened Wrappers

  // One step of the parsing functions.

  lemma {:induction false} NoCategory(s: Source, i: nat)
    requires i < |s.tokens|
    ensures ParseBinary(s, NONE, i) == ParseUnary(s, i)
  {
    hide ParseUnary;
  }

  lemma {:induction false} ParseBinaryFirst(s: Source, category: nat, i: nat)
    requires LOGICAL_OR <= category < NONE && i < |s.tokens|
    ensures ParseBinary(s, category, i) ==
            var left := ParseBinary(s, category + 1, i);
            if left.Failed? then Failed else BinaryLoop(s, category, i, left.expr, left.next)
  {
    hide BinaryLoop, ParseUnary;
  }

  lemma {:induction false} BinaryLoopStep(s: Source, category: nat, start: nat, left: Expr, i: nat)
    requires LOGICAL_OR <= category < NONE && start < i <= |s.tokens|
    ensures BinaryLoop(s, category, start, left, i) ==
            if i >= |s.tokens| || CategoryOf(s.tokens[i].kind) != category then Parsed(left, i)
            else if i + 1 >= |s.tokens| then Failed
            else
              var right := ParseBinary(s, category + 1, i + 1);
              if right.Failed? then Failed else
                BinaryLoop(s, category, start,
                           BinaryExpression(RangeOf(s.tokens, start, right.next), s.tokens[i].kind, left, right.expr),
                           right.next)
  {
    hide ParseBinary, CategoryOf;
  }

  class Parser {
    const source: Source
    /** Offset of the end of the source code, the start of a node that has no token. */
    const end: int
    /** The tokens the lexer has handed out. */
    var position: nat
    var lastToken: Option<Token>
    var nodeStart: int
    var isSeparatedByNewline: bool

    ghost predicate Valid()
      reads this
    {
      && position <= |source.tokens|
      && lastToken == (if position == 0 then None else Some(source.tokens[position - 1]))
      && isSeparatedByNewline == (position < |source.tokens| && source.tokens[position].newlineBefore)
    }

    constructor (source: Source, end: int)
      ensures Valid() && this.source == source && this.end == end && position == 0
    {
      this.source, this.end := source, end;
      position, lastToken, nodeStart := 0, None, 0;
      isSeparatedByNewline := |source.tokens| > 0 && source.tokens[0].newlineBefore;
    }

    /** What a method must have done when the function it implements says `r`. */
    ghost predicate Did(r: Result, e: Option<Expr>)
      reads this
    {
      if r.Parsed? then e == Some(r.expr) && position == r.next else e == None
    }

    predicate CanPeekToken()
      reads this
    {
      position < |source.tokens|
    }

    function PeekToken(): Token
      requires CanPeekToken()
      reads this
    {
      source.tokens[position]
    }

    predicate IsPeeking(kind: Kind)
      reads this
    {
      CanPeekToken() && PeekToken().kind == kind
    }

    /** Where a node that begins at the cursor starts. */
    function StartOfNode(): int
      reads this
    {
      if CanPeekToken() then PeekToken().start else end
    }

    /** From the start of the current node to the end of the last consumed token. */
    function GetSourceCodeRange(): Range
      requires lastToken.Some?
      reads this
    {
      Range(nodeStart, lastToken.value.end)
    }

    method Advance()
      requires Valid()
      modifies this`position, this`isSeparatedByNewline
      ensures position == (if old(CanPeekToken()) then old(position) + 1 else old(position))
      ensures isSeparatedByNewline == (CanPeekToken() && PeekToken().newlineBefore)
    {
      isSeparatedByNewline := false;
      if !CanPeekToken() {
        return;
      }
      position := position + 1;
      if CanPeekToken() {
        isSeparatedByNewline := PeekToken().newlineBefore;
      }
    }

    method ConsumeToken() returns (token: Token)
      requires Valid() && CanPeekToken()
      modifies this`position, this`isSeparatedByNewline, this`lastToken
      ensures Valid() && position == old(position) + 1 && token == source.tokens[old(position)]
    {
      token := PeekToken();
      Advance();
      lastToken := Some(token);
    }

    /** Also models `ExpectPunctuator`, whose error is the caller's `None`. */
    method ConsumeTokenIf(kind: Kind) returns (consumed: bool)
      requires Valid()
      modifies this`position, this`isSeparatedByNewline, this`lastToken
      ensures Valid() && consumed == At(source, old(position), kind)
      ensures position == (if consumed then old(position) + 1 else old(position))
    {
      if !CanPeekToken() || PeekToken().kind != kind {
        return false;
      }
      var _ := ConsumeToken();
      return true;
    }

    method ParseExpression() returns (e: Option<Expr>)
      requires Valid()
      modifies this
      ensures Valid() && nodeStart == old(nodeStart)
      ensures Did(ExpressionParsing.ParseExpression(source, old(position)), e)
      ensures match ExpressionParsing.ParseExpression(source, old(position))
              case Parsed(expr, next) => e == Some(expr) && position == next
              case Failed => e == None
      decreases |source.tokens| - position, 20
    {
      if !CanPeekToken() {
        return None;
      }
      var outer := nodeStart;
      nodeStart := StartOfNode();
      e := ParseCommaExpression();
      nodeStart := outer;
    }

    method ParseCommaExpression() returns (e: Option<Expr>)
      requires Valid() && CanPeekToken()
      modifies this
      ensures Valid() && nodeStart == old(nodeStart)
      ensures Did(ParseComma(source, old(position)), e)
      decreases |source.tokens| - position, 19
    {
      hide ParseAssignment;
      ghost var start := position;
      var outer := nodeStart;
      nodeStart := StartOfNode();
      e := ParseAssignmentExpression();
      if e.None? {
        nodeStart := outer;
        return;
      }
      var items := [e.value];
      while IsPeeking(Punct(Comma))
        invariant Valid() && nodeStart == source.tokens[start].start && items != [] && start < position
        invariant ParseComma(source, start) == CommaLoop(source, start, items, position)
        decreases |source.tokens| - position
      {
        var _ := ConsumeToken();
        e := ParseAssignmentExpression();
        if e.None? {
          nodeStart := outer;
          return;
        }
        items := items + [e.value];
      }
      e := Some(if |items| == 1 then items[0] else CommaExpression(GetSourceCodeRange(), items));
      nodeStart := outer;
    }

    method ParseAssignmentExpression() returns (e: Option<Expr>)
      requires Valid()
      modifies this
      ensures Valid() && nodeStart == old(nodeStart)
      ensures Did(ParseAssignment(source, old(position)), e)
      decreases |source.tokens| - position, 17
    {
      hide ParseConditional, IsAssignmentOperator, CategoryOf, CategoryOfPunctuator, ParseBinary;
      if !CanPeekToken() {
        return None;
      }
      var outer := nodeStart;
      nodeStart := StartOfNode();
      e := ParseConditionalExpression();
      if e.Some? && CanPeekToken() && IsAssignmentOperator(PeekToken().kind) {
        var op := ConsumeToken();
        var right := ParseAssignmentExpression();
        e := if right.None? then None else
          Some(AssignmentExpression(GetSourceCodeRange(), op.kind, e.value, right.value));
      }
      nodeStart := outer;
    }

    method ParseConditionalExpression() returns (e: Option<Expr>)
      requires Valid() && CanPeekToken()
      modifies this
      ensures Valid() && nodeStart == old(nodeStart)
      ensures Did(ParseConditional(source, old(position)), e)
      decreases |source.tokens| - position, 16
    {
      hide ParseAssignment, ParseBinary;
      var outer := nodeStart;
      nodeStart := StartOfNode();
      e := ParseBinaryExpression(LOGICAL_OR);
      if e.Some? {
        var question := ConsumeTokenIf(Punct(Question));
        if question {
          e := FinishConditional(e.value);
        }
      }
      nodeStart := outer;
    }

    /** The part of `ParseConditionalExpression` after the question mark. */
    method FinishConditional(condition: Expr) returns (e: Option<Expr>)
      requires Valid() && position > 0
      modifies this
      ensures Valid() && nodeStart == old(nodeStart)
      ensures var yes := ParseAssignment(source, old(position));
        if yes.Failed? || !At(source, yes.next, Punct(Colon)) then e == None else
          var no := ParseAssignment(source, yes.next + 1);
          if no.Failed? then e == None else
            && position == no.next
            && e == Some(ConditionalExpression(Range(nodeStart, source.tokens[no.next - 1].end), condition, yes.expr, no.expr))
      decreases |source.tokens| - position, 18
    {
      hide ParseAssignment;
      var yes := ParseAssignmentExpression();
      if yes.None? {
        return None;
      }
      var colon := ConsumeTokenIf(Punct(Colon));
      if !colon {
        return None;
      }
      var no := ParseAssignmentExpression();
      if no.None? {
        return None;
      }
      return Some(ConditionalExpression(GetSourceCodeRange(), condition, yes.value, no.value));
    }

    method ParseBinaryExpression(category: nat) returns (e: Option<Expr>)
      requires Valid() && CanPeekToken() && LOGICAL_OR <= category <= NONE
      modifies this
      ensures Valid() && nodeStart == old(nodeStart)
      ensures Did(ParseBinary(source, category, old(position)), e)
      decreases |source.tokens| - position, 15, NONE - category
    {
      hide ParseUnary, ParseBinary, BinaryLoop;
      ghost var start := position;
      var outer := nodeStart;
      nodeStart := StartOfNode();
      if category == NONE {
        NoCategory(source, position);
        e := ParseUnaryExpression();
      } else {
        ParseBinaryFirst(source, category, position);
        e := ParseBinaryExpression(category + 1);
        if e.Some? {
          e := ParseBinaryRest(category, start, e.value);
        }
      }
      nodeStart := outer;
    }

    /** The loop of `ParseBinaryExpression`. */
    method ParseBinaryRest(category: nat, ghost start: nat, first: Expr) returns (e: Option<Expr>)
      requires Valid() && LOGICAL_OR <= category < NONE
      requires start < position && nodeStart == source.tokens[start].start
      modifies this
      ensures Valid() && nodeStart == old(nodeStart)
      ensures Did(BinaryLoop(source, category, start, first, old(position)), e)
      decreases |source.tokens| - position, 15, 0
    {
      hide CategoryOf, ParseBinary, BinaryLoop;
      var left := first;
      BinaryLoopStep(source, category, start, left, position);
      while CanPeekToken() && CategoryOf(PeekToken().kind) == category
        invariant Valid() && nodeStart == source.tokens[start].start && old(position) <= position
        invariant BinaryLoop(source, category, start, first, old(position)) == BinaryLoop(source, category, start, left, position)
        decreases |source.tokens| - position
      {
        BinaryLoopStep(source, category, start, left, position);
        var op := ConsumeToken();
        if !CanPeekToken() {
          return None;
        }
        var right := ParseBinaryExpression(category + 1);
        if right.None? {
          return None;
        }
        left := BinaryExpression(GetSourceCodeRange(), op.kind, left, right.value);
      }
      BinaryLoopStep(source, category, start, left, position);
      return Some(left);
    }

    method ParseUnaryExpression() returns (e: Option<Expr>)
      requires Valid()
      modifies this
      ensures Valid() && nodeStart == old(nodeStart)
      ensures Did(ParseUnary(source, old(position)), e)
      decreases |source.tokens| - position, 14
    {
      if !CanPeekToken() {
        return None;
      }
      var outer := nodeStart;
      nodeStart := StartOfNode();
      if IsUnaryOperator(PeekToken().kind) || IsKeywordOperator(PeekToken().kind) {
        var op := ConsumeToken();
        var operand := ParseUnaryExpression();
        e := if operand.None? then None else
          Some(UnaryExpression(GetSourceCodeRange(), op.kind, operand.value));
      } else if PeekToken().kind == Name(Yield) {
        e := None;
      } else {
        e := ParseUpdateExpression();
      }
      nodeStart := outer;
    }

    method ParseUpdateExpression() returns (e: Option<Expr>)
      requires Valid() && CanPeekToken()
      modifies this
      ensures Valid() && nodeStart == old(nodeStart)
      ensures Did(ParseUpdate(source, old(position)), e)
      decreases |source.tokens| - position, 13
    {
      hide ParseLeftHandSide, IsUpdateOperator, ConvertToPostOperator;
      var outer := nodeStart;
      nodeStart := StartOfNode();
      if IsUpdateOperator(PeekToken().kind) {
        var op := ConsumeToken();
        var operand := ParseLeftHandSideExpression();
        e := if operand.None? then None else
          Some(UnaryExpression(GetSourceCodeRange(), op.kind, operand.value));
      } else {
        e := ParseLeftHandSideExpression();
        if e.Some? && CanPeekToken() && IsUpdateOperator(PeekToken().kind) {
          if isSeparatedByNewline {
            e := if source.disableAutomaticSemicolon then None else e;
          } else {
            var op := ConsumeToken();
            e := Some(UnaryExpression(GetSourceCodeRange(), ConvertToPostOperator(op.kind), e.value));
          }
        }
      }
      nodeStart := outer;
    }

    method ParseLeftHandSideExpression() returns (e: Option<Expr>)
      requires Valid()
      modifies this
      ensures Valid() && nodeStart == old(nodeStart)
      ensures Did(ParseLeftHandSide(source, old(position)), e)
      decreases |source.tokens| - position, 12
    {
      hide ParseNew, LeftHandSideLoop;
      ghost var start := position;
      var outer := nodeStart;
      nodeStart := StartOfNode();
      if !CanPeekToken() {
        nodeStart := outer;
        return None;
      }
      e := ParseNewExpression();
      if e.Some? {
        e := ParseMembers(start, e.value);
      }
      nodeStart := outer;
    }

    /** The loop of `ParseLeftHandSideExpression`; a call is where the model stops. */
    method ParseMembers(ghost start: nat, expression: Expr) returns (e: Option<Expr>)
      requires Valid() && start < position && nodeStart == source.tokens[start].start
      modifies this
      ensures Valid() && nodeStart == old(nodeStart)
      ensures Did(LeftHandSideLoop(source, start, expression, old(position)), e)
      decreases |source.tokens| - position, 22
    {
      hide ExpressionParsing.HandleComputedMember, ExpressionParsing.HandleMember;
      e := Some(expression);
      while e.Some? && CanPeekToken()
        invariant Valid() && nodeStart == source.tokens[start].start
        invariant e.Some? ==>
          && old(position) <= position
          && LeftHandSideLoop(source, start, expression, old(position)) == LeftHandSideLoop(source, start, e.value, position)
        invariant e.None? ==> LeftHandSideLoop(source, start, expression, old(position)).Failed?
        decreases e.Some?, |source.tokens| - position
      {
        var bracket := ConsumeTokenIf(Punct(LeftBracket));
        if bracket {
          e := HandleComputedMember(start, e.value);
          continue;
        }
        var dot := ConsumeTokenIf(Punct(Dot));
        if dot {
          e := HandleMember(start, e.value);
          continue;
        }
        if IsPeeking(Punct(LeftParenthesis)) {
          e := None;
        }
        break;
      }
    }

    method ParseNewExpression() returns (e: Option<Expr>)
      requires Valid() && CanPeekToken()
      modifies this
      ensures Valid() && nodeStart == old(nodeStart)
      ensures Did(ParseNew(source, old(position)), e)
      decreases |source.tokens| - position, 10
    {
      ghost var start := position;
      var outer := nodeStart;
      nodeStart := StartOfNode();
      if PeekToken().kind == Name(New) {
        nodeStart := outer;
        return None;
      }
      e := ParsePrimaryExpression();
      if e.Some? {
        e := HandleNewExpression(start, e.value);
      }
      nodeStart := outer;
    }

    method HandleNewExpression(ghost start: nat, expression: Expr) returns (e: Option<Expr>)
      requires Valid() && start < position && nodeStart == source.tokens[start].start
      modifies this
      ensures Valid() && nodeStart == old(nodeStart)
      ensures Did(NewLoop(source, start, expression, old(position)), e)
      decreases |source.tokens| - position, 22
    {
      e := Some(expression);
      while e.Some? && CanPeekToken()
        invariant Valid() && nodeStart == source.tokens[start].start
        invariant e.Some? ==>
          && old(position) <= position
          && NewLoop(source, start, expression, old(position)) == NewLoop(source, start, e.value, position)
        invariant e.None? ==> NewLoop(source, start, expression, old(position)).Failed?
        decreases e.Some?, |source.tokens| - position
      {
        var bracket := ConsumeTokenIf(Punct(LeftBracket));
        if bracket {
          e := HandleComputedMember(start, e.value);
          continue;
        }
        var dot := ConsumeTokenIf(Punct(Dot));
        if dot {
          e := HandleMember(start, e.value);
          continue;
        }
        break;
      }
    }

    method HandleComputedMember(ghost start: nat, expression: Expr) returns (e: Option<Expr>)
      requires Valid() && start < position && nodeStart == source.tokens[start].start
      modifies this
      ensures Valid() && nodeStart == old(nodeStart)
      ensures Did(ExpressionParsing.HandleComputedMember(source, start, expression, old(position)), e)
      ensures e.Some? ==> position > old(position)
      decreases |source.tokens| - position, 21
    {
      var key := ParseExpression();
      if key.None? {
        return None;
      }
      var closed := ConsumeTokenIf(Punct(RightBracket));
      if !closed {
        return None;
      }
      return Some(ComputedMemberExpression(GetSourceCodeRange(), expression, key.value));
    }

    method HandleMember(ghost start: nat, expression: Expr) returns (e: Option<Expr>)
      requires Valid() && start < position && nodeStart == source.tokens[start].start
      modifies this
      ensures Valid() && nodeStart == old(nodeStart)
      ensures Did(ExpressionParsing.HandleMember(source, start, expression, old(position)), e)
      ensures e.Some? ==> position > old(position)
    {
      if !CanPeekToken() || !PeekToken().kind.Name? {
        return None;
      }
      var name := ConsumeToken();
      return Some(MemberExpression(GetSourceCodeRange(), expression, name.kind.word));
    }

    method ParsePrimaryExpression() returns (e: Option<Expr>)
      requires Valid() && CanPeekToken()
      modifies this
      ensures Valid() && nodeStart == old(nodeStart)
      ensures Did(ParsePrimary(source, old(position)), e)
      decreases |source.tokens| - position, 8
    {
      var token := PeekToken();
      match token.kind {
        case Literal(_) =>
          var literal := ConsumeToken();
          e := Some(LiteralExpression(Range(literal.start, literal.end), literal.kind));
        case Name(_) => e := ParseNameAsExpression();
        case Punct(p) =>
          if p == LeftParenthesis {
            e := ParseParenthesis();
          } else {
            e := None;
          }
        case Other(_) => e := None;
      }
    }

    method ParseNameAsExpression() returns (e: Option<Expr>)
      requires Valid() && CanPeekToken() && PeekToken().kind.Name?
      modifies this
      ensures Valid() && nodeStart == old(nodeStart)
      ensures Did(ExpressionParsing.ParseNameAsExpression(source, old(position), old(PeekToken().kind.word)), e)
    {
      hide IsKeyword;
      var outer := nodeStart;
      nodeStart := StartOfNode();
      var name := ConsumeToken();
      var word := name.kind.word;
      var range := Range(name.start, name.end);
      if word == Async && IsPeeking(Name(Function)) {
        e := None;
      } else if word == False || word == Null || word == True {
        e := Some(LiteralExpression(range, name.kind));
      } else if word == Super || word == This {
        e := Some(ReferenceExpression(range, word));
      } else if IsKeyword(word) || IsPeeking(Punct(Arrow)) {
        e := None;
      } else {
        e := Some(ReferenceExpression(range, word));
      }
      nodeStart := outer;
    }

    method ParseParenthesis() returns (e: Option<Expr>)
      requires Valid() && IsPeeking(Punct(LeftParenthesis))
      modifies this
      ensures Valid() && nodeStart == old(nodeStart)
      ensures Did(ExpressionParsing.ParseParenthesis(source, old(position)), e)
      decreases |source.tokens| - position, 7
    {
      hide ExpressionParsing.ParseExpression;
      var outer := nodeStart;
      nodeStart := StartOfNode();
      var _ := ConsumeToken();
      if IsPeeking(Punct(RightParenthesis)) {
        nodeStart := outer;
        return None;
      }
      var inner := ParseExpression();
      e := None;
      if inner.Some? {
        var closed := ConsumeTokenIf(Punct(RightParenthesis));
        if closed && !IsPeeking(Punct(Arrow)) {
          e := Some(GroupExpression(GetSourceCodeRange(), inner.value));
        }
      }
      nodeStart := outer;
    }
  }
}
