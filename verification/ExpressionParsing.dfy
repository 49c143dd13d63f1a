/**
 The expression parser as functions from a position in the token sequence to a tree and the
 next position. `Failed` stands for a syntax error, and for the constructs left out: calls,
 `new`, arrow functions, function, class, array, object and regular expression literals, and
 `yield`.
 */
module ExpressionParsing {
  import opened Tokens
  import opened ExpressionGrammar

  datatype Source = Source(tokens: seq<Token>, disableAutomaticSemicolon: bool)

  datatype Result = Parsed(expr: Expr, next: nat) | Failed

  predicate At(s: Source, i: nat, kind: Kind) {
    i < |s.tokens| && s.tokens[i].kind == kind
  }

  /** A successful parse consumes at least one token. */
  predicate Advances(s: Source, i: nat, r: Result) {
    r.Parsed? ==> i < r.next <= |s.tokens|
  }

  function ParseExpression(s: Source, i: nat): (r: Result)
    ensures Advances(s, i, r)
    decreases |s.tokens| - i, 20
  {
    if i >= |s.tokens| then Failed else ParseComma(s, i)
  }

  function ParseComma(s: Source, i: nat): (r: Result)
    requires i < |s.tokens|
    ensures Advances(s, i, r)
    decreases |s.tokens| - i, 19
  {
    var first := ParseAssignment(s, i);
    if first.Failed? then Failed else CommaLoop(s, i, [first.expr], first.next)
  }

  function CommaLoop(s: Source, start: nat, items: seq<Expr>, i: nat): (r: Result)
    requires start < i <= |s.tokens| && items != []
    ensures r.Parsed? ==> i <= r.next <= |s.tokens|
    decreases |s.tokens| - i, 18
  {
    if At(s, i, Punct(Comma)) then
      var item := ParseAssignment(s, i + 1);
      if item.Failed? then Failed else CommaLoop(s, start, items + [item.expr], item.next)
    else if |items| == 1 then Parsed(items[0], i)
    else Parsed(CommaExpression(RangeOf(s.tokens, start, i), items), i)
  }

  function ParseAssignment(s: Source, i: nat): (r: Result)
    ensures Advances(s, i, r)
    decreases |s.tokens| - i, 17
  {
    if i >= |s.tokens| then Failed else
      var left := ParseConditional(s, i);
      if left.Failed? then Failed
      else if left.next >= |s.tokens| || !IsAssignmentOperator(s.tokens[left.next].kind) then left
      else
        var right := ParseAssignment(s, left.next + 1);
        if right.Failed? then Failed else
          Parsed(AssignmentExpression(RangeOf(s.tokens, i, right.next), s.tokens[left.next].kind, left.expr, right.expr),
                 right.next)
  }

  function ParseConditional(s: Source, i: nat): (r: Result)
    requires i < |s.tokens|
    ensures Advances(s, i, r)
    decreases |s.tokens| - i, 16
  {
    var condition := ParseBinary(s, LOGICAL_OR, i);
    if condition.Failed? then Failed
    else if !At(s, condition.next, Punct(Question)) then condition
    else
      var yes := ParseAssignment(s, condition.next + 1);
      if yes.Failed? || !At(s, yes.next, Punct(Colon)) then Failed else
        var no := ParseAssignment(s, yes.next + 1);
        if no.Failed? then Failed else
          Parsed(ConditionalExpression(RangeOf(s.tokens, i, no.next), condition.expr, yes.expr, no.expr), no.next)
  }

  function ParseBinary(s: Source, category: nat, i: nat): (r: Result)
    requires LOGICAL_OR <= category <= NONE && i < |s.tokens|
    ensures Advances(s, i, r)
    decreases |s.tokens| - i, 15, NONE - category
  {
    if category == NONE then ParseUnary(s, i) else
      var left := ParseBinary(s, category + 1, i);
      if left.Failed? then Failed else BinaryLoop(s, category, i, left.expr, left.next)
  }

  function BinaryLoop(s: Source, category: nat, start: nat, left: Expr, i: nat): (r: Result)
    requires LOGICAL_OR <= category < NONE && start < i <= |s.tokens|
    ensures r.Parsed? ==> i <= r.next <= |s.tokens|
    decreases |s.tokens| - i, 15, 0
  {
    if i >= |s.tokens| || CategoryOf(s.tokens[i].kind) != category then Parsed(left, i)
    else if i + 1 >= |s.tokens| then Failed
    else
      var right := ParseBinary(s, category + 1, i + 1);
      if right.Failed? then Failed else
        BinaryLoop(s, category, start,
                   BinaryExpression(RangeOf(s.tokens, start, right.next), s.tokens[i].kind, left, right.expr),
                   right.next)
  }

  function ParseUnary(s: Source, i: nat): (r: Result)
    ensures Advances(s, i, r)
    decreases |s.tokens| - i, 14
  {
    if i >= |s.tokens| then Failed
    else if IsUnaryOperator(s.tokens[i].kind) || IsKeywordOperator(s.tokens[i].kind) then
      var operand := ParseUnary(s, i + 1);
      if operand.Failed? then Failed else
        Parsed(UnaryExpression(RangeOf(s.tokens, i, operand.next), s.tokens[i].kind, operand.expr), operand.next)
    else if s.tokens[i].kind == Name(Yield) then Failed
    else ParseUpdate(s, i)
  }

  function ParseUpdate(s: Source, i: nat): (r: Result)
    requires i < |s.tokens|
    ensures Advances(s, i, r)
    decreases |s.tokens| - i, 13
  {
    if IsUpdateOperator(s.tokens[i].kind) then
      var operand := ParseLeftHandSide(s, i + 1);
      if operand.Failed? then Failed else
        Parsed(UnaryExpression(RangeOf(s.tokens, i, operand.next), s.tokens[i].kind, operand.expr), operand.next)
    else
      var operand := ParseLeftHandSide(s, i);
      if operand.Failed? then Failed
      else if operand.next >= |s.tokens| || !IsUpdateOperator(s.tokens[operand.next].kind) then operand
      else if s.tokens[operand.next].newlineBefore then
        if s.disableAutomaticSemicolon then Failed else operand
      else
        Parsed(UnaryExpression(RangeOf(s.tokens, i, operand.next + 1),
                               ConvertToPostOperator(s.tokens[operand.next].kind), operand.expr),
               operand.next + 1)
  }

  function ParseLeftHandSide(s: Source, i: nat): (r: Result)
    ensures Advances(s, i, r)
    decreases |s.tokens| - i, 12
  {
    if i >= |s.tokens| then Failed else
      var e := ParseNew(s, i);
      if e.Failed? then Failed else LeftHandSideLoop(s, i, e.expr, e.next)
  }

  /** The loop of `ParseLeftHandSideExpression`; calls are left out. */
  function LeftHandSideLoop(s: Source, start: nat, e: Expr, i: nat): (r: Result)
    requires start < i <= |s.tokens|
    ensures r.Parsed? ==> i <= r.next <= |s.tokens|
    decreases |s.tokens| - i, 11
  {
    if At(s, i, Punct(LeftBracket)) then
      var r := HandleComputedMember(s, start, e, i + 1);
      if r.Failed? then Failed else LeftHandSideLoop(s, start, r.expr, r.next)
    else if At(s, i, Punct(Dot)) then
      var r := HandleMember(s, start, e, i + 1);
      if r.Failed? then Failed else LeftHandSideLoop(s, start, r.expr, r.next)
    else if At(s, i, Punct(LeftParenthesis)) then Failed
    else Parsed(e, i)
  }

  function ParseNew(s: Source, i: nat): (r: Result)
    requires i < |s.tokens|
    ensures Advances(s, i, r)
    decreases |s.tokens| - i, 10
  {
    if s.tokens[i].kind == Name(New) then Failed else
      var e := ParsePrimary(s, i);
      if e.Failed? then Failed else NewLoop(s, i, e.expr, e.next)
  }

  /** The loop of `HandleNewExpression`. */
  function NewLoop(s: Source, start: nat, e: Expr, i: nat): (r: Result)
    requires start < i <= |s.tokens|
    ensures r.Parsed? ==> i <= r.next <= |s.tokens|
    decreases |s.tokens| - i, 9
  {
    if At(s, i, Punct(LeftBracket)) then
      var r := HandleComputedMember(s, start, e, i + 1);
      if r.Failed? then Failed else NewLoop(s, start, r.expr, r.next)
    else if At(s, i, Punct(Dot)) then
      var r := HandleMember(s, start, e, i + 1);
      if r.Failed? then Failed else NewLoop(s, start, r.expr, r.next)
    else Parsed(e, i)
  }

  /** After the `[`. */
  function HandleComputedMember(s: Source, start: nat, container: Expr, i: nat): (r: Result)
    requires start < i
    ensures Advances(s, i, r)
    decreases |s.tokens| - i, 21
  {
    var key := ParseExpression(s, i);
    if key.Failed? || !At(s, key.next, Punct(RightBracket)) then Failed else
      Parsed(ComputedMemberExpression(RangeOf(s.tokens, start, key.next + 1), container, key.expr), key.next + 1)
  }

  /** After the `.`. */
  function HandleMember(s: Source, start: nat, container: Expr, i: nat): (r: Result)
    requires start < i
    ensures Advances(s, i, r)
  {
    if i >= |s.tokens| || !s.tokens[i].kind.Name? then Failed else
      Parsed(MemberExpression(RangeOf(s.tokens, start, i + 1), container, s.tokens[i].kind.word), i + 1)
  }

  function ParsePrimary(s: Source, i: nat): (r: Result)
    requires i < |s.tokens|
    ensures Advances(s, i, r)
    decreases |s.tokens| - i, 8
  {
    match s.tokens[i].kind
    case Literal(_) => Parsed(LiteralExpression(RangeOf(s.tokens, i, i + 1), s.tokens[i].kind), i + 1)
    case Name(word) => ParseNameAsExpression(s, i, word)
    case Punct(p) => if p == LeftParenthesis then ParseParenthesis(s, i) else Failed
    case Other(_) => Failed
  }

  function ParseNameAsExpression(s: Source, i: nat, word: Word): (r: Result)
    requires At(s, i, Name(word))
    ensures Advances(s, i, r)
  {
    if word == Async && At(s, i + 1, Name(Function)) then Failed
    else if IsLiteralWord(word) then Parsed(LiteralExpression(RangeOf(s.tokens, i, i + 1), Name(word)), i + 1)
    else if word == Super || word == This then Parsed(ReferenceExpression(RangeOf(s.tokens, i, i + 1), word), i + 1)
    else if IsKeyword(word) || At(s, i + 1, Punct(Arrow)) then Failed
    else Parsed(ReferenceExpression(RangeOf(s.tokens, i, i + 1), word), i + 1)
  }

  function ParseParenthesis(s: Source, i: nat): (r: Result)
    requires At(s, i, Punct(LeftParenthesis))
    ensures Advances(s, i, r)
    decreases |s.tokens| - i, 7
  {
    if At(s, i + 1, Punct(RightParenthesis)) then Failed else
      var inner := ParseExpression(s, i + 1);
      if inner.Failed? || !At(s, inner.next, Punct(RightParenthesis)) then Failed
      else if At(s, inner.next + 1, Punct(Arrow)) then Failed
      else Parsed(GroupExpression(RangeOf(s.tokens, i, inner.next + 1), inner.expr), inner.next + 1)
  }
}
