/**
 Whatever the parser accepts is a canonical tree, written by exactly the tokens consumed,
 with the right range in every node.
 */
module ParserSoundness {
  import opened Tokens
  import opened ExpressionGrammar
  import opened ExpressionParsing

  ghost predicate Sound(s: Source, layer: int, i: nat, r: Result) {
    r.Parsed? ==> Spans(s.tokens, layer, i, r.expr, r.next)
  }

  lemma {:induction false} ExpressionIsSound(s: Source, i: nat)
    ensures Sound(s, COMMA, i, ParseExpression(s, i))
    decreases |s.tokens| - i, 20
  {
    if i < |s.tokens| {
      CommaIsSound(s, i);
    }
  }

  lemma {:induction false} CommaIsSound(s: Source, i: nat)
    requires i < |s.tokens|
    ensures Sound(s, COMMA, i, ParseComma(s, i))
    decreases |s.tokens| - i, 19
  {
    AssignmentIsSound(s, i);
    var first := ParseAssignment(s, i);
    if first.Parsed? {
      CommaLoopIsSound(s, i, [first.expr], first.next);
    }
  }

  lemma {:induction false} CommaLoopIsSound(s: Source, start: nat, items: seq<Expr>, i: nat)
    requires start < i <= |s.tokens| && items != [] && ItemsSpan(s.tokens, start, items, i)
    ensures Sound(s, COMMA, start, CommaLoop(s, start, items, i))
    decreases |s.tokens| - i, 18
  {
    hide Canonical, LaidOut, ItemsSpan;
    if At(s, i, Punct(Comma)) {
      AssignmentIsSound(s, i + 1);
      var item := ParseAssignment(s, i + 1);
      if item.Parsed? {
        ItemsSpanMore(s.tokens, start, items, i, item.expr, item.next);
        CommaLoopIsSound(s, start, items + [item.expr], item.next);
      }
    } else if |items| == 1 {
      var _ := ItemsParts(s.tokens, start, items, i);
    } else {
      CommaSpans(s.tokens, start, items, i);
    }
  }

  lemma {:induction false} AssignmentIsSound(s: Source, i: nat)
    ensures Sound(s, ASSIGN, i, ParseAssignment(s, i))
    decreases |s.tokens| - i, 17
  {
    hide Canonical, LaidOut, ParseConditional;
    if i < |s.tokens| {
      ConditionalIsSound(s, i);
      TargetIsNotConditional(s, i);
      var left := ParseConditional(s, i);
      if left.Parsed? && left.next < |s.tokens| && IsAssignmentOperator(s.tokens[left.next].kind) {
        AssignmentIsSound(s, left.next + 1);
        var right := ParseAssignment(s, left.next + 1);
        if right.Parsed? {
          AssignmentSpans(s.tokens, i, left.expr, left.next, right.expr, right.next);
        }
      }
    }
  }

  lemma {:induction false} ConditionalIsSound(s: Source, i: nat)
    requires i < |s.tokens|
    ensures Sound(s, CONDITIONAL, i, ParseConditional(s, i))
    decreases |s.tokens| - i, 16
  {
    hide Canonical, LaidOut, ParseBinary, ParseAssignment;
    BinaryIsSound(s, LOGICAL_OR, i);
    var condition := ParseBinary(s, LOGICAL_OR, i);
    if condition.Parsed? && At(s, condition.next, Punct(Question)) {
      AssignmentIsSound(s, condition.next + 1);
      var yes := ParseAssignment(s, condition.next + 1);
      if yes.Parsed? && At(s, yes.next, Punct(Colon)) {
        AssignmentIsSound(s, yes.next + 1);
        var no := ParseAssignment(s, yes.next + 1);
        if no.Parsed? {
          ConditionalSpans(s.tokens, i, condition.expr, condition.next, yes.expr, yes.next, no.expr, no.next);
        }
      }
    }
  }

  /** A bare conditional is never the target of an assignment: its false branch took the operator. */
  lemma {:induction false} TargetIsNotConditional(s: Source, i: nat)
    requires i < |s.tokens|
    ensures var r := ParseConditional(s, i);
            r.Parsed? && r.next < |s.tokens| && IsAssignmentOperator(s.tokens[r.next].kind) ==>
              Spans(s.tokens, LOGICAL_OR, i, r.expr, r.next)
    decreases |s.tokens| - i, 16
  {
    hide Canonical, LaidOut, ParseBinary, ParseAssignment;
    BinaryIsSound(s, LOGICAL_OR, i);
    var condition := ParseBinary(s, LOGICAL_OR, i);
    if condition.Parsed? && At(s, condition.next, Punct(Question)) {
      var yes := ParseAssignment(s, condition.next + 1);
      if yes.Parsed? && At(s, yes.next, Punct(Colon)) {
        AssignmentStops(s, yes.next + 1);
      }
    }
  }

  /** No assignment operator is left behind an assignment expression. */
  lemma {:induction false} AssignmentStops(s: Source, i: nat)
    ensures var r := ParseAssignment(s, i);
            r.Parsed? && r.next < |s.tokens| ==> !IsAssignmentOperator(s.tokens[r.next].kind)
    decreases |s.tokens| - i
  {
    hide ParseConditional;
    if i < |s.tokens| {
      var left := ParseConditional(s, i);
      if left.Parsed? && left.next < |s.tokens| && IsAssignmentOperator(s.tokens[left.next].kind) {
        AssignmentStops(s, left.next + 1);
      }
    }
  }

  lemma {:induction false} BinaryIsSound(s: Source, category: nat, i: nat)
    requires LOGICAL_OR <= category <= NONE && i < |s.tokens|
    ensures Sound(s, category, i, ParseBinary(s, category, i))
    decreases |s.tokens| - i, 15, NONE - category
  {
    hide Canonical, LaidOut, BinaryLoop, ParseUnary;
    if category == NONE {
      UnaryIsSound(s, i);
    } else {
      BinaryIsSound(s, category + 1, i);
      var left := ParseBinary(s, category + 1, i);
      if left.Parsed? {
        BinaryLoopIsSound(s, category, i, left.expr, left.next);
      }
    }
  }

  lemma {:induction false} BinaryLoopIsSound(s: Source, category: nat, start: nat, left: Expr, i: nat)
    requires LOGICAL_OR <= category < NONE && start < i <= |s.tokens|
    requires Spans(s.tokens, category, start, left, i)
    ensures Sound(s, category, start, BinaryLoop(s, category, start, left, i))
    decreases |s.tokens| - i, 15, 0
  {
    hide Canonical, LaidOut, ParseBinary;
    if i + 1 < |s.tokens| && CategoryOf(s.tokens[i].kind) == category {
      BinaryIsSound(s, category + 1, i + 1);
      var right := ParseBinary(s, category + 1, i + 1);
      if right.Parsed? {
        BinarySpans(s.tokens, start, left, i, right.expr, right.next);
        var e := BinaryExpression(RangeOf(s.tokens, start, right.next), s.tokens[i].kind, left, right.expr);
        BinaryLoopIsSound(s, category, start, e, right.next);
      }
    }
  }

  lemma {:induction false} UnaryIsSound(s: Source, i: nat)
    ensures Sound(s, UNARY, i, ParseUnary(s, i))
    decreases |s.tokens| - i, 14
  {
    hide Canonical, LaidOut, ParseUpdate;
    if i < |s.tokens| {
      if IsPrefixOperator(s.tokens[i].kind) {
        UnaryIsSound(s, i + 1);
        var operand := ParseUnary(s, i + 1);
        if operand.Parsed? {
          PrefixSpans(s.tokens, i, operand.expr, operand.next);
        }
      } else if s.tokens[i].kind != Name(Yield) {
        UpdateIsSound(s, i);
      }
    }
  }

  lemma {:induction false} UpdateIsSound(s: Source, i: nat)
    requires i < |s.tokens|
    ensures Sound(s, UPDATE, i, ParseUpdate(s, i))
    decreases |s.tokens| - i, 13
  {
    hide Canonical, LaidOut, ParseLeftHandSide;
    if IsUpdateOperator(s.tokens[i].kind) {
      LeftHandSideIsSound(s, i + 1);
      var operand := ParseLeftHandSide(s, i + 1);
      if operand.Parsed? {
        PrefixSpans(s.tokens, i, operand.expr, operand.next);
      }
    } else {
      LeftHandSideIsSound(s, i);
      var operand := ParseLeftHandSide(s, i);
      if operand.Parsed? && operand.next < |s.tokens| && IsUpdateOperator(s.tokens[operand.next].kind)
         && !s.tokens[operand.next].newlineBefore {
        PostSpans(s.tokens, i, operand.expr, operand.next);
      }
    }
  }

  lemma {:induction false} LeftHandSideIsSound(s: Source, i: nat)
    ensures Sound(s, LEFT_HAND_SIDE, i, ParseLeftHandSide(s, i))
    decreases |s.tokens| - i, 12
  {
    hide Canonical, LaidOut, LeftHandSideLoop, ParseNew;
    if i < |s.tokens| {
      NewIsSound(s, i);
      var e := ParseNew(s, i);
      if e.Parsed? {
        LeftHandSideLoopIsSound(s, i, e.expr, e.next);
      }
    }
  }

  lemma {:induction false} LeftHandSideLoopIsSound(s: Source, start: nat, e: Expr, i: nat)
    requires start < i <= |s.tokens| && Spans(s.tokens, LEFT_HAND_SIDE, start, e, i)
    ensures Sound(s, LEFT_HAND_SIDE, start, LeftHandSideLoop(s, start, e, i))
    decreases |s.tokens| - i, 11
  {
    hide Canonical, LaidOut, HandleComputedMember, HandleMember;
    if At(s, i, Punct(LeftBracket)) {
      ComputedMemberIsSound(s, start, e, i + 1);
      var r := HandleComputedMember(s, start, e, i + 1);
      if r.Parsed? {
        LeftHandSideLoopIsSound(s, start, r.expr, r.next);
      }
    } else if At(s, i, Punct(Dot)) {
      MemberIsSound(s, start, e, i + 1);
      var r := HandleMember(s, start, e, i + 1);
      if r.Parsed? {
        LeftHandSideLoopIsSound(s, start, r.expr, r.next);
      }
    }
  }

  lemma {:induction false} NewIsSound(s: Source, i: nat)
    requires i < |s.tokens|
    ensures Sound(s, LEFT_HAND_SIDE, i, ParseNew(s, i))
    decreases |s.tokens| - i, 10
  {
    hide Canonical, LaidOut, NewLoop, ParsePrimary;
    if s.tokens[i].kind != Name(New) {
      PrimaryIsSound(s, i);
      var e := ParsePrimary(s, i);
      if e.Parsed? {
        NewLoopIsSound(s, i, e.expr, e.next);
      }
    }
  }

  lemma {:induction false} NewLoopIsSound(s: Source, start: nat, e: Expr, i: nat)
    requires start < i <= |s.tokens| && Spans(s.tokens, LEFT_HAND_SIDE, start, e, i)
    ensures Sound(s, LEFT_HAND_SIDE, start, NewLoop(s, start, e, i))
    decreases |s.tokens| - i, 9
  {
    hide Canonical, LaidOut, HandleComputedMember, HandleMember;
    if At(s, i, Punct(LeftBracket)) {
      ComputedMemberIsSound(s, start, e, i + 1);
      var r := HandleComputedMember(s, start, e, i + 1);
      if r.Parsed? {
        NewLoopIsSound(s, start, r.expr, r.next);
      }
    } else if At(s, i, Punct(Dot)) {
      MemberIsSound(s, start, e, i + 1);
      var r := HandleMember(s, start, e, i + 1);
      if r.Parsed? {
        NewLoopIsSound(s, start, r.expr, r.next);
      }
    }
  }

  lemma MemberIsSound(s: Source, start: nat, container: Expr, i: nat)
    requires 1 <= i && At(s, i - 1, Punct(Dot)) && Spans(s.tokens, LEFT_HAND_SIDE, start, container, i - 1)
    ensures Sound(s, LEFT_HAND_SIDE, start, HandleMember(s, start, container, i))
  {
    hide Canonical, LaidOut;
    if i < |s.tokens| && s.tokens[i].kind.Name? {
      MemberSpans(s.tokens, start, container, i - 1, s.tokens[i].kind.word);
    }
  }

  lemma {:induction false} ComputedMemberIsSound(s: Source, start: nat, container: Expr, i: nat)
    requires 1 <= i && At(s, i - 1, Punct(LeftBracket)) && Spans(s.tokens, LEFT_HAND_SIDE, start, container, i - 1)
    ensures Sound(s, LEFT_HAND_SIDE, start, HandleComputedMember(s, start, container, i))
    decreases |s.tokens| - i, 21
  {
    hide Canonical, LaidOut, ParseExpression;
    ExpressionIsSound(s, i);
    var key := ParseExpression(s, i);
    if key.Parsed? && At(s, key.next, Punct(RightBracket)) {
      ComputedMemberSpans(s.tokens, start, container, i - 1, key.expr, key.next);
    }
  }

  lemma {:induction false} PrimaryIsSound(s: Source, i: nat)
    requires i < |s.tokens|
    ensures Sound(s, PRIMARY, i, ParsePrimary(s, i))
    decreases |s.tokens| - i, 8
  {
    if At(s, i, Punct(LeftParenthesis)) {
      hide Canonical, LaidOut, ParseExpression;
      ExpressionIsSound(s, i + 1);
      var inner := ParseExpression(s, i + 1);
      if inner.Parsed? && At(s, inner.next, Punct(RightParenthesis)) {
        GroupSpans(s.tokens, i, inner.expr, inner.next);
      }
    }
  }
}
