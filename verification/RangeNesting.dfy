/** Source ranges of parsed trees: a node spans its tokens, and its children lie inside it in order. */
module RangeNesting {
  import opened Tokens
  import opened ExpressionGrammar
  import opened ExpressionParsing
  import ParserSoundness

  /** Tokens are not empty and do not overlap. */
  ghost predicate InOrder(tokens: seq<Token>) {
    && (forall t :: 0 <= t < |tokens| ==> tokens[t].start < tokens[t].end)
    && (forall t, u :: 0 <= t < u < |tokens| ==> tokens[t].end <= tokens[u].start)
  }

  /** The subtrees of a node in the order they are written. */
  function Children(e: Expr): seq<Expr> {
    match e
    case LiteralExpression(_, _) => []
    case ReferenceExpression(_, _) => []
    case GroupExpression(_, inner) => [inner]
    case MemberExpression(_, container, _) => [container]
    case ComputedMemberExpression(_, container, key) => [container, key]
    case UnaryExpression(_, _, operand) => [operand]
    case BinaryExpression(_, _, left, right) => [left, right]
    case ConditionalExpression(_, condition, yes, no) => [condition, yes, no]
    case AssignmentExpression(_, _, left, right) => [left, right]
    case CommaExpression(_, items) => items
  }

  ghost predicate Inside(inner: Range, outer: Range) {
    outer.start <= inner.start < inner.end <= outer.end
  }

  /** The trees `s` lie in `range`, one after the other. */
  ghost predicate Consecutive(s: seq<Expr>, range: Range) {
    && (forall k :: 0 <= k < |s| ==> Inside(s[k].range, range))
    && (forall k, m :: 0 <= k < m < |s| ==> s[k].range.end <= s[m].range.start)
  }

  ghost predicate WellNested(e: Expr)
    decreases e
  {
    && e.range.start < e.range.end
    && Consecutive(Children(e), e.range)
    && match e
       case LiteralExpression(_, _) => true
       case ReferenceExpression(_, _) => true
       case GroupExpression(_, inner) => WellNested(inner)
       case MemberExpression(_, container, _) => WellNested(container)
       case ComputedMemberExpression(_, container, key) => WellNested(container) && WellNested(key)
       case UnaryExpression(_, _, operand) => WellNested(operand)
       case BinaryExpression(_, _, left, right) => WellNested(left) && WellNested(right)
       case ConditionalExpression(_, condition, yes, no) => WellNested(condition) && WellNested(yes) && WellNested(no)
       case AssignmentExpression(_, _, left, right) => WellNested(left) && WellNested(right)
       case CommaExpression(_, items) => forall item | item in items :: WellNested(item)
  }

  lemma SpanRange(tokens: seq<Token>, layer: int, i: nat, e: Expr, j: nat)
    requires Spans(tokens, layer, i, e, j)
    ensures i < j <= |tokens| && e.range == RangeOf(tokens, i, j)
  {
  }

  /** The range of some tokens lies inside the range of more tokens, and before that of later tokens. */
  lemma RangesOfTokens(tokens: seq<Token>, i: nat, k: nat, m: nat, j: nat)
    requires InOrder(tokens) && i <= k < m <= j <= |tokens|
    ensures Inside(RangeOf(tokens, k, m), RangeOf(tokens, i, j))
  {
  }

  lemma RangesInOrder(tokens: seq<Token>, i: nat, k: nat, m: nat, j: nat)
    requires InOrder(tokens) && i < k <= m < j <= |tokens|
    ensures RangeOf(tokens, i, k).end <= RangeOf(tokens, m, j).start
  {
  }

  lemma ConsecutiveTwo(a: Expr, b: Expr, range: Range)
    requires Inside(a.range, range) && Inside(b.range, range) && a.range.end <= b.range.start
    ensures Consecutive([a, b], range)
  {
  }

  lemma ConsecutiveThree(a: Expr, b: Expr, c: Expr, range: Range)
    requires Inside(a.range, range) && Inside(b.range, range) && Inside(c.range, range)
    requires a.range.end <= b.range.start && b.range.end <= c.range.start
    ensures Consecutive([a, b, c], range)
  {
  }

  lemma RangeNotEmpty(tokens: seq<Token>, i: nat, j: nat)
    requires InOrder(tokens) && i < j <= |tokens|
    ensures RangeOf(tokens, i, j).start < RangeOf(tokens, i, j).end
  {
  }

  lemma {:induction false} SpansNest(tokens: seq<Token>, i: nat, e: Expr, j: nat)
    requires InOrder(tokens) && Spans(tokens, COMMA, i, e, j)
    ensures WellNested(e)
    decreases j - i, 1
  {
    hide Canonical, LaidOut, InOrder, Consecutive, WellNested, Inside, CategoryOfPunctuator, LayerOf, Spans;
    SpanRange(tokens, COMMA, i, e, j);
    RangeNotEmpty(tokens, i, j);
    match e
    case LiteralExpression(_, _) => LeafNested(e);
    case ReferenceExpression(_, _) => LeafNested(e);
    case GroupExpression(_, inner) =>
      GroupParts(tokens, i, e, j);
      PartNests(tokens, COMMA, i, i + 1, inner, j - 1, j);
      OneNested(e, inner);
    case MemberExpression(_, container, _) =>
      MemberParts(tokens, i, e, j);
      PartNests(tokens, LEFT_HAND_SIDE, i, i, container, j - 2, j);
      OneNested(e, container);
    case ComputedMemberExpression(_, _, _) => ComputedMemberNests(tokens, i, e, j);
    case UnaryExpression(_, op, operand) =>
      if IsPostOperator(op) {
        PostParts(tokens, i, e, j);
        PartNests(tokens, LEFT_HAND_SIDE, i, i, operand, j - 1, j);
      } else {
        PrefixParts(tokens, i, e, j);
        PartNests(tokens, if IsPrefixOperator(op) then UNARY else LEFT_HAND_SIDE, i, i + 1, operand, j, j);
      }
      OneNested(e, operand);
    case BinaryExpression(_, _, _, _) => BinaryNests(tokens, i, e, j);
    case ConditionalExpression(_, _, _, _) =>
      ConditionalNests(tokens, i, e, j);
    case AssignmentExpression(_, _, _, _) => AssignmentNests(tokens, i, e, j);
    case CommaExpression(_, items) =>
      CommaParts(tokens, i, e, j);
      ItemsNest(tokens, i, items, j);
      ManyNested(e);
  }

  lemma LeafNested(e: Expr)
    requires e.range.start < e.range.end && (e.LiteralExpression? || e.ReferenceExpression?)
    ensures WellNested(e)
  {
  }

  lemma OneNested(e: Expr, part: Expr)
    requires e.range.start < e.range.end && Children(e) == [part] && !e.CommaExpression?
    requires Inside(part.range, e.range) && WellNested(part)
    ensures WellNested(e)
  {
    assert Children(e)[0] == part;
  }

  lemma TwoNested(e: Expr, first: Expr, second: Expr)
    requires e.range.start < e.range.end && Children(e) == [first, second] && !e.CommaExpression?
    requires Consecutive([first, second], e.range) && WellNested(first) && WellNested(second)
    ensures WellNested(e)
  {
    hide Consecutive;
    assert Children(e)[0] == first && Children(e)[1] == second;
  }

  lemma ThreeNested(e: Expr)
    requires e.ConditionalExpression? && e.range.start < e.range.end
    requires Consecutive([e.condition, e.yes, e.no], e.range)
    requires WellNested(e.condition) && WellNested(e.yes) && WellNested(e.no)
    ensures WellNested(e)
  {
    hide Consecutive;
  }

  lemma ManyNested(e: Expr)
    requires e.CommaExpression? && e.range.start < e.range.end
    requires Consecutive(e.items, e.range) && forall item | item in e.items :: WellNested(item)
    ensures WellNested(e)
  {
    hide Consecutive;
  }

  /** Two parts with one token between them. */
  lemma {:induction false} PairNests(tokens: seq<Token>, i: nat, first: Expr, k: nat, second: Expr, m: nat, j: nat)
    requires InOrder(tokens) && i < k < m <= j <= |tokens|
    requires Spans(tokens, COMMA, i, first, k) && Spans(tokens, COMMA, k + 1, second, m)
    ensures WellNested(first) && WellNested(second)
    ensures Consecutive([first, second], RangeOf(tokens, i, j))
    decreases j - i, 0, 0
  {
    hide Canonical, LaidOut, InOrder, Consecutive, WellNested;
    PartNests(tokens, COMMA, i, i, first, k, j);
    PartNests(tokens, COMMA, i, k + 1, second, m, j);
    RangesInOrder(tokens, i, k, k + 1, m);
    ConsecutiveTwo(first, second, RangeOf(tokens, i, j));
  }

  lemma {:induction false} ComputedMemberNests(tokens: seq<Token>, i: nat, e: Expr, j: nat)
    requires e.ComputedMemberExpression?
    requires InOrder(tokens) && Spans(tokens, COMMA, i, e, j)
    ensures WellNested(e)
    decreases j - i, 0, 1
  {
    SpanRange(tokens, COMMA, i, e, j);
    RangeNotEmpty(tokens, i, j);
    hide Canonical, LaidOut, InOrder, Consecutive, WellNested, Inside, CategoryOfPunctuator;
    var k := ComputedMemberParts(tokens, i, e, j);
    PairNests(tokens, i, e.container, k, e.key, j - 1, j);
    TwoNested(e, e.container, e.key);
  }

  lemma {:induction false} BinaryNests(tokens: seq<Token>, i: nat, e: Expr, j: nat)
    requires e.BinaryExpression?
    requires InOrder(tokens) && Spans(tokens, COMMA, i, e, j)
    ensures WellNested(e)
    decreases j - i, 0, 1
  {
    SpanRange(tokens, COMMA, i, e, j);
    RangeNotEmpty(tokens, i, j);
    hide Canonical, LaidOut, InOrder, Consecutive, WellNested, Inside, CategoryOfPunctuator;
    var k := BinaryParts(tokens, i, e, j);
    PairNests(tokens, i, e.left, k, e.right, j, j);
    TwoNested(e, e.left, e.right);
  }

  lemma {:induction false} AssignmentNests(tokens: seq<Token>, i: nat, e: Expr, j: nat)
    requires e.AssignmentExpression?
    requires InOrder(tokens) && Spans(tokens, COMMA, i, e, j)
    ensures WellNested(e)
    decreases j - i, 0, 1
  {
    SpanRange(tokens, COMMA, i, e, j);
    RangeNotEmpty(tokens, i, j);
    hide Canonical, LaidOut, InOrder, Consecutive, WellNested, Inside, CategoryOfPunctuator;
    var k := AssignmentParts(tokens, i, e, j);
    PairNests(tokens, i, e.left, k, e.right, j, j);
    TwoNested(e, e.left, e.right);
  }

  lemma {:induction false} ConditionalNests(tokens: seq<Token>, i: nat, e: Expr, j: nat)
    requires e.ConditionalExpression?
    requires InOrder(tokens) && Spans(tokens, COMMA, i, e, j)
    ensures WellNested(e)
    decreases j - i, 0
  {
    hide Canonical, LaidOut, InOrder, Consecutive, WellNested, Inside, CategoryOfPunctuator, LayerOf, Spans;
    SpanRange(tokens, COMMA, i, e, j);
    RangeNotEmpty(tokens, i, j);
    var k, m := ConditionalParts(tokens, i, e, j);
    PartNests(tokens, LOGICAL_OR, i, i, e.condition, k, j);
    PartNests(tokens, ASSIGN, i, k + 1, e.yes, m, j);
    PartNests(tokens, ASSIGN, i, m + 1, e.no, j, j);
    RangesInOrder(tokens, i, k, k + 1, m);
    RangesInOrder(tokens, k + 1, m, m + 1, j);
    ConsecutiveThree(e.condition, e.yes, e.no, RangeOf(tokens, i, j));
    ThreeNested(e);
  }

  lemma {:induction false} PartNests(tokens: seq<Token>, layer: int, i: nat, k: nat, part: Expr, m: nat, j: nat)
    requires InOrder(tokens) && COMMA <= layer && Spans(tokens, layer, k, part, m) && i <= k && m <= j <= |tokens|
    ensures WellNested(part) && k < m && part.range == RangeOf(tokens, k, m)
    ensures Inside(part.range, RangeOf(tokens, i, j))
    decreases m - k, 2
  {
    hide Canonical, LaidOut, WellNested;
    SpanRange(tokens, layer, k, part, m);
    SpansNest(tokens, k, part, m);
    RangesOfTokens(tokens, i, k, m, j);
  }

  lemma {:induction false} ItemsNest(tokens: seq<Token>, i: nat, items: seq<Expr>, j: nat)
    requires InOrder(tokens) && ItemsSpan(tokens, i, items, j)
    ensures i < j <= |tokens| && Consecutive(items, RangeOf(tokens, i, j))
    ensures forall item | item in items :: WellNested(item)
    decreases j - i, if |items| == 1 then 3 else 0
  {
    hide Canonical, LaidOut, WellNested, ItemsSpan, Spans;
    ItemsSpanBounds(tokens, i, items, j);
    var n := |items| - 1;
    var k := ItemsParts(tokens, i, items, j);
    if n == 0 {
      PartNests(tokens, ASSIGN, i, i, items[0], j, j);
    } else {
      ItemsNest(tokens, i, items[..n], k);
      PartNests(tokens, ASSIGN, i, k + 1, items[n], j, j);
      RangesOfTokens(tokens, i, i, k, j);
      ConsecutiveMore(items[..n], items[n], RangeOf(tokens, i, k), RangeOf(tokens, i, j));
      assert items[..n] + [items[n]] == items;
    }
  }

  lemma ItemsSpanBounds(tokens: seq<Token>, i: nat, items: seq<Expr>, j: nat)
    requires ItemsSpan(tokens, i, items, j)
    ensures i < j <= |tokens|
  {
    ItemsLaidOutSize(tokens, i, items, j);
  }

  lemma ConsecutiveMore(s: seq<Expr>, e: Expr, front: Range, range: Range)
    requires Consecutive(s, front) && Inside(front, range) && Inside(e.range, range) && front.end <= e.range.start
    ensures Consecutive(s + [e], range)
  {
  }

  /** What nesting means for the parts of each kind of node. */
  lemma NestingOfParts(e: Expr)
    requires WellNested(e)
    ensures e.range.start < e.range.end
    ensures e.GroupExpression? ==> IsPart(e.inner, e)
    ensures e.MemberExpression? ==> IsPart(e.container, e)
    ensures e.ComputedMemberExpression? ==> IsPart(e.container, e) && IsPart(e.key, e) && e.container.range.end <= e.key.range.start
    ensures e.UnaryExpression? ==> IsPart(e.operand, e)
    ensures e.BinaryExpression? ==> IsPart(e.left, e) && IsPart(e.right, e) && e.left.range.end <= e.right.range.start
    ensures e.AssignmentExpression? ==> IsPart(e.left, e) && IsPart(e.right, e) && e.left.range.end <= e.right.range.start
    ensures e.ConditionalExpression? ==>
              && IsPart(e.condition, e) && IsPart(e.yes, e) && IsPart(e.no, e)
              && e.condition.range.end <= e.yes.range.start && e.yes.range.end <= e.no.range.start
    ensures e.CommaExpression? ==> forall i, j :: 0 <= i < j < |e.items| ==>
                IsPart(e.items[i], e) && IsPart(e.items[j], e) && e.items[i].range.end <= e.items[j].range.start
  {
    hide WellNested, Consecutive;
    PartsOf(e);
    var parts := Children(e);
    match e
    case GroupExpression(_, inner) => assert parts[0] == inner;
    case MemberExpression(_, container, _) => assert parts[0] == container;
    case ComputedMemberExpression(_, container, key) => assert parts[0] == container && parts[1] == key;
    case UnaryExpression(_, _, operand) => assert parts[0] == operand;
    case BinaryExpression(_, _, left, right) => assert parts[0] == left && parts[1] == right;
    case AssignmentExpression(_, _, left, right) => assert parts[0] == left && parts[1] == right;
    case ConditionalExpression(_, condition, yes, no) => assert parts[0] == condition && parts[1] == yes && parts[2] == no;
    case _ =>
  }

  lemma PartsOf(e: Expr)
    requires WellNested(e)
    ensures e.range.start < e.range.end
    ensures forall k | 0 <= k < |Children(e)| :: IsPart(Children(e)[k], e)
    ensures forall k, m | 0 <= k < m < |Children(e)| :: Children(e)[k].range.end <= Children(e)[m].range.start
  {
    forall k | 0 <= k < |Children(e)|
      ensures IsPart(Children(e)[k], e)
    {
      ChildIsNested(e, k);
      hide WellNested;
      assert Inside(Children(e)[k].range, e.range);
    }
  }

  lemma ChildIsNested(e: Expr, k: nat)
    requires WellNested(e) && k < |Children(e)|
    ensures WellNested(Children(e)[k]) && Inside(Children(e)[k].range, e.range)
  {
  }

  /** The part lies inside the whole, and is nested itself. */
  ghost predicate IsPart(part: Expr, e: Expr) {
    WellNested(part) && e.range.start <= part.range.start < part.range.end <= e.range.end
  }

  /**
   In every successful parse, every node's range starts at its first and ends at its last
   token, contains its children's ranges, and its children do not overlap.
   */
  lemma ParsedTreesNest(s: Source, i: nat)
    requires InOrder(s.tokens)
    ensures var r := ParseExpression(s, i);
            r.Parsed? ==>
              && i < r.next <= |s.tokens| && WellNested(r.expr)
              && r.expr.range.start == s.tokens[i].start && r.expr.range.end == s.tokens[r.next - 1].end
  {
    hide Canonical, LaidOut, WellNested, ParseExpression;
    ParserSoundness.ExpressionIsSound(s, i);
    var r := ParseExpression(s, i);
    if r.Parsed? {
      SpanRange(s.tokens, COMMA, i, r.expr, r.next);
      SpansNest(s.tokens, i, r.expr, r.next);
    }
  }
}
