/**
 Expression trees, and the grammar as the parser reads it. Every tree node has a layer; a
 canonical tree never has an operand of a lower layer than its place allows.
 */
module ExpressionGrammar {
  import opened Tokens

  datatype Range = Range(start: int, end: int)

  datatype Expr =
    | LiteralExpression(range: Range, kind: Kind)
    | ReferenceExpression(range: Range, word: Word)
    | GroupExpression(range: Range, inner: Expr)
    | MemberExpression(range: Range, container: Expr, name: Word)
    | ComputedMemberExpression(range: Range, container: Expr, key: Expr)
    | UnaryExpression(range: Range, op: Kind, operand: Expr)
    | BinaryExpression(range: Range, op: Kind, left: Expr, right: Expr)
    | ConditionalExpression(range: Range, condition: Expr, yes: Expr, no: Expr)
    | AssignmentExpression(range: Range, op: Kind, left: Expr, right: Expr)
    | CommaExpression(range: Range, items: seq<Expr>)

  // Layers around the binary precedences 1 to 11.
  const COMMA: int := -2
  const ASSIGN: int := -1
  const CONDITIONAL: int := 0
  const UNARY: int := 12
  const UPDATE: int := 13
  const LEFT_HAND_SIDE: int := 14
  const PRIMARY: int := 15

  function LayerOf(e: Expr): int {
    match e
    case CommaExpression(_, _) => COMMA
    case AssignmentExpression(_, _, _, _) => ASSIGN
    case ConditionalExpression(_, _, _, _) => CONDITIONAL
    case BinaryExpression(_, op, _, _) => CategoryOf(op)
    case UnaryExpression(_, op, _) => if IsPrefixOperator(op) then UNARY else UPDATE
    case MemberExpression(_, _, _) | ComputedMemberExpression(_, _, _) => LEFT_HAND_SIDE
    case _ => PRIMARY
  }

  predicate Canonical(e: Expr) {
    match e
    case LiteralExpression(_, kind) => kind.Literal? || (kind.Name? && IsLiteralWord(kind.word))
    case ReferenceExpression(_, word) => IsReferenceWord(word)
    case GroupExpression(_, inner) => Canonical(inner)
    case MemberExpression(_, container, _) => LayerOf(container) >= LEFT_HAND_SIDE && Canonical(container)
    case ComputedMemberExpression(_, container, key) =>
      LayerOf(container) >= LEFT_HAND_SIDE && Canonical(container) && Canonical(key)
    case UnaryExpression(_, op, operand) =>
      && (IsPrefixOperator(op) || IsUpdateOperator(op) || IsPostOperator(op))
      && LayerOf(operand) >= (if IsPrefixOperator(op) then UNARY else LEFT_HAND_SIDE) && Canonical(operand)
    case BinaryExpression(_, op, left, right) =>
      && IsBinaryOperator(op)
      && LayerOf(left) >= CategoryOf(op) && Canonical(left)
      && LayerOf(right) > CategoryOf(op) && Canonical(right)
    case ConditionalExpression(_, condition, yes, no) =>
      && LayerOf(condition) >= LOGICAL_OR && Canonical(condition)
      && LayerOf(yes) >= ASSIGN && Canonical(yes)
      && LayerOf(no) >= ASSIGN && Canonical(no)
    case AssignmentExpression(_, op, left, right) =>
      && IsAssignmentOperator(op)
      && LayerOf(left) >= LOGICAL_OR && Canonical(left)
      && LayerOf(right) >= ASSIGN && Canonical(right)
    case CommaExpression(_, items) =>
      |items| >= 2 && forall item | item in items :: LayerOf(item) >= ASSIGN && Canonical(item)
  }

  /** The tokens `e` is written with. */
  function Flatten(e: Expr): (r: seq<Kind>)
    ensures !e.CommaExpression? ==> r != []
  {
    match e
    case LiteralExpression(_, kind) => [kind]
    case ReferenceExpression(_, word) => [Name(word)]
    case GroupExpression(_, inner) => [Punct(LeftParenthesis)] + Flatten(inner) + [Punct(RightParenthesis)]
    case MemberExpression(_, container, name) => Flatten(container) + [Punct(Dot), Name(name)]
    case ComputedMemberExpression(_, container, key) =>
      Flatten(container) + [Punct(LeftBracket)] + Flatten(key) + [Punct(RightBracket)]
    case UnaryExpression(_, op, operand) =>
      if IsPostOperator(op) then Flatten(operand) + [TokenOfPostOperator(op)] else [op] + Flatten(operand)
    case BinaryExpression(_, op, left, right) => Flatten(left) + [op] + Flatten(right)
    case ConditionalExpression(_, condition, yes, no) =>
      Flatten(condition) + [Punct(Question)] + Flatten(yes) + [Punct(Colon)] + Flatten(no)
    case AssignmentExpression(_, op, left, right) => Flatten(left) + [op] + Flatten(right)
    case CommaExpression(_, items) => FlattenItems(items)
  }

  function FlattenItems(items: seq<Expr>): seq<Kind> {
    if items == [] then []
    else if |items| == 1 then Flatten(items[0])
    else FlattenItems(items[..|items| - 1]) + [Punct(Comma)] + Flatten(items[|items| - 1])
  }

  function RangeOf(tokens: seq<Token>, i: nat, j: nat): Range
    requires i < j <= |tokens|
  {
    Range(tokens[i].start, tokens[j - 1].end)
  }

  function Size(e: Expr): nat {
    |Flatten(e)|
  }

  /**
   `e` is written by exactly the tokens `i` to `j`: each operator, name and bracket is in its
   place, no post operator is at the start of a line, and every node's range runs from its
   first to its last token.
   */
  predicate LaidOut(tokens: seq<Token>, i: nat, e: Expr, j: nat)
    decreases e
  {
    && i < j <= |tokens| && e.range == RangeOf(tokens, i, j)
    && match e
       case LiteralExpression(_, kind) => j == i + 1 && tokens[i].kind == kind
       case ReferenceExpression(_, word) => j == i + 1 && tokens[i].kind == Name(word)
       case GroupExpression(_, inner) =>
         && tokens[i].kind == Punct(LeftParenthesis) && tokens[j - 1].kind == Punct(RightParenthesis)
         && LaidOut(tokens, i + 1, inner, j - 1)
       case MemberExpression(_, container, name) =>
         && j >= 2 && tokens[j - 2].kind == Punct(Dot) && tokens[j - 1].kind == Name(name)
         && LaidOut(tokens, i, container, j - 2)
       case ComputedMemberExpression(_, container, key) =>
         var k := i + Size(container);
         && k < j && tokens[k].kind == Punct(LeftBracket) && tokens[j - 1].kind == Punct(RightBracket)
         && LaidOut(tokens, i, container, k) && LaidOut(tokens, k + 1, key, j - 1)
       case UnaryExpression(_, op, operand) =>
         if IsPostOperator(op) then
           && tokens[j - 1].kind == TokenOfPostOperator(op) && !tokens[j - 1].newlineBefore
           && LaidOut(tokens, i, operand, j - 1)
         else
           tokens[i].kind == op && LaidOut(tokens, i + 1, operand, j)
       case BinaryExpression(_, op, left, right) =>
         var k := i + Size(left);
         k < j && tokens[k].kind == op && LaidOut(tokens, i, left, k) && LaidOut(tokens, k + 1, right, j)
       case ConditionalExpression(_, condition, yes, no) =>
         var k := i + Size(condition);
         var m := k + 1 + Size(yes);
         && m < j && tokens[k].kind == Punct(Question) && tokens[m].kind == Punct(Colon)
         && LaidOut(tokens, i, condition, k) && LaidOut(tokens, k + 1, yes, m) && LaidOut(tokens, m + 1, no, j)
       case AssignmentExpression(_, op, left, right) =>
         var k := i + Size(left);
         k < j && tokens[k].kind == op && LaidOut(tokens, i, left, k) && LaidOut(tokens, k + 1, right, j)
       case CommaExpression(_, items) => ItemsLaidOut(tokens, i, items, j)
  }

  predicate ItemsLaidOut(tokens: seq<Token>, i: nat, items: seq<Expr>, j: nat)
    requires j <= |tokens|
    decreases items
  {
    if items == [] then false
    else if |items| == 1 then LaidOut(tokens, i, items[0], j)
    else
      var last := items[|items| - 1];
      var k := j - Size(last) - 1;
      && i < k && tokens[k].kind == Punct(Comma)
      && ItemsLaidOut(tokens, i, items[..|items| - 1], k) && LaidOut(tokens, k + 1, last, j)
  }

  /** The last token of a tree is as far from the first as the tree is long. */
  lemma {:induction false} LaidOutSize(tokens: seq<Token>, i: nat, e: Expr, j: nat)
    requires LaidOut(tokens, i, e, j)
    ensures j == i + Size(e)
    decreases e, 1
  {
    match e
    case LiteralExpression(_, _) =>
    case ReferenceExpression(_, _) =>
    case GroupExpression(_, inner) => LaidOutSize(tokens, i + 1, inner, j - 1);
    case MemberExpression(_, container, _) => LaidOutSize(tokens, i, container, j - 2);
    case ComputedMemberExpression(_, container, key) =>
      LaidOutSize(tokens, i + Size(container) + 1, key, j - 1);
    case UnaryExpression(_, op, operand) =>
      if IsPostOperator(op) {
        LaidOutSize(tokens, i, operand, j - 1);
      } else {
        LaidOutSize(tokens, i + 1, operand, j);
      }
    case BinaryExpression(_, _, left, right) => LaidOutSize(tokens, i + Size(left) + 1, right, j);
    case ConditionalExpression(_, _, _, _) => LaidOutConditionalSize(tokens, i, e, j);
    case AssignmentExpression(_, _, left, right) => LaidOutSize(tokens, i + Size(left) + 1, right, j);
    case CommaExpression(_, items) => ItemsLaidOutSize(tokens, i, items, j);
  }

  lemma {:induction false} LaidOutConditionalSize(tokens: seq<Token>, i: nat, e: Expr, j: nat)
    requires e.ConditionalExpression? && LaidOut(tokens, i, e, j)
    ensures j == i + Size(e)
    decreases e, 0
  {
    LaidOutSize(tokens, i + Size(e.condition) + 1 + Size(e.yes) + 1, e.no, j);
  }

  lemma {:induction false} ItemsLaidOutSize(tokens: seq<Token>, i: nat, items: seq<Expr>, j: nat)
    requires j <= |tokens| && ItemsLaidOut(tokens, i, items, j)
    ensures i < j == i + |FlattenItems(items)|
    decreases items, 0
  {
    var n := |items| - 1;
    if n == 0 {
      LaidOutSize(tokens, i, items[0], j);
    } else {
      ItemsLaidOutSize(tokens, i, items[..n], j - Size(items[n]) - 1);
    }
  }

  // ----- One level of a tree: taken apart, and put together

  /** `e` is canonical, fits the layer, and is written by the tokens `i` to `j`. */
  predicate Spans(tokens: seq<Token>, layer: int, i: nat, e: Expr, j: nat) {
    i < j <= |tokens| && LayerOf(e) >= layer && Canonical(e) && LaidOut(tokens, i, e, j)
  }

  lemma LaidOutBounds(tokens: seq<Token>, i: nat, e: Expr, j: nat)
    requires LaidOut(tokens, i, e, j)
    ensures i < j <= |tokens|
  {
  }

  predicate Is(tokens: seq<Token>, i: nat, kind: Kind) {
    i < |tokens| && tokens[i].kind == kind
  }

  lemma GroupParts(tokens: seq<Token>, i: nat, e: Expr, j: nat)
    requires e.GroupExpression? && Spans(tokens, COMMA, i, e, j)
    ensures i + 2 < j <= |tokens| && e.range == RangeOf(tokens, i, j)
    ensures Is(tokens, i, Punct(LeftParenthesis)) && Is(tokens, j - 1, Punct(RightParenthesis))
    ensures Spans(tokens, COMMA, i + 1, e.inner, j - 1)
  {
    LaidOutBounds(tokens, i + 1, e.inner, j - 1);
  }

  lemma MemberParts(tokens: seq<Token>, i: nat, e: Expr, j: nat)
    requires e.MemberExpression? && Spans(tokens, COMMA, i, e, j)
    ensures i < j - 2 < j <= |tokens| && e.range == RangeOf(tokens, i, j)
    ensures Is(tokens, j - 2, Punct(Dot)) && Is(tokens, j - 1, Name(e.name))
    ensures Spans(tokens, LEFT_HAND_SIDE, i, e.container, j - 2)
  {
    LaidOutBounds(tokens, i, e.container, j - 2);
  }

  lemma ComputedMemberParts(tokens: seq<Token>, i: nat, e: Expr, j: nat) returns (k: nat)
    requires e.ComputedMemberExpression? && Spans(tokens, COMMA, i, e, j)
    ensures i < k < k + 1 < j - 1 < j <= |tokens| && e.range == RangeOf(tokens, i, j)
    ensures Is(tokens, k, Punct(LeftBracket)) && Is(tokens, j - 1, Punct(RightBracket))
    ensures Spans(tokens, LEFT_HAND_SIDE, i, e.container, k) && Spans(tokens, COMMA, k + 1, e.key, j - 1)
  {
    k := i + Size(e.container);
    LaidOutBounds(tokens, i, e.container, k);
    LaidOutBounds(tokens, k + 1, e.key, j - 1);
  }

  lemma PrefixParts(tokens: seq<Token>, i: nat, e: Expr, j: nat)
    requires e.UnaryExpression? && !IsPostOperator(e.op) && Spans(tokens, COMMA, i, e, j)
    ensures i + 1 < j <= |tokens| && e.range == RangeOf(tokens, i, j) && Is(tokens, i, e.op)
    ensures IsPrefixOperator(e.op) || IsUpdateOperator(e.op)
    ensures Spans(tokens, if IsPrefixOperator(e.op) then UNARY else LEFT_HAND_SIDE, i + 1, e.operand, j)
  {
    LaidOutBounds(tokens, i + 1, e.operand, j);
  }

  lemma PostParts(tokens: seq<Token>, i: nat, e: Expr, j: nat)
    requires e.UnaryExpression? && IsPostOperator(e.op) && Spans(tokens, COMMA, i, e, j)
    ensures i < j - 1 < j <= |tokens| && e.range == RangeOf(tokens, i, j)
    ensures Is(tokens, j - 1, TokenOfPostOperator(e.op)) && !tokens[j - 1].newlineBefore
    ensures Spans(tokens, LEFT_HAND_SIDE, i, e.operand, j - 1)
  {
    LaidOutBounds(tokens, i, e.operand, j - 1);
  }

  lemma BinaryParts(tokens: seq<Token>, i: nat, e: Expr, j: nat) returns (k: nat)
    requires e.BinaryExpression? && Spans(tokens, COMMA, i, e, j)
    ensures i < k < k + 1 < j <= |tokens| && e.range == RangeOf(tokens, i, j)
    ensures Is(tokens, k, e.op) && IsBinaryOperator(e.op)
    ensures Spans(tokens, CategoryOf(e.op), i, e.left, k) && Spans(tokens, CategoryOf(e.op) + 1, k + 1, e.right, j)
  {
    k := i + Size(e.left);
    LaidOutBounds(tokens, i, e.left, k);
    LaidOutBounds(tokens, k + 1, e.right, j);
  }

  lemma ConditionalParts(tokens: seq<Token>, i: nat, e: Expr, j: nat) returns (k: nat, m: nat)
    requires e.ConditionalExpression? && Spans(tokens, COMMA, i, e, j)
    ensures i < k < k + 1 < m < m + 1 < j <= |tokens| && e.range == RangeOf(tokens, i, j)
    ensures Is(tokens, k, Punct(Question)) && Is(tokens, m, Punct(Colon))
    ensures Spans(tokens, LOGICAL_OR, i, e.condition, k)
    ensures Spans(tokens, ASSIGN, k + 1, e.yes, m) && Spans(tokens, ASSIGN, m + 1, e.no, j)
  {
    k := i + Size(e.condition);
    m := k + 1 + Size(e.yes);
    LaidOutBounds(tokens, i, e.condition, k);
    LaidOutBounds(tokens, k + 1, e.yes, m);
    LaidOutBounds(tokens, m + 1, e.no, j);
  }

  lemma AssignmentParts(tokens: seq<Token>, i: nat, e: Expr, j: nat) returns (k: nat)
    requires e.AssignmentExpression? && Spans(tokens, COMMA, i, e, j)
    ensures i < k < k + 1 < j <= |tokens| && e.range == RangeOf(tokens, i, j)
    ensures Is(tokens, k, e.op) && IsAssignmentOperator(e.op)
    ensures Spans(tokens, LOGICAL_OR, i, e.left, k) && Spans(tokens, ASSIGN, k + 1, e.right, j)
  {
    k := i + Size(e.left);
    LaidOutBounds(tokens, i, e.left, k);
    LaidOutBounds(tokens, k + 1, e.right, j);
  }

  /** `items` fit a comma expression and are written, with commas between, by the tokens `i` to `j`. */
  predicate ItemsSpan(tokens: seq<Token>, i: nat, items: seq<Expr>, j: nat) {
    && j <= |tokens| && ItemsLaidOut(tokens, i, items, j)
    && forall item | item in items :: LayerOf(item) >= ASSIGN && Canonical(item)
  }

  lemma CommaParts(tokens: seq<Token>, i: nat, e: Expr, j: nat)
    requires e.CommaExpression? && Spans(tokens, COMMA, i, e, j)
    ensures i < j <= |tokens| && e.range == RangeOf(tokens, i, j)
    ensures |e.items| >= 2 && ItemsSpan(tokens, i, e.items, j)
  {
  }

  lemma ItemsParts(tokens: seq<Token>, i: nat, items: seq<Expr>, j: nat) returns (k: nat)
    requires ItemsSpan(tokens, i, items, j)
    ensures items != [] && i < j
    ensures |items| == 1 ==> Spans(tokens, ASSIGN, i, items[0], j)
    ensures |items| > 1 ==>
              && i < k < k + 1 < j && Is(tokens, k, Punct(Comma))
              && ItemsSpan(tokens, i, items[..|items| - 1], k)
              && Spans(tokens, ASSIGN, k + 1, items[|items| - 1], j)
  {
    var n := |items| - 1;
    ItemsLaidOutSize(tokens, i, items, j);
    k := 0;
    if n == 0 {
      LaidOutBounds(tokens, i, items[0], j);
    } else {
      k := j - Size(items[n]) - 1;
      LaidOutBounds(tokens, k + 1, items[n], j);
    }
  }

  lemma GroupSpans(tokens: seq<Token>, i: nat, inner: Expr, j: nat)
    requires Is(tokens, i, Punct(LeftParenthesis)) && Is(tokens, j, Punct(RightParenthesis))
    requires Spans(tokens, COMMA, i + 1, inner, j)
    ensures Spans(tokens, PRIMARY, i, GroupExpression(RangeOf(tokens, i, j + 1), inner), j + 1)
  {
  }

  lemma MemberSpans(tokens: seq<Token>, i: nat, container: Expr, k: nat, name: Word)
    requires Is(tokens, k, Punct(Dot)) && Is(tokens, k + 1, Name(name))
    requires Spans(tokens, LEFT_HAND_SIDE, i, container, k)
    ensures Spans(tokens, LEFT_HAND_SIDE, i, MemberExpression(RangeOf(tokens, i, k + 2), container, name), k + 2)
  {
  }

  lemma ComputedMemberSpans(tokens: seq<Token>, i: nat, container: Expr, k: nat, key: Expr, j: nat)
    requires Is(tokens, k, Punct(LeftBracket)) && Is(tokens, j, Punct(RightBracket))
    requires Spans(tokens, LEFT_HAND_SIDE, i, container, k) && Spans(tokens, COMMA, k + 1, key, j)
    ensures Spans(tokens, LEFT_HAND_SIDE, i, ComputedMemberExpression(RangeOf(tokens, i, j + 1), container, key), j + 1)
  {
    LaidOutSize(tokens, i, container, k);
  }

  lemma PrefixSpans(tokens: seq<Token>, i: nat, operand: Expr, j: nat)
    requires i < |tokens| && (IsPrefixOperator(tokens[i].kind) || IsUpdateOperator(tokens[i].kind))
    requires Spans(tokens, if IsPrefixOperator(tokens[i].kind) then UNARY else LEFT_HAND_SIDE, i + 1, operand, j)
    ensures Spans(tokens, if IsPrefixOperator(tokens[i].kind) then UNARY else UPDATE, i,
                  UnaryExpression(RangeOf(tokens, i, j), tokens[i].kind, operand), j)
  {
  }

  lemma PostSpans(tokens: seq<Token>, i: nat, operand: Expr, j: nat)
    requires j < |tokens| && IsUpdateOperator(tokens[j].kind) && !tokens[j].newlineBefore
    requires Spans(tokens, LEFT_HAND_SIDE, i, operand, j)
    ensures Spans(tokens, UPDATE, i,
                  UnaryExpression(RangeOf(tokens, i, j + 1), ConvertToPostOperator(tokens[j].kind), operand), j + 1)
  {
  }

  lemma BinarySpans(tokens: seq<Token>, i: nat, left: Expr, k: nat, right: Expr, j: nat)
    requires k < |tokens| && IsBinaryOperator(tokens[k].kind)
    requires Spans(tokens, CategoryOf(tokens[k].kind), i, left, k)
    requires Spans(tokens, CategoryOf(tokens[k].kind) + 1, k + 1, right, j)
    ensures Spans(tokens, CategoryOf(tokens[k].kind), i,
                  BinaryExpression(RangeOf(tokens, i, j), tokens[k].kind, left, right), j)
  {
    LaidOutSize(tokens, i, left, k);
  }

  lemma ConditionalSpans(tokens: seq<Token>, i: nat, condition: Expr, k: nat, yes: Expr, m: nat, no: Expr, j: nat)
    requires Is(tokens, k, Punct(Question)) && Is(tokens, m, Punct(Colon))
    requires Spans(tokens, LOGICAL_OR, i, condition, k)
    requires Spans(tokens, ASSIGN, k + 1, yes, m) && Spans(tokens, ASSIGN, m + 1, no, j)
    ensures Spans(tokens, CONDITIONAL, i, ConditionalExpression(RangeOf(tokens, i, j), condition, yes, no), j)
  {
    LaidOutSize(tokens, i, condition, k);
    LaidOutSize(tokens, k + 1, yes, m);
  }

  lemma AssignmentSpans(tokens: seq<Token>, i: nat, left: Expr, k: nat, right: Expr, j: nat)
    requires k < |tokens| && IsAssignmentOperator(tokens[k].kind)
    requires Spans(tokens, LOGICAL_OR, i, left, k) && Spans(tokens, ASSIGN, k + 1, right, j)
    ensures Spans(tokens, ASSIGN, i, AssignmentExpression(RangeOf(tokens, i, j), tokens[k].kind, left, right), j)
  {
    LaidOutSize(tokens, i, left, k);
  }

  lemma CommaSpans(tokens: seq<Token>, i: nat, items: seq<Expr>, j: nat)
    requires |items| >= 2 && i < j && ItemsSpan(tokens, i, items, j)
    ensures Spans(tokens, COMMA, i, CommaExpression(RangeOf(tokens, i, j), items), j)
  {
  }

  lemma {:induction false} ItemsSpanMore(tokens: seq<Token>, i: nat, items: seq<Expr>, k: nat, item: Expr, j: nat)
    requires Is(tokens, k, Punct(Comma)) && i < k && items != []
    requires ItemsSpan(tokens, i, items, k) && Spans(tokens, ASSIGN, k + 1, item, j)
    ensures ItemsSpan(tokens, i, items + [item], j)
  {
    hide LaidOut, Canonical, LayerOf;
    LaidOutSize(tokens, k + 1, item, j);
    assert (items + [item])[..|items|] == items;
  }
}
