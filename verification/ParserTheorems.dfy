/** What the two directions give together: the parser decides the grammar, and flattening inverts it. */
module ParserTheorems {
  import opened Tokens
  import opened ExpressionGrammar
  import opened ExpressionParsing
  import ParserSoundness
  import ParserCompleteness

  /**
   The parser accepts exactly the token sequences of canonical trees, and returns the tree:
   for a whole token sequence, `e` is parsed if and only if `e` is canonical and written by it.
   */
  lemma ParsesExactlyTheGrammar(s: Source, e: Expr)
    ensures ParseExpression(s, 0) == Parsed(e, |s.tokens|) <==> Spans(s.tokens, COMMA, 0, e, |s.tokens|)
  {
    hide Canonical, LaidOut, ParseComma;
    if ParseExpression(s, 0) == Parsed(e, |s.tokens|) {
      ParserSoundness.ExpressionIsSound(s, 0);
    }
    if Spans(s.tokens, COMMA, 0, e, |s.tokens|) {
      ParserCompleteness.Complete(s, COMMA, 0, e, |s.tokens|);
    }
  }

  /** No token sequence is written by two different trees: precedence and associativity leave no choice. */
  lemma Unambiguous(tokens: seq<Token>, e: Expr, f: Expr)
    requires Spans(tokens, COMMA, 0, e, |tokens|) && Spans(tokens, COMMA, 0, f, |tokens|)
    ensures e == f
  {
    hide Canonical, LaidOut, ParseExpression;
    ParsesExactlyTheGrammar(Source(tokens, false), e);
    ParsesExactlyTheGrammar(Source(tokens, false), f);
  }

  // ----- Flattening

  /** The kinds of the tokens from `i` on are `kinds`. */
  ghost predicate Spelled(tokens: seq<Token>, i: nat, kinds: seq<Kind>) {
    i + |kinds| <= |tokens| && forall t :: 0 <= t < |kinds| ==> tokens[i + t].kind == kinds[t]
  }

  lemma SpelledConcat(tokens: seq<Token>, i: nat, a: seq<Kind>, b: seq<Kind>)
    ensures Spelled(tokens, i, a + b) <==> Spelled(tokens, i, a) && Spelled(tokens, i + |a|, b)
  {
    if Spelled(tokens, i, a + b) {
      assert forall t :: 0 <= t < |a| ==> (a + b)[t] == a[t];
      assert forall t :: 0 <= t < |b| ==> tokens[i + (|a| + t)].kind == (a + b)[|a| + t] == b[t];
    }
    if Spelled(tokens, i, a) && Spelled(tokens, i + |a|, b) {
      forall t | 0 <= t < |a + b|
        ensures tokens[i + t].kind == (a + b)[t]
      {
        if t >= |a| {
          assert tokens[i + |a| + (t - |a|)].kind == b[t - |a|];
        }
      }
    }
  }

  lemma JoinSpelled(tokens: seq<Token>, i: nat, a: seq<Kind>, op: Kind, b: seq<Kind>)
    ensures Spelled(tokens, i, a + [op] + b) <==>
            Spelled(tokens, i, a) && Is(tokens, i + |a|, op) && Spelled(tokens, i + |a| + 1, b)
  {
    SpelledConcat(tokens, i, a, [op]);
    SpelledConcat(tokens, i, a + [op], b);
    assert Spelled(tokens, i + |a|, [op]) <==> Is(tokens, i + |a|, op) by {
      if Is(tokens, i + |a|, op) {
        assert forall t :: 0 <= t < |[op]| ==> tokens[i + |a| + t].kind == [op][t];
      }
      if Spelled(tokens, i + |a|, [op]) {
        assert tokens[i + |a| + 0].kind == [op][0];
      }
    }
  }

  lemma EnclosedSpelled(tokens: seq<Token>, i: nat, open: Kind, a: seq<Kind>, close: Kind)
    ensures Spelled(tokens, i, [open] + a + [close]) <==>
            Is(tokens, i, open) && Spelled(tokens, i + 1, a) && Is(tokens, i + 1 + |a|, close)
  {
    JoinSpelled(tokens, i, [], open, a);
    assert [] + [open] + a == [open] + a;
    JoinSpelled(tokens, i, [open] + a, close, []);
    assert [open] + a + [close] + [] == [open] + a + [close];
  }

  /** Flattening a parsed tree gives exactly the tokens consumed. */
  lemma {:induction false} LaidOutIsSpelled(tokens: seq<Token>, i: nat, e: Expr, j: nat)
    requires LaidOut(tokens, i, e, j)
    ensures j == i + |Flatten(e)| && Spelled(tokens, i, Flatten(e))
    decreases e, 1
  {
    hide Spelled;
    LaidOutSize(tokens, i, e, j);
    match e
    case LiteralExpression(_, kind) =>
      OneSpelled(tokens, i, kind);
    case ReferenceExpression(_, word) =>
      OneSpelled(tokens, i, Name(word));
    case GroupExpression(_, inner) =>
      LaidOutIsSpelled(tokens, i + 1, inner, j - 1);
      EnclosedSpelled(tokens, i, Punct(LeftParenthesis), Flatten(inner), Punct(RightParenthesis));
    case MemberExpression(_, container, name) =>
      LaidOutIsSpelled(tokens, i, container, j - 2);
      OneSpelled(tokens, j - 1, Name(name));
      JoinSpelled(tokens, i, Flatten(container), Punct(Dot), [Name(name)]);
      assert Flatten(container) + [Punct(Dot)] + [Name(name)] == Flatten(e);
    case ComputedMemberExpression(_, _, _) =>
      ComputedMemberIsSpelled(tokens, i, e, j);
    case UnaryExpression(_, _, _) => UnaryIsSpelled(tokens, i, e, j);
    case BinaryExpression(_, _, _, _) => PairIsSpelled(tokens, i, e, j);
    case ConditionalExpression(_, _, _, _) =>
      ConditionalIsSpelled(tokens, i, e, j);
    case AssignmentExpression(_, _, _, _) => PairIsSpelled(tokens, i, e, j);
    case CommaExpression(_, items) =>
      ItemsAreSpelled(tokens, i, items, j);
  }

  lemma {:induction false} UnaryIsSpelled(tokens: seq<Token>, i: nat, e: Expr, j: nat)
    requires e.UnaryExpression? && LaidOut(tokens, i, e, j)
    ensures Spelled(tokens, i, Flatten(e))
    decreases e, 0
  {
    hide Spelled;
    var op, operand := e.op, e.operand;
    if IsPostOperator(op) {
      LaidOutIsSpelled(tokens, i, operand, j - 1);
      OneSpelled(tokens, j - 1, TokenOfPostOperator(op));
      SpelledConcat(tokens, i, Flatten(operand), [TokenOfPostOperator(op)]);
    } else {
      LaidOutIsSpelled(tokens, i + 1, operand, j);
      OneSpelled(tokens, i, op);
      SpelledConcat(tokens, i, [op], Flatten(operand));
    }
  }

  lemma {:induction false} PairIsSpelled(tokens: seq<Token>, i: nat, e: Expr, j: nat)
    requires (e.BinaryExpression? || e.AssignmentExpression?) && LaidOut(tokens, i, e, j)
    ensures Spelled(tokens, i, Flatten(e))
    decreases e, 0
  {
    hide Spelled;
    var k := i + Size(e.left);
    LaidOutIsSpelled(tokens, i, e.left, k);
    LaidOutIsSpelled(tokens, k + 1, e.right, j);
    JoinSpelled(tokens, i, Flatten(e.left), e.op, Flatten(e.right));
  }

  lemma {:induction false} ComputedMemberIsSpelled(tokens: seq<Token>, i: nat, e: Expr, j: nat)
    requires e.ComputedMemberExpression? && LaidOut(tokens, i, e, j)
    ensures Spelled(tokens, i, Flatten(e))
    decreases e, 0
  {
    hide Spelled;
    var container, key := e.container, e.key;
    var k := i + Size(container);
    LaidOutIsSpelled(tokens, i, container, k);
    LaidOutIsSpelled(tokens, k + 1, key, j - 1);
    JoinSpelled(tokens, i, Flatten(container), Punct(LeftBracket), Flatten(key));
    OneSpelled(tokens, j - 1, Punct(RightBracket));
    SpelledConcat(tokens, i, Flatten(container) + [Punct(LeftBracket)] + Flatten(key), [Punct(RightBracket)]);
  }

  lemma {:induction false} UnfoldConditionalLayout(tokens: seq<Token>, i: nat, e: Expr, j: nat)
    requires e.ConditionalExpression? && LaidOut(tokens, i, e, j)
    ensures Flatten(e) == Flatten(e.condition) + [Punct(Question)] + Flatten(e.yes) + [Punct(Colon)] + Flatten(e.no)
    ensures ghost var k := i + Size(e.condition);
            ghost var m := k + 1 + Size(e.yes);
            && m < j <= |tokens| && Is(tokens, k, Punct(Question)) && Is(tokens, m, Punct(Colon))
            && LaidOut(tokens, i, e.condition, k) && LaidOut(tokens, k + 1, e.yes, m) && LaidOut(tokens, m + 1, e.no, j)
  {
  }

  lemma {:induction false} ConditionalIsSpelled(tokens: seq<Token>, i: nat, e: Expr, j: nat)
    requires e.ConditionalExpression? && LaidOut(tokens, i, e, j)
    ensures Spelled(tokens, i, Flatten(e))
    decreases e, 0
  {
    hide Spelled, LaidOut, Flatten;
    UnfoldConditionalLayout(tokens, i, e, j);
    var condition, yes, no := e.condition, e.yes, e.no;
    var k := i + Size(condition);
    var m := k + 1 + Size(yes);
    LaidOutIsSpelled(tokens, i, condition, k);
    LaidOutIsSpelled(tokens, k + 1, yes, m);
    LaidOutIsSpelled(tokens, m + 1, no, j);
    JoinSpelled(tokens, i, Flatten(condition), Punct(Question), Flatten(yes));
    JoinSpelled(tokens, i, Flatten(condition) + [Punct(Question)] + Flatten(yes), Punct(Colon), Flatten(no));
  }

  lemma OneSpelled(tokens: seq<Token>, i: nat, kind: Kind)
    requires Is(tokens, i, kind)
    ensures Spelled(tokens, i, [kind])
  {
  }

  lemma {:induction false} ItemsAreSpelled(tokens: seq<Token>, i: nat, items: seq<Expr>, j: nat)
    requires j <= |tokens| && ItemsLaidOut(tokens, i, items, j)
    ensures Spelled(tokens, i, FlattenItems(items))
    decreases items, 0
  {
    hide Spelled, LaidOut, Flatten;
    var n := |items| - 1;
    if n == 0 {
      LaidOutIsSpelled(tokens, i, items[0], j);
    } else {
      var k := j - Size(items[n]) - 1;
      ItemsLaidOutSize(tokens, i, items[..n], k);
      ItemsAreSpelled(tokens, i, items[..n], k);
      LaidOutIsSpelled(tokens, k + 1, items[n], j);
      JoinSpelled(tokens, i, FlattenItems(items[..n]), Punct(Comma), Flatten(items[n]));
    }
  }

  // ----- Round trip

  function StartAt(tokens: seq<Token>, i: nat): int {
    if i < |tokens| then tokens[i].start else 0
  }

  function EndBefore(tokens: seq<Token>, j: nat): int {
    if 0 < j <= |tokens| then tokens[j - 1].end else 0
  }

  /** `e` with the ranges it gets when it is written by the tokens from `i` on. */
  function WithRanges(tokens: seq<Token>, i: nat, e: Expr): Expr
    decreases e
  {
    var range := Range(StartAt(tokens, i), EndBefore(tokens, i + Size(e)));
    match e
    case LiteralExpression(_, kind) => LiteralExpression(range, kind)
    case ReferenceExpression(_, word) => ReferenceExpression(range, word)
    case GroupExpression(_, inner) => GroupExpression(range, WithRanges(tokens, i + 1, inner))
    case MemberExpression(_, container, name) => MemberExpression(range, WithRanges(tokens, i, container), name)
    case ComputedMemberExpression(_, container, key) =>
      ComputedMemberExpression(range, WithRanges(tokens, i, container), WithRanges(tokens, i + Size(container) + 1, key))
    case UnaryExpression(_, op, operand) =>
      UnaryExpression(range, op, WithRanges(tokens, if IsPostOperator(op) then i else i + 1, operand))
    case BinaryExpression(_, op, left, right) =>
      BinaryExpression(range, op, WithRanges(tokens, i, left), WithRanges(tokens, i + Size(left) + 1, right))
    case ConditionalExpression(_, condition, yes, no) =>
      var k := i + Size(condition);
      var m := k + 1 + Size(yes);
      ConditionalExpression(range, WithRanges(tokens, i, condition), WithRanges(tokens, k + 1, yes), WithRanges(tokens, m + 1, no))
    case AssignmentExpression(_, op, left, right) =>
      AssignmentExpression(range, op, WithRanges(tokens, i, left), WithRanges(tokens, i + Size(left) + 1, right))
    case CommaExpression(_, items) => CommaExpression(range, ItemsWithRanges(tokens, i, items))
  }

  function ItemsWithRanges(tokens: seq<Token>, i: nat, items: seq<Expr>): (r: seq<Expr>)
    ensures |r| == |items|
    decreases items
  {
    if items == [] then []
    else if |items| == 1 then [WithRanges(tokens, i, items[0])]
    else
      var before := items[..|items| - 1];
      ItemsWithRanges(tokens, i, before) + [WithRanges(tokens, i + |FlattenItems(before)| + 1, items[|items| - 1])]
  }

  /** `e` without ranges. */
  function Erase(e: Expr): Expr
    decreases e
  {
    var none := Range(0, 0);
    match e
    case LiteralExpression(_, kind) => LiteralExpression(none, kind)
    case ReferenceExpression(_, word) => ReferenceExpression(none, word)
    case GroupExpression(_, inner) => GroupExpression(none, Erase(inner))
    case MemberExpression(_, container, name) => MemberExpression(none, Erase(container), name)
    case ComputedMemberExpression(_, container, key) => ComputedMemberExpression(none, Erase(container), Erase(key))
    case UnaryExpression(_, op, operand) => UnaryExpression(none, op, Erase(operand))
    case BinaryExpression(_, op, left, right) => BinaryExpression(none, op, Erase(left), Erase(right))
    case ConditionalExpression(_, condition, yes, no) =>
      ConditionalExpression(none, Erase(condition), Erase(yes), Erase(no))
    case AssignmentExpression(_, op, left, right) => AssignmentExpression(none, op, Erase(left), Erase(right))
    case CommaExpression(_, items) => CommaExpression(none, EraseItems(items))
  }

  function EraseItems(items: seq<Expr>): seq<Expr>
    decreases items
  {
    if items == [] then [] else EraseItems(items[..|items| - 1]) + [Erase(items[|items| - 1])]
  }

  lemma {:induction false} EraseForgetsRanges(tokens: seq<Token>, i: nat, e: Expr)
    ensures Erase(WithRanges(tokens, i, e)) == Erase(e)
    decreases e, 1
  {
    hide Flatten, FlattenItems, StartAt, EndBefore;
    match e
    case LiteralExpression(_, _) =>
    case ReferenceExpression(_, _) =>
    case GroupExpression(_, inner) => EraseForgetsRanges(tokens, i + 1, inner);
    case MemberExpression(_, container, _) => EraseForgetsRanges(tokens, i, container);
    case UnaryExpression(_, op, operand) =>
      EraseForgetsRanges(tokens, if IsPostOperator(op) then i else i + 1, operand);
    case ComputedMemberExpression(_, _, _) => EraseForgetsComputedMemberRanges(tokens, i, e);
    case BinaryExpression(_, _, _, _) => EraseForgetsPairRanges(tokens, i, e);
    case ConditionalExpression(_, _, _, _) => EraseForgetsConditionalRanges(tokens, i, e);
    case AssignmentExpression(_, _, _, _) => EraseForgetsPairRanges(tokens, i, e);
    case CommaExpression(_, items) => EraseForgetsItemRanges(tokens, i, items);
  }

  lemma {:induction false} UnfoldEraseComputedMember(e: Expr)
    requires e.ComputedMemberExpression?
    ensures Erase(e) == ComputedMemberExpression(Range(0, 0), Erase(e.container), Erase(e.key))
  {
  }

  lemma {:induction false} UnfoldComputedMemberRanges(tokens: seq<Token>, i: nat, e: Expr)
    requires e.ComputedMemberExpression?
    ensures WithRanges(tokens, i, e) ==
            ComputedMemberExpression(Range(StartAt(tokens, i), EndBefore(tokens, i + Size(e))),
                                     WithRanges(tokens, i, e.container), WithRanges(tokens, i + Size(e.container) + 1, e.key))
  {
    hide Flatten, StartAt, EndBefore;
  }

  lemma {:induction false} EraseForgetsComputedMemberRanges(tokens: seq<Token>, i: nat, e: Expr)
    requires e.ComputedMemberExpression?
    ensures Erase(WithRanges(tokens, i, e)) == Erase(e)
    decreases e, 0
  {
    hide Flatten, FlattenItems, StartAt, EndBefore, Erase, WithRanges;
    UnfoldEraseComputedMember(e);
    UnfoldComputedMemberRanges(tokens, i, e);
    UnfoldEraseComputedMember(WithRanges(tokens, i, e));
    EraseForgetsRanges(tokens, i, e.container);
    EraseForgetsRanges(tokens, i + Size(e.container) + 1, e.key);
  }

  lemma {:induction false} UnfoldErasePair(e: Expr)
    requires e.BinaryExpression? || e.AssignmentExpression?
    ensures e.BinaryExpression? ==> Erase(e) == BinaryExpression(Range(0, 0), e.op, Erase(e.left), Erase(e.right))
    ensures e.AssignmentExpression? ==> Erase(e) == AssignmentExpression(Range(0, 0), e.op, Erase(e.left), Erase(e.right))
  {
  }

  lemma {:induction false} UnfoldPairRanges(tokens: seq<Token>, i: nat, e: Expr)
    requires e.BinaryExpression? || e.AssignmentExpression?
    ensures ghost var r := WithRanges(tokens, i, e);
            && (e.BinaryExpression? ==> r.BinaryExpression? && r.op == e.op)
            && (e.AssignmentExpression? ==> r.AssignmentExpression? && r.op == e.op)
            && r.left == WithRanges(tokens, i, e.left)
            && r.right == WithRanges(tokens, i + Size(e.left) + 1, e.right)
  {
    hide Flatten, StartAt, EndBefore;
  }

  lemma {:induction false} EraseForgetsPairRanges(tokens: seq<Token>, i: nat, e: Expr)
    requires e.BinaryExpression? || e.AssignmentExpression?
    ensures Erase(WithRanges(tokens, i, e)) == Erase(e)
    decreases e, 0
  {
    hide Flatten, FlattenItems, StartAt, EndBefore, Erase, WithRanges;
    UnfoldErasePair(e);
    UnfoldPairRanges(tokens, i, e);
    UnfoldErasePair(WithRanges(tokens, i, e));
    EraseForgetsRanges(tokens, i, e.left);
    EraseForgetsRanges(tokens, i + Size(e.left) + 1, e.right);
  }

  lemma {:induction false} UnfoldErase(e: Expr)
    requires e.ConditionalExpression?
    ensures Erase(e) == ConditionalExpression(Range(0, 0), Erase(e.condition), Erase(e.yes), Erase(e.no))
  {
  }

  lemma {:induction false} UnfoldRanges(tokens: seq<Token>, i: nat, e: Expr)
    requires e.ConditionalExpression?
    ensures WithRanges(tokens, i, e) ==
            ConditionalExpression(Range(StartAt(tokens, i), EndBefore(tokens, i + Size(e))), WithRanges(tokens, i, e.condition),
                                  WithRanges(tokens, i + Size(e.condition) + 1, e.yes),
                                  WithRanges(tokens, i + Size(e.condition) + 1 + Size(e.yes) + 1, e.no))
  {
    hide Flatten, StartAt, EndBefore;
  }

  lemma {:induction false} EraseForgetsConditionalRanges(tokens: seq<Token>, i: nat, e: Expr)
    requires e.ConditionalExpression?
    ensures Erase(WithRanges(tokens, i, e)) == Erase(e)
    decreases e, 0
  {
    hide Flatten, FlattenItems, StartAt, EndBefore, Erase, WithRanges;
    UnfoldErase(e);
    UnfoldRanges(tokens, i, e);
    UnfoldErase(WithRanges(tokens, i, e));
    EraseForgetsRanges(tokens, i, e.condition);
    EraseForgetsRanges(tokens, i + Size(e.condition) + 1, e.yes);
    EraseForgetsRanges(tokens, i + Size(e.condition) + 1 + Size(e.yes) + 1, e.no);
  }

  lemma {:induction false} EraseForgetsItemRanges(tokens: seq<Token>, i: nat, items: seq<Expr>)
    ensures EraseItems(ItemsWithRanges(tokens, i, items)) == EraseItems(items)
    decreases items, 0
  {
    hide Flatten, FlattenItems, Erase, WithRanges;
    if |items| == 1 {
      EraseForgetsRanges(tokens, i, items[0]);
    } else if |items| > 1 {
      var before := items[..|items| - 1];
      EraseForgetsItemRanges(tokens, i, before);
      EraseForgetsRanges(tokens, i + |FlattenItems(before)| + 1, items[|items| - 1]);
      var r := ItemsWithRanges(tokens, i, items);
      assert r[..|r| - 1] == ItemsWithRanges(tokens, i, before);
    }
  }

  /** No post operator of `e`, written from `i` on, is the first token of a line. */
  predicate PostsStay(tokens: seq<Token>, i: nat, e: Expr)
    decreases e
  {
    match e
    case LiteralExpression(_, _) => true
    case ReferenceExpression(_, _) => true
    case GroupExpression(_, inner) => PostsStay(tokens, i + 1, inner)
    case MemberExpression(_, container, _) => PostsStay(tokens, i, container)
    case ComputedMemberExpression(_, container, key) =>
      PostsStay(tokens, i, container) && PostsStay(tokens, i + Size(container) + 1, key)
    case UnaryExpression(_, op, operand) =>
      if IsPostOperator(op) then PostsStay(tokens, i, operand) && !StartsLine(tokens, i + Size(operand))
      else PostsStay(tokens, i + 1, operand)
    case BinaryExpression(_, _, left, right) =>
      PostsStay(tokens, i, left) && PostsStay(tokens, i + Size(left) + 1, right)
    case ConditionalExpression(_, condition, yes, no) =>
      && PostsStay(tokens, i, condition) && PostsStay(tokens, i + Size(condition) + 1, yes)
      && PostsStay(tokens, i + Size(condition) + 1 + Size(yes) + 1, no)
    case AssignmentExpression(_, _, left, right) =>
      PostsStay(tokens, i, left) && PostsStay(tokens, i + Size(left) + 1, right)
    case CommaExpression(_, items) => ItemPostsStay(tokens, i, items)
  }

  predicate ItemPostsStay(tokens: seq<Token>, i: nat, items: seq<Expr>)
    decreases items
  {
    if items == [] then true
    else if |items| == 1 then PostsStay(tokens, i, items[0])
    else
      var before := items[..|items| - 1];
      ItemPostsStay(tokens, i, before) && PostsStay(tokens, i + |FlattenItems(before)| + 1, items[|items| - 1])
  }

  predicate StartsLine(tokens: seq<Token>, i: nat) {
    i < |tokens| && tokens[i].newlineBefore
  }

  /** A canonical tree whose flattening is spelled by the tokens is, with the right ranges, written by them. */
  lemma {:induction false} SpelledSpans(tokens: seq<Token>, i: nat, e: Expr)
    requires Canonical(e) && Spelled(tokens, i, Flatten(e)) && PostsStay(tokens, i, e)
    ensures Spans(tokens, LayerOf(e), i, WithRanges(tokens, i, e), i + Size(e))
    decreases e, 1
  {
    hide LaidOut, Spelled, CategoryOfPunctuator, PostsStay, Flatten, WithRanges, Canonical;
    match e
    case LiteralExpression(_, _) => OneTokenSpans(tokens, i, e);
    case ReferenceExpression(_, _) => OneTokenSpans(tokens, i, e);
    case GroupExpression(_, _) => SpelledGroup(tokens, i, e);
    case MemberExpression(_, _, _) => SpelledMember(tokens, i, e);
    case ComputedMemberExpression(_, _, _) => SpelledComputedMember(tokens, i, e);
    case UnaryExpression(_, _, _) => SpelledUnary(tokens, i, e);
    case BinaryExpression(_, _, _, _) => SpelledBinary(tokens, i, e);
    case ConditionalExpression(_, _, _, _) => SpelledConditional(tokens, i, e);
    case AssignmentExpression(_, _, _, _) => SpelledAssignment(tokens, i, e);
    case CommaExpression(_, _) => SpelledComma(tokens, i, e);
  }

  lemma UnfoldGroup(tokens: seq<Token>, i: nat, e: Expr)
    requires e.GroupExpression? && Canonical(e)
    ensures Flatten(e) == [Punct(LeftParenthesis)] + Flatten(e.inner) + [Punct(RightParenthesis)]
    ensures WithRanges(tokens, i, e) ==
           GroupExpression(Range(StartAt(tokens, i), EndBefore(tokens, i + Size(e))), WithRanges(tokens, i + 1, e.inner))
    ensures Canonical(e.inner)
    ensures PostsStay(tokens, i, e) ==> PostsStay(tokens, i + 1, e.inner)
  {
  }

  lemma {:induction false} SpelledGroup(tokens: seq<Token>, i: nat, e: Expr)
    requires e.GroupExpression?
    requires Canonical(e) && Spelled(tokens, i, Flatten(e)) && PostsStay(tokens, i, e)
    ensures Spans(tokens, LayerOf(e), i, WithRanges(tokens, i, e), i + Size(e))
    decreases e, 0
  {
    hide LaidOut, Spelled, CategoryOfPunctuator, PostsStay, Flatten, WithRanges, Canonical;
    UnfoldGroup(tokens, i, e);
    EnclosedSpelled(tokens, i, Punct(LeftParenthesis), Flatten(e.inner), Punct(RightParenthesis));
    SpelledSpans(tokens, i + 1, e.inner);
    GroupSpans(tokens, i, WithRanges(tokens, i + 1, e.inner), i + 1 + Size(e.inner));
  }

  lemma UnfoldMember(tokens: seq<Token>, i: nat, e: Expr)
    requires e.MemberExpression? && Canonical(e)
    ensures Flatten(e) == Flatten(e.container) + [Punct(Dot)] + [Name(e.name)]
    ensures WithRanges(tokens, i, e) ==
           MemberExpression(Range(StartAt(tokens, i), EndBefore(tokens, i + Size(e))), WithRanges(tokens, i, e.container), e.name)
    ensures LayerOf(e.container) >= LEFT_HAND_SIDE && Canonical(e.container)
    ensures PostsStay(tokens, i, e) ==> PostsStay(tokens, i, e.container)
  {
  }

  lemma {:induction false} SpelledMember(tokens: seq<Token>, i: nat, e: Expr)
    requires e.MemberExpression?
    requires Canonical(e) && Spelled(tokens, i, Flatten(e)) && PostsStay(tokens, i, e)
    ensures Spans(tokens, LayerOf(e), i, WithRanges(tokens, i, e), i + Size(e))
    decreases e, 0
  {
    hide LaidOut, Spelled, CategoryOfPunctuator, PostsStay, Flatten, WithRanges, Canonical;
    var k := i + Size(e.container);
    UnfoldMember(tokens, i, e);
    JoinSpelled(tokens, i, Flatten(e.container), Punct(Dot), [Name(e.name)]);
    SpelledOne(tokens, k + 1, Name(e.name));
    SpelledSpans(tokens, i, e.container);
    MemberSpans(tokens, i, WithRanges(tokens, i, e.container), k, e.name);
  }

  lemma {:induction false} UnfoldComputedMember(tokens: seq<Token>, i: nat, e: Expr)
    requires e.ComputedMemberExpression? && Canonical(e)
    ensures Flatten(e) == Flatten(e.container) + [Punct(LeftBracket)] + Flatten(e.key) + [Punct(RightBracket)]
    ensures WithRanges(tokens, i, e) ==
           ComputedMemberExpression(Range(StartAt(tokens, i), EndBefore(tokens, i + Size(e))),
                                    WithRanges(tokens, i, e.container), WithRanges(tokens, (i + Size(e.container)) + 1, e.key))
    ensures LayerOf(e.container) >= LEFT_HAND_SIDE && Canonical(e.container) && Canonical(e.key)
    ensures PostsStay(tokens, i, e) ==> PostsStay(tokens, i, e.container) && PostsStay(tokens, i + Size(e.container) + 1, e.key)
  {
    hide StartAt, EndBefore, CategoryOfPunctuator;
  }

  lemma {:induction false} SpelledComputedMember(tokens: seq<Token>, i: nat, e: Expr)
    requires e.ComputedMemberExpression?
    requires Canonical(e) && Spelled(tokens, i, Flatten(e)) && PostsStay(tokens, i, e)
    ensures Spans(tokens, LayerOf(e), i, WithRanges(tokens, i, e), i + Size(e))
    decreases e, 0
  {
    hide LaidOut, Spelled, CategoryOfPunctuator, PostsStay, Flatten, WithRanges, Canonical;
    var container, key := e.container, e.key;
    var k := i + Size(container);
    var j := k + 1 + Size(key);
    UnfoldComputedMember(tokens, i, e);
    SpelledConcat(tokens, i, Flatten(container) + [Punct(LeftBracket)] + Flatten(key), [Punct(RightBracket)]);
    SpelledOne(tokens, j, Punct(RightBracket));
    JoinSpelled(tokens, i, Flatten(container), Punct(LeftBracket), Flatten(key));
    SpelledSpans(tokens, i, container);
    SpelledSpans(tokens, k + 1, key);
    ComputedMemberSpans(tokens, i, WithRanges(tokens, i, container), k, WithRanges(tokens, k + 1, key), j);
  }

  lemma {:induction false} UnfoldUnary(tokens: seq<Token>, i: nat, e: Expr)
    requires e.UnaryExpression? && Canonical(e)
    ensures Flatten(e) ==
            if IsPostOperator(e.op) then Flatten(e.operand) + [TokenOfPostOperator(e.op)] else [e.op] + Flatten(e.operand)
    ensures WithRanges(tokens, i, e) ==
           UnaryExpression(Range(StartAt(tokens, i), EndBefore(tokens, i + Size(e))), e.op,
                           WithRanges(tokens, (if IsPostOperator(e.op) then i else i + 1), e.operand))
    ensures IsPrefixOperator(e.op) || IsUpdateOperator(e.op) || IsPostOperator(e.op)
    ensures LayerOf(e.operand) >= (if IsPrefixOperator(e.op) then UNARY else LEFT_HAND_SIDE) && Canonical(e.operand)
    ensures PostsStay(tokens, i, e) ==> PostsStay(tokens, if IsPostOperator(e.op) then i else i + 1, e.operand)
    ensures PostsStay(tokens, i, e) && IsPostOperator(e.op) ==> !StartsLine(tokens, i + Size(e.operand))
  {
    hide StartAt, EndBefore, CategoryOfPunctuator;
  }

  lemma {:induction false} SpelledUnary(tokens: seq<Token>, i: nat, e: Expr)
    requires e.UnaryExpression?
    requires Canonical(e) && Spelled(tokens, i, Flatten(e)) && PostsStay(tokens, i, e)
    ensures Spans(tokens, LayerOf(e), i, WithRanges(tokens, i, e), i + Size(e))
    decreases e, 0
  {
    hide LaidOut, Spelled, CategoryOfPunctuator, PostsStay, Flatten, WithRanges, Canonical;
    var op, operand := e.op, e.operand;
    var start := if IsPostOperator(op) then i else i + 1;
    UnfoldUnary(tokens, i, e);
    if IsPostOperator(op) {
      var k := i + Size(operand);
      SpelledConcat(tokens, i, Flatten(operand), [TokenOfPostOperator(op)]);
      SpelledOne(tokens, k, TokenOfPostOperator(op));
      SpelledSpans(tokens, i, operand);
      PostSpans(tokens, i, WithRanges(tokens, i, operand), k);
    } else {
      SpelledConcat(tokens, i, [op], Flatten(operand));
      SpelledOne(tokens, i, op);
      SpelledSpans(tokens, i + 1, operand);
      PrefixSpans(tokens, i, WithRanges(tokens, i + 1, operand), i + Size(e));
    }
  }

  lemma {:induction false} UnfoldBinary(tokens: seq<Token>, i: nat, e: Expr)
    requires e.BinaryExpression? && Canonical(e)
    ensures Flatten(e) == Flatten(e.left) + [e.op] + Flatten(e.right)
    ensures WithRanges(tokens, i, e) ==
           BinaryExpression(Range(StartAt(tokens, i), EndBefore(tokens, i + Size(e))), e.op,
                            WithRanges(tokens, i, e.left), WithRanges(tokens, (i + Size(e.left)) + 1, e.right))
    ensures IsBinaryOperator(e.op) && LayerOf(e.left) >= CategoryOf(e.op) && LayerOf(e.right) > CategoryOf(e.op)
    ensures Canonical(e.left) && Canonical(e.right)
    ensures PostsStay(tokens, i, e) ==> PostsStay(tokens, i, e.left) && PostsStay(tokens, i + Size(e.left) + 1, e.right)
  {
    hide StartAt, EndBefore, CategoryOfPunctuator;
  }

  lemma {:induction false} SpelledBinary(tokens: seq<Token>, i: nat, e: Expr)
    requires e.BinaryExpression?
    requires Canonical(e) && Spelled(tokens, i, Flatten(e)) && PostsStay(tokens, i, e)
    ensures Spans(tokens, LayerOf(e), i, WithRanges(tokens, i, e), i + Size(e))
    decreases e, 0
  {
    hide LaidOut, Spelled, CategoryOfPunctuator, PostsStay, Flatten, WithRanges, Canonical;
    var op, left, right := e.op, e.left, e.right;
    var k := i + Size(left);
    UnfoldBinary(tokens, i, e);
    JoinSpelled(tokens, i, Flatten(left), op, Flatten(right));
    SpelledSpans(tokens, i, left);
    SpelledSpans(tokens, k + 1, right);
    BinarySpans(tokens, i, WithRanges(tokens, i, left), k, WithRanges(tokens, k + 1, right), i + Size(e));
  }

  lemma UnfoldConditional(tokens: seq<Token>, i: nat, e: Expr)
    requires e.ConditionalExpression? && Canonical(e)
    ensures Flatten(e) == Flatten(e.condition) + [Punct(Question)] + Flatten(e.yes) + [Punct(Colon)] + Flatten(e.no)
    ensures WithRanges(tokens, i, e) ==
           ConditionalExpression(Range(StartAt(tokens, i), EndBefore(tokens, i + Size(e))), WithRanges(tokens, i, e.condition),
                                 WithRanges(tokens, i + Size(e.condition) + 1, e.yes),
                                 WithRanges(tokens, i + Size(e.condition) + 1 + Size(e.yes) + 1, e.no))
    ensures LayerOf(e.condition) >= LOGICAL_OR && LayerOf(e.yes) >= ASSIGN && LayerOf(e.no) >= ASSIGN
    ensures Canonical(e.condition) && Canonical(e.yes) && Canonical(e.no)
    ensures PostsStay(tokens, i, e) ==>
              && PostsStay(tokens, i, e.condition) && PostsStay(tokens, i + Size(e.condition) + 1, e.yes)
              && PostsStay(tokens, i + Size(e.condition) + 1 + Size(e.yes) + 1, e.no)
  {
    hide LayerOf, StartAt, EndBefore;
  }

  lemma {:induction false} SpelledConditional(tokens: seq<Token>, i: nat, e: Expr)
    requires e.ConditionalExpression?
    requires Canonical(e) && Spelled(tokens, i, Flatten(e)) && PostsStay(tokens, i, e)
    ensures Spans(tokens, LayerOf(e), i, WithRanges(tokens, i, e), i + Size(e))
    decreases e, 0
  {
    hide LaidOut, Spelled, CategoryOfPunctuator, PostsStay, Flatten, WithRanges, Canonical;
    var condition, yes, no := e.condition, e.yes, e.no;
    var k := i + Size(condition);
    var m := k + 1 + Size(yes);
    var front := Flatten(condition) + [Punct(Question)] + Flatten(yes);
    UnfoldConditional(tokens, i, e);
    JoinSpelled(tokens, i, front, Punct(Colon), Flatten(no));
    JoinSpelled(tokens, i, Flatten(condition), Punct(Question), Flatten(yes));
    SpelledSpans(tokens, i, condition);
    SpelledSpans(tokens, k + 1, yes);
    SpelledSpans(tokens, m + 1, no);
    ConditionalSpans(tokens, i, WithRanges(tokens, i, condition), k, WithRanges(tokens, k + 1, yes), m,
                     WithRanges(tokens, m + 1, no), i + Size(e));
  }

  lemma {:induction false} UnfoldAssignment(tokens: seq<Token>, i: nat, e: Expr)
    requires e.AssignmentExpression? && Canonical(e)
    ensures Flatten(e) == Flatten(e.left) + [e.op] + Flatten(e.right)
    ensures WithRanges(tokens, i, e) ==
           AssignmentExpression(Range(StartAt(tokens, i), EndBefore(tokens, i + Size(e))), e.op,
                                WithRanges(tokens, i, e.left), WithRanges(tokens, (i + Size(e.left)) + 1, e.right))
    ensures IsAssignmentOperator(e.op) && LayerOf(e.left) >= LOGICAL_OR && LayerOf(e.right) >= ASSIGN
    ensures Canonical(e.left) && Canonical(e.right)
    ensures PostsStay(tokens, i, e) ==> PostsStay(tokens, i, e.left) && PostsStay(tokens, i + Size(e.left) + 1, e.right)
  {
    hide StartAt, EndBefore, CategoryOfPunctuator;
  }

  lemma {:induction false} SpelledAssignment(tokens: seq<Token>, i: nat, e: Expr)
    requires e.AssignmentExpression?
    requires Canonical(e) && Spelled(tokens, i, Flatten(e)) && PostsStay(tokens, i, e)
    ensures Spans(tokens, LayerOf(e), i, WithRanges(tokens, i, e), i + Size(e))
    decreases e, 0
  {
    hide LaidOut, Spelled, CategoryOfPunctuator, PostsStay, Flatten, WithRanges, Canonical;
    var op, left, right := e.op, e.left, e.right;
    var k := i + Size(left);
    UnfoldAssignment(tokens, i, e);
    JoinSpelled(tokens, i, Flatten(left), op, Flatten(right));
    SpelledSpans(tokens, i, left);
    SpelledSpans(tokens, k + 1, right);
    AssignmentSpans(tokens, i, WithRanges(tokens, i, left), k, WithRanges(tokens, k + 1, right), i + Size(e));
  }

  lemma {:induction false} SpelledComma(tokens: seq<Token>, i: nat, e: Expr)
    requires e.CommaExpression?
    requires Canonical(e) && Spelled(tokens, i, Flatten(e)) && PostsStay(tokens, i, e)
    ensures Spans(tokens, LayerOf(e), i, WithRanges(tokens, i, e), i + Size(e))
    decreases e, 0
  {
    assert Flatten(e) == FlattenItems(e.items);
    assert WithRanges(tokens, i, e) ==
           CommaExpression(Range(StartAt(tokens, i), EndBefore(tokens, i + Size(e))), ItemsWithRanges(tokens, i, e.items));
    assert forall item | item in e.items :: LayerOf(item) >= ASSIGN && Canonical(item);
    hide LaidOut, Spelled, CategoryOfPunctuator, PostsStay, Flatten, WithRanges, Canonical, ItemsSpan;
    SpelledItems(tokens, i, e.items);
    CommaSpans(tokens, i, ItemsWithRanges(tokens, i, e.items), i + Size(e));
  }

  lemma {:induction false} UnfoldItems(tokens: seq<Token>, i: nat, items: seq<Expr>)
    requires |items| > 1
    ensures ghost var n := |items| - 1;
            ghost var k := i + |FlattenItems(items[..n])|;
            && FlattenItems(items) == FlattenItems(items[..n]) + [Punct(Comma)] + Flatten(items[n])
            && ItemsWithRanges(tokens, i, items) == ItemsWithRanges(tokens, i, items[..n]) + [WithRanges(tokens, k + 1, items[n])]
            && (ItemPostsStay(tokens, i, items) ==> ItemPostsStay(tokens, i, items[..n]) && PostsStay(tokens, k + 1, items[n]))
  {
    hide Flatten, WithRanges, PostsStay;
  }

  lemma {:induction false} SpelledItems(tokens: seq<Token>, i: nat, items: seq<Expr>)
    requires items != [] && forall item | item in items :: LayerOf(item) >= ASSIGN && Canonical(item)
    requires Spelled(tokens, i, FlattenItems(items)) && ItemPostsStay(tokens, i, items)
    ensures i < i + |FlattenItems(items)| <= |tokens|
    ensures ItemsSpan(tokens, i, ItemsWithRanges(tokens, i, items), i + |FlattenItems(items)|)
    decreases items, 0
  {
    hide LaidOut, Spelled, CategoryOfPunctuator, PostsStay, Flatten, WithRanges, Canonical;
    var n := |items| - 1;
    if n == 0 {
      SpelledSpans(tokens, i, items[0]);
    } else {
      hide ItemsSpan, FlattenItems, ItemsWithRanges, ItemPostsStay;
      UnfoldItems(tokens, i, items);
      var before := items[..n];
      var k := i + |FlattenItems(before)|;
      JoinSpelled(tokens, i, FlattenItems(before), Punct(Comma), Flatten(items[n]));
      SpelledItems(tokens, i, before);
      SpelledSpans(tokens, k + 1, items[n]);
      ItemsSpanMore(tokens, i, ItemsWithRanges(tokens, i, before), k, WithRanges(tokens, k + 1, items[n]), k + 1 + Size(items[n]));
    }
  }

  lemma SpelledOne(tokens: seq<Token>, i: nat, kind: Kind)
    requires Spelled(tokens, i, [kind])
    ensures Is(tokens, i, kind)
  {
    assert tokens[i + 0].kind == [kind][0];
  }

  lemma OneTokenSpans(tokens: seq<Token>, i: nat, e: Expr)
    requires e.LiteralExpression? || e.ReferenceExpression?
    requires Canonical(e) && Spelled(tokens, i, Flatten(e))
    ensures Spans(tokens, LayerOf(e), i, WithRanges(tokens, i, e), i + Size(e))
  {
    SpelledOne(tokens, i, Flatten(e)[0]);
  }

  /** A laid out tree has its post operators behind their operands. */
  lemma {:induction false} LaidOutPostsStay(tokens: seq<Token>, i: nat, e: Expr, j: nat)
    requires LaidOut(tokens, i, e, j)
    ensures PostsStay(tokens, i, e)
    decreases e, 1
  {
    match e
    case LiteralExpression(_, _) =>
    case ReferenceExpression(_, _) =>
    case GroupExpression(_, inner) => LaidOutPostsStay(tokens, i + 1, inner, j - 1);
    case MemberExpression(_, container, _) => LaidOutPostsStay(tokens, i, container, j - 2);
    case ComputedMemberExpression(_, container, key) =>
      var k := i + Size(container);
      LaidOutPostsStay(tokens, i, container, k);
      LaidOutPostsStay(tokens, k + 1, key, j - 1);
    case UnaryExpression(_, op, operand) =>
      if IsPostOperator(op) {
        LaidOutSize(tokens, i, operand, j - 1);
        LaidOutPostsStay(tokens, i, operand, j - 1);
      } else {
        LaidOutPostsStay(tokens, i + 1, operand, j);
      }
    case BinaryExpression(_, _, _, _) => LaidOutPairPostsStay(tokens, i, e, j);
    case ConditionalExpression(_, _, _, _) => LaidOutConditionalPostsStay(tokens, i, e, j);
    case AssignmentExpression(_, _, _, _) => LaidOutPairPostsStay(tokens, i, e, j);
    case CommaExpression(_, items) => LaidOutItemPostsStay(tokens, i, items, j);
  }

  lemma {:induction false} LaidOutPairPostsStay(tokens: seq<Token>, i: nat, e: Expr, j: nat)
    requires (e.BinaryExpression? || e.AssignmentExpression?) && LaidOut(tokens, i, e, j)
    ensures PostsStay(tokens, i, e)
    decreases e, 0
  {
    LaidOutPostsStay(tokens, i, e.left, i + Size(e.left));
    LaidOutPostsStay(tokens, i + Size(e.left) + 1, e.right, j);
  }

  lemma {:induction false} LaidOutConditionalPostsStay(tokens: seq<Token>, i: nat, e: Expr, j: nat)
    requires e.ConditionalExpression? && LaidOut(tokens, i, e, j)
    ensures PostsStay(tokens, i, e)
    decreases e, 0
  {
    var k := i + Size(e.condition);
    var m := k + 1 + Size(e.yes);
    LaidOutPostsStay(tokens, i, e.condition, k);
    LaidOutPostsStay(tokens, k + 1, e.yes, m);
    LaidOutPostsStay(tokens, m + 1, e.no, j);
  }

  lemma {:induction false} LaidOutItemPostsStay(tokens: seq<Token>, i: nat, items: seq<Expr>, j: nat)
    requires j <= |tokens| && ItemsLaidOut(tokens, i, items, j)
    ensures ItemPostsStay(tokens, i, items)
    decreases items, 0
  {
    var n := |items| - 1;
    if n == 0 {
      LaidOutPostsStay(tokens, i, items[0], j);
    } else {
      var k := j - Size(items[n]) - 1;
      LaidOutItemPostsStay(tokens, i, items[..n], k);
      ItemsLaidOutSize(tokens, i, items[..n], k);
      LaidOutPostsStay(tokens, k + 1, items[n], j);
    }
  }

  /** Ranges matter neither for the tokens of a tree nor for where its post operators are. */
  lemma {:induction false} EraseKeepsPosts(tokens: seq<Token>, i: nat, e: Expr)
    ensures Flatten(Erase(e)) == Flatten(e)
    ensures PostsStay(tokens, i, Erase(e)) <==> PostsStay(tokens, i, e)
    decreases e, 1
  {
    match e
    case LiteralExpression(_, _) =>
    case ReferenceExpression(_, _) =>
    case GroupExpression(_, inner) => EraseKeepsPosts(tokens, i + 1, inner);
    case MemberExpression(_, container, _) => EraseKeepsPosts(tokens, i, container);
    case ComputedMemberExpression(_, _, _) => EraseKeepsComputedMemberPosts(tokens, i, e);
    case UnaryExpression(_, op, operand) =>
      EraseKeepsPosts(tokens, if IsPostOperator(op) then i else i + 1, operand);
    case BinaryExpression(_, _, _, _) => EraseKeepsPairPosts(tokens, i, e);
    case ConditionalExpression(_, _, _, _) => EraseKeepsConditionalPosts(tokens, i, e);
    case AssignmentExpression(_, _, _, _) => EraseKeepsPairPosts(tokens, i, e);
    case CommaExpression(_, items) => EraseKeepsItemPosts(tokens, i, items);
  }

  lemma {:induction false} EraseKeepsComputedMemberPosts(tokens: seq<Token>, i: nat, e: Expr)
    requires e.ComputedMemberExpression?
    ensures Flatten(Erase(e)) == Flatten(e)
    ensures PostsStay(tokens, i, Erase(e)) <==> PostsStay(tokens, i, e)
    decreases e, 0
  {
    EraseKeepsPosts(tokens, i, e.container);
    EraseKeepsPosts(tokens, i + Size(e.container) + 1, e.key);
  }

  lemma {:induction false} EraseKeepsPairPosts(tokens: seq<Token>, i: nat, e: Expr)
    requires e.BinaryExpression? || e.AssignmentExpression?
    ensures Flatten(Erase(e)) == Flatten(e)
    ensures PostsStay(tokens, i, Erase(e)) <==> PostsStay(tokens, i, e)
    decreases e, 0
  {
    EraseKeepsPosts(tokens, i, e.left);
    EraseKeepsPosts(tokens, i + Size(e.left) + 1, e.right);
  }

  lemma {:induction false} UnfoldPosts(tokens: seq<Token>, i: nat, e: Expr)
    requires e.ConditionalExpression?
    ensures Flatten(e) == Flatten(e.condition) + [Punct(Question)] + Flatten(e.yes) + [Punct(Colon)] + Flatten(e.no)
    ensures PostsStay(tokens, i, e) <==>
              && PostsStay(tokens, i, e.condition) && PostsStay(tokens, i + Size(e.condition) + 1, e.yes)
              && PostsStay(tokens, i + Size(e.condition) + 1 + Size(e.yes) + 1, e.no)
  {
  }

  lemma {:induction false} EraseKeepsConditionalPosts(tokens: seq<Token>, i: nat, e: Expr)
    requires e.ConditionalExpression?
    ensures Flatten(Erase(e)) == Flatten(e)
    ensures PostsStay(tokens, i, Erase(e)) <==> PostsStay(tokens, i, e)
    decreases e, 0
  {
    hide Erase, PostsStay, Flatten;
    UnfoldErase(e);
    UnfoldPosts(tokens, i, e);
    UnfoldPosts(tokens, i, Erase(e));
    EraseKeepsPosts(tokens, i, e.condition);
    EraseKeepsPosts(tokens, i + Size(e.condition) + 1, e.yes);
    EraseKeepsPosts(tokens, i + Size(e.condition) + 1 + Size(e.yes) + 1, e.no);
  }

  lemma {:induction false} EraseKeepsItemPosts(tokens: seq<Token>, i: nat, items: seq<Expr>)
    ensures |EraseItems(items)| == |items| && FlattenItems(EraseItems(items)) == FlattenItems(items)
    ensures ItemPostsStay(tokens, i, EraseItems(items)) <==> ItemPostsStay(tokens, i, items)
    decreases items, 0
  {
    if items != [] {
      var before := items[..|items| - 1];
      var r := EraseItems(items);
      EraseKeepsItemPosts(tokens, i, before);
      assert r[..|r| - 1] == EraseItems(before);
      if |items| == 1 {
        EraseKeepsPosts(tokens, i, items[0]);
      } else {
        EraseKeepsPosts(tokens, i + |FlattenItems(before)| + 1, items[|items| - 1]);
      }
    }
  }

  /**
   The round trip: flatten any canonical tree, lay the tokens out anywhere, and parse them. The
   result is the same tree, with the ranges of the layout, if and only if the layout starts no
   line with a post operator.
   */
  lemma ParseOfFlatten(s: Source, e: Expr)
    requires Canonical(e) && |s.tokens| == Size(e) && Spelled(s.tokens, 0, Flatten(e))
    ensures ParseExpression(s, 0) == Parsed(WithRanges(s.tokens, 0, e), Size(e)) <==> PostsStay(s.tokens, 0, e)
    ensures Erase(WithRanges(s.tokens, 0, e)) == Erase(e)
  {
    hide LaidOut, Canonical, ParseExpression, PostsStay, WithRanges, Flatten;
    var r := WithRanges(s.tokens, 0, e);
    ParsesExactlyTheGrammar(s, r);
    EraseForgetsRanges(s.tokens, 0, e);
    if PostsStay(s.tokens, 0, e) {
      SpelledSpans(s.tokens, 0, e);
    }
    if ParseExpression(s, 0) == Parsed(r, Size(e)) {
      LaidOutPostsStay(s.tokens, 0, r, |s.tokens|);
      EraseKeepsPosts(s.tokens, 0, r);
      EraseKeepsPosts(s.tokens, 0, e);
    }
  }

  /** The round trip the other way: flattening what was parsed gives the tokens consumed. */
  lemma FlattenOfParse(s: Source, i: nat)
    ensures var r := ParseExpression(s, i);
            r.Parsed? ==> r.next == i + |Flatten(r.expr)| && Spelled(s.tokens, i, Flatten(r.expr)) && Canonical(r.expr)
  {
    hide LaidOut, Canonical, ParseExpression;
    ParserSoundness.ExpressionIsSound(s, i);
    var r := ParseExpression(s, i);
    if r.Parsed? {
      LaidOutIsSpelled(s.tokens, i, r.expr, r.next);
    }
  }
}
