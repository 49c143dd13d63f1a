/**
 What the parser makes of short expressions, with the operators written out: which of two
 operators binds tighter, which way equal ones nest, and where each token may stand. Every
 statement is about `ParseExpression` on a whole token sequence and gives the whole tree.
 */
module OperatorPrecedence {
  import opened Tokens
  import opened ExpressionGrammar
  import opened ExpressionParsing
  import ParserTheorems
  import ParserSoundness
  import ParserCompleteness

  const BINARY_OPERATORS: set<Kind> := {
    Punct(LogicalOr), Punct(LogicalAnd), Punct(BitOr), Punct(BitXor), Punct(BitAnd),
    Punct(EqualEqual), Punct(EqualEqualEqual), Punct(NotEqual), Punct(NotEqualEqual),
    Punct(LessThan), Punct(LessThanOrEqual), Punct(GreaterThan), Punct(GreaterThanOrEqual), Name(InstanceOf), Name(In),
    Punct(LeftShift), Punct(RightShift), Punct(UnsignedRightShift), Punct(Plus), Punct(Minus),
    Punct(Times), Punct(Divide), Punct(Modulo), Punct(TimesTimes)}

  const ASSIGNMENT_OPERATORS: set<Kind> := {
    Punct(Equal), Punct(PlusEqual), Punct(MinusEqual), Punct(TimesEqual), Punct(DivideEqual), Punct(ModuloEqual),
    Punct(TimesTimesEqual), Punct(LeftShiftEqual), Punct(RightShiftEqual), Punct(UnsignedRightShiftEqual),
    Punct(BitAndEqual), Punct(BitOrEqual), Punct(BitXorEqual)}

  const PREFIX_OPERATORS: set<Kind> := {
    Punct(BitNot), Punct(DotDotDot), Punct(LogicalNot), Punct(Minus), Punct(Plus),
    Name(Await), Name(Delete), Name(TypeOf), Name(Void)}

  /** A literal or an identifier. */
  predicate IsOperand(kind: Kind) {
    kind.Literal? || (kind.Name? && kind.word.Identifier?)
  }

  /** The source consists of tokens of these kinds. */
  predicate Reads(s: Source, kinds: seq<Kind>) {
    |s.tokens| == |kinds| && forall i :: 0 <= i < |kinds| ==> s.tokens[i].kind == kinds[i]
  }

  /** The range from the start of token `i` to the end of token `j`. */
  function Between(s: Source, i: nat, j: nat): Range
    requires i <= j < |s.tokens|
  {
    Range(s.tokens[i].start, s.tokens[j].end)
  }

  function Operand(s: Source, i: nat): Expr
    requires i < |s.tokens| && IsOperand(s.tokens[i].kind)
  {
    var kind := s.tokens[i].kind;
    if kind.Literal? then LiteralExpression(Between(s, i, i), kind) else ReferenceExpression(Between(s, i, i), kind.word)
  }

  // ----- Putting spans together

  lemma OperandSpans(s: Source, i: nat)
    requires i < |s.tokens| && IsOperand(s.tokens[i].kind)
    ensures Spans(s.tokens, PRIMARY, i, Operand(s, i), i + 1)
  {
  }

  lemma Weaken(tokens: seq<Token>, strong: int, layer: int, i: nat, e: Expr, j: nat)
    requires Spans(tokens, strong, i, e, j) && layer <= strong
    ensures Spans(tokens, layer, i, e, j)
  {
    hide Canonical, LaidOut, LayerOf;
  }

  lemma Whole(s: Source, layer: int, e: Expr)
    requires Spans(s.tokens, layer, 0, e, |s.tokens|) && layer >= COMMA
    ensures ParseExpression(s, 0) == Parsed(e, |s.tokens|)
  {
    hide Spans, ParseExpression;
    Weaken(s.tokens, layer, COMMA, 0, e, |s.tokens|);
    ParserTheorems.ParsesExactlyTheGrammar(s, e);
  }

  /** An operator between two trees that bind tightly enough. */
  lemma Joined(s: Source, i: nat, strong: int, left: Expr, k: nat, stronger: int, right: Expr, j: nat)
    requires k < |s.tokens| && IsBinaryOperator(s.tokens[k].kind)
    requires Spans(s.tokens, strong, i, left, k) && CategoryOf(s.tokens[k].kind) <= strong
    requires Spans(s.tokens, stronger, k + 1, right, j) && CategoryOf(s.tokens[k].kind) < stronger
    ensures i < j <= |s.tokens|
    ensures Spans(s.tokens, CategoryOf(s.tokens[k].kind), i,
                  BinaryExpression(Between(s, i, j - 1), s.tokens[k].kind, left, right), j)
  {
    hide Canonical, LaidOut, LayerOf, CategoryOf;
    Weaken(s.tokens, strong, CategoryOf(s.tokens[k].kind), i, left, k);
    Weaken(s.tokens, stronger, CategoryOf(s.tokens[k].kind) + 1, k + 1, right, j);
    BinarySpans(s.tokens, i, left, k, right, j);
  }

  /** Two operands with an operator between them, from token `i`. */
  lemma JoinedOperands(s: Source, i: nat)
    requires i + 2 < |s.tokens| && IsOperand(s.tokens[i].kind) && IsOperand(s.tokens[i + 2].kind)
    requires IsBinaryOperator(s.tokens[i + 1].kind)
    ensures Spans(s.tokens, CategoryOf(s.tokens[i + 1].kind), i,
                  BinaryExpression(Between(s, i, i + 2), s.tokens[i + 1].kind, Operand(s, i), Operand(s, i + 2)), i + 3)
  {
    hide Spans, CategoryOf;
    OperandSpans(s, i);
    OperandSpans(s, i + 2);
    Joined(s, i, PRIMARY, Operand(s, i), i + 1, PRIMARY, Operand(s, i + 2), i + 3);
  }

  // ----- Binary operators

  lemma NestedRight(s: Source, x: Kind, p: Kind, y: Kind, q: Kind, z: Kind)
    requires IsOperand(x) && IsOperand(y) && IsOperand(z) && Reads(s, [x, p, y, q, z])
    requires IsBinaryOperator(p) && IsBinaryOperator(q) && CategoryOf(p) < CategoryOf(q)
    ensures ParseExpression(s, 0) ==
            Parsed(BinaryExpression(Between(s, 0, 4), p, Operand(s, 0),
                                    BinaryExpression(Between(s, 2, 4), q, Operand(s, 2), Operand(s, 4))), 5)
  {
    hide Spans, CategoryOf, ParseExpression;
    assert s.tokens[1].kind == p && s.tokens[3].kind == q;
    OperandSpans(s, 0);
    JoinedOperands(s, 2);
    var right := BinaryExpression(Between(s, 2, 4), q, Operand(s, 2), Operand(s, 4));
    Joined(s, 0, PRIMARY, Operand(s, 0), 1, CategoryOf(q), right, 5);
    Whole(s, CategoryOf(p), BinaryExpression(Between(s, 0, 4), p, Operand(s, 0), right));
  }

  lemma NestedLeft(s: Source, x: Kind, p: Kind, y: Kind, q: Kind, z: Kind)
    requires IsOperand(x) && IsOperand(y) && IsOperand(z) && Reads(s, [x, p, y, q, z])
    requires IsBinaryOperator(p) && IsBinaryOperator(q) && CategoryOf(p) >= CategoryOf(q)
    ensures ParseExpression(s, 0) ==
            Parsed(BinaryExpression(Between(s, 0, 4), q,
                                    BinaryExpression(Between(s, 0, 2), p, Operand(s, 0), Operand(s, 2)), Operand(s, 4)), 5)
  {
    hide Spans, CategoryOf, ParseExpression;
    assert s.tokens[1].kind == p && s.tokens[3].kind == q;
    OperandSpans(s, 4);
    JoinedOperands(s, 0);
    var left := BinaryExpression(Between(s, 0, 2), p, Operand(s, 0), Operand(s, 2));
    Joined(s, 0, CategoryOf(p), left, 3, PRIMARY, Operand(s, 4), 5);
    Whole(s, CategoryOf(q), BinaryExpression(Between(s, 0, 4), q, left, Operand(s, 4)));
  }

  lemma LogicalAndBitwiseCategories()
    ensures CategoryOf(Punct(LogicalOr)) == LOGICAL_OR
    ensures CategoryOf(Punct(LogicalAnd)) == LOGICAL_AND
    ensures CategoryOf(Punct(BitOr)) == BITWISE_OR
    ensures CategoryOf(Punct(BitXor)) == BITWISE_XOR
    ensures CategoryOf(Punct(BitAnd)) == BITWISE_AND
  {
  }

  lemma EqualityCategories()
    ensures CategoryOf(Punct(EqualEqual)) == EQUALITY
    ensures CategoryOf(Punct(EqualEqualEqual)) == EQUALITY
    ensures CategoryOf(Punct(NotEqual)) == EQUALITY
    ensures CategoryOf(Punct(NotEqualEqual)) == EQUALITY
  {
  }

  lemma RelationalCategories()
    ensures CategoryOf(Punct(LessThan)) == RELATIONAL
    ensures CategoryOf(Punct(LessThanOrEqual)) == RELATIONAL
    ensures CategoryOf(Punct(GreaterThan)) == RELATIONAL
    ensures CategoryOf(Punct(GreaterThanOrEqual)) == RELATIONAL
    ensures CategoryOf(Name(InstanceOf)) == RELATIONAL
    ensures CategoryOf(Name(In)) == RELATIONAL
  {
  }

  lemma ShiftAndAdditiveCategories()
    ensures CategoryOf(Punct(LeftShift)) == SHIFT
    ensures CategoryOf(Punct(RightShift)) == SHIFT
    ensures CategoryOf(Punct(UnsignedRightShift)) == SHIFT
    ensures CategoryOf(Punct(Plus)) == ADDITIVE
    ensures CategoryOf(Punct(Minus)) == ADDITIVE
  {
  }

  lemma MultiplicativeAndExponentiationCategories()
    ensures CategoryOf(Punct(Times)) == MULTIPLICATIVE
    ensures CategoryOf(Punct(Divide)) == MULTIPLICATIVE
    ensures CategoryOf(Punct(Modulo)) == MULTIPLICATIVE
    ensures CategoryOf(Punct(TimesTimes)) == EXPONENTIATION
  {
  }

  lemma Categories()
    ensures CategoryOf(Punct(LogicalOr)) == LOGICAL_OR
    ensures CategoryOf(Punct(LogicalAnd)) == LOGICAL_AND
    ensures CategoryOf(Punct(BitOr)) == BITWISE_OR
    ensures CategoryOf(Punct(BitXor)) == BITWISE_XOR
    ensures CategoryOf(Punct(BitAnd)) == BITWISE_AND
    ensures CategoryOf(Punct(EqualEqual)) == EQUALITY
    ensures CategoryOf(Punct(EqualEqualEqual)) == EQUALITY
    ensures CategoryOf(Punct(NotEqual)) == EQUALITY
    ensures CategoryOf(Punct(NotEqualEqual)) == EQUALITY
    ensures CategoryOf(Punct(LessThan)) == RELATIONAL
    ensures CategoryOf(Punct(LessThanOrEqual)) == RELATIONAL
    ensures CategoryOf(Punct(GreaterThan)) == RELATIONAL
    ensures CategoryOf(Punct(GreaterThanOrEqual)) == RELATIONAL
    ensures CategoryOf(Name(InstanceOf)) == RELATIONAL
    ensures CategoryOf(Name(In)) == RELATIONAL
    ensures CategoryOf(Punct(LeftShift)) == SHIFT
    ensures CategoryOf(Punct(RightShift)) == SHIFT
    ensures CategoryOf(Punct(UnsignedRightShift)) == SHIFT
    ensures CategoryOf(Punct(Plus)) == ADDITIVE
    ensures CategoryOf(Punct(Minus)) == ADDITIVE
    ensures CategoryOf(Punct(Times)) == MULTIPLICATIVE
    ensures CategoryOf(Punct(Divide)) == MULTIPLICATIVE
    ensures CategoryOf(Punct(Modulo)) == MULTIPLICATIVE
    ensures CategoryOf(Punct(TimesTimes)) == EXPONENTIATION
  {
    hide CategoryOf;
    LogicalAndBitwiseCategories();
    EqualityCategories();
    RelationalCategories();
    ShiftAndAdditiveCategories();
    MultiplicativeAndExponentiationCategories();
  }

  /**
   The levels of the binary operators, from `||`, which binds least, to `**`: an operator takes
   its operands before any operator to the left of it in this list does.
   */
  lemma TighterOperatorFirst(s: Source, x: Kind, low: Kind, y: Kind, high: Kind, z: Kind)
    requires IsOperand(x) && IsOperand(y) && IsOperand(z)
    requires
      || (low == Punct(LogicalOr) && high == Punct(LogicalAnd))
      || (low == Punct(LogicalAnd) && high == Punct(BitOr))
      || (low == Punct(BitOr) && high == Punct(BitXor))
      || (low == Punct(BitXor) && high == Punct(BitAnd))
      || (low == Punct(BitAnd) && high in {Punct(EqualEqual), Punct(EqualEqualEqual), Punct(NotEqual), Punct(NotEqualEqual)})
      || (&& low in {Punct(EqualEqual), Punct(EqualEqualEqual), Punct(NotEqual), Punct(NotEqualEqual)}
          && high in {Punct(LessThan), Punct(LessThanOrEqual), Punct(GreaterThan), Punct(GreaterThanOrEqual),
                      Name(InstanceOf), Name(In)})
      || (&& low in {Punct(LessThan), Punct(LessThanOrEqual), Punct(GreaterThan), Punct(GreaterThanOrEqual),
                     Name(InstanceOf), Name(In)}
          && high in {Punct(LeftShift), Punct(RightShift), Punct(UnsignedRightShift)})
      || (low in {Punct(LeftShift), Punct(RightShift), Punct(UnsignedRightShift)} && high in {Punct(Plus), Punct(Minus)})
      || (low in {Punct(Plus), Punct(Minus)} && high in {Punct(Times), Punct(Divide), Punct(Modulo)})
      || (low in {Punct(Times), Punct(Divide), Punct(Modulo)} && high == Punct(TimesTimes))
    ensures Reads(s, [x, low, y, high, z]) ==>
              ParseExpression(s, 0) ==
              Parsed(BinaryExpression(Between(s, 0, 4), low, Operand(s, 0),
                                      BinaryExpression(Between(s, 2, 4), high, Operand(s, 2), Operand(s, 4))), 5)
    ensures Reads(s, [x, high, y, low, z]) ==>
              ParseExpression(s, 0) ==
              Parsed(BinaryExpression(Between(s, 0, 4), low,
                                      BinaryExpression(Between(s, 0, 2), high, Operand(s, 0), Operand(s, 2)), Operand(s, 4)), 5)
  {
    hide ParseExpression, IsOperand, CategoryOf, Between, Operand, Reads;
    Categories();
    if Reads(s, [x, low, y, high, z]) {
      NestedRight(s, x, low, y, high, z);
    }
    if Reads(s, [x, high, y, low, z]) {
      NestedLeft(s, x, high, y, low, z);
    }
  }

  /** Operators of one level, `**` among them, nest to the left. */
  lemma SameLevelFromTheLeft(s: Source, x: Kind, p: Kind, y: Kind, q: Kind, z: Kind)
    requires IsOperand(x) && IsOperand(y) && IsOperand(z) && Reads(s, [x, p, y, q, z])
    requires
      || {p, q} == {Punct(LogicalOr)} || {p, q} == {Punct(LogicalAnd)} || {p, q} == {Punct(BitOr)}
      || {p, q} == {Punct(BitXor)} || {p, q} == {Punct(BitAnd)}
      || {p, q} <= {Punct(EqualEqual), Punct(EqualEqualEqual), Punct(NotEqual), Punct(NotEqualEqual)}
      || {p, q} <= {Punct(LessThan), Punct(LessThanOrEqual), Punct(GreaterThan), Punct(GreaterThanOrEqual),
                    Name(InstanceOf), Name(In)}
      || {p, q} <= {Punct(LeftShift), Punct(RightShift), Punct(UnsignedRightShift)}
      || {p, q} <= {Punct(Plus), Punct(Minus)}
      || {p, q} <= {Punct(Times), Punct(Divide), Punct(Modulo)}
      || {p, q} == {Punct(TimesTimes)}
    ensures ParseExpression(s, 0) ==
            Parsed(BinaryExpression(Between(s, 0, 4), q,
                                    BinaryExpression(Between(s, 0, 2), p, Operand(s, 0), Operand(s, 2)), Operand(s, 4)), 5)
  {
    hide ParseExpression, IsOperand, CategoryOf, Between, Operand, Reads;
    Categories();
    assert p in {p, q} && q in {p, q};
    NestedLeft(s, x, p, y, q, z);
  }
  lemma BinaryOperator(q: Kind)
    requires q in BINARY_OPERATORS
    ensures IsBinaryOperator(q) && LOGICAL_OR <= CategoryOf(q) <= EXPONENTIATION
  {
    hide CategoryOf;
    Categories();
  }

  lemma AssignmentOperator(p: Kind)
    requires p in ASSIGNMENT_OPERATORS
    ensures IsAssignmentOperator(p)
  {
  }

  // ----- Assignments, conditionals and commas

  lemma Assigned(s: Source, i: nat, strong: int, left: Expr, k: nat, layer: int, right: Expr, j: nat)
    requires k < |s.tokens| && IsAssignmentOperator(s.tokens[k].kind)
    requires Spans(s.tokens, strong, i, left, k) && LOGICAL_OR <= strong
    requires Spans(s.tokens, layer, k + 1, right, j) && ASSIGN <= layer
    ensures i < j <= |s.tokens|
    ensures Spans(s.tokens, ASSIGN, i, AssignmentExpression(Between(s, i, j - 1), s.tokens[k].kind, left, right), j)
  {
    hide Canonical, LaidOut, LayerOf, IsAssignmentOperator;
    Weaken(s.tokens, strong, LOGICAL_OR, i, left, k);
    Weaken(s.tokens, layer, ASSIGN, k + 1, right, j);
    AssignmentSpans(s.tokens, i, left, k, right, j);
  }

  lemma AssignedOperands(s: Source, i: nat)
    requires i + 2 < |s.tokens| && IsOperand(s.tokens[i].kind) && IsOperand(s.tokens[i + 2].kind)
    requires IsAssignmentOperator(s.tokens[i + 1].kind)
    ensures Spans(s.tokens, ASSIGN, i,
                  AssignmentExpression(Between(s, i, i + 2), s.tokens[i + 1].kind, Operand(s, i), Operand(s, i + 2)), i + 3)
  {
    hide Spans, IsAssignmentOperator;
    OperandSpans(s, i);
    OperandSpans(s, i + 2);
    Assigned(s, i, PRIMARY, Operand(s, i), i + 1, PRIMARY, Operand(s, i + 2), i + 3);
  }

  /** Assignments nest to the right. */
  lemma AssignmentFromTheRight(s: Source, x: Kind, p: Kind, y: Kind, q: Kind, z: Kind)
    requires IsOperand(x) && IsOperand(y) && IsOperand(z) && Reads(s, [x, p, y, q, z])
    requires {p, q} <= {
                Punct(Equal), Punct(PlusEqual), Punct(MinusEqual), Punct(TimesEqual), Punct(DivideEqual), Punct(ModuloEqual),
                Punct(TimesTimesEqual), Punct(LeftShiftEqual), Punct(RightShiftEqual), Punct(UnsignedRightShiftEqual),
                Punct(BitAndEqual), Punct(BitOrEqual), Punct(BitXorEqual)}
    ensures ParseExpression(s, 0) ==
            Parsed(AssignmentExpression(Between(s, 0, 4), p, Operand(s, 0),
                                        AssignmentExpression(Between(s, 2, 4), q, Operand(s, 2), Operand(s, 4))), 5)
  {
    hide IsOperand, Operand, IsBinaryOperator, RangeOf;
    hide Spans, IsAssignmentOperator, ParseExpression;
    assert p in {p, q} && q in {p, q};
    AssignmentOperator(p);
    AssignmentOperator(q);
    assert s.tokens[1].kind == p && s.tokens[3].kind == q;
    OperandSpans(s, 0);
    AssignedOperands(s, 2);
    var right := AssignmentExpression(Between(s, 2, 4), q, Operand(s, 2), Operand(s, 4));
    Assigned(s, 0, PRIMARY, Operand(s, 0), 1, ASSIGN, right, 5);
    Whole(s, ASSIGN, AssignmentExpression(Between(s, 0, 4), p, Operand(s, 0), right));
  }

  /** Every binary operator binds tighter than an assignment, on both sides of it. */
  lemma AssignmentAfterBinary(s: Source, x: Kind, p: Kind, y: Kind, q: Kind, z: Kind)
    requires IsOperand(x) && IsOperand(y) && IsOperand(z)
    requires p in ASSIGNMENT_OPERATORS
    requires q in BINARY_OPERATORS
    ensures Reads(s, [x, p, y, q, z]) ==>
              ParseExpression(s, 0) ==
              Parsed(AssignmentExpression(Between(s, 0, 4), p, Operand(s, 0),
                                          BinaryExpression(Between(s, 2, 4), q, Operand(s, 2), Operand(s, 4))), 5)
    ensures Reads(s, [x, q, y, p, z]) ==>
              ParseExpression(s, 0) ==
              Parsed(AssignmentExpression(Between(s, 0, 4), p,
                                          BinaryExpression(Between(s, 0, 2), q, Operand(s, 0), Operand(s, 2)), Operand(s, 4)), 5)
  {
    hide Spans, IsAssignmentOperator, IsBinaryOperator, CategoryOf, ParseExpression;
    AssignmentOperator(p);
    BinaryOperator(q);
    if Reads(s, [x, p, y, q, z]) {
      AssignedBinary(s, x, p, y, q, z);
    }
    if Reads(s, [x, q, y, p, z]) {
      BinaryAssigned(s, x, q, y, p, z);
    }
  }

  lemma AssignedBinary(s: Source, x: Kind, p: Kind, y: Kind, q: Kind, z: Kind)
    requires IsOperand(x) && IsOperand(y) && IsOperand(z) && Reads(s, [x, p, y, q, z])
    requires IsAssignmentOperator(p) && IsBinaryOperator(q)
    ensures ParseExpression(s, 0) ==
            Parsed(AssignmentExpression(Between(s, 0, 4), p, Operand(s, 0),
                                        BinaryExpression(Between(s, 2, 4), q, Operand(s, 2), Operand(s, 4))), 5)
  {
    hide Spans, IsAssignmentOperator, CategoryOf, ParseExpression;
    assert s.tokens[1].kind == p && s.tokens[3].kind == q;
    OperandSpans(s, 0);
    JoinedOperands(s, 2);
    var right := BinaryExpression(Between(s, 2, 4), q, Operand(s, 2), Operand(s, 4));
    Assigned(s, 0, PRIMARY, Operand(s, 0), 1, CategoryOf(q), right, 5);
    Whole(s, ASSIGN, AssignmentExpression(Between(s, 0, 4), p, Operand(s, 0), right));
  }

  lemma BinaryAssigned(s: Source, x: Kind, q: Kind, y: Kind, p: Kind, z: Kind)
    requires IsOperand(x) && IsOperand(y) && IsOperand(z) && Reads(s, [x, q, y, p, z])
    requires IsAssignmentOperator(p) && IsBinaryOperator(q)
    ensures ParseExpression(s, 0) ==
            Parsed(AssignmentExpression(Between(s, 0, 4), p,
                                        BinaryExpression(Between(s, 0, 2), q, Operand(s, 0), Operand(s, 2)), Operand(s, 4)), 5)
  {
    hide Spans, IsAssignmentOperator, CategoryOf, ParseExpression;
    assert s.tokens[1].kind == q && s.tokens[3].kind == p;
    OperandSpans(s, 4);
    JoinedOperands(s, 0);
    var left := BinaryExpression(Between(s, 0, 2), q, Operand(s, 0), Operand(s, 2));
    Assigned(s, 0, CategoryOf(q), left, 3, PRIMARY, Operand(s, 4), 5);
    Whole(s, ASSIGN, AssignmentExpression(Between(s, 0, 4), p, left, Operand(s, 4)));
  }

  lemma Chosen(s: Source, i: nat, strong: int, condition: Expr, k: nat, a: int, yes: Expr, m: nat, b: int, no: Expr, j: nat)
    requires Is(s.tokens, k, Punct(Question)) && Is(s.tokens, m, Punct(Colon))
    requires Spans(s.tokens, strong, i, condition, k) && LOGICAL_OR <= strong
    requires Spans(s.tokens, a, k + 1, yes, m) && ASSIGN <= a
    requires Spans(s.tokens, b, m + 1, no, j) && ASSIGN <= b
    ensures i < j <= |s.tokens|
    ensures Spans(s.tokens, CONDITIONAL, i, ConditionalExpression(Between(s, i, j - 1), condition, yes, no), j)
  {
    hide Canonical, LaidOut, LayerOf;
    Weaken(s.tokens, strong, LOGICAL_OR, i, condition, k);
    Weaken(s.tokens, a, ASSIGN, k + 1, yes, m);
    Weaken(s.tokens, b, ASSIGN, m + 1, no, j);
    ConditionalSpans(s.tokens, i, condition, k, yes, m, no, j);
  }

  lemma ChosenOperands(s: Source, i: nat)
    requires i + 4 < |s.tokens|
    requires IsOperand(s.tokens[i].kind) && IsOperand(s.tokens[i + 2].kind) && IsOperand(s.tokens[i + 4].kind)
    requires s.tokens[i + 1].kind == Punct(Question) && s.tokens[i + 3].kind == Punct(Colon)
    ensures Spans(s.tokens, CONDITIONAL, i,
                  ConditionalExpression(Between(s, i, i + 4), Operand(s, i), Operand(s, i + 2), Operand(s, i + 4)), i + 5)
  {
    hide IsOperand, Operand, Spans;
    OperandSpans(s, i);
    OperandSpans(s, i + 2);
    OperandSpans(s, i + 4);
    Chosen(s, i, PRIMARY, Operand(s, i), i + 1, PRIMARY, Operand(s, i + 2), i + 3, PRIMARY, Operand(s, i + 4), i + 5);
  }

  /** The condition takes in a binary operator, and both branches take in an assignment. */
  lemma ConditionalAroundOperators(s: Source, w: Kind, q: Kind, x: Kind, y: Kind, p: Kind, z: Kind, u: Kind, r: Kind, v: Kind)
    requires IsOperand(w) && IsOperand(x) && IsOperand(y) && IsOperand(z) && IsOperand(u) && IsOperand(v)
    requires q in BINARY_OPERATORS
    requires {p, r} <= ASSIGNMENT_OPERATORS
    requires Reads(s, [w, q, x, Punct(Question), y, p, z, Punct(Colon), u, r, v])
    ensures ParseExpression(s, 0) ==
            Parsed(ConditionalExpression(Between(s, 0, 10),
                                         BinaryExpression(Between(s, 0, 2), q, Operand(s, 0), Operand(s, 2)),
                                         AssignmentExpression(Between(s, 4, 6), p, Operand(s, 4), Operand(s, 6)),
                                         AssignmentExpression(Between(s, 8, 10), r, Operand(s, 8), Operand(s, 10))), 11)
  {
    hide IsOperand, Operand, IsBinaryOperator, RangeOf;
    hide Spans, CategoryOf, IsAssignmentOperator, ParseExpression;
    BinaryOperator(q);
    assert p in {p, r} && r in {p, r};
    AssignmentOperator(p);
    AssignmentOperator(r);
    assert s.tokens[1].kind == q && s.tokens[5].kind == p && s.tokens[9].kind == r;
    JoinedOperands(s, 0);
    AssignedOperands(s, 4);
    AssignedOperands(s, 8);
    var condition := BinaryExpression(Between(s, 0, 2), q, Operand(s, 0), Operand(s, 2));
    var yes := AssignmentExpression(Between(s, 4, 6), p, Operand(s, 4), Operand(s, 6));
    var no := AssignmentExpression(Between(s, 8, 10), r, Operand(s, 8), Operand(s, 10));
    Chosen(s, 0, CategoryOf(q), condition, 3, ASSIGN, yes, 7, ASSIGN, no, 11);
    Whole(s, CONDITIONAL, ConditionalExpression(Between(s, 0, 10), condition, yes, no));
  }

  /** Conditionals nest to the right, and bind tighter than an assignment on their left. */
  lemma ConditionalFromTheRight(s: Source, w: Kind, p: Kind, x: Kind, y: Kind, z: Kind, u: Kind, v: Kind)
    requires IsOperand(w) && IsOperand(x) && IsOperand(y) && IsOperand(z) && IsOperand(u) && IsOperand(v)
    requires p in ASSIGNMENT_OPERATORS
    requires Reads(s, [w, p, x, Punct(Question), y, Punct(Colon), z, Punct(Question), u, Punct(Colon), v])
    ensures ParseExpression(s, 0) ==
            Parsed(AssignmentExpression(Between(s, 0, 10), p, Operand(s, 0),
                     ConditionalExpression(Between(s, 2, 10), Operand(s, 2), Operand(s, 4),
                       ConditionalExpression(Between(s, 6, 10), Operand(s, 6), Operand(s, 8), Operand(s, 10)))), 11)
  {
    hide IsOperand, Operand, IsBinaryOperator, RangeOf;
    hide Spans, IsAssignmentOperator, ParseExpression;
    AssignmentOperator(p);
    assert s.tokens[1].kind == p;
    OperandSpans(s, 0);
    OperandSpans(s, 2);
    OperandSpans(s, 4);
    ChosenOperands(s, 6);
    var inner := ConditionalExpression(Between(s, 6, 10), Operand(s, 6), Operand(s, 8), Operand(s, 10));
    Chosen(s, 2, PRIMARY, Operand(s, 2), 3, PRIMARY, Operand(s, 4), 5, CONDITIONAL, inner, 11);
    var outer := ConditionalExpression(Between(s, 2, 10), Operand(s, 2), Operand(s, 4), inner);
    Assigned(s, 0, PRIMARY, Operand(s, 0), 1, CONDITIONAL, outer, 11);
    Whole(s, ASSIGN, AssignmentExpression(Between(s, 0, 10), p, Operand(s, 0), outer));
  }

  /** A comma binds least of all, and gathers all its items in one node. */
  lemma CommaLast(s: Source, x: Kind, y: Kind, p: Kind, z: Kind, w: Kind)
    requires IsOperand(x) && IsOperand(y) && IsOperand(z) && IsOperand(w)
    requires p in ASSIGNMENT_OPERATORS
    requires Reads(s, [x, Punct(Comma), y, p, z, Punct(Comma), w])
    ensures ParseExpression(s, 0) ==
            Parsed(CommaExpression(Between(s, 0, 6),
                                   [Operand(s, 0),
                                    AssignmentExpression(Between(s, 2, 4), p, Operand(s, 2), Operand(s, 4)),
                                    Operand(s, 6)]), 7)
  {
    hide IsOperand, Operand;
    hide Spans, IsAssignmentOperator, ParseExpression, ItemsSpan;
    AssignmentOperator(p);
    assert s.tokens[3].kind == p;
    OperandSpans(s, 0);
    AssignedOperands(s, 2);
    OperandSpans(s, 6);
    var second := AssignmentExpression(Between(s, 2, 4), p, Operand(s, 2), Operand(s, 4));
    Weaken(s.tokens, PRIMARY, ASSIGN, 0, Operand(s, 0), 1);
    Weaken(s.tokens, PRIMARY, ASSIGN, 6, Operand(s, 6), 7);
    OneItem(s, 0, Operand(s, 0), 1);
    ItemsSpanMore(s.tokens, 0, [Operand(s, 0)], 1, second, 5);
    ItemsSpanMore(s.tokens, 0, [Operand(s, 0)] + [second], 5, Operand(s, 6), 7);
    assert [Operand(s, 0)] + [second] + [Operand(s, 6)] == [Operand(s, 0), second, Operand(s, 6)];
    CommaSpans(s.tokens, 0, [Operand(s, 0), second, Operand(s, 6)], 7);
    Whole(s, COMMA, CommaExpression(Between(s, 0, 6), [Operand(s, 0), second, Operand(s, 6)]));
  }

  lemma OneItem(s: Source, i: nat, e: Expr, j: nat)
    requires Spans(s.tokens, ASSIGN, i, e, j)
    ensures ItemsSpan(s.tokens, i, [e], j)
  {
  }
}
