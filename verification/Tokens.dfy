/** Tokens of JavaScript expressions and the precedence of operators. */
module Tokens {

  datatype Punctuator =
    | Invalid | LeftBrace | RightBrace | LeftBracket | RightBracket | LeftParenthesis | RightParenthesis
    | Dot | DotDot | DotDotDot | Semicolon | Comma
    | LessThan | LessThanOrEqual | GreaterThan | GreaterThanOrEqual | EqualEqual | EqualEqualEqual
    | Plus | Minus | Times | Modulo
    | PlusPlus | PostPlusPlus | MinusMinus | PostMinusMinus
    | LeftShift | RightShift | UnsignedRightShift | BitAnd | BitOr | BitXor
    | LogicalNot | NotEqual | NotEqualEqual | BitNot | LogicalAnd | LogicalOr | Question | Colon
    | Equal | PlusEqual | MinusEqual | TimesEqual | ModuloEqual | LeftShiftEqual | RightShiftEqual
    | UnsignedRightShiftEqual | BitAndEqual | BitOrEqual | BitXorEqual
    | Arrow | TimesTimes | TimesTimesEqual | Divide | DivideEqual

  /** Names: the keywords the expression parser looks at, all other keywords, and identifiers. */
  datatype Word =
    | Await | Class | Delete | False | Function | In | InstanceOf | New | Null | Super | This | True
    | TypeOf | Void | Yield
    | OtherKeyword(id: nat)
    | Async
    | Identifier(id: nat)

  /** `Other` stands for tokens that start no modelled expression, such as JsDoc comments. */
  datatype Kind =
    | Punct(punctuator: Punctuator)
    | Name(word: Word)
    | Literal(id: nat)
    | Other(id: nat)

  datatype Token = Token(kind: Kind, start: int, end: int, newlineBefore: bool)

  // Operator precedence, low to high.
  const ASSIGNMENT: nat := 0
  const LOGICAL_OR: nat := 1
  const LOGICAL_AND: nat := 2
  const BITWISE_OR: nat := 3
  const BITWISE_XOR: nat := 4
  const BITWISE_AND: nat := 5
  const EQUALITY: nat := 6
  const RELATIONAL: nat := 7
  const SHIFT: nat := 8
  const ADDITIVE: nat := 9
  const MULTIPLICATIVE: nat := 10
  const EXPONENTIATION: nat := 11
  const NONE: nat := 12

  function CategoryOfPunctuator(p: Punctuator): (r: nat)
    ensures r <= NONE
  {
    match p
    case LessThan | LessThanOrEqual | GreaterThan | GreaterThanOrEqual => RELATIONAL
    case EqualEqual | EqualEqualEqual | NotEqual | NotEqualEqual => EQUALITY
    case Plus | Minus => ADDITIVE
    case Times | Modulo | Divide => MULTIPLICATIVE
    case LeftShift | RightShift | UnsignedRightShift => SHIFT
    case BitAnd => BITWISE_AND
    case BitOr => BITWISE_OR
    case BitXor => BITWISE_XOR
    case LogicalAnd => LOGICAL_AND
    case LogicalOr => LOGICAL_OR
    case TimesTimes => EXPONENTIATION
    case Equal | PlusEqual | MinusEqual | TimesEqual | ModuloEqual | LeftShiftEqual | RightShiftEqual
       | UnsignedRightShiftEqual | BitAndEqual | BitOrEqual | BitXorEqual | TimesTimesEqual | DivideEqual => ASSIGNMENT
    case _ => NONE
  }

  function CategoryOf(kind: Kind): (r: nat)
    ensures r <= NONE
  {
    match kind
    case Punct(p) => CategoryOfPunctuator(p)
    case Name(word) => if word == InstanceOf || word == In then RELATIONAL else NONE
    case _ => NONE
  }

  predicate IsAssignmentOperator(kind: Kind) {
    kind.Punct? && CategoryOf(kind) == ASSIGNMENT
  }

  predicate IsBinaryOperator(kind: Kind) {
    LOGICAL_OR <= CategoryOf(kind) <= EXPONENTIATION
  }

  predicate IsUnaryOperator(kind: Kind) {
    kind.Punct? && kind.punctuator in {BitNot, DotDotDot, LogicalNot, Minus, Plus}
  }

  predicate IsKeywordOperator(kind: Kind) {
    kind.Name? && kind.word in {Await, Delete, TypeOf, Void}
  }

  predicate IsPrefixOperator(kind: Kind) {
    IsUnaryOperator(kind) || IsKeywordOperator(kind)
  }

  predicate IsUpdateOperator(kind: Kind) {
    kind == Punct(PlusPlus) || kind == Punct(MinusMinus)
  }

  /** `++` and `--` after an operand. */
  predicate IsPostOperator(kind: Kind) {
    kind == Punct(PostPlusPlus) || kind == Punct(PostMinusMinus)
  }

  function ConvertToPostOperator(kind: Kind): Kind
    requires IsUpdateOperator(kind)
  {
    if kind == Punct(PlusPlus) then Punct(PostPlusPlus) else Punct(PostMinusMinus)
  }

  /** The token a post operator was made from. */
  function TokenOfPostOperator(kind: Kind): Kind
    requires IsPostOperator(kind)
  {
    if kind == Punct(PostPlusPlus) then Punct(PlusPlus) else Punct(MinusMinus)
  }

  predicate IsKeyword(word: Word) {
    !word.Async? && !word.Identifier?
  }

  /** The names that are literals, and those that are references, when an operand is expected. */
  predicate IsLiteralWord(word: Word) {
    word == True || word == False || word == Null
  }

  predicate IsReferenceWord(word: Word) {
    word == Super || word == This || !IsKeyword(word)
  }
}
