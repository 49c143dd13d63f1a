/** Operators of the intermediate representation. An operator is created once per operation. */
module Operators {

  newtype int64 = x: int | -0x8000_0000_0000_0000 <= x < 0x8000_0000_0000_0000

  datatype OperationCode = Exit | If | IfException | IfFalse | IfSuccess | IfTrue | LiteralVoid | Ret | Start

  datatype SizedOperationCode = Projection | Tuple

  /** What an operator does: its code and its members. */
  datatype Operation =
    | Plain(code: OperationCode)
    | Sized(sizedCode: SizedOperationCode, size: nat)
    | LiteralBool(boolData: bool)
    | LiteralInt64(int64Data: int64)
    | LiteralString(stringData: string)

  function ArityOf(operation: Operation): nat {
    match operation
    case Plain(code) => if code == LiteralVoid || code == Start then 0 else if code == If || code == Ret then 2 else 1
    case Sized(code, size) => if code == Projection then 1 else size
    case _ => 0
  }

  class Operator {
    const operation: Operation

    constructor (operation: Operation)
      ensures this.operation == operation
    {
      this.operation := operation;
    }
  }

  class OperatorFactory {
    const falseOperator: Operator
    const trueOperator: Operator
    var plainMap: map<OperationCode, Operator>
    var sizeMap: map<(SizedOperationCode, nat), Operator>
    var int64Map: map<int64, Operator>
    var stringMap: map<string, Operator>
    /** All operators ever created. */
    ghost var operators: set<Operator>

    /** The operator registered for `operation`, if any. */
    ghost function Registered(operation: Operation): Operator?
      reads this
    {
      match operation
      case Plain(code) => if code in plainMap then plainMap[code] else null
      case Sized(code, size) => if (code, size) in sizeMap then sizeMap[(code, size)] else null
      case LiteralBool(data) => if data then trueOperator else falseOperator
      case LiteralInt64(data) => if data in int64Map then int64Map[data] else null
      case LiteralString(data) => if data in stringMap then stringMap[data] else null
    }

    ghost predicate Valid()
      reads this
    {
      && (forall o | o in operators :: Registered(o.operation) == o)
      && (forall operation: Operation :: Registered(operation) != null ==>
            Registered(operation) in operators && Registered(operation).operation == operation)
    }

    constructor ()
      ensures Valid() && fresh(operators)
    {
      var f := new Operator(LiteralBool(false));
      var t := new Operator(LiteralBool(true));
      falseOperator, trueOperator := f, t;
      plainMap, sizeMap, int64Map, stringMap := map[], map[], map[], map[];
      operators := {f, t};
    }

    /** The factory functions for operators without members. */
    method NewPlain(code: OperationCode) returns (r: Operator)
      requires Valid()
      modifies this
      ensures Valid() && old(operators) <= operators && r in operators && r.operation == Plain(code)
      ensures operators == old(operators) || (operators == old(operators) + {r} && fresh(r))
    {
      if code in plainMap {
        assert Registered(Plain(code)) == plainMap[code];
        return plainMap[code];
      }
      r := new Operator(Plain(code));
      plainMap := plainMap[code := r];
      operators := operators + {r};
      Registers(Plain(code), r);
    }

    /** The factory functions for operators with a size or an index. */
    method NewSized(code: SizedOperationCode, size: nat) returns (r: Operator)
      requires Valid()
      modifies this
      ensures Valid() && old(operators) <= operators && r in operators && r.operation == Sized(code, size)
      ensures operators == old(operators) || (operators == old(operators) + {r} && fresh(r))
    {
      if (code, size) in sizeMap {
        assert Registered(Sized(code, size)) == sizeMap[(code, size)];
        return sizeMap[(code, size)];
      }
      r := new Operator(Sized(code, size));
      sizeMap := sizeMap[(code, size) := r];
      operators := operators + {r};
      Registers(Sized(code, size), r);
    }

    method NewLiteralBool(data: bool) returns (r: Operator)
      requires Valid()
      ensures r in operators && r.operation == LiteralBool(data)
    {
      assert Registered(LiteralBool(data)) == if data then trueOperator else falseOperator;
      return if data then trueOperator else falseOperator;
    }

    method NewLiteralInt64(data: int64) returns (r: Operator)
      requires Valid()
      modifies this
      ensures Valid() && old(operators) <= operators && r in operators && r.operation == LiteralInt64(data)
      ensures operators == old(operators) || (operators == old(operators) + {r} && fresh(r))
    {
      if data in int64Map {
        assert Registered(LiteralInt64(data)) == int64Map[data];
        return int64Map[data];
      }
      r := new Operator(LiteralInt64(data));
      int64Map := int64Map[data := r];
      operators := operators + {r};
      Registers(LiteralInt64(data), r);
    }

    method NewLiteralString(data: string) returns (r: Operator)
      requires Valid()
      modifies this
      ensures Valid() && old(operators) <= operators && r in operators && r.operation == LiteralString(data)
      ensures operators == old(operators) || (operators == old(operators) + {r} && fresh(r))
    {
      if data in stringMap {
        assert Registered(LiteralString(data)) == stringMap[data];
        return stringMap[data];
      }
      r := new Operator(LiteralString(data));
      stringMap := stringMap[data := r];
      operators := operators + {r};
      Registers(LiteralString(data), r);
    }

    /** One registration changes what is registered for its operation only. */
    twostate lemma Registers(operation: Operation, new r: Operator)
      requires old(Valid()) && operators == old(operators) + {r} && r.operation == operation
      requires old(Registered(operation)) == null && Registered(operation) == r
      requires forall other: Operation :: other != operation ==> Registered(other) == old(Registered(other))
      ensures Valid()
    {
    }

    /** Operators are told apart by what they do. */
    lemma OneOperatorPerOperation(a: Operator, b: Operator)
      requires Valid() && a in operators && b in operators
      ensures a == b <==> a.operation == b.operation
    {
      assert Registered(a.operation) == a && Registered(b.operation) == b;
    }
  }
}
