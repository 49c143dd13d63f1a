/**
 Type expressions of JsDoc turned into types. A type expression means a set of atoms; the
 transformer returns the one object with those atoms. Adding null to a type and stripping it
 undo each other, with the exceptions stated at the end.
 */
module TypeTransformation {
  import opened TypeFactories
  import opened Wrappers

  datatype TypeNode =
    | AnyTypeNode | UnknownTypeNode | VoidTypeNode | InvalidTypeNode
    | NullableType(node: TypeNode)
    | NonNullableType(node: TypeNode)
    | OptionalType(node: TypeNode)
    | RestType(node: TypeNode)
    | TypeGroup(node: TypeNode)
    /** A name with the type the context knows for it. */
    | TypeName(known: Option<Type>)
    | UnionType(nodes: seq<TypeNode>)

  datatype ErrorCode = ExpectNullableType | UndefinedType | UnexpectOptional | UnexpectRest

  /** Adds null to the type with atoms `d`. */
  ghost function AddNull(f: TypeFactory, d: set<Type>): set<Type> {
    if d == {f.anyType} || d == {f.invalidType} || d == {f.unspecifiedType} then d else d + {f.nullType}
  }

  /** Only a union can lose its null. */
  ghost function StripNull(f: TypeFactory, d: set<Type>): set<Type> {
    if f.nullType in d && d != {f.nullType} then d - {f.nullType} else d
  }

  ghost function Collapse(f: TypeFactory, d: set<Type>): set<Type> {
    if f.anyType in d then {f.anyType} else d
  }

  /** The atoms of the type that `node` denotes. */
  ghost function Denote(f: TypeFactory, node: TypeNode): set<Type> {
    match node
    case AnyTypeNode | UnknownTypeNode => {f.anyType}
    case VoidTypeNode => {f.voidType}
    case InvalidTypeNode => {f.unspecifiedType}
    case NullableType(n) => AddNull(f, Denote(f, n))
    case NonNullableType(n) => StripNull(f, Denote(f, n))
    case OptionalType(n) => Denote(f, n)
    case RestType(n) => Denote(f, n)
    case TypeGroup(n) => Denote(f, n)
    case TypeName(None) => {f.unspecifiedType}
    case TypeName(Some(t)) => if t.shape.ClassType? || t.shape.FunctionType? then {t, f.nullType} else Atoms(t)
    case UnionType(nodes) => Collapse(f, DenoteAll(f, nodes))
  }

  ghost function DenoteAll(f: TypeFactory, nodes: seq<TypeNode>): set<Type> {
    if nodes == [] then {} else DenoteAll(f, nodes[..|nodes| - 1]) + Denote(f, nodes[|nodes| - 1])
  }

  /** The errors reported for `node`, in order. */
  ghost function Errors(f: TypeFactory, node: TypeNode): seq<(TypeNode, ErrorCode)> {
    match node
    case AnyTypeNode | UnknownTypeNode | VoidTypeNode | InvalidTypeNode => []
    case NullableType(n) => Errors(f, n)
    case NonNullableType(n) =>
      Errors(f, n) + if StripNull(f, Denote(f, n)) == Denote(f, n) then [(n, ExpectNullableType)] else []
    case OptionalType(n) => [(node, UnexpectOptional)] + Errors(f, n)
    case RestType(n) => [(node, UnexpectRest)] + Errors(f, n)
    case TypeGroup(n) => Errors(f, n)
    case TypeName(known) => if known.None? then [(node, UndefinedType)] else []
    case UnionType(nodes) => ErrorsOfAll(f, nodes)
  }

  ghost function ErrorsOfAll(f: TypeFactory, nodes: seq<TypeNode>): seq<(TypeNode, ErrorCode)> {
    if nodes == [] then [] else
      ErrorsOfAll(f, nodes[..|nodes| - 1]) + Errors(f, nodes[|nodes| - 1])
  }

  /** The names in `node` are bound to types of the factory. */
  ghost predicate KnownTypesIn(types: set<Type>, node: TypeNode) {
    match node
    case AnyTypeNode | UnknownTypeNode | VoidTypeNode | InvalidTypeNode => true
    case NullableType(n) => KnownTypesIn(types, n)
    case NonNullableType(n) => KnownTypesIn(types, n)
    case OptionalType(n) => KnownTypesIn(types, n)
    case RestType(n) => KnownTypesIn(types, n)
    case TypeGroup(n) => KnownTypesIn(types, n)
    case TypeName(known) => known.Some? ==> known.value in types
    case UnionType(nodes) => forall n | n in nodes :: KnownTypesIn(types, n)
  }

  lemma {:induction false} KnownTypesStay(types: set<Type>, more: set<Type>, node: TypeNode)
    requires KnownTypesIn(types, node) && types <= more
    ensures KnownTypesIn(more, node)
  {
    match node
    case AnyTypeNode | UnknownTypeNode | VoidTypeNode | InvalidTypeNode | TypeName(_) =>
    case NullableType(n) => KnownTypesStay(types, more, n);
    case NonNullableType(n) => KnownTypesStay(types, more, n);
    case OptionalType(n) => KnownTypesStay(types, more, n);
    case RestType(n) => KnownTypesStay(types, more, n);
    case TypeGroup(n) => KnownTypesStay(types, more, n);
    case UnionType(nodes) =>
      forall n | n in nodes ensures KnownTypesIn(more, n) {
        KnownTypesStay(types, more, n);
      }
  }

  /** `r` is what `Transform` returns for `node`, now or at any time before. */
  ghost predicate IsResult(f: TypeFactory, node: TypeNode, r: Type)
    reads f
  {
    r in f.types && Atoms(r) == Denote(f, node)
  }

  class TypeTransformer {
    const factory: TypeFactory
    var errors: seq<(TypeNode, ErrorCode)>

    constructor (factory: TypeFactory)
      ensures this.factory == factory && errors == []
    {
      this.factory, errors := factory, [];
    }

    method AddError(node: TypeNode, code: ErrorCode)
      modifies this`errors
      ensures errors == old(errors) + [(node, code)]
    {
      errors := errors + [(node, code)];
    }

    /** Types that fail `CanBeNullable` reach here only past a debug check; null is added all the same. */
    method NewNullableType(t: Type) returns (r: Type)
      requires factory.Valid() && t in factory.types
      modifies factory
      ensures factory.Valid() && old(factory.types) <= factory.types && r in factory.types
      ensures Atoms(r) == AddNull(factory, Atoms(t))
    {
      if t.shape.Any? || t.shape.Invalid? || t.shape.Unspecified? {
        return t;
      }
      SingleAtom(factory, t);
      PairWithNull(factory, t);
      r := factory.NewUnionTypeFromVector([t, factory.nullType]);
    }

    /** Strips null from the members of a union; anything else is an error. */
    method NonNullable(typeNode: TypeNode, t: Type) returns (r: Type)
      requires factory.Valid() && t in factory.types
      modifies this, factory
      ensures factory.Valid() && old(factory.types) <= factory.types && r in factory.types
      ensures Atoms(r) == StripNull(factory, Atoms(t))
      ensures errors == old(errors) + if r == t then [(typeNode, ExpectNullableType)] else []
      ensures r == t <==> !(t.shape.Union? && factory.nullType in t.shape.members)
    {
      hide UnionsAreCached, TuplesAreCached, ClassTypesAreCached, FunctionTypesAreCached, DistinctIds, AreUpTo;
      if !t.shape.Union? {
        AddError(typeNode, ExpectNullableType);
        SingleAtom(factory, t);
        return t;
      }
      factory.TwoAtoms(t);
      assert factory.nullType in Atoms(t) <==> factory.nullType in t.shape.members;
      var members := MembersWithoutNull(t);
      if |members| == |t.shape.members| {
        AddError(typeNode, ExpectNullableType);
        return t;
      }
      JoinOfMembers(factory, t, members);
      r := factory.NewUnionTypeFromVector(members);
    }

    method MembersWithoutNull(u: Type) returns (members: seq<Type>)
      requires factory.Valid() && u in factory.types && u.shape.Union?
      ensures Elements(members) == Atoms(u) - {factory.nullType}
      ensures |members| == |u.shape.members| <==> factory.nullType !in u.shape.members
    {
      hide TypeFactory.Valid;
      var all := u.shape.members;
      members := [];
      for i := 0 to |all|
        invariant Elements(members) == Elements(all[..i]) - {factory.nullType}
        invariant |members| <= i && (|members| == i <==> factory.nullType !in all[..i])
      {
        IsNull(factory, u, i);
        ElementsAppended(all[..i], all[i]);
        ElementsAppended(members, all[i]);
        assert all[..i + 1] == all[..i] + [all[i]];
        if all[i].shape.Null? {
          continue;
        }
        members := members + [all[i]];
      }
      assert all[..|all|] == all;
    }

    method TransformNonNullableType(node: TypeNode) returns (r: Type)
      requires factory.Valid() && node.NonNullableType? && KnownTypesIn(factory.types, node)
      modifies this, factory
      ensures factory.Valid() && old(factory.types) <= factory.types && r in factory.types
      ensures Atoms(r) == Denote(factory, node)
      ensures errors == old(errors) + Errors(factory, node)
      decreases node, 0
    {
      hide TypeFactory.Valid, Atoms;
      var t := Transform(node.node);
      r := NonNullable(node.node, t);
      if Atoms(r) == Atoms(t) {
        factory.AtomsDetermine(r, t);
      }
      var own := if r == t then [(node.node, ExpectNullableType)] else [];
      assert old(errors) + Errors(factory, node.node) + own == old(errors) + (Errors(factory, node.node) + own);
    }

    method TransformTypeName(node: TypeNode) returns (r: Type)
      requires factory.Valid() && node.TypeName? && KnownTypesIn(factory.types, node)
      modifies this, factory
      ensures factory.Valid() && old(factory.types) <= factory.types && r in factory.types
      ensures Atoms(r) == Denote(factory, node)
      ensures errors == old(errors) + Errors(factory, node)
      ensures node.known.None? ==> r == factory.unspecifiedType && errors == old(errors) + [(node, UndefinedType)]
      ensures node.known.Some? ==> errors == old(errors)
    {
      hide UnionsAreCached, TuplesAreCached, ClassTypesAreCached, FunctionTypesAreCached, DistinctIds, AreUpTo;
      if node.known.None? {
        AddError(node, UndefinedType);
        return factory.unspecifiedType;
      }
      var t := node.known.value;
      if t.shape.ClassType? || t.shape.FunctionType? {
        SingleAtom(factory, t);
        r := NewNullableType(t);
        return;
      }
      return t;
    }

    method TransformUnionType(nodes: seq<TypeNode>) returns (r: Type)
      requires factory.Valid() && KnownTypesIn(factory.types, UnionType(nodes))
      modifies this, factory
      ensures factory.Valid() && old(factory.types) <= factory.types && r in factory.types
      ensures Atoms(r) == Denote(factory, UnionType(nodes))
      ensures errors == old(errors) + Errors(factory, UnionType(nodes))
      decreases nodes
    {
      hide TypeFactory.Valid, Atoms, AtomsOfAll, Elements, Denote, Errors;
      NoTypes();
      UnionMeaning(factory, nodes);
      var types: seq<Type> := [];
      for i := 0 to |nodes|
        invariant factory.Valid() && old(factory.types) <= factory.types && Elements(types) <= factory.types
        invariant AtomsOfAll(types) == DenoteAll(factory, nodes[..i])
        invariant errors == old(errors) + ErrorsOfAll(factory, nodes[..i])
      {
        KnownTypesStay(old(factory.types), factory.types, nodes[i]);
        var t := Transform(nodes[i]);
        assert nodes[..i + 1][..i] == nodes[..i];
        AtomsOfAppended(types, t);
        types := types + [t];
      }
      assert nodes[..|nodes|] == nodes;
      JoinCollapses(factory, types);
      r := factory.NewUnionTypeFromVector(types);
    }

    method TransformNullableType(node: TypeNode) returns (r: Type)
      requires factory.Valid() && node.NullableType? && KnownTypesIn(factory.types, node)
      modifies this, factory
      ensures factory.Valid() && old(factory.types) <= factory.types && r in factory.types
      ensures Atoms(r) == Denote(factory, node)
      ensures errors == old(errors) + Errors(factory, node)
      decreases node, 0
    {
      hide TypeFactory.Valid, Atoms, AddNull;
      r := Transform(node.node);
      r := NewNullableType(r);
    }

    /** Optional and rest types outside of parameter lists are reported and read without their mark. */
    method TransformMisplacedType(node: TypeNode) returns (r: Type)
      requires factory.Valid() && (node.OptionalType? || node.RestType?) && KnownTypesIn(factory.types, node)
      modifies this, factory
      ensures factory.Valid() && old(factory.types) <= factory.types && r in factory.types
      ensures Atoms(r) == Denote(factory, node)
      ensures errors == old(errors) + Errors(factory, node)
      decreases node, 0
    {
      hide TypeFactory.Valid, Atoms;
      var own := if node.OptionalType? then UnexpectOptional else UnexpectRest;
      AddError(node, own);
      r := Transform(node.node);
      assert old(errors) + [(node, own)] + Errors(factory, node.node) == old(errors) + ([(node, own)] + Errors(factory, node.node));
    }

    /** Returns the type that `node` denotes. */
    method Transform(node: TypeNode) returns (r: Type)
      requires factory.Valid() && KnownTypesIn(factory.types, node)
      modifies this, factory
      ensures factory.Valid() && old(factory.types) <= factory.types
      ensures IsResult(factory, node, r)
      ensures errors == old(errors) + Errors(factory, node)
      decreases node, 1
    {
      SingletonsAreTypes(factory);
      hide TypeFactory.Valid, Atoms, AddNull, StripNull, Collapse, DenoteAll, ErrorsOfAll;
      match node
      case AnyTypeNode => r := factory.anyType;
      case UnknownTypeNode => r := factory.anyType;
      case VoidTypeNode => r := factory.voidType;
      case InvalidTypeNode => r := factory.unspecifiedType;
      case NullableType(_) => r := TransformNullableType(node);
      case NonNullableType(_) => r := TransformNonNullableType(node);
      case OptionalType(_) => r := TransformMisplacedType(node);
      case RestType(_) => r := TransformMisplacedType(node);
      case TypeGroup(n) =>
        r := Transform(n);
      case TypeName(_) =>
        r := TransformTypeName(node);
      case UnionType(nodes) =>
        r := TransformUnionType(nodes);
    }
  }

  lemma SingletonsAreTypes(f: TypeFactory)
    requires f.Valid()
    ensures f.anyType in f.types && f.voidType in f.types && f.unspecifiedType in f.types
    ensures Atoms(f.anyType) == {f.anyType} && Atoms(f.voidType) == {f.voidType}
    ensures Atoms(f.unspecifiedType) == {f.unspecifiedType}
  {
    hide UnionsAreCached, TuplesAreCached, ClassTypesAreCached, FunctionTypesAreCached, DistinctIds, AreUpTo;
  }

  lemma IsNull(f: TypeFactory, u: Type, i: nat)
    requires f.Valid() && u in f.types && u.shape.Union? && i < |u.shape.members|
    ensures u.shape.members[i].shape.Null? <==> u.shape.members[i] == f.nullType
  {
    assert u.shape.members[i] in Elements(u.shape.members);
  }

  lemma ElementsAppended(types: seq<Type>, t: Type)
    ensures Elements(types + [t]) == Elements(types) + {t}
  {
    assert forall u :: u in types + [t] <==> u in types || u == t;
  }

  lemma SingleAtom(f: TypeFactory, t: Type)
    requires f.Valid() && t in f.types
    ensures !t.shape.Union? && !t.shape.Nil? ==> Atoms(t) == {t}
    ensures t.shape.Nil? ==> Atoms(t) == {}
  {
  }

  lemma PairWithNull(f: TypeFactory, t: Type)
    requires f.Valid() && t in f.types
    requires t != f.anyType && t != f.invalidType && t != f.unspecifiedType
    ensures Elements([t, f.nullType]) <= f.types
    ensures Join(f.anyType, [t, f.nullType]) == AddNull(f, Atoms(t)) == Atoms(t) + {f.nullType}
  {
    assert [t, f.nullType] == [] + [t] + [f.nullType];
    AtomsOfAppended([], t);
    AtomsOfAppended([] + [t], f.nullType);
    assert f.nullType in Elements([t, f.nullType]);
    assert Atoms(t) != {f.anyType} && Atoms(t) != {f.invalidType} && Atoms(t) != {f.unspecifiedType} by {
      if Atoms(t) == {f.anyType} { f.AtomsDetermine(t, f.anyType); }
      if Atoms(t) == {f.invalidType} { f.AtomsDetermine(t, f.invalidType); }
      if Atoms(t) == {f.unspecifiedType} { f.AtomsDetermine(t, f.unspecifiedType); }
    }
  }

  lemma JoinOfMembers(f: TypeFactory, u: Type, members: seq<Type>)
    requires f.Valid() && u in f.types && u.shape.Union?
    requires Elements(members) == Atoms(u) - {f.nullType}
    ensures Elements(members) <= f.types && Join(f.anyType, members) == Elements(members)
  {
    forall m | m in members ensures m in f.types && m != f.anyType && Atoms(m) == {m} {
      assert m in Elements(members);
      f.AtomIsMember(u, m);
    }
    assert AtomsOfAll(members) == Elements(members);
  }

  lemma UnionMeaning(f: TypeFactory, nodes: seq<TypeNode>)
    ensures Denote(f, UnionType(nodes)) == Collapse(f, DenoteAll(f, nodes))
    ensures Errors(f, UnionType(nodes)) == ErrorsOfAll(f, nodes)
    ensures DenoteAll(f, []) == {} && ErrorsOfAll(f, []) == []
  {
  }

  lemma NoTypes()
    ensures AtomsOfAll([]) == {} && Elements([]) == {}
  {
  }

  lemma AtomsOfAppended(types: seq<Type>, t: Type)
    ensures AtomsOfAll(types + [t]) == AtomsOfAll(types) + Atoms(t)
    ensures Elements(types + [t]) == Elements(types) + {t}
  {
    assert forall u :: u in types + [t] <==> u in types || u == t;
  }

  lemma JoinCollapses(f: TypeFactory, types: seq<Type>)
    requires f.Valid() && Elements(types) <= f.types
    ensures Join(f.anyType, types) == Collapse(f, AtomsOfAll(types))
  {
    if f.anyType in types {
      assert f.anyType in Atoms(f.anyType);
    } else if f.anyType in AtomsOfAll(types) {
      var t :| t in types && f.anyType in Atoms(t);
      assert t in Elements(types);
      f.AtomIsMember(t, f.anyType);
    }
  }

  /** Type expressions with the same meaning give the same object, whichever was transformed first. */
  lemma SameMeaningSameObject(f: TypeFactory, a: TypeNode, b: TypeNode, r: Type, s: Type)
    requires f.Valid() && r in f.types && s in f.types
    requires Atoms(r) == Denote(f, a) && Atoms(s) == Denote(f, b)
    ensures r == s <==> Denote(f, a) == Denote(f, b)
  {
    if Denote(f, a) == Denote(f, b) {
      f.AtomsDetermine(r, s);
    }
  }

  // ----- What is returned for each form of type expression, and which errors are reported

  lemma ResultOfSimpleType(f: TypeFactory, r: Type)
    requires f.Valid()
    ensures IsResult(f, AnyTypeNode, r) <==> r == f.anyType
    ensures IsResult(f, UnknownTypeNode, r) <==> r == f.anyType
    ensures IsResult(f, VoidTypeNode, r) <==> r == f.voidType
    ensures IsResult(f, InvalidTypeNode, r) <==> r == f.unspecifiedType
    ensures IsResult(f, TypeName(None), r) <==> r == f.unspecifiedType
    ensures Errors(f, AnyTypeNode) == Errors(f, UnknownTypeNode) == Errors(f, VoidTypeNode) == Errors(f, InvalidTypeNode) == []
    ensures Errors(f, TypeName(None)) == [(TypeName(None), UndefinedType)]
  {
    SingletonsAreTypes(f);
    hide Atoms, TypeFactory.Valid;
    OnlyWithAtoms(f, r, f.anyType);
    OnlyWithAtoms(f, r, f.voidType);
    OnlyWithAtoms(f, r, f.unspecifiedType);
  }

  lemma OnlyWithAtoms(f: TypeFactory, r: Type, s: Type)
    requires f.Valid() && s in f.types
    ensures r in f.types && Atoms(r) == Atoms(s) <==> r == s
  {
    hide Atoms;
    if r in f.types && Atoms(r) == Atoms(s) {
      f.AtomsDetermine(r, s);
    }
  }

  /** A name of a class or function type means its union with null, any other name the type itself. */
  lemma ResultOfTypeName(f: TypeFactory, t: Type, r: Type)
    requires f.Valid() && t in f.types
    ensures t.shape.ClassType? || t.shape.FunctionType? ==>
              (IsResult(f, TypeName(Some(t)), r) <==>
               r in f.types && r.shape.Union? && Elements(r.shape.members) == {t, f.nullType})
    ensures !t.shape.ClassType? && !t.shape.FunctionType? ==> (IsResult(f, TypeName(Some(t)), r) <==> r == t)
    ensures Errors(f, TypeName(Some(t))) == []
  {
    hide UnionsAreCached, TuplesAreCached, ClassTypesAreCached, FunctionTypesAreCached, DistinctIds, AreUpTo;
    OnlyWithAtoms(f, r, t);
    if r in f.types {
      SingleAtom(f, r);
      if r.shape.Union? {
        assert Atoms(r) == Elements(r.shape.members);
      }
    }
    if t.shape.ClassType? || t.shape.FunctionType? {
      assert f.nullType in {t, f.nullType} && t in {t, f.nullType} && t != f.nullType;
    }
  }

  /** `?T` is the union of `T` and null, unless `T` is any, invalid or unspecified. */
  lemma ResultOfNullableType(f: TypeFactory, node: TypeNode, t: Type, r: Type)
    requires f.Valid() && IsResult(f, node, t) && IsResult(f, NullableType(node), r)
    ensures t in {f.anyType, f.invalidType, f.unspecifiedType} ==> r == t
    ensures t !in {f.anyType, f.invalidType, f.unspecifiedType} ==> f.IsUnionOf(r, [t, f.nullType])
    ensures Errors(f, NullableType(node)) == Errors(f, node)
  {
    if t in {f.anyType, f.invalidType, f.unspecifiedType} {
      SingleAtom(f, t);
      f.AtomsDetermine(r, t);
    } else {
      PairWithNull(f, t);
    }
  }

  /** `!T` is what is left of the union `T` without null; if `T` is no union with null, an error and `T`. */
  lemma ResultOfNonNullableType(f: TypeFactory, node: TypeNode, t: Type, r: Type, members: seq<Type>)
    requires f.Valid() && IsResult(f, node, t) && IsResult(f, NonNullableType(node), r)
    ensures t.shape.Union? && f.nullType in t.shape.members && Elements(members) == Elements(t.shape.members) - {f.nullType} ==>
              f.IsUnionOf(r, members)
    ensures !(t.shape.Union? && f.nullType in t.shape.members) ==> r == t
    ensures Errors(f, NonNullableType(node)) == Errors(f, node) +
            if t.shape.Union? && f.nullType in t.shape.members then [] else [(node, ExpectNullableType)]
  {
    hide UnionsAreCached, TuplesAreCached, ClassTypesAreCached, FunctionTypesAreCached, DistinctIds, AreUpTo;
    SingleAtom(f, t);
    if t.shape.Union? {
      assert f.nullType in Atoms(t) <==> f.nullType in t.shape.members;
      f.TwoAtoms(t);
      if f.nullType in t.shape.members && Elements(members) == Elements(t.shape.members) - {f.nullType} {
        JoinOfMembers(f, t, members);
      }
    }
    if !(t.shape.Union? && f.nullType in t.shape.members) {
      f.AtomsDetermine(r, t);
    }
  }

  /** Groups mean what is in them; so do optional and rest types out of place, with an error. */
  lemma ResultOfMarkedType(f: TypeFactory, node: TypeNode, t: Type, r: Type)
    requires f.Valid() && IsResult(f, node, t)
    ensures IsResult(f, TypeGroup(node), r) <==> r == t
    ensures IsResult(f, OptionalType(node), r) <==> r == t
    ensures IsResult(f, RestType(node), r) <==> r == t
    ensures Errors(f, TypeGroup(node)) == Errors(f, node)
    ensures Errors(f, OptionalType(node)) == [(OptionalType(node), UnexpectOptional)] + Errors(f, node)
    ensures Errors(f, RestType(node)) == [(RestType(node), UnexpectRest)] + Errors(f, node)
  {
    hide TypeFactory.Valid, Atoms;
    OnlyWithAtoms(f, r, t);
  }

  /** A union expression is the union of what its parts are, with the errors of the parts in order. */
  lemma ResultOfUnionType(f: TypeFactory, nodes: seq<TypeNode>, types: seq<Type>, r: Type)
    requires f.Valid() && |types| == |nodes| && forall i | 0 <= i < |nodes| :: IsResult(f, nodes[i], types[i])
    requires IsResult(f, UnionType(nodes), r)
    ensures f.IsUnionOf(r, types)
    ensures nodes == [] ==> Errors(f, UnionType(nodes)) == []
    ensures nodes != [] ==>
              Errors(f, UnionType(nodes)) == Errors(f, UnionType(nodes[..|nodes| - 1])) + Errors(f, nodes[|nodes| - 1])
  {
    hide TypeFactory.Valid, Atoms, AtomsOfAll, DenoteAll, Join, Collapse;
    assert forall t | t in Elements(types) :: t in f.types;
    DenoteParts(f, nodes, types);
    JoinCollapses(f, types);
  }

  lemma {:induction false} DenoteParts(f: TypeFactory, nodes: seq<TypeNode>, types: seq<Type>)
    requires |types| == |nodes| && forall i | 0 <= i < |nodes| :: IsResult(f, nodes[i], types[i])
    ensures DenoteAll(f, nodes) == AtomsOfAll(types)
  {
    if nodes == [] {
      NoTypes();
    } else {
      var n := |nodes| - 1;
      DenoteParts(f, nodes[..n], types[..n]);
      AtomsOfAppended(types[..n], types[n]);
      assert types == types[..n] + [types[n]];
    }
  }

  /** For a class or function type `T`: `!T` is `T` itself, without an error, and `?T` is the same object as the name `T`. */
  lemma NonNullableName(f: TypeFactory, t: Type, named: Type, nullable: Type, stripped: Type)
    requires f.Valid() && t in f.types && (t.shape.ClassType? || t.shape.FunctionType?)
    requires IsResult(f, TypeName(Some(t)), named) && IsResult(f, NullableType(TypeName(Some(t))), nullable)
    requires IsResult(f, NonNullableType(TypeName(Some(t))), stripped)
    ensures stripped == t && Errors(f, NonNullableType(TypeName(Some(t)))) == []
    ensures nullable == named && named != t
  {
    hide TypeFactory.Valid, Atoms, Join, IsResult, Errors, Denote;
    ResultOfTypeName(f, t, named);
    NotNull(f, t);
    assert f.nullType in Elements(named.shape.members);
    assert Elements([t]) == {t} == {t, f.nullType} - {f.nullType};
    ResultOfNonNullableType(f, TypeName(Some(t)), named, stripped, [t]);
    UnionOfOne(f, t, stripped);
    ResultOfNullableType(f, TypeName(Some(t)), named, nullable);
    UnionWithNull(f, t, named, nullable);
  }

  lemma NotNull(f: TypeFactory, t: Type)
    requires f.Valid() && t in f.types && (t.shape.ClassType? || t.shape.FunctionType?)
    ensures t != f.nullType
    ensures !f.anyType.shape.Union? && !f.invalidType.shape.Union? && !f.unspecifiedType.shape.Union?
  {
  }

  lemma UnionOfOne(f: TypeFactory, t: Type, r: Type)
    requires f.Valid() && t in f.types && f.IsUnionOf(r, [t])
    ensures r == t
  {
    hide TypeFactory.Valid, Atoms, AtomsOfAll;
    assert [] + [t] == [t] && [t][0] in [t];
    AtomsOfAppended([], t);
    NoTypes();
    if t == f.anyType {
      SingletonsAreTypes(f);
    }
    f.AtomsDetermine(r, t);
  }

  lemma UnionWithNull(f: TypeFactory, t: Type, u: Type, r: Type)
    requires f.Valid() && u in f.types && u.shape.Union? && f.nullType in u.shape.members && f.IsUnionOf(r, [u, f.nullType])
    ensures r == u
  {
    hide UnionsAreCached, TuplesAreCached, ClassTypesAreCached, FunctionTypesAreCached, DistinctIds, AreUpTo;
    PairWithNull(f, u);
    assert Atoms(u) + {f.nullType} == Atoms(u);
    f.AtomsDetermine(r, u);
  }

  ghost predicate ContainsNull(f: TypeFactory, t: Type) {
    t.shape.Union? && f.nullType in t.shape.members
  }

  lemma StripAfterAdd(f: TypeFactory, d: set<Type>)
    requires d != {} && (f.nullType in d ==> d == {f.nullType})
    requires f.nullType != f.anyType && f.nullType != f.invalidType && f.nullType != f.unspecifiedType
    ensures StripNull(f, AddNull(f, d)) == d
  {
    if f.nullType !in d {
      var t :| t in d;
      assert d + {f.nullType} != {f.nullType};
    }
  }

  /**
   With `nullable` what `NewNullableType` returns for `t`, and `stripped` what stripping null
   returns for that: it is `t` again unless `t` is nil, or a union that had null already.
   */
  lemma StrippingUndoesAdding(f: TypeFactory, t: Type, nullable: Type, stripped: Type)
    requires f.Valid() && t in f.types && nullable in f.types && stripped in f.types
    requires Atoms(nullable) == AddNull(f, Atoms(t)) && Atoms(stripped) == StripNull(f, Atoms(nullable))
    ensures stripped == t <==> !t.shape.Nil? && !ContainsNull(f, t)
  {
    hide UnionsAreCached, TuplesAreCached, ClassTypesAreCached, FunctionTypesAreCached, DistinctIds, AreUpTo;
    SingleAtom(f, t);
    if t.shape.Nil? {
      assert f.nullType in Atoms(stripped);
    } else if ContainsNull(f, t) {
      f.TwoAtoms(t);
      assert f.nullType in Atoms(t) && f.nullType !in Atoms(stripped);
    } else {
      if t.shape.Union? {
        f.TwoAtoms(t);
      }
      StripAfterAdd(f, Atoms(t));
      f.AtomsDetermine(stripped, t);
    }
  }

  /**
   The other way round, for a union `u` with null in it: adding null back gives `u` again
   unless all that was left is the invalid or the unspecified type.
   */
  lemma AddingUndoesStripping(f: TypeFactory, u: Type, stripped: Type, nullable: Type)
    requires f.Valid() && u in f.types && nullable in f.types && stripped in f.types && ContainsNull(f, u)
    requires Atoms(stripped) == StripNull(f, Atoms(u)) && Atoms(nullable) == AddNull(f, Atoms(stripped))
    ensures nullable == u <==> stripped != f.invalidType && stripped != f.unspecifiedType
  {
    hide UnionsAreCached, TuplesAreCached, ClassTypesAreCached, FunctionTypesAreCached, DistinctIds, AreUpTo;
    f.TwoAtoms(u);
    var rest := Atoms(u) - {f.nullType};
    assert Atoms(stripped) == rest && f.nullType in Atoms(u);
    if stripped == f.invalidType || stripped == f.unspecifiedType {
      assert f.nullType !in Atoms(nullable);
    } else {
      assert rest != {f.invalidType} by {
        if rest == {f.invalidType} { f.AtomsDetermine(stripped, f.invalidType); }
      }
      assert rest != {f.unspecifiedType} by {
        if rest == {f.unspecifiedType} { f.AtomsDetermine(stripped, f.unspecifiedType); }
      }
      assert rest != {f.anyType} by {
        if f.anyType in Atoms(u) { f.AtomIsMember(u, f.anyType); }
      }
      assert Atoms(nullable) == Atoms(u);
      f.AtomsDetermine(nullable, u);
    }
  }

  /** The types the debug check lets through are among those that lose exactly the null they got. */
  lemma NullableTypesRoundTrip(f: TypeFactory, t: Type, nullable: Type, stripped: Type)
    requires f.Valid() && t in f.types && nullable in f.types && stripped in f.types
    requires Atoms(nullable) == AddNull(f, Atoms(t)) && Atoms(stripped) == StripNull(f, Atoms(nullable))
    requires !t.shape.Any? && !t.shape.Nil? && !t.shape.Null?
    requires !t.shape.Alias? && !t.shape.Unspecified? && !t.shape.Void?
    requires !ContainsNull(f, t)
    ensures stripped == t && (nullable != t <==> t != f.invalidType)
  {
    StrippingUndoesAdding(f, t, nullable, stripped);
    SingleAtom(f, t);
    if t == f.invalidType {
      f.AtomsDetermine(nullable, t);
    } else {
      PairWithNull(f, t);
      assert f.nullType in Atoms(nullable);
      assert f.nullType !in Atoms(t) by {
        assert !t.shape.Union? ==> Atoms(t) == {t};
      }
    }
  }
}
