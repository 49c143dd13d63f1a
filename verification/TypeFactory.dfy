/**
 The types of the analyzer. A union type is created once per member set, so that equal unions
 are the same object; this makes the union constructor a join, up to object identity.
 */
module TypeFactories {

  datatype Shape =
    | Any | Invalid | Nil | Null | Unspecified | Void
    | ClassType(class_: nat)
    | FunctionType(signature: Signature)
    | Tuple(elements: seq<Type>)
    | Union(members: seq<Type>)
    | TypeParameter(name: nat)
    | Alias(alias: nat)

  /** What a function type is made from. */
  datatype Signature = Signature(
    isConstructor: bool,
    typeParameters: seq<Type>,
    minimum: nat,
    maximum: nat,
    parameters: seq<Type>,
    returnType: Type,
    thisType: Type)

  class Type {
    const id: int
    const shape: Shape

    constructor (id: int, shape: Shape)
      ensures this.id == id && this.shape == shape
    {
      this.id, this.shape := id, shape;
    }
  }

  /** The members of a union, none for nil, and the type itself otherwise. */
  ghost function Atoms(t: Type): set<Type> {
    match t.shape
    case Union(members) => set m | m in members
    case Nil => {}
    case _ => {t}
  }

  ghost function AtomsOfAll(types: seq<Type>): set<Type> {
    set t, a | t in types && a in Atoms(t) :: a
  }

  /** The atoms of the union of `types`; any type swallows all others. */
  ghost function Join(any: Type, types: seq<Type>): set<Type> {
    if any in types then {any} else AtomsOfAll(types)
  }

  ghost function Elements(keys: seq<Type>): set<Type> {
    set k | k in keys
  }

  predicate IsSorted(keys: seq<Type>) {
    forall i, j :: 0 <= i < j < |keys| ==> keys[i].id < keys[j].id
  }

  predicate IsMember(t: Type) {
    !t.shape.Any? && !t.shape.Nil? && !t.shape.Union?
  }

  predicate IsUnionKey(keys: seq<Type>) {
    |keys| >= 2 && IsSorted(keys) && forall k | k in keys :: IsMember(k)
  }

  predicate DistinctIds(types: set<Type>) {
    forall t, u | t in types && u in types :: t.id == u.id ==> t == u
  }

  ghost predicate IsTheOne(types: set<Type>, shape: Shape, one: Type) {
    forall t | t in types :: t.shape == shape <==> t == one
  }

  predicate AreUpTo(types: set<Type>, id: int) {
    forall t | t in types :: t.id <= id
  }

  ghost predicate UnionsAreCached(types: set<Type>, cache: map<seq<Type>, Type>) {
    && (forall t | t in types && t.shape.Union? ::
          && IsUnionKey(t.shape.members) && Elements(t.shape.members) <= types
          && t.shape.members in cache && cache[t.shape.members] == t)
    && (forall k | k in cache :: cache[k] in types && cache[k].shape == Union(k))
  }

  ghost predicate TuplesAreCached(types: set<Type>, cache: map<seq<Type>, Type>) {
    && (forall t | t in types && t.shape.Tuple? :: t.shape.elements in cache && cache[t.shape.elements] == t)
    && (forall k | k in cache :: cache[k] in types && cache[k].shape == Tuple(k))
  }

  ghost predicate ClassTypesAreCached(types: set<Type>, cache: map<nat, Type>) {
    && (forall t | t in types && t.shape.ClassType? :: t.shape.class_ in cache && cache[t.shape.class_] == t)
    && (forall k | k in cache :: cache[k] in types && cache[k].shape == ClassType(k))
  }

  ghost predicate FunctionTypesAreCached(types: set<Type>, cache: map<Signature, Type>) {
    && (forall t | t in types && t.shape.FunctionType? :: t.shape.signature in cache && cache[t.shape.signature] == t)
    && (forall k | k in cache :: cache[k] in types && cache[k].shape == FunctionType(k))
  }

  lemma OneMoreId(types: set<Type>, t: Type, id: int)
    requires DistinctIds(types) && AreUpTo(types, id) && t.id == id + 1
    ensures DistinctIds(types + {t}) && AreUpTo(types + {t}, id + 1)
  {
  }

  lemma UnionsCacheOneMore(types: set<Type>, cache: map<seq<Type>, Type>, t: Type)
    requires UnionsAreCached(types, cache) && t !in types && t.shape.Union? && t.shape.members !in cache
    requires IsUnionKey(t.shape.members) && Elements(t.shape.members) <= types
    ensures UnionsAreCached(types + {t}, cache[t.shape.members := t])
  {
    hide IsUnionKey, Elements;
  }

  lemma TuplesCacheOneMore(types: set<Type>, cache: map<seq<Type>, Type>, t: Type)
    requires TuplesAreCached(types, cache) && t !in types && t.shape.Tuple? && t.shape.elements !in cache
    ensures TuplesAreCached(types + {t}, cache[t.shape.elements := t])
  {
  }

  lemma ClassTypesCacheOneMore(types: set<Type>, cache: map<nat, Type>, t: Type)
    requires ClassTypesAreCached(types, cache) && t !in types && t.shape.ClassType? && t.shape.class_ !in cache
    ensures ClassTypesAreCached(types + {t}, cache[t.shape.class_ := t])
  {
  }

  lemma FunctionTypesCacheOneMore(types: set<Type>, cache: map<Signature, Type>, t: Type)
    requires FunctionTypesAreCached(types, cache) && t !in types && t.shape.FunctionType? && t.shape.signature !in cache
    ensures FunctionTypesAreCached(types + {t}, cache[t.shape.signature := t])
  {
  }

  lemma FunctionTypesStayCached(types: set<Type>, cache: map<Signature, Type>, t: Type)
    requires FunctionTypesAreCached(types, cache) && !t.shape.FunctionType?
    ensures FunctionTypesAreCached(types + {t}, cache)
  {
  }

  lemma FirstTypes(types: set<Type>, a: Type, b: Type, c: Type, d: Type, e: Type, f: Type)
    requires types == {a, b, c, d, e, f}
    requires a.id == 1 && b.id == 2 && c.id == 3 && d.id == 4 && e.id == 5 && f.id == 6
    requires a.shape == Any && b.shape == Invalid && c.shape == Nil && d.shape == Null && e.shape == Unspecified && f.shape == Void
    ensures DistinctIds(types) && AreUpTo(types, 100)
    ensures UnionsAreCached(types, map[]) && TuplesAreCached(types, map[]) && ClassTypesAreCached(types, map[])
    ensures FunctionTypesAreCached(types, map[])
    ensures IsTheOne(types, Any, a) && IsTheOne(types, Invalid, b) && IsTheOne(types, Nil, c)
    ensures IsTheOne(types, Null, d) && IsTheOne(types, Unspecified, e) && IsTheOne(types, Void, f)
  {
    assert DistinctIds(types) by {
      hide *;
      FirstIds(types, a, b, c, d, e, f);
    }
    hide DistinctIds;
  }

  lemma FirstIds(types: set<Type>, a: Type, b: Type, c: Type, d: Type, e: Type, f: Type)
    requires types == {a, b, c, d, e, f}
    requires a.id == 1 && b.id == 2 && c.id == 3 && d.id == 4 && e.id == 5 && f.id == 6
    ensures DistinctIds(types)
  {
  }

  lemma UnionsStayCached(types: set<Type>, cache: map<seq<Type>, Type>, t: Type)
    requires UnionsAreCached(types, cache) && !t.shape.Union?
    ensures UnionsAreCached(types + {t}, cache)
  {
  }

  lemma TuplesStayCached(types: set<Type>, cache: map<seq<Type>, Type>, t: Type)
    requires TuplesAreCached(types, cache) && !t.shape.Tuple?
    ensures TuplesAreCached(types + {t}, cache)
  {
  }

  lemma ClassTypesStayCached(types: set<Type>, cache: map<nat, Type>, t: Type)
    requires ClassTypesAreCached(types, cache) && !t.shape.ClassType?
    ensures ClassTypesAreCached(types + {t}, cache)
  {
  }

  /** Puts `t` in its place in the ordered set `keys`, unless a type with its id is there. */
  method Emplace(keys: seq<Type>, t: Type, ghost types: set<Type>) returns (r: seq<Type>)
    requires IsSorted(keys) && DistinctIds(types) && t in types && Elements(keys) <= types
    ensures IsSorted(r) && Elements(r) == Elements(keys) + {t}
  {
    var i := 0;
    while i < |keys| && keys[i].id < t.id
      invariant i <= |keys| && forall k :: 0 <= k < i ==> keys[k].id < t.id
    {
      i := i + 1;
    }
    if i < |keys| && keys[i].id == t.id {
      assert keys[i] in Elements(keys);
      return keys;
    }
    r := keys[..i] + [t] + keys[i..];
    InsertedElements(keys, i, t);
  }

  lemma InsertedElements(keys: seq<Type>, i: nat, t: Type)
    requires i <= |keys| && IsSorted(keys)
    requires forall k :: 0 <= k < i ==> keys[k].id < t.id
    requires i < |keys| ==> t.id < keys[i].id
    ensures ghost var r := keys[..i] + [t] + keys[i..]; IsSorted(r) && Elements(r) == Elements(keys) + {t}
  {
    var r := keys[..i] + [t] + keys[i..];
    forall a, b | 0 <= a < b < |r| ensures r[a].id < r[b].id {
      assert r[a] == if a < i then keys[a] else if a == i then t else keys[a - 1];
      assert r[b] == if b < i then keys[b] else if b == i then t else keys[b - 1];
      if i < b {
        assert i < b - 1 ==> keys[i].id < keys[b - 1].id;
      }
    }
    assert keys == keys[..i] + keys[i..];
    assert forall k :: k in r <==> k in keys[..i] || k == t || k in keys[i..];
    assert forall k :: k in keys <==> k in keys[..i] || k in keys[i..];
  }

  /** Ordered sets with the same elements are equal. */
  lemma {:induction false} SortedIsUnique(a: seq<Type>, b: seq<Type>)
    requires IsSorted(a) && IsSorted(b) && Elements(a) == Elements(b)
    ensures a == b
  {
    if a == [] {
      assert b == [] by { NotEmpty(b); }
    } else {
      assert a[|a| - 1] in Elements(a);
      var x, y := |a| - 1, |b| - 1;
      NotEmpty(b);
      assert b[y] in Elements(b);
      assert a[x] == b[y] by {
        var i :| 0 <= i < |b| && b[i] == a[x];
        var j :| 0 <= j < |a| && a[j] == b[y];
      }
      RestOfSorted(a);
      RestOfSorted(b);
      SortedIsUnique(a[..x], b[..y]);
    }
  }

  lemma NotEmpty(a: seq<Type>)
    ensures a == [] <==> Elements(a) == {}
  {
    assert a != [] ==> a[0] in Elements(a);
  }

  lemma RestOfSorted(a: seq<Type>)
    requires a != [] && IsSorted(a)
    ensures IsSorted(a[..|a| - 1]) && Elements(a[..|a| - 1]) == Elements(a) - {a[|a| - 1]}
  {
    var n := |a| - 1;
    assert a == a[..n] + [a[n]];
    assert forall k | k in a :: k in a[..n] || k == a[n];
  }

  class TypeFactory {
    const anyType: Type
    const invalidType: Type
    const nilType: Type
    const nullType: Type
    const unspecifiedType: Type
    const voidType: Type
    var classTypeMap: map<nat, Type>
    var functionTypeMap: map<Signature, Type>
    var tupleTypeMap: map<seq<Type>, Type>
    var unionTypeMap: map<seq<Type>, Type>
    var currentTypeId: int
    /** All types ever created. */
    ghost var types: set<Type>

    ghost predicate Valid()
      reads this
    {
      && DistinctIds(types) && AreUpTo(types, currentTypeId)
      && Singletons() <= types && AreSingletons(types)
      && UnionsAreCached(types, unionTypeMap)
      && TuplesAreCached(types, tupleTypeMap)
      && ClassTypesAreCached(types, classTypeMap)
      && FunctionTypesAreCached(types, functionTypeMap)
    }

    ghost function Singletons(): set<Type> {
      {anyType, invalidType, nilType, nullType, unspecifiedType, voidType}
    }

    /** The six types that exist once. */
    ghost predicate AreSingletons(types: set<Type>) {
      && IsTheOne(types, Any, anyType) && IsTheOne(types, Invalid, invalidType) && IsTheOne(types, Nil, nilType)
      && IsTheOne(types, Null, nullType) && IsTheOne(types, Unspecified, unspecifiedType) && IsTheOne(types, Void, voidType)
    }

    constructor ()
      ensures Valid() && types == Singletons() && currentTypeId == 100
    {
      var any := new Type(1, Any);
      var invalid := new Type(2, Invalid);
      var nil := new Type(3, Nil);
      var null_ := new Type(4, Null);
      var unspecified := new Type(5, Unspecified);
      var void_ := new Type(6, Void);
      anyType, invalidType, nilType := any, invalid, nil;
      nullType, unspecifiedType, voidType := null_, unspecified, void_;
      classTypeMap, functionTypeMap, tupleTypeMap, unionTypeMap := map[], map[], map[], map[];
      currentTypeId := 100;
      types := {any, invalid, nil, null_, unspecified, void_};
      hide DistinctIds, AreUpTo, IsTheOne, UnionsAreCached, TuplesAreCached, ClassTypesAreCached, FunctionTypesAreCached;
      FirstTypes({any, invalid, nil, null_, unspecified, void_}, any, invalid, nil, null_, unspecified, void_);
    }

    method NextTypeId() returns (id: int)
      modifies this`currentTypeId
      ensures currentTypeId == id == old(currentTypeId) + 1
    {
      currentTypeId := currentTypeId + 1;
      return currentTypeId;
    }

    method ResetCurrentId()
      requires Valid() && currentTypeId < 1000
      modifies this`currentTypeId
      ensures Valid() && currentTypeId == 1000
    {
      currentTypeId := 1000;
    }

    /** A new type of none of the single shapes leaves the rest of the state in order. */
    lemma AddSingly(t: Type)
      requires DistinctIds(types) && AreUpTo(types, currentTypeId - 1) && t.id == currentTypeId
      requires AreSingletons(types) && Singletons() <= types
      requires !t.shape.Any? && !t.shape.Invalid? && !t.shape.Nil? && !t.shape.Null?
      requires !t.shape.Unspecified? && !t.shape.Void? && t !in types
      ensures DistinctIds(types + {t}) && AreUpTo(types + {t}, currentTypeId)
      ensures AreSingletons(types + {t})
    {
      OneMoreId(types, t, currentTypeId - 1);
      hide DistinctIds, AreUpTo;
    }

    lemma CachedClassType(class_: nat)
      requires Valid() && class_ in classTypeMap
      ensures classTypeMap[class_] in types && classTypeMap[class_].shape == ClassType(class_)
    {
    }

    method NewClassType(class_: nat) returns (r: Type)
      requires Valid()
      modifies this
      ensures Valid() && old(types) <= types && r in types && r.shape == ClassType(class_)
      ensures types == old(types) || (types == old(types) + {r} && fresh(r))
    {
      hide DistinctIds, AreUpTo, AreSingletons, UnionsAreCached, TuplesAreCached, ClassTypesAreCached, FunctionTypesAreCached;
      if class_ in classTypeMap {
        CachedClassType(class_);
        return classTypeMap[class_];
      }
      var id := NextTypeId();
      r := new Type(id, ClassType(class_));
      UnionsStayCached(types, unionTypeMap, r);
      TuplesStayCached(types, tupleTypeMap, r);
      FunctionTypesStayCached(types, functionTypeMap, r);
      ClassTypesCacheOneMore(types, classTypeMap, r);
      classTypeMap := classTypeMap[class_ := r];
      AddSingly(r);
      types := types + {r};
    }

    lemma CachedFunctionType(signature: Signature)
      requires Valid() && signature in functionTypeMap
      ensures functionTypeMap[signature] in types && functionTypeMap[signature].shape == FunctionType(signature)
    {
    }

    method NewFunctionType(signature: Signature) returns (r: Type)
      requires Valid()
      modifies this
      ensures Valid() && old(types) <= types && r in types && r.shape == FunctionType(signature)
      ensures types == old(types) || (types == old(types) + {r} && fresh(r))
    {
      hide DistinctIds, AreUpTo, AreSingletons, UnionsAreCached, TuplesAreCached, ClassTypesAreCached, FunctionTypesAreCached;
      if signature in functionTypeMap {
        CachedFunctionType(signature);
        return functionTypeMap[signature];
      }
      var id := NextTypeId();
      r := new Type(id, FunctionType(signature));
      UnionsStayCached(types, unionTypeMap, r);
      TuplesStayCached(types, tupleTypeMap, r);
      ClassTypesStayCached(types, classTypeMap, r);
      FunctionTypesCacheOneMore(types, functionTypeMap, r);
      functionTypeMap := functionTypeMap[signature := r];
      AddSingly(r);
      types := types + {r};
    }

    lemma CachedTuple(elements: seq<Type>)
      requires Valid() && elements in tupleTypeMap
      ensures tupleTypeMap[elements] in types && tupleTypeMap[elements].shape == Tuple(elements)
    {
    }

    method NewTupleTypeFromVector(elements: seq<Type>) returns (r: Type)
      requires Valid()
      modifies this
      ensures Valid() && old(types) <= types && r in types && r.shape == Tuple(elements)
      ensures types == old(types) || (types == old(types) + {r} && fresh(r))
    {
      hide DistinctIds, AreUpTo, AreSingletons, UnionsAreCached, TuplesAreCached, ClassTypesAreCached, FunctionTypesAreCached;
      if elements in tupleTypeMap {
        CachedTuple(elements);
        return tupleTypeMap[elements];
      }
      var id := NextTypeId();
      r := new Type(id, Tuple(elements));
      UnionsStayCached(types, unionTypeMap, r);
      ClassTypesStayCached(types, classTypeMap, r);
      FunctionTypesStayCached(types, functionTypeMap, r);
      TuplesCacheOneMore(types, tupleTypeMap, r);
      tupleTypeMap := tupleTypeMap[elements := r];
      AddSingly(r);
      types := types + {r};
    }

    /** Type parameters and aliases are never shared. */
    method NewTypeParameter(name: nat) returns (r: Type)
      requires Valid()
      modifies this
      ensures Valid() && types == old(types) + {r} && fresh(r) && r.shape == TypeParameter(name)
    {
      hide DistinctIds, AreUpTo, AreSingletons, UnionsAreCached, TuplesAreCached, ClassTypesAreCached, FunctionTypesAreCached;
      var id := NextTypeId();
      r := new Type(id, TypeParameter(name));
      UnionsStayCached(types, unionTypeMap, r);
      TuplesStayCached(types, tupleTypeMap, r);
      ClassTypesStayCached(types, classTypeMap, r);
      FunctionTypesStayCached(types, functionTypeMap, r);
      AddSingly(r);
      types := types + {r};
    }

    method NewTypeAlias(name: nat) returns (r: Type)
      requires Valid()
      modifies this
      ensures Valid() && types == old(types) + {r} && fresh(r) && r.shape == Alias(name)
    {
      hide DistinctIds, AreUpTo, AreSingletons, UnionsAreCached, TuplesAreCached, ClassTypesAreCached, FunctionTypesAreCached;
      var id := NextTypeId();
      r := new Type(id, Alias(name));
      UnionsStayCached(types, unionTypeMap, r);
      TuplesStayCached(types, tupleTypeMap, r);
      ClassTypesStayCached(types, classTypeMap, r);
      FunctionTypesStayCached(types, functionTypeMap, r);
      AddSingly(r);
      types := types + {r};
    }

    /** The ordered members of the union of `passedMembers`. */
    method ComputeUnionTypeKey(passedMembers: seq<Type>) returns (keys: seq<Type>)
      requires Valid() && Elements(passedMembers) <= types
      ensures IsSorted(keys) && Elements(keys) == Join(anyType, passedMembers)
      ensures Elements(keys) <= types
    {
      hide Valid, Atoms, AtomsOfAll, DistinctIds;
      keys := [];
      AtomsOfNone();
      for i := 0 to |passedMembers|
        invariant anyType !in passedMembers[..i]
        invariant IsSorted(keys) && Elements(keys) == AtomsOfAll(passedMembers[..i]) && Elements(keys) <= types
      {
        var member := passedMembers[i];
        assert member in Elements(passedMembers);
        AtomsOfOneMore(passedMembers, i);
        AtomsByShape(member);
        if member.shape.Any? {
          return [member];
        }
        if member.shape.Nil? {
          continue;
        }
        if member.shape.Union? {
          keys := EmplaceAll(keys, member.shape.members);
          continue;
        }
        keys := Emplace(keys, member, types);
      }
      assert passedMembers[..|passedMembers|] == passedMembers;
    }

    lemma AtomsByShape(t: Type)
      requires Valid() && t in types
      ensures t.shape.Any? <==> t == anyType
      ensures t.shape.Union? ==> Atoms(t) == Elements(t.shape.members) <= types
      ensures t.shape.Nil? ==> Atoms(t) == {}
      ensures !t.shape.Union? && !t.shape.Nil? ==> Atoms(t) == {t}
      ensures DistinctIds(types)
    {
      hide TuplesAreCached, ClassTypesAreCached, FunctionTypesAreCached, DistinctIds, AreUpTo;
    }

    static lemma AtomsOfNone()
      ensures AtomsOfAll([]) == {} && Elements([]) == {}
    {
    }

    method EmplaceAll(keys: seq<Type>, members: seq<Type>) returns (r: seq<Type>)
      requires Valid() && IsSorted(keys) && Elements(keys) <= types && Elements(members) <= types
      ensures IsSorted(r) && Elements(r) == Elements(keys) + Elements(members)
    {
      r := keys;
      for k := 0 to |members|
        invariant IsSorted(r) && Elements(r) == Elements(keys) + Elements(members[..k])
      {
        assert members[k] in Elements(members);
        assert Elements(members[..k]) <= Elements(members);
        assert members[..k + 1] == members[..k] + [members[k]];
        r := Emplace(r, members[k], types);
      }
      assert members[..|members|] == members;
    }

    /** The one type whose atoms are the join of `passedMembers`. */
    method NewUnionTypeFromVector(passedMembers: seq<Type>) returns (r: Type)
      requires Valid() && Elements(passedMembers) <= types
      modifies this
      ensures Valid() && old(types) <= types && r in types
      ensures Atoms(r) == Join(anyType, passedMembers)
      ensures types == old(types) || (types == old(types) + {r} && fresh(r) && r.shape.Union?)
    {
      hide DistinctIds, AreUpTo, UnionsAreCached, TuplesAreCached, ClassTypesAreCached, FunctionTypesAreCached, IsUnionKey, Join;
      var keys := ComputeUnionTypeKey(passedMembers);
      if |keys| == 0 {
        return nilType;
      }
      KeysAreMembers(passedMembers, keys);
      if |keys| == 1 {
        OnlyKey(keys);
        return keys[0];
      }
      if keys in unionTypeMap {
        CachedUnion(keys);
        return unionTypeMap[keys];
      }
      assert Join(anyType, passedMembers) == Elements(keys);
      r := NewUnionType(keys);
    }

    /** Makes a union type; its key is not in the cache yet. */
    method NewUnionType(keys: seq<Type>) returns (r: Type)
      requires Valid() && IsUnionKey(keys) && Elements(keys) <= types && keys !in unionTypeMap
      modifies this
      ensures Valid() && fresh(r) && types == old(types) + {r}
      ensures r.shape == Union(keys) && Atoms(r) == Elements(keys)
    {
      hide DistinctIds, AreUpTo, AreSingletons, UnionsAreCached, TuplesAreCached, ClassTypesAreCached, FunctionTypesAreCached;
      hide IsUnionKey;
      var id := NextTypeId();
      r := new Type(id, Union(keys));
      TuplesStayCached(types, tupleTypeMap, r);
      ClassTypesStayCached(types, classTypeMap, r);
      FunctionTypesStayCached(types, functionTypeMap, r);
      UnionsCacheOneMore(types, unionTypeMap, r);
      unionTypeMap := unionTypeMap[keys := r];
      AddSingly(r);
      types := types + {r};
    }

    lemma CachedUnion(keys: seq<Type>)
      requires Valid() && keys in unionTypeMap
      ensures unionTypeMap[keys] in types && Atoms(unionTypeMap[keys]) == Elements(keys)
    {
    }

    static lemma OnlyKey(keys: seq<Type>)
      requires |keys| == 1 && forall k | k in keys :: !k.shape.Nil? && !k.shape.Union?
      ensures keys[0] in Elements(keys) && Atoms(keys[0]) == Elements(keys)
    {
      assert keys == [keys[0]];
    }

    lemma KeysAreMembers(passedMembers: seq<Type>, keys: seq<Type>)
      requires Valid() && Elements(passedMembers) <= types && Elements(keys) == Join(anyType, passedMembers)
      ensures |keys| >= 2 && IsSorted(keys) ==> IsUnionKey(keys)
      ensures forall k | k in keys :: !k.shape.Nil? && !k.shape.Union?
    {
      forall k | k in keys ensures !k.shape.Nil? && !k.shape.Union? && (k.shape.Any? ==> anyType in passedMembers) {
        assert k in Elements(keys);
        if anyType !in passedMembers {
          var t :| t in passedMembers && k in Atoms(t);
          assert t in Elements(passedMembers);
          AtomIsMember(t, k);
        }
      }
      if anyType in passedMembers {
        forall i | 0 <= i < |keys| ensures keys[i] == anyType {
          assert keys[i] in Elements(keys);
        }
        assert |keys| >= 2 ==> keys[0] == keys[1];
      }
    }

    lemma AtomIsMember(t: Type, k: Type)
      requires Valid() && t in types && k in Atoms(t)
      ensures k in types && !k.shape.Nil? && !k.shape.Union? && (k.shape.Any? ==> t == anyType)
    {
      if t.shape.Union? {
        assert k in Elements(t.shape.members);
      }
    }

    lemma AtomsOfOneMore(passedMembers: seq<Type>, i: nat)
      requires i < |passedMembers|
      ensures AtomsOfAll(passedMembers[..i + 1]) == AtomsOfAll(passedMembers[..i]) + Atoms(passedMembers[i])
    {
      assert passedMembers[..i + 1] == passedMembers[..i] + [passedMembers[i]];
      assert forall t | t in passedMembers[..i + 1] :: t in passedMembers[..i] || t == passedMembers[i];
    }

    /** A type is determined by its atoms. */
    lemma AtomsDetermine(t: Type, u: Type)
      requires Valid() && t in types && u in types && Atoms(t) == Atoms(u)
      ensures t == u
    {
      if t.shape.Union? && u.shape.Union? {
        SortedIsUnique(t.shape.members, u.shape.members);
      } else if t.shape.Union? {
        TwoAtoms(t);
      } else if u.shape.Union? {
        TwoAtoms(u);
      } else {
        assert !t.shape.Nil? ==> t in Atoms(t);
        assert !u.shape.Nil? ==> u in Atoms(u);
      }
    }

    lemma TwoAtoms(t: Type)
      requires Valid() && t in types && t.shape.Union?
      ensures t !in Atoms(t) && |Atoms(t)| >= 2
      ensures forall u :: Atoms(t) != {u}
    {
      hide Valid, Atoms;
      AtomsByShape(t);
      MembersAreSorted(t);
      var members := t.shape.members;
      NotItsOwnMember(t);
      assert members[0] in Atoms(t) && members[1] in Atoms(t) && members[0] != members[1];
      assert {members[0], members[1]} <= Atoms(t);
      Cardinality({members[0], members[1]}, Atoms(t));
    }

    lemma NotItsOwnMember(t: Type)
      requires Valid() && t in types && t.shape.Union?
      ensures t !in t.shape.members
    {
      hide TuplesAreCached, ClassTypesAreCached, FunctionTypesAreCached, DistinctIds, AreUpTo, IsSorted;
    }

    /** `r` is what `NewUnionTypeFromVector` returned for `types` in this or an earlier state. */
    ghost predicate IsUnionOf(r: Type, passedMembers: seq<Type>)
      reads this
    {
      r in types && Elements(passedMembers) <= types && Atoms(r) == Join(anyType, passedMembers)
    }

    /** Order and repetition of the members do not matter. */
    lemma OrderDoesNotMatter(r: Type, a: seq<Type>, s: Type, b: seq<Type>)
      requires Valid() && IsUnionOf(r, a) && IsUnionOf(s, b) && Elements(a) == Elements(b)
      ensures r == s
    {
      assert forall t :: t in a <==> t in Elements(a);
      assert forall t :: t in b <==> t in Elements(b);
      assert AtomsOfAll(a) == AtomsOfAll(b);
      AtomsDetermine(r, s);
    }

    /** A union among the members can be replaced by what it is the union of. */
    lemma NestingDoesNotMatter(before: seq<Type>, inner: Type, innerMembers: seq<Type>, after: seq<Type>, r: Type, s: Type)
      requires Valid() && IsUnionOf(inner, innerMembers)
      requires IsUnionOf(r, before + [inner] + after) && IsUnionOf(s, before + innerMembers + after)
      ensures r == s
    {
      JoinNests(before, inner, innerMembers, after);
      AtomsDetermine(r, s);
    }

    lemma JoinNests(before: seq<Type>, inner: Type, innerMembers: seq<Type>, after: seq<Type>)
      requires Valid() && IsUnionOf(inner, innerMembers) && anyType.shape.Any?
      ensures Join(anyType, before + [inner] + after) == Join(anyType, before + innerMembers + after)
    {
      AnyIsAlone(inner, innerMembers);
      var left, right := before + [inner] + after, before + innerMembers + after;
      assert anyType in left <==> anyType in right by {
        assert forall t :: t in left <==> t in before || t == inner || t in after;
        assert forall t :: t in right <==> t in before || t in innerMembers || t in after;
      }
      if anyType !in left {
        forall a ensures a in AtomsOfAll(left) <==> a in AtomsOfAll(right) {
          assert forall t :: t in left <==> t in before || t == inner || t in after;
          assert forall t :: t in right <==> t in before || t in innerMembers || t in after;
          assert a in AtomsOfAll(innerMembers) <==> a in Atoms(inner);
        }
        assert AtomsOfAll(left) == AtomsOfAll(right);
      }
    }

    lemma AnyIsAny()
      requires Valid()
      ensures anyType.shape.Any?
    {
    }

    lemma AnyIsAlone(r: Type, passedMembers: seq<Type>)
      requires Valid() && IsUnionOf(r, passedMembers)
      ensures r == anyType <==> anyType in passedMembers
    {
      if anyType in passedMembers {
        AtomsDetermine(r, anyType);
      } else if r == anyType {
        assert anyType in AtomsOfAll(passedMembers);
        var t :| t in passedMembers && anyType in Atoms(t);
        assert t in Elements(passedMembers);
        AtomIsMember(t, anyType);
      }
    }

    /** Two types that are neither any, nil nor unions are united to the pair of them, the older first. */
    lemma UnionOfTwo(a: Type, b: Type, r: Type)
      requires Valid() && IsUnionOf(r, [a, b]) && a.id < b.id
      requires !a.shape.Any? && !a.shape.Nil? && !a.shape.Union? && !b.shape.Any? && !b.shape.Nil? && !b.shape.Union?
      ensures r.shape == Union([a, b])
      ensures forall s | IsUnionOf(s, [b, a]) :: s == r
    {
      hide Valid, Atoms;
      assert Elements([a, b]) == {a, b} == Elements([b, a]);
      assert forall t :: t in [a, b] <==> t == a || t == b;
      assert a in Elements([a, b]) && b in Elements([a, b]);
      AtomsByShape(a);
      AtomsByShape(b);
      AtomsByShape(r);
      assert AtomsOfAll([a, b]) == Atoms(a) + Atoms(b) == {a, b};
      assert a in Atoms(r) && b in Atoms(r);
      MembersAreSorted(r);
      SortedIsUnique(r.shape.members, [a, b]);
      forall s | IsUnionOf(s, [b, a])
        ensures s == r
      {
        Commutative(a, b, r, s);
      }
    }

    lemma MembersAreSorted(t: Type)
      requires Valid() && t in types && t.shape.Union?
      ensures IsSorted(t.shape.members) && |t.shape.members| >= 2
    {
      hide TuplesAreCached, ClassTypesAreCached, FunctionTypesAreCached, DistinctIds, AreUpTo, IsSorted;
    }

    lemma Commutative(a: Type, b: Type, r: Type, s: Type)
      requires Valid() && IsUnionOf(r, [a, b]) && IsUnionOf(s, [b, a])
      ensures r == s
    {
      assert Elements([a, b]) == Elements([b, a]);
      OrderDoesNotMatter(r, [a, b], s, [b, a]);
    }

    lemma Associative(a: Type, b: Type, c: Type, ab: Type, bc: Type, r: Type, s: Type)
      requires Valid() && IsUnionOf(ab, [a, b]) && IsUnionOf(bc, [b, c])
      requires IsUnionOf(r, [ab, c]) && IsUnionOf(s, [a, bc])
      ensures r == s
    {
      hide Valid, Atoms, AtomsOfAll, Join;
      AnyIsAny();
      JoinNests([], ab, [a, b], [c]);
      JoinNests([a], bc, [b, c], []);
      assert [] + [ab] + [c] == [ab, c] && [a] + [bc] + [] == [a, bc];
      assert [] + [a, b] + [c] == [a] + [b, c] + [];
      AtomsDetermine(r, s);
    }

    lemma Idempotent(a: Type, r: Type)
      requires Valid() && IsUnionOf(r, [a, a])
      ensures r == a
    {
      assert a in Elements([a, a]);
      assert Join(anyType, [a, a]) == Atoms(a);
      AtomsDetermine(r, a);
    }

    lemma NilIsIdentity(a: Type, r: Type)
      requires Valid() && IsUnionOf(r, [a, nilType])
      ensures r == a
    {
      assert a in Elements([a, nilType]);
      assert Join(anyType, [a, nilType]) == Atoms(a);
      AtomsDetermine(r, a);
    }

    lemma AnyAbsorbs(a: Type, r: Type)
      requires Valid() && IsUnionOf(r, [a, anyType])
      ensures r == anyType
    {
      AnyIsAlone(r, [a, anyType]);
    }

    /** Every union ever created has at least two members, in order of their ids, and no any, nil or union among them. */
    lemma UnionsAreFlat(t: Type, i: nat)
      requires Valid() && t in types && t.shape.Union? && i < |t.shape.members|
      ensures |t.shape.members| >= 2
      ensures t.shape.members[i] in types && t.shape.members[i] !in {anyType, nilType}
      ensures !t.shape.members[i].shape.Union?
      ensures i > 0 ==> t.shape.members[i - 1].id < t.shape.members[i].id
    {
      assert t.shape.members[i] in Elements(t.shape.members);
    }

    /** `a` is below `b` when joining `a` changes nothing. */
    ghost predicate IsBelow(a: Type, b: Type)
      reads this
    {
      IsUnionOf(b, [a, b])
    }

    /** The union of `passedMembers` is their least upper bound. */
    lemma LeastUpperBound(r: Type, passedMembers: seq<Type>, upper: Type)
      requires Valid() && IsUnionOf(r, passedMembers) && upper in types
      ensures IsBelow(r, upper) <==> forall t | t in passedMembers :: IsBelow(t, upper)
    {
      BelowMeaning(r, upper);
      AnyIsAlone(r, passedMembers);
      forall t | t in passedMembers ensures IsBelow(t, upper) <==> upper == anyType || (t != anyType && Atoms(t) <= Atoms(upper)) {
        assert t in Elements(passedMembers);
        BelowMeaning(t, upper);
      }
      if upper != anyType && anyType !in passedMembers {
        if forall t | t in passedMembers :: Atoms(t) <= Atoms(upper) {
          assert Atoms(r) <= Atoms(upper);
        } else {
          var t, a :| t in passedMembers && a in Atoms(t) && a !in Atoms(upper);
          assert a in Atoms(r);
        }
      }
    }

    lemma BelowMeaning(a: Type, b: Type)
      requires Valid() && a in types && b in types
      ensures IsBelow(a, b) <==> b == anyType || (a != anyType && Atoms(a) <= Atoms(b))
    {
      assert forall t :: t in Elements([a, b]) <==> t == a || t == b;
      if anyType !in [a, b] {
        assert AtomsOfAll([a, b]) == Atoms(a) + Atoms(b);
      } else if b != anyType {
        assert a == anyType;
        assert Atoms(b) != {anyType} by {
          if Atoms(b) == {anyType} { AtomsDetermine(b, anyType); }
        }
      }
    }
  }

  lemma Cardinality<T>(a: set<T>, b: set<T>)
    requires a <= b
    ensures |a| <= |b|
    decreases a
  {
    if a != {} {
      var x :| x in a;
      Cardinality(a - {x}, b - {x});
    }
  }
}
