/**
 The factory of constructed classes. It keeps every object it made under its generic class
 and arguments, so a second request for the same pair gets the same object.
 */
module ConstructedClasses {
  import opened ClassHierarchy

  class ConstructedClassObject {
    const id: nat
    const generic: Class
    const arguments: seq<Type>

    constructor (id: nat, generic: Class, arguments: seq<Type>)
      ensures this.id == id && this.generic == generic && this.arguments == arguments
    {
      this.id := id;
      this.generic := generic;
      this.arguments := arguments;
    }

    /** The value that stands for this object in the class tree. */
    ghost function AsClass(): Class {
      ConstructedClass(generic, arguments)
    }
  }

  class Factory {
    var cache: map<(Class, seq<Type>), ConstructedClassObject>
    var currentValueId: nat

    /** Every object this factory ever made. */
    ghost var made: set<ConstructedClassObject>

    /** The cache holds every object under its own pair; ids count the objects. */
    ghost predicate Valid()
      reads this
    {
      && (forall key | key in cache :: cache[key] in made && (cache[key].generic, cache[key].arguments) == key)
      && (forall o | o in made :: (o.generic, o.arguments) in cache && cache[(o.generic, o.arguments)] == o)
      && (forall o | o in made :: o.id <= currentValueId)
      && (forall o, p | o in made && p in made && o.id == p.id :: o == p)
    }

    constructor ()
      ensures Valid() && made == {}
    {
      cache := map[];
      currentValueId := 0;
      made := {};
    }

    method NewConstructedClass(generic: Class, arguments: seq<Type>) returns (r: ConstructedClassObject)
      requires Valid()
      modifies this
      ensures Valid() && r in made && r.AsClass() == ConstructedClass(generic, arguments)
      ensures old(made) <= made
      ensures if exists o :: o in old(made) && o.AsClass() == ConstructedClass(generic, arguments)
              then made == old(made)
              else made == old(made) + {r} && fresh(r)
    {
      var key := (generic, arguments);
      if key in cache {
        r := cache[key];
        assert r.AsClass() == ConstructedClass(generic, arguments);
        return;
      }
      currentValueId := currentValueId + 1;
      r := new ConstructedClassObject(currentValueId, generic, arguments);
      cache := cache[key := r];
      made := made + {r};
    }

    /**
     Two constructed classes are the same object exactly when they have the same generic
     class and arguments: the value `AsClass` can stand for the object.
     */
    lemma SameValueSameObject(o: ConstructedClassObject, p: ConstructedClassObject)
      requires Valid() && o in made && p in made
      ensures o == p <==> o.AsClass() == p.AsClass()
    {
      assert cache[(o.generic, o.arguments)] == o && cache[(p.generic, p.arguments)] == p;
    }
  }
}
