/**
 The name resolver: environments chained by `outer` pointers, pushed and popped as blocks
 are entered and left. A reference without a variable waits in its environment; when the
 environment closes, it is bound there, handed to the outer one, or reported.
 */
module NameResolution {
  import opened ScopeRules
  import opened Wrappers
  import Sequences

  /** `owed` with `refs` added to what environment `i` owes. */
  ghost function Owe(owed: seq<seq<Ref>>, i: nat, refs: seq<Ref>): (r: seq<seq<Ref>>)
    requires i < |owed|
    ensures |r| == |owed|
  {
    owed[i := owed[i] + refs]
  }

  lemma OweTwice(owed: seq<seq<Ref>>, i: nat, a: seq<Ref>, b: seq<Ref>)
    requires i < |owed|
    ensures Owe(Owe(owed, i, a), i, b) == Owe(owed, i, a + b)
  {
    assert owed[i] + a + b == owed[i] + (a + b);
  }

  lemma OweNothing(owed: seq<seq<Ref>>, i: nat)
    requires i < |owed|
    ensures Owe(owed, i, []) == owed
  {
    assert owed[i] + [] == owed[i];
  }

  lemma OweTake(owed: seq<seq<Ref>>, i: nat, refs: seq<Ref>, n: nat)
    requires i < n <= |owed|
    ensures Owe(owed, i, refs)[..n] == Owe(owed[..n], i, refs)
  {
  }

  lemma OweNew(owed: seq<seq<Ref>>, refs: seq<Ref>)
    ensures Owe(owed + [[]], |owed|, refs) == owed + [refs]
  {
    assert [] + refs == refs;
  }

  /** What each of the four accounts of a visit gains from one more item. */
  lemma OneMoreItem(keywords: set<Name>, items: seq<Item>, i: nat, outer: seq<Frame>, frame: Frame)
    requires i < |items|
    ensures ghost var before := Bindings(items[..i], frame);
            && Bindings(items[..i + 1], frame) == Bind(items[i], before)
            && Redeclared(items[..i + 1], frame) == Redeclared(items[..i], frame) + RedeclaredBy(items[i], before)
            && EscapingFrom(keywords, items[..i + 1], outer, frame) ==
               EscapingFrom(keywords, items[..i], outer, frame) + EscapingOf(keywords, items[i], outer + [before])
            && ResolvedAfter(keywords, items[..i + 1], outer, frame) ==
               ResolvedAfter(keywords, items[..i], outer, frame) + ResolvedBy(keywords, items[i], outer + [before])
  {
    hide Bind, RedeclaredBy, EscapingOf, ResolvedBy;
    assert items[..i + 1][..i] == items[..i];
  }

  lemma NoItems(keywords: set<Name>, outer: seq<Frame>, frame: Frame)
    ensures Bindings([], frame) == frame && Redeclared([], frame) == []
    ensures EscapingFrom(keywords, [], outer, frame) == [] && ResolvedAfter(keywords, [], outer, frame) == []
  {
  }

  class Environment {
    const outer: Environment?
    /** The number of environments around this one. */
    ghost const depth: nat
    var forwardReferencedVariables: seq<Ref>
    var valueMap: map<Name, Variable>

    constructor (outer: Environment?, valueMap: map<Name, Variable>)
      ensures this.outer == outer && this.valueMap == valueMap && forwardReferencedVariables == []
      ensures depth == if outer == null then 0 else outer.depth + 1
    {
      this.depth := if outer == null then 0 else outer.depth + 1;
      this.outer := outer;
      this.valueMap := valueMap;
      forwardReferencedVariables := [];
    }
  }

  class NameResolver {
    const keywords: set<Name>
    /** The innermost open environment. */
    var environment: Environment?
    /** The variable registered for each resolved reference, and the reported errors. */
    var registered: seq<(Ref, Variable)>
    var undefinedVariables: seq<Ref>
    var multipleOccurrences: seq<(Name, Variable)>

    /** The open environments, the global one first, what they bind and what they still owe. */
    ghost var chain: seq<Environment>
    ghost var frames: seq<Frame>
    ghost var owed: seq<seq<Ref>>

    ghost predicate Valid()
      reads this, chain
    {
      && |frames| == |owed| == |chain|
      && environment == OuterOf(|chain|)
      && (forall i {:trigger chain[i].outer} :: 0 <= i < |chain| ==> chain[i].outer == OuterOf(i))
      && (forall i :: 0 <= i < |chain| ==> chain[i].depth == i)
      && (forall i :: 0 <= i < |chain| ==> chain[i].valueMap == frames[i])
      && (forall i :: 0 <= i < |chain| ==> chain[i].forwardReferencedVariables == owed[i])
    }

    ghost function OuterOf(i: nat): Environment?
      requires i <= |chain|
      reads this
    {
      if i == 0 then null else chain[i - 1]
    }

    constructor (keywords: set<Name>, globals: map<Name, Variable>)
      ensures Valid() && this.keywords == keywords && fresh(chain)
      ensures frames == [globals] && owed == [[]]
      ensures registered == [] && undefinedVariables == [] && multipleOccurrences == []
    {
      this.keywords := keywords;
      registered, undefinedVariables, multipleOccurrences := [], [], [];
      var global := new Environment(null, globals);
      environment := global;
      chain, frames, owed := [global], [globals], [[]];
    }

    method OpenEnvironment()
      requires Valid()
      modifies this
      ensures Valid() && |chain| == |old(chain)| + 1 && chain[..|old(chain)|] == old(chain)
      ensures fresh(chain[|chain| - 1])
      ensures frames == old(frames) + [map[]] && owed == old(owed) + [[]]
      ensures registered == old(registered) && undefinedVariables == old(undefinedVariables)
      ensures multipleOccurrences == old(multipleOccurrences)
    {
      var scope := new Environment(environment, map[]);
      environment := scope;
      chain, frames, owed := chain + [scope], frames + [map[]], owed + [[]];
    }

    /** The variable of `name` in the innermost environment that binds it. */
    method FindVariable(name: Name) returns (r: Option<Variable>)
      requires Valid()
      ensures r == Lookup(frames, name)
    {
      var runner := environment;
      ghost var n: nat := |chain|;
      assert frames[..n] == frames;
      while runner != null
        invariant n <= |chain| && runner == OuterOf(n)
        invariant Lookup(frames[..n], name) == Lookup(frames, name)
        decreases n
      {
        assert frames[..n][..n - 1] == frames[..n - 1];
        if name in runner.valueMap {
          return Some(runner.valueMap[name]);
        }
        runner := runner.outer;
        n := n - 1;
      }
      return None;
    }

    /** Binds `name` in the innermost environment, once. */
    method BindVariable(name: Name, variable: Variable) returns (r: Variable)
      requires Valid() && chain != []
      modifies this`multipleOccurrences, this`frames, environment
      ensures Valid() && |frames| == |old(frames)|
      ensures frames == old(frames)[|chain| - 1 := Bind(Declare(name, variable), old(frames)[|chain| - 1])]
      ensures name in frames[|chain| - 1] && r == frames[|chain| - 1][name]
      ensures multipleOccurrences ==
              old(multipleOccurrences) + if name in old(frames)[|chain| - 1] then [(name, r)] else []
    {
      if name in environment.valueMap {
        multipleOccurrences := multipleOccurrences + [(name, environment.valueMap[name])];
        return environment.valueMap[name];
      }
      environment.valueMap := environment.valueMap[name := variable];
      frames := frames[|chain| - 1 := environment.valueMap];
      return variable;
    }

    method AddForwardReferencedVariable(scope: Environment, ghost i: nat, ref: Ref)
      requires Valid() && i < |chain| && scope == chain[i]
      modifies this`owed, scope
      ensures Valid() && owed == Owe(old(owed), i, [ref])
    {
      scope.forwardReferencedVariables := scope.forwardReferencedVariables + [ref];
      owed := Owe(owed, i, [ref]);
    }

    /** Visits a reference expression. */
    method VisitReference(ref: Ref)
      requires Valid() && chain != []
      modifies this`registered, this`owed, environment
      ensures Valid() && |owed| == |old(owed)|
      ensures registered == old(registered) + ResolvedBy(keywords, Reference(ref), frames)
      ensures owed == Owe(old(owed), |chain| - 1, EscapingOf(keywords, Reference(ref), frames))
    {
      OweNothing(owed, |chain| - 1);
      if ref.name in keywords {
        return;
      }
      var present := FindVariable(ref.name);
      if present.Some? {
        registered := registered + [(ref, present.value)];
        return;
      }
      AddForwardReferencedVariable(environment, |chain| - 1, ref);
    }

    /** Settles what the innermost environment owes: binds it, passes it outward or reports it. */
    method ResolveForwardReferences()
      requires Valid() && chain != []
      modifies this`registered, this`undefinedVariables, this`owed, environment.outer
      ensures Valid() && |owed| == |old(owed)|
      ensures registered == old(registered) + Bound(old(owed)[|chain| - 1], frames[|chain| - 1])
      ensures |chain| == 1 ==>
                && owed == old(owed)
                && undefinedVariables == old(undefinedVariables) + Unbound(old(owed)[0], frames[0])
      ensures |chain| > 1 ==>
                && owed == Owe(old(owed), |chain| - 2, Unbound(old(owed)[|chain| - 1], frames[|chain| - 1]))
                && undefinedVariables == old(undefinedVariables)
    {
      hide Bound, Unbound, Owe, Valid;
      Sizes();
      ghost var n := |chain| - 1;
      if n > 0 {
        OweNothing(owed, n - 1);
      }
      var references := environment.forwardReferencedVariables;
      CloseNothing(references, frames[n]);
      for i := 0 to |references|
        invariant Valid() && |owed| == |chain|
        invariant registered == old(registered) + Bound(references[..i], frames[n])
        invariant n == 0 ==>
            owed == old(owed) && undefinedVariables == old(undefinedVariables) + Unbound(references[..i], frames[n])
        invariant n > 0 ==>
            owed == Owe(old(owed), n - 1, Unbound(references[..i], frames[n])) && undefinedVariables == old(undefinedVariables)
      {
        CloseOneMore(references, i, frames[n]);
        if n > 0 {
          OweTwice(old(owed), n - 1, Unbound(references[..i], frames[n]), [references[i]]);
        }
        ResolveForwardReference(references[i]);
      }
      assert references[..|references|] == references;
    }

    /** The body of the loop of `ResolveForwardReferences`. */
    method ResolveForwardReference(ref: Ref)
      requires Valid() && chain != []
      modifies this`registered, this`undefinedVariables, this`owed, environment.outer
      ensures Valid() && |owed| == |old(owed)|
      ensures ghost var n := |chain| - 1;
              if ref.name in frames[n] then
                && registered == old(registered) + [(ref, frames[n][ref.name])]
                && owed == old(owed) && undefinedVariables == old(undefinedVariables)
              else if n > 0 then
                && registered == old(registered) && undefinedVariables == old(undefinedVariables)
                && owed == Owe(old(owed), n - 1, [ref])
              else
                && registered == old(registered) && owed == old(owed)
                && undefinedVariables == old(undefinedVariables) + [ref]
    {
      hide Owe;
      if ref.name in environment.valueMap {
        registered := registered + [(ref, environment.valueMap[ref.name])];
        return;
      }
      if environment.outer != null {
        AddForwardReferencedVariable(environment.outer, |chain| - 2, ref);
        return;
      }
      undefinedVariables := undefinedVariables + [ref];
    }

    /** What the environments bind and owe is what their fields say. */
    lemma Sizes()
      requires Valid() && chain != []
      ensures |frames| == |owed| == |chain| && environment == chain[|chain| - 1]
      ensures environment.valueMap == frames[|chain| - 1]
      ensures environment.forwardReferencedVariables == owed[|chain| - 1]
    {
    }

    /** Leaves the innermost environment, as its destructor does. */
    method CloseEnvironment()
      requires Valid() && chain != []
      modifies this, environment.outer
      ensures Valid() && chain == old(chain)[..|old(chain)| - 1]
      ensures frames == old(frames)[..|chain|]
      ensures registered == old(registered) + Bound(old(owed)[|chain|], old(frames)[|chain|])
      ensures chain == [] ==> undefinedVariables == old(undefinedVariables) + Unbound(old(owed)[|chain|], old(frames)[|chain|])
      ensures chain != [] ==>
                && undefinedVariables == old(undefinedVariables)
                && owed == Owe(old(owed)[..|chain|], |chain| - 1, Unbound(old(owed)[|chain|], old(frames)[|chain|]))
      ensures multipleOccurrences == old(multipleOccurrences)
    {
      hide Bound, Unbound, Owe;
      ghost var n := |chain| - 1;
      if n > 0 {
        OweTake(owed, n - 1, Unbound(owed[n], frames[n]), n);
      }
      ResolveForwardReferences();
      environment := environment.outer;
      chain, frames, owed := chain[..|chain| - 1], frames[..|chain| - 1], owed[..|chain| - 1];
    }

    /** Visits `items` in the innermost environment. */
    method VisitAll(items: seq<Item>)
      requires Valid() && chain != []
      modifies this, chain
      ensures Valid() && chain == old(chain) && |frames| == |owed| == |old(frames)| == |old(owed)| == |chain|
      ensures ghost var n := |chain| - 1;
              && frames == old(frames)[n := Bindings(items, old(frames)[n])]
              && owed == Owe(old(owed), n, EscapingFrom(keywords, items, old(frames)[..n], old(frames)[n]))
              && registered == old(registered) + ResolvedAfter(keywords, items, old(frames)[..n], old(frames)[n])
              && multipleOccurrences == old(multipleOccurrences) + Redeclared(items, old(frames)[n])
      ensures undefinedVariables == old(undefinedVariables)
      decreases items, 0
    {
      hide EscapingOf, ResolvedBy, RedeclaredBy, Bind, Owe, Valid;
      Sizes();
      NoItems(keywords, old(frames)[..|chain| - 1], old(frames)[|chain| - 1]);
      hide EscapingFrom, ResolvedAfter, Bindings, Redeclared;
      ghost var n := |chain| - 1;
      OweNothing(owed, n);
      for i := 0 to |items|
        invariant Valid() && chain == old(chain) && |owed| == |chain|
        invariant frames == old(frames)[n := Bindings(items[..i], old(frames)[n])]
        invariant owed == Owe(old(owed), n, EscapingFrom(keywords, items[..i], old(frames)[..n], old(frames)[n]))
        invariant registered == old(registered) + ResolvedAfter(keywords, items[..i], old(frames)[..n], old(frames)[n])
        invariant multipleOccurrences == old(multipleOccurrences) + Redeclared(items[..i], old(frames)[n])
        invariant undefinedVariables == old(undefinedVariables)
      {
        OneMoreItem(keywords, items, i, old(frames)[..n], old(frames)[n]);
        assert frames == old(frames)[..n] + [Bindings(items[..i], old(frames)[n])];
        OweTwice(old(owed), n, EscapingFrom(keywords, items[..i], old(frames)[..n], old(frames)[n]),
                 EscapingOf(keywords, items[i], frames));
        Visit(items[i]);
      }
      assert items[..|items|] == items;
    }

    /** Visits one item; a block is visited in an environment of its own. */
    method Visit(item: Item)
      requires Valid() && chain != []
      modifies this, chain
      ensures Valid() && chain == old(chain) && |frames| == |owed| == |old(frames)| == |old(owed)| == |chain|
      ensures ghost var n := |chain| - 1;
              && frames == old(frames)[n := Bind(item, old(frames)[n])]
              && owed == Owe(old(owed), n, EscapingOf(keywords, item, old(frames)))
              && registered == old(registered) + ResolvedBy(keywords, item, old(frames))
              && multipleOccurrences == old(multipleOccurrences) + RedeclaredBy(item, old(frames)[n])
      ensures undefinedVariables == old(undefinedVariables)
      decreases item, 0
    {
      hide EscapingFrom, ResolvedAfter, Bindings, Redeclared, Lookup;
      OweNothing(owed, |chain| - 1);
      match item
      case Declare(name, variable) =>
        var _ := BindVariable(name, variable);
      case Reference(ref) =>
        VisitReference(ref);
      case Block(items) =>
        VisitBlock(items);
    }

    method VisitBlock(items: seq<Item>)
      requires Valid() && chain != []
      modifies this, chain
      ensures Valid() && chain == old(chain) && |owed| == |old(owed)| == |chain|
      ensures frames == old(frames)
      ensures owed == Owe(old(owed), |chain| - 1, EscapingOf(keywords, Block(items), frames))
      ensures registered == old(registered) + ResolvedBy(keywords, Block(items), frames)
      ensures multipleOccurrences == old(multipleOccurrences) + Redeclared(items, map[])
      ensures undefinedVariables == old(undefinedVariables)
      decreases items, 1
    {
      hide EscapingFrom, ResolvedAfter, Bindings, Redeclared, Bound, Unbound, Owe;
      ghost var n := |chain|;
      ghost var escaping := EscapingFrom(keywords, items, frames, map[]);
      ghost var resolved := ResolvedAfter(keywords, items, frames, map[]);
      OpenEnvironment();
      assert frames[..n] == old(frames) && frames[n] == map[];
      VisitAll(items);
      OweNew(old(owed), escaping);
      assert owed[..n] == old(owed) && frames[..n] == old(frames);
      CloseEnvironment();
      Sequences.ConcatAssociative(old(registered), resolved, Bound(escaping, Bindings(items, map[])));
    }
  }

  /**
   A whole run: a resolver visits the compilation units, a module being a block, and is
   destroyed. Every reference got the outcome the two-pass rule gives it; no reference was
   lost, and none was both registered and reported.
   */
  method Resolve(keywords: set<Name>, globals: map<Name, Variable>, units: seq<Item>) returns (resolver: NameResolver)
    ensures resolver.Valid() && resolver.environment == null
    ensures multiset(AsOutcomes(resolver.registered)) + multiset(AsUndefined(resolver.undefinedVariables))
         == multiset(Outcomes(keywords, units, [], globals, [Bindings(units, globals)]))
    ensures multiset(RefsOf(AsOutcomes(resolver.registered))) + multiset(resolver.undefinedVariables)
         == multiset(References(keywords, units))
    ensures resolver.multipleOccurrences == Redeclared(units, globals)
  {
    hide EscapingFrom, ResolvedAfter, Bindings, Redeclared, Bound, Unbound, Outcomes, References, AsOutcomes, AsUndefined;
    resolver := new NameResolver(keywords, globals);
    assert resolver.frames[..0] == [];
    resolver.VisitAll(units);
    ghost var escaping := EscapingFrom(keywords, units, [], globals);
    assert resolver.owed[0] == escaping;
    resolver.CloseEnvironment();
    assert resolver.undefinedVariables == Unbound(escaping, Bindings(units, globals));
    assert resolver.registered == ResolvedAfter(keywords, units, [], globals) + Bound(escaping, Bindings(units, globals));
    WholeRun(keywords, units, globals, Bindings(units, globals), escaping);
    NothingLost(keywords, units, globals, resolver.registered, resolver.undefinedVariables);
  }

  lemma NothingLost(keywords: set<Name>, units: seq<Item>, globals: Frame, registered: seq<(Ref, Variable)>, undefined: seq<Ref>)
    requires multiset(AsOutcomes(registered)) + multiset(AsUndefined(undefined))
          == multiset(Outcomes(keywords, units, [], globals, [Bindings(units, globals)]))
    ensures multiset(RefsOf(AsOutcomes(registered))) + multiset(undefined) == multiset(References(keywords, units))
  {
    var finals := [Bindings(units, globals)];
    OneOutcomeEach(keywords, units, [], globals, finals);
    RefsOfConcat(AsOutcomes(registered), AsUndefined(undefined));
    SameRefs(AsOutcomes(registered) + AsUndefined(undefined), Outcomes(keywords, units, [], globals, finals));
    RefsOfUndefined(undefined);
  }
}
