/**
 Classes, their declared heritage, and the two lists the class tree builder computes:
 the breadth-first class list of a normal or generic class, and the instance of a
 generic class's list for given type arguments.

 A class is identified by its value. For constructed classes this is justified by
 `ConstructedClasses.Factory`, which never makes two objects for one (generic class,
 arguments) pair.
 */
module ClassHierarchy {
  import Sequences

  datatype Type =
    | TypeParameter(id: nat)
    | OtherType(id: nat)

  datatype Class =
    | NormalClass(id: nat)
    | GenericClass(id: nat, parameters: seq<Type>)
    | ConstructedClass(generic: Class, arguments: seq<Type>)

  /** The `extends`/`implements` lists as written in the program. */
  type Heritage = map<Class, seq<Class>>

  /** A constructed class never has base classes of its own. */
  function BaseClasses(h: Heritage, c: Class): seq<Class> {
    if c.ConstructedClass? || c !in h then [] else h[c]
  }

  /** The generic class of a constructed class, any other class itself. */
  function Stripped(c: Class): Class {
    if c.ConstructedClass? then c.generic else c
  }

  function StrippedBases(h: Heritage, c: Class): set<Class> {
    set b | b in BaseClasses(h, c) :: Stripped(b)
  }

  predicate WellFormed(c: Class) {
    c.ConstructedClass? ==> c.generic.GenericClass? && |c.arguments| == |c.generic.parameters|
  }

  predicate WellFormedHeritage(h: Heritage) {
    forall c, b | c in h && b in h[c] :: WellFormed(b)
  }

  lemma BaseIsWellFormed(h: Heritage, c: Class, b: Class)
    requires WellFormedHeritage(h) && b in BaseClasses(h, c)
    ensures WellFormed(b)
  {
  }

  // ----- Breadth-first class lists

  /** The elements of `s` in the order of their first occurrence. */
  function FirstOccurrences(s: seq<Class>): (r: seq<Class>)
    ensures forall x :: x in r <==> x in s
    ensures NoDuplicates(r)
  {
    if s == [] then [] else
      var p := FirstOccurrences(s[..|s| - 1]);
      if s[|s| - 1] in p then p else p + [s[|s| - 1]]
  }

  ghost predicate NoDuplicates(s: seq<Class>) {
    forall i, j :: 0 <= i < j < |s| ==> s[i] != s[j]
  }

  /** The base classes of all classes in `s`, list after list. */
  function AllBases(h: Heritage, s: seq<Class>): seq<Class> {
    if s == [] then [] else AllBases(h, s[..|s| - 1]) + BaseClasses(h, s[|s| - 1])
  }

  /**
   `s` is what a breadth-first walk from `c` discovers: `c`, then every base class of
   every class of `s` in order of discovery, each discovered from an earlier entry.
   */
  ghost predicate IsBreadthFirst(h: Heritage, c: Class, s: seq<Class>) {
    && s == Discovered(h, c, s)
    && IsProductive(h, c, s, |s|)
  }

  /** None of the first `n` prefixes of `s` has run out of discovered classes. */
  ghost predicate IsProductive(h: Heritage, c: Class, s: seq<Class>, n: nat)
    requires n <= |s|
  {
    forall i :: 0 < i < n ==> i < |Discovered(h, c, s[..i])|
  }

  /** Visiting entry `i` of a walk that has grown from `s` to `t`. */
  lemma WalkOneMore(h: Heritage, c: Class, s: seq<Class>, t: seq<Class>, i: nat)
    requires i < |s| && s <= t && IsProductive(h, c, s, i)
    requires s == Discovered(h, c, s[..i])
    ensures IsProductive(h, c, t, i + 1)
    ensures AllBases(h, t[..i + 1]) == AllBases(h, s[..i]) + BaseClasses(h, s[i])
  {
    hide AllBases, FirstOccurrences;
    forall k | 0 < k < i + 1
      ensures k < |Discovered(h, c, t[..k])|
    {
      assert t[..k] == s[..k];
    }
    assert t[..i + 1] == s[..i] + [s[i]];
    AllBasesAppend(h, s[..i], s[i]);
  }

  /** `c` followed by the base classes of the classes in `s`, in order of discovery. */
  function Discovered(h: Heritage, c: Class, s: seq<Class>): (r: seq<Class>)
    ensures forall x :: x in r <==> x == c || x in AllBases(h, s)
  {
    [c] + FirstOccurrences(AllBases(h, s))
  }

  /** The classes at most `n` heritage steps above `c`. */
  ghost function Within(h: Heritage, c: Class, n: nat): set<Class> {
    if n == 0 then {c} else
      Within(h, c, n - 1) + BasesOfSet(h, Within(h, c, n - 1))
  }

  ghost function BasesOfSet(h: Heritage, s: set<Class>): set<Class> {
    set x, b | x in s && b in BaseClasses(h, x) :: b
  }

  ghost predicate Reachable(h: Heritage, c: Class, x: Class) {
    exists n: nat :: x in Within(h, c, n)
  }

  /** Each class of `p` names the next one in its written list; constructed classes name none. */
  ghost predicate IsChain(h: Heritage, p: seq<Class>) {
    forall k | 0 <= k < |p| - 1 :: !p[k].ConstructedClass? && p[k] in h && p[k + 1] in h[p[k]]
  }

  ghost predicate IsChainFrom(h: Heritage, p: seq<Class>, c: Class, x: Class) {
    p != [] && p[0] == c && p[|p| - 1] == x && IsChain(h, p)
  }

  /** The classes at most `n` steps above `c` are the ends of chains of at most `n` names from `c`. */
  lemma {:induction false} WithinIsChains(h: Heritage, c: Class, n: nat, x: Class)
    ensures x in Within(h, c, n) <==> exists p :: IsChainFrom(h, p, c, x) && |p| <= n + 1
  {
    hide Within, IsChainFrom;
    if x in Within(h, c, n) {
      var p := ChainTo(h, c, n, x);
    }
    forall p | IsChainFrom(h, p, c, x) && |p| <= n + 1
      ensures x in Within(h, c, n)
    {
      EndOfChain(h, c, x, p);
      WithinMonotone(h, c, |p| - 1, n);
    }
  }

  lemma {:induction false} ChainTo(h: Heritage, c: Class, n: nat, x: Class) returns (p: seq<Class>)
    requires x in Within(h, c, n)
    ensures |p| <= n + 1 && IsChainFrom(h, p, c, x)
  {
    hide IsChainFrom;
    if n == 0 {
      p := [c];
      ShortChain(h, c);
    } else if x in Within(h, c, n - 1) {
      p := ChainTo(h, c, n - 1, x);
    } else {
      assert x in BasesOfSet(h, Within(h, c, n - 1));
      var y :| y in Within(h, c, n - 1) && x in BaseClasses(h, y);
      p := ChainTo(h, c, n - 1, y);
      LongerChain(h, p, c, y, x);
      p := p + [x];
    }
  }

  lemma ShortChain(h: Heritage, c: Class)
    ensures IsChainFrom(h, [c], c, c)
  {
  }

  lemma LongerChain(h: Heritage, p: seq<Class>, c: Class, y: Class, x: Class)
    requires IsChainFrom(h, p, c, y) && x in BaseClasses(h, y)
    ensures IsChainFrom(h, p + [x], c, x)
  {
  }

  lemma ShorterChain(h: Heritage, p: seq<Class>, n: nat, c: Class, x: Class)
    requires |p| == n + 2 && IsChainFrom(h, p, c, x)
    ensures IsChainFrom(h, p[..n + 1], c, p[n]) && x in BaseClasses(h, p[n])
  {
  }

  lemma {:induction false} EndOfChain(h: Heritage, c: Class, x: Class, p: seq<Class>)
    requires IsChainFrom(h, p, c, x)
    ensures |p| > 0 && x in Within(h, c, |p| - 1)
    decreases |p|
  {
    hide IsChain;
    if |p| > 1 {
      var n := |p| - 2;
      ShorterChain(h, p, n, c, x);
      EndOfChain(h, c, p[n], p[..n + 1]);
      BaseWithin(h, c, n, p[n], x);
    }
  }

  lemma {:induction false} FirstOccurrencesPrefix(s: seq<Class>, t: seq<Class>)
    ensures FirstOccurrences(s) <= FirstOccurrences(s + t)
  {
    if t == [] {
      assert s + t == s;
    } else {
      FirstOccurrencesPrefix(s, t[..|t| - 1]);
      assert (s + t)[..|s + t| - 1] == s + t[..|t| - 1];
    }
  }

  lemma {:induction false} AllBasesConcat(h: Heritage, s: seq<Class>, t: seq<Class>)
    ensures AllBases(h, s + t) == AllBases(h, s) + AllBases(h, t)
  {
    if t == [] {
      assert s + t == s;
    } else {
      var p := t[..|t| - 1];
      AllBasesConcat(h, s, p);
      assert s + t == (s + p) + [t[|t| - 1]];
      AllBasesAppend(h, s + p, t[|t| - 1]);
      Sequences.ConcatAssociative(AllBases(h, s), AllBases(h, p), BaseClasses(h, t[|t| - 1]));
    }
  }

  lemma AllBasesAppend(h: Heritage, s: seq<Class>, c: Class)
    ensures AllBases(h, s + [c]) == AllBases(h, s) + BaseClasses(h, c)
  {
    assert (s + [c])[..|s + [c]| - 1] == s;
  }

  lemma {:induction false} AllBasesElements(h: Heritage, s: seq<Class>, x: Class)
    ensures x in AllBases(h, s) <==> exists i :: 0 <= i < |s| && x in BaseClasses(h, s[i])
  {
    if s != [] {
      AllBasesElements(h, s[..|s| - 1], x);
    }
  }

  /** What the first `i` entries of a breadth-first list discover is a prefix of the list. */
  lemma DiscoveredPrefix(h: Heritage, c: Class, s: seq<Class>, i: nat)
    requires IsBreadthFirst(h, c, s) && i <= |s|
    ensures Discovered(h, c, s[..i]) <= s
  {
    hide AllBases, FirstOccurrences, IsProductive;
    assert s[..i] + s[i..] == s;
    AllBasesConcat(h, s[..i], s[i..]);
    FirstOccurrencesPrefix(AllBases(h, s[..i]), AllBases(h, s[i..]));
  }

  /** Two breadth-first lists of the same class are equal: the list is a function of the heritage. */
  lemma BreadthFirstUnique(h: Heritage, c: Class, s: seq<Class>, t: seq<Class>)
    requires IsBreadthFirst(h, c, s) && IsBreadthFirst(h, c, t)
    ensures s == t
  {
    var n := if |s| <= |t| then |s| else |t|;
    BreadthFirstPrefix(h, c, s, t, n);
    assert s[..|s|] == s && t[..|t|] == t;
  }

  lemma {:induction false} BreadthFirstPrefix(h: Heritage, c: Class, s: seq<Class>, t: seq<Class>, i: nat)
    requires IsBreadthFirst(h, c, s) && IsBreadthFirst(h, c, t)
    requires i <= |s| && i <= |t|
    ensures s[..i] == t[..i]
  {
    if i == 0 {
    } else if i == 1 {
      BreadthFirstHead(h, c, s);
      BreadthFirstHead(h, c, t);
    } else {
      BreadthFirstPrefix(h, c, s, t, i - 1);
      DiscoveredPrefix(h, c, s, i - 1);
      DiscoveredPrefix(h, c, t, i - 1);
      CommonPrefix(Discovered(h, c, s[..i - 1]), s, t, i);
    }
  }

  lemma BreadthFirstHead(h: Heritage, c: Class, s: seq<Class>)
    requires IsBreadthFirst(h, c, s)
    ensures s != [] && s[0] == c
    ensures forall i :: 1 <= i < |s| ==> s[i] in AllBases(h, s)
  {
    assert s[0] == Discovered(h, c, s)[0];
    forall i | 1 <= i < |s|
      ensures s[i] in AllBases(h, s)
    {
      assert s[i] == FirstOccurrences(AllBases(h, s))[i - 1];
    }
  }

  lemma NotAmongBases(h: Heritage, c: Class, s: seq<Class>)
    requires IsBreadthFirst(h, c, s) && forall i :: 1 <= i < |s| ==> s[i] != c
    ensures c !in AllBases(h, s)
  {
    assert s[1..] == FirstOccurrences(AllBases(h, s));
    assert c !in s[1..];
  }

  lemma CommonPrefix(d: seq<Class>, s: seq<Class>, t: seq<Class>, i: nat)
    requires d <= s && d <= t && i <= |d|
    ensures s[..i] == t[..i]
  {
  }

  /** The classes within `n` steps are the first few entries of the breadth-first list. */
  lemma {:induction false} WithinIsPrefix(h: Heritage, c: Class, s: seq<Class>, n: nat) returns (m: nat)
    requires IsBreadthFirst(h, c, s)
    ensures m <= |s|
    ensures forall x :: x in Within(h, c, n) <==> x in s[..m]
  {
    if n == 0 {
      BreadthFirstHead(h, c, s);
      m := 1;
      assert s[..1] == [c];
    } else {
      hide IsBreadthFirst, AllBases, Within, FirstOccurrences;
      var k := WithinIsPrefix(h, c, s, n - 1);
      DiscoveredPrefix(h, c, s, k);
      var d := Discovered(h, c, s[..k]);
      m := |d|;
      assert s[..m] == d;
      forall x
        ensures x in Within(h, c, n) <==> x in d
      {
        WithinStep(h, c, s[..k], n - 1, x);
      }
    }
  }

  /** One more step reaches the start and the bases of what is reached already. */
  lemma {:induction false} WithinStep(h: Heritage, c: Class, s: seq<Class>, n: nat, x: Class)
    requires forall y :: y in Within(h, c, n) <==> y in s
    ensures x in Within(h, c, n + 1) <==> x == c || x in AllBases(h, s)
  {
    AllBasesElements(h, s, x);
    assert x in BasesOfSet(h, Within(h, c, n)) <==> x in AllBases(h, s);
    WithinStartOrBase(h, c, n, x);
  }

  /** A class within `n` steps is the start itself or a base of a class within `n` steps. */
  lemma {:induction false} WithinStartOrBase(h: Heritage, c: Class, n: nat, x: Class)
    ensures c in Within(h, c, n)
    ensures x in Within(h, c, n) ==> x == c || x in BasesOfSet(h, Within(h, c, n))
  {
    if n > 0 {
      WithinStartOrBase(h, c, n - 1, x);
      assert BasesOfSet(h, Within(h, c, n - 1)) <= BasesOfSet(h, Within(h, c, n));
    }
  }

  /** Every entry but the first is a base of an earlier one. */
  lemma EntryHasUser(h: Heritage, c: Class, s: seq<Class>, i: nat) returns (j: nat)
    requires IsBreadthFirst(h, c, s) && 0 < i < |s|
    ensures j < i && s[i] in BaseClasses(h, s[j])
  {
    hide Within, BaseClasses;
    DiscoveredPrefix(h, c, s, i);
    assert s[i] == Discovered(h, c, s[..i])[i];
    assert s[i] == FirstOccurrences(AllBases(h, s[..i]))[i - 1];
    AllBasesElements(h, s[..i], s[i]);
    j :| 0 <= j < |s[..i]| && s[i] in BaseClasses(h, s[..i][j]);
  }

  lemma {:induction false} EntryWithin(h: Heritage, c: Class, s: seq<Class>, i: nat)
    requires IsBreadthFirst(h, c, s) && i < |s|
    ensures s[i] in Within(h, c, i)
  {
    hide Discovered, AllBases, IsProductive, IsBreadthFirst, BasesOfSet, BaseClasses;
    if i == 0 {
      BreadthFirstHead(h, c, s);
    } else {
      var j := EntryHasUser(h, c, s, i);
      EntryWithin(h, c, s, j);
      WithinMonotone(h, c, j, i - 1);
      BaseWithin(h, c, i - 1, s[j], s[i]);
    }
  }

  lemma BaseWithin(h: Heritage, c: Class, n: nat, x: Class, b: Class)
    requires x in Within(h, c, n) && b in BaseClasses(h, x)
    ensures b in Within(h, c, n + 1)
  {
    assert b in BasesOfSet(h, Within(h, c, n));
  }

  lemma {:induction false} WithinMonotone(h: Heritage, c: Class, m: nat, n: nat)
    requires m <= n
    ensures Within(h, c, m) <= Within(h, c, n)
  {
    if m < n {
      WithinMonotone(h, c, m, n - 1);
    }
  }

  /**
   What a breadth-first list means: it starts with its class, holds exactly the classes
   reachable from it, and no class comes before one that is fewer steps away.
   When the class is not among its own ancestors, nothing occurs twice.
   */
  lemma BreadthFirstMeaning(h: Heritage, c: Class, s: seq<Class>)
    requires IsBreadthFirst(h, c, s)
    ensures s[0] == c
    ensures forall x :: x in s <==> Reachable(h, c, x)
    ensures c !in AllBases(h, s) ==> NoDuplicates(s)
    ensures c !in AllBases(h, s) ==>
              forall i, j, n: nat | 0 <= i < j < |s| && s[j] in Within(h, c, n) :: s[i] in Within(h, c, n)
  {
    forall x
      ensures x in s <==> Reachable(h, c, x)
    {
      if x in s {
        var i :| 0 <= i < |s| && s[i] == x;
        EntryWithin(h, c, s, i);
      }
      if Reachable(h, c, x) {
        var n: nat :| x in Within(h, c, n);
        var m := WithinIsPrefix(h, c, s, n);
        assert x in s[..m];
      }
    }
    assert s[0] == Discovered(h, c, s)[0];
    if c !in AllBases(h, s) {
      assert s[1..] == FirstOccurrences(AllBases(h, s));
      forall i, j | 0 <= i < j < |s|
        ensures s[i] != s[j]
      {
        assert s[j] == s[1..][j - 1];
        if i > 0 {
          assert s[i] == s[1..][i - 1];
        }
      }
      forall i, j, n: nat | 0 <= i < j < |s| && s[j] in Within(h, c, n)
        ensures s[i] in Within(h, c, n)
      {
        var m := WithinIsPrefix(h, c, s, n);
        var k :| 0 <= k < m && s[k] == s[j];
        assert k == j;
        assert s[i] == s[..m][i];
      }
    }
  }

  lemma WalkOfTwo(h: Heritage, d: Class, y: Class)
    requires BaseClasses(h, d) == [y] && BaseClasses(h, y) == []
    ensures IsBreadthFirst(h, d, [d, y])
  {
    AllBasesAppend(h, [], d);
    AllBasesAppend(h, [d], y);
    FirstOccurrencesAppend([], y);
    assert [] + [d] == [d] && [d] + [y] == [d, y] && [] + [y] == [y];
    assert AllBases(h, [d, y]) == [y] && [d, y][..1] == [d];
  }

  /**
   A walk stops at a constructed class: with `D extends G<int>` and `G<T> extends A`, the
   list of `D` is `D`, `G<int>`, without the `A` that `G` reaches.
   */
  lemma StopsAtConstructed(h: Heritage, d: Class, y: Class, a: Class)
    requires BaseClasses(h, d) == [y] && y.ConstructedClass?
    requires a in BaseClasses(h, y.generic) && a != d && a != y
    ensures IsBreadthFirst(h, d, [d, y])
    ensures Reachable(h, y.generic, a) && !Reachable(h, d, a)
  {
    hide IsBreadthFirst, AllBases, NoDuplicates;
    WalkOfTwo(h, d, y);
    BreadthFirstMeaning(h, d, [d, y]);
    BaseWithin(h, y.generic, 0, y.generic, a);
  }

  /** Every class a walk from `c` can meet. */
  ghost function Universe(h: Heritage, c: Class): set<Class> {
    {c} + set x, b | x in h && b in h[x] :: b
  }

  /** A walk from a class that is not its own ancestor is no longer than there are classes. */
  lemma DiscoveredSize(h: Heritage, c: Class, s: seq<Class>)
    requires c !in AllBases(h, s)
    ensures |Discovered(h, c, s)| <= |Universe(h, c)|
  {
    var d := FirstOccurrences(AllBases(h, s));
    forall x | x in d
      ensures x in Universe(h, c) - {c}
    {
      AllBasesElements(h, s, x);
    }
    NoDuplicatesSize(d, Universe(h, c) - {c});
  }

  lemma {:induction false} NoDuplicatesSize(s: seq<Class>, u: set<Class>)
    requires NoDuplicates(s) && forall x | x in s :: x in u
    ensures |s| <= |u|
  {
    if s != [] {
      var p := s[..|s| - 1];
      forall x | x in p
        ensures x in u - {s[|s| - 1]}
      {
        assert x in s;
      }
      NoDuplicatesSize(p, u - {s[|s| - 1]});
    }
  }

  /** Meeting `b` adds it to the first occurrences unless it was met before. */
  lemma FirstOccurrencesAppend(s: seq<Class>, b: Class)
    ensures FirstOccurrences(s + [b]) == if b in s then FirstOccurrences(s) else FirstOccurrences(s) + [b]
  {
    assert (s + [b])[..|s + [b]| - 1] == s;
  }

  /** First occurrences keep the order of the original. */
  lemma {:induction false} FirstOccurrencesInOrder(s: seq<Class>, i: nat, j: nat) returns (p: nat, q: nat)
    requires i < j < |s| && s[i] !in s[..i] && s[j] !in s[..j]
    ensures p < q < |FirstOccurrences(s)|
    ensures FirstOccurrences(s)[p] == s[i] && FirstOccurrences(s)[q] == s[j]
  {
    var n := |s| - 1;
    if j < n {
      assert s[..n][..i] == s[..i] && s[..n][..j] == s[..j];
      p, q := FirstOccurrencesInOrder(s[..n], i, j);
    } else {
      assert s[i] in s[..n];
      q := |FirstOccurrences(s)| - 1;
      p :| 0 <= p < |FirstOccurrences(s[..n])| && FirstOccurrences(s[..n])[p] == s[i];
    }
  }

  lemma AfterHead(c: Class, d: seq<Class>, s: seq<Class>, k: nat)
    requires [c] + d <= s && k < |d|
    ensures k + 1 < |s| && s[k + 1] == d[k] && d[k] in s[1..]
  {
    assert s[k + 1] == ([c] + d)[k + 1];
    assert s[1..][k] == d[k];
  }

  /** Without repetitions nothing is dropped. */
  lemma {:induction false} FirstOccurrencesOfDistinct(s: seq<Class>)
    requires NoDuplicates(s)
    ensures FirstOccurrences(s) == s
  {
    if s != [] {
      FirstOccurrencesOfDistinct(s[..|s| - 1]);
    }
  }

  lemma TakeOneMore(s: seq<Class>, t: seq<Class>, k: nat)
    requires k < |t|
    ensures s + t[..k + 1] == (s + t[..k]) + [t[k]]
  {
  }

  // ----- Instances of generic class lists

  /** Maps each of the first `n` type parameters to its argument. */
  ghost function ArgumentMap(parameters: seq<Type>, arguments: seq<Type>, n: nat): map<Type, Type>
    requires n <= |parameters| == |arguments|
  {
    if n == 0 then map[] else
      var m := ArgumentMap(parameters, arguments, n - 1);
      if parameters[n - 1] in m then m else m[parameters[n - 1] := arguments[n - 1]]
  }

  lemma ArgumentMapOneMore(parameters: seq<Type>, arguments: seq<Type>, n: nat)
    requires n < |parameters| == |arguments|
    ensures ghost var before := ArgumentMap(parameters, arguments, n);
            ArgumentMap(parameters, arguments, n + 1) ==
            if parameters[n] in before then before else before[parameters[n] := arguments[n]]
  {
  }

  lemma {:induction false} ArgumentMapKeys(parameters: seq<Type>, arguments: seq<Type>, n: nat, p: Type)
    requires n <= |parameters| == |arguments|
    ensures p in ArgumentMap(parameters, arguments, n) <==> p in parameters[..n]
  {
    if n > 0 {
      ArgumentMapKeys(parameters, arguments, n - 1, p);
      ArgumentMapOneMore(parameters, arguments, n - 1);
      hide ArgumentMap;
      assert parameters[..n] == parameters[..n - 1] + [parameters[n - 1]];
    }
  }

  lemma {:induction false} ArgumentMapValue(parameters: seq<Type>, arguments: seq<Type>, n: nat, i: nat)
    requires i < n <= |parameters| == |arguments| && parameters[i] !in parameters[..i]
    ensures parameters[i] in ArgumentMap(parameters, arguments, n)
    ensures ArgumentMap(parameters, arguments, n)[parameters[i]] == arguments[i]
  {
    ArgumentMapOneMore(parameters, arguments, n - 1);
    ArgumentMapKeys(parameters, arguments, n - 1, parameters[i]);
    if i < n - 1 {
      ArgumentMapValue(parameters, arguments, n - 1, i);
    }
  }

  /** A parameter is replaced by the argument at its first occurrence, all others are not replaced. */
  lemma ArgumentMapMeaning(parameters: seq<Type>, arguments: seq<Type>, n: nat)
    requires n <= |parameters| == |arguments|
    ensures forall p :: p in ArgumentMap(parameters, arguments, n) <==> p in parameters[..n]
    ensures forall i | 0 <= i < n && parameters[i] !in parameters[..i] ::
              ArgumentMap(parameters, arguments, n)[parameters[i]] == arguments[i]
  {
    hide ArgumentMap;
    forall p ensures p in ArgumentMap(parameters, arguments, n) <==> p in parameters[..n] {
      ArgumentMapKeys(parameters, arguments, n, p);
    }
    forall i | 0 <= i < n && parameters[i] !in parameters[..i]
      ensures ArgumentMap(parameters, arguments, n)[parameters[i]] == arguments[i]
    {
      ArgumentMapValue(parameters, arguments, n, i);
    }
  }

  method ComputeArgumentMap(c: Class) returns (argumentMap: map<Type, Type>)
    requires c.ConstructedClass? && WellFormed(c)
    ensures argumentMap == ArgumentMap(c.generic.parameters, c.arguments, |c.arguments|)
  {
    argumentMap := map[];
    for i := 0 to |c.generic.parameters|
      invariant argumentMap == ArgumentMap(c.generic.parameters, c.arguments, i)
    {
      if c.generic.parameters[i] !in argumentMap {
        argumentMap := argumentMap[c.generic.parameters[i] := c.arguments[i]];
      }
    }
  }

  function SubstituteType(t: Type, m: map<Type, Type>): Type {
    if t.TypeParameter? && t in m then m[t] else t
  }

  /** Only the direct arguments of a constructed class are replaced. */
  function Substitute(c: Class, m: map<Type, Type>): (r: Class)
    ensures WellFormed(c) ==> WellFormed(r)
    ensures Stripped(r) == Stripped(c)
  {
    if c.ConstructedClass? then
      ConstructedClass(c.generic, seq(|c.arguments|, i requires 0 <= i < |c.arguments| => SubstituteType(c.arguments[i], m)))
    else c
  }

  /** What the entry `x` of the list of `c.generic` becomes in the list of `c`. */
  ghost function Instance(c: Class, x: Class): Class
    requires c.ConstructedClass? && WellFormed(c)
  {
    Substitute(x, ArgumentMap(c.generic.parameters, c.arguments, |c.arguments|))
  }

  /** `s` is the instance list of `c` for the first `n` entries of the generic list. */
  ghost predicate IsInstancePrefix(c: Class, genericList: seq<Class>, n: nat, s: seq<Class>)
    requires c.ConstructedClass? && WellFormed(c) && n <= |genericList|
  {
    && |s| == (if n == 0 then 1 else n)
    && s[0] == c
    && forall i :: 1 <= i < n ==> s[i] == Instance(c, genericList[i])
  }

  lemma NoInstances(c: Class, genericList: seq<Class>)
    requires c.ConstructedClass? && WellFormed(c)
    ensures IsInstancePrefix(c, genericList, 0, [c])
  {
  }

  /** The head of the generic list is skipped, every other entry adds its instance. */
  lemma InstanceOneMore(c: Class, genericList: seq<Class>, n: nat, s: seq<Class>)
    requires c.ConstructedClass? && WellFormed(c) && n < |genericList|
    requires IsInstancePrefix(c, genericList, n, s)
    ensures n == 0 ==> IsInstancePrefix(c, genericList, 1, s)
    ensures n > 0 ==> IsInstancePrefix(c, genericList, n + 1, s + [Instance(c, genericList[n])])
  {
    hide Instance;
  }

  /** `s` is the list of `c.generic`, headed by `c` and instantiated with `c`'s arguments. */
  ghost predicate IsInstanceList(c: Class, genericList: seq<Class>, s: seq<Class>)
    requires c.ConstructedClass? && WellFormed(c)
  {
    IsInstancePrefix(c, genericList, |genericList|, s)
  }

  /**
   `y` is `x` with each direct argument that is a type parameter of `c.generic` replaced by
   the argument of `c` at the position where the parameter is first declared.
   */
  ghost predicate IsInstanceOf(c: Class, x: Class, y: Class)
    requires c.ConstructedClass? && WellFormed(c)
  {
    if !x.ConstructedClass? then y == x else
      && y.ConstructedClass? && y.generic == x.generic && |y.arguments| == |x.arguments|
      && forall k :: 0 <= k < |x.arguments| ==>
                       IsSubstituted(c.generic.parameters, c.arguments, x.arguments[k], y.arguments[k])
  }

  ghost predicate IsSubstituted(parameters: seq<Type>, arguments: seq<Type>, t: Type, u: Type)
    requires |parameters| == |arguments|
  {
    && (forall p :: 0 <= p < |parameters| && t.TypeParameter? && parameters[p] == t && t !in parameters[..p] ==> u == arguments[p])
    && (!t.TypeParameter? || t !in parameters ==> u == t)
  }

  lemma InstanceMeaning(c: Class, x: Class)
    requires c.ConstructedClass? && WellFormed(c)
    ensures IsInstanceOf(c, x, Instance(c, x))
  {
    ArgumentMapMeaning(c.generic.parameters, c.arguments, |c.arguments|);
    assert c.generic.parameters[..|c.arguments|] == c.generic.parameters;
  }

  lemma InstanceListMeaning(c: Class, genericList: seq<Class>, s: seq<Class>)
    requires c.ConstructedClass? && WellFormed(c) && genericList != []
    requires IsInstanceList(c, genericList, s)
    ensures |s| == |genericList| && s[0] == c
    ensures forall i | 1 <= i < |s| :: IsInstanceOf(c, genericList[i], s[i])
  {
    forall i | 1 <= i < |s|
      ensures IsInstanceOf(c, genericList[i], s[i])
    {
      InstanceMeaning(c, genericList[i]);
    }
  }

  lemma InstanceListUnique(c: Class, genericList: seq<Class>, s: seq<Class>, t: seq<Class>)
    requires c.ConstructedClass? && WellFormed(c)
    requires IsInstanceList(c, genericList, s) && IsInstanceList(c, genericList, t)
    ensures s == t
  {
  }
}
