/**
 The class tree builder: classes arrive in any order, each is finalized as soon as all its
 bases are, and finalizing one class may cascade to classes that were waiting for it.
 */
module ClassTreeBuilding {
  import opened ClassHierarchy

  type ClassLists = map<Class, seq<Class>>

  datatype ClassTreeError =
    | UndefinedClass(user: Class)
    | CycleError(user: Class, using: Class)

  // ----- The result as a least set

  /** `s` contains every processed class all of whose (stripped) bases it contains. */
  ghost predicate IsClosed(h: Heritage, processed: set<Class>, s: set<Class>) {
    forall c | c in processed && StrippedBases(h, c) <= s :: c in s
  }

  /** `s` is the least closed set. */
  ghost predicate IsLeastClosed(h: Heritage, processed: set<Class>, s: set<Class>) {
    && IsClosed(h, processed, s)
    && forall t | IsClosed(h, processed, t) :: s <= t
  }

  // ----- State invariants, on values

  /**
   When each normal or generic class was finalized. A class was finalized after all its
   bases; `stamp` never stamps a constructed class.
   */
  type Stamps = map<Class, nat>

  ghost predicate IsBaseFirst(h: Heritage, stamp: Stamps) {
    && (forall c | c in stamp :: !c.ConstructedClass? && stamp[c] < |stamp|)
    && (forall c, b | c in stamp && b in StrippedBases(h, c) :: IsBefore(stamp, b, c))
  }

  ghost predicate IsBefore(stamp: Stamps, b: Class, c: Class)
    requires c in stamp
  {
    b in stamp && stamp[b] < stamp[c]
  }

  /** The stamp of `c`; classes without one come last. */
  ghost function Rank(stamp: Stamps, c: Class): nat {
    if c in stamp then stamp[c] else |stamp|
  }

  ghost function ListOf(lists: ClassLists, c: Class): seq<Class> {
    if c in lists then lists[c] else []
  }

  /**
   A finalized class heads its list, and everything after it is finalized, its generic
   class strictly earlier. The list of a constructed class is an instance of its
   generic class's list.
   */
  ghost predicate ListsAreClosed(lists: ClassLists, stamp: Stamps) {
    && (forall c: Class :: !c.ConstructedClass? ==> (c in lists <==> c in stamp))
    && (forall c | c in stamp :: !c.ConstructedClass?)
    && (forall c | c in stamp && c in lists :: lists[c] != [] && lists[c][0] == c)
    && (forall c, i | c in stamp && c in lists && 1 <= i < |lists[c]| ::
          IsEarlier(lists, stamp, lists[c][i], c))
    && (forall c | c in lists && c.ConstructedClass? ::
          WellFormed(c) && IsInstanceList(c, ListOf(lists, c.generic), lists[c]))
  }

  ghost predicate IsEarlier(lists: ClassLists, stamp: Stamps, x: Class, c: Class)
    requires c in stamp
  {
    && x in lists && WellFormed(x)
    && IsBefore(stamp, Stripped(x), c)
  }

  ghost predicate ListsAreBreadthFirst(h: Heritage, lists: ClassLists, stamp: Stamps) {
    forall c {:trigger IsBreadthFirst(h, c, lists[c])} | c in stamp && c in lists :: IsBreadthFirst(h, c, lists[c])
  }

  /** `after` has all the lists of `before`, and new ones only for constructed classes. */
  ghost predicate AddsConstructed(before: ClassLists, after: ClassLists) {
    && Keeps(before, after)
    && (forall c | c in after && c !in before :: c.ConstructedClass?)
  }

  ghost predicate Keeps(before: ClassLists, after: ClassLists) {
    forall c | c in before :: c in after && after[c] == before[c]
  }

  /** A new constructed class with an instance list breaks none of the existing lists. */
  lemma AddInstanceList(lists: ClassLists, stamp: Stamps, c: Class, s: seq<Class>)
    requires ListsAreClosed(lists, stamp)
    requires c.ConstructedClass? && WellFormed(c) && c !in lists
    requires IsInstanceList(c, ListOf(lists, c.generic), s)
    ensures ListsAreClosed(lists[c := s], stamp)
  {
    var after := lists[c := s];
    forall k, i | k in stamp && k in after && 1 <= i < |after[k]|
      ensures IsEarlier(after, stamp, after[k][i], k)
    {
      assert k in lists && after[k] == lists[k];
      assert IsEarlier(lists, stamp, lists[k][i], k);
    }
    forall k | k in after && k.ConstructedClass?
      ensures WellFormed(k) && IsInstanceList(k, ListOf(after, k.generic), after[k])
    {
      if k != c {
        assert IsInstanceList(k, ListOf(lists, k.generic), lists[k]);
      }
      assert ListOf(after, k.generic) == ListOf(lists, k.generic);
    }
  }

  // ----- Which classes have a list

  /** Every class in a list of a class of `t` is in `t`. */
  ghost predicate HoldsEntries(lists: ClassLists, t: set<Class>) {
    forall c, x | c in t && c in lists && x in lists[c] :: x in t
  }

  /** From `roots`, going from a class to the classes in its list, one comes to every list not in `before`. */
  ghost predicate IsReached(before: set<Class>, lists: ClassLists, roots: set<Class>) {
    forall t | roots <= t && HoldsEntries(lists, t) :: lists.Keys <= before + t
  }

  /** `s` is the least set that holds `roots` and the entries of its classes' lists. */
  ghost predicate IsLeastListed(lists: ClassLists, roots: set<Class>, s: set<Class>) {
    && roots <= s && HoldsEntries(lists, s)
    && forall t | roots <= t && HoldsEntries(lists, t) :: s <= t
  }

  ghost function Elements(s: seq<Class>): set<Class> {
    set x | x in s
  }

  lemma ElementsGrow(s: seq<Class>, t: seq<Class>)
    requires s <= t
    ensures Elements(s) <= Elements(t)
  {
  }

  lemma ElementsAppend(s: seq<Class>, x: Class)
    ensures Elements(s + [x]) == Elements(s) + {x}
  {
  }

  /** First `before` grew to `middle`, then `middle` to `lists`. */
  lemma ReachFurther(before: set<Class>, middle: ClassLists, lists: ClassLists,
                     first: set<Class>, second: set<Class>, roots: set<Class>)
    requires IsReached(before, middle, first) && Keeps(middle, lists)
    requires IsReached(middle.Keys, lists, second)
    requires first <= roots && second <= roots
    ensures IsReached(before, lists, roots)
  {
    forall t | roots <= t && HoldsEntries(lists, t)
      ensures lists.Keys <= before + t
    {
      assert HoldsEntries(middle, t);
    }
  }

  /** The new lists reached from the entries of a list are reached from the class that gets it. */
  lemma ReachFromHead(before: set<Class>, lists: ClassLists, c: Class, s: seq<Class>)
    requires IsReached(before, lists, Elements(s)) && c !in lists
    ensures IsReached(before, lists[c := s], {c})
  {
    var after := lists[c := s];
    forall t | {c} <= t && HoldsEntries(after, t)
      ensures after.Keys <= before + t
    {
      assert after[c] == s;
      assert HoldsEntries(lists, t);
      assert Elements(s) <= t;
    }
  }

  /** The classes listed in both `a` and `b` are all that `a` lists, if `a` lists the least it can. */
  lemma SharedKeys(a: ClassLists, b: ClassLists, roots: set<Class>)
    requires IsLeastListed(a, roots, a.Keys) && IsLeastListed(b, roots, b.Keys)
    requires forall c | c in a && c in b :: a[c] == b[c]
    ensures a.Keys <= b.Keys
  {
    assert HoldsEntries(a, a.Keys * b.Keys);
  }

  /** A new list of classes that have one, its own class aside, leaves no entry without a list. */
  lemma HoldNewList(lists: ClassLists, c: Class, s: seq<Class>)
    requires HoldsEntries(lists, lists.Keys) && c !in lists
    requires forall x | x in s :: x == c || x in lists
    ensures HoldsEntries(lists[c := s], lists[c := s].Keys)
  {
  }

  // ----- The graph, on values

  /** An edge (b, c) says that c waits for its base b. */
  type Edge = (Class, Class)

  /** `c` is processed, not final, and waits for its base `b`, or for `w` to be drained. */
  ghost predicate IsWaiting(h: Heritage, final: set<Class>, processed: set<Class>, w: set<Edge>, b: Class, c: Class) {
    c in processed && c !in final && b in StrippedBases(h, c) && (b !in final || (b, c) in w)
  }

  ghost predicate IsBlocked(edges: set<Edge>, c: Class) {
    exists b :: (b, c) in edges
  }

  ghost predicate IsNamedBase(h: Heritage, processed: set<Class>, b: Class) {
    exists c :: c in processed && b in StrippedBases(h, c)
  }

  /**
   The graph, as it also is in the middle of a cascade: `w` are the edges that leave
   final classes and are still to be removed by the calls in progress, and `next` is
   the one class, if any, about to be finalized.
   */
  ghost predicate IsGraph(h: Heritage, final: set<Class>, processed: set<Class>, classMap: set<Class>,
                          nodes: set<Class>, edges: set<Edge>, w: set<Edge>, next: set<Class>)
  {
    && final <= processed
    && (forall c | c in processed :: !c.ConstructedClass?)
    && (forall b, c :: (b, c) in edges <==> IsWaiting(h, final, processed, w, b, c))
    && (forall b, c | (b, c) in w :: (b, c) in edges && b in final)
    && nodes == classMap - final
    && (forall c | c in classMap :: c in processed || IsNamedBase(h, processed, c))
    && (forall c | c in processed && c !in final && c !in next :: c in classMap && IsBlocked(edges, c))
    && (forall b | IsNamedBase(h, processed, b) && b !in final :: b in classMap)
  }

  /** A node of the graph between calls was never processed, or waits for another node. */
  lemma NodeIsWaiting(h: Heritage, final: set<Class>, processed: set<Class>, classMap: set<Class>,
                      nodes: set<Class>, edges: set<Edge>, c: Class)
    requires IsGraph(h, final, processed, classMap, nodes, edges, {}, {}) && c in nodes
    requires forall x, b | x in h && b in h[x] :: WellFormed(b)
    ensures !c.ConstructedClass?
    ensures c in processed ==> exists b :: b in BaseClasses(h, c) && Stripped(b) in nodes && (Stripped(b), c) in edges
    ensures c !in processed ==> IsNamedBase(h, processed, c)
  {
    if c in processed {
      assert IsBlocked(edges, c);
      var b :| (b, c) in edges;
      assert IsWaiting(h, final, processed, {}, b, c);
      assert IsNamedBase(h, processed, b);
    } else {
      var x :| x in processed && c in StrippedBases(h, x);
      var b :| b in BaseClasses(h, x) && c == Stripped(b);
      assert WellFormed(b);
    }
  }

  ghost function EdgesFrom(c: Class, targets: set<Class>): set<Edge> {
    set s | s in targets :: (c, s)
  }

  lemma DrainEdge(w: set<Edge>, c: Class, s: Class, targets: set<Class>)
    requires s in targets && (c, s) !in w
    ensures w + EdgesFrom(c, targets) - {(c, s)} == w + EdgesFrom(c, targets - {s})
  {
  }

  /** Finalizing `c` leaves the edges that leave `c` to be drained. */
  lemma FinalizeStep(h: Heritage, final: set<Class>, processed: set<Class>, classMap: set<Class>,
                     nodes: set<Class>, edges: set<Edge>, w: set<Edge>, c: Class, successors: set<Class>)
    requires IsGraph(h, final, processed, classMap, nodes, edges, w, {c})
    requires c in processed && c !in final && !IsBlocked(edges, c)
    requires forall s :: s in successors <==> (c, s) in edges
    ensures IsGraph(h, final + {c}, processed, classMap + {c}, nodes - {c}, edges, w + EdgesFrom(c, successors), {})
  {
    var w' := w + EdgesFrom(c, successors);
    forall b, x
      ensures (b, x) in edges <==> IsWaiting(h, final + {c}, processed, w', b, x)
    {
      assert (b, x) in edges <==> IsWaiting(h, final, processed, w, b, x);
      assert (b, x) in EdgesFrom(c, successors) <==> b == c && x in successors;
      if x == c {
        assert (b, x) !in edges;
      }
    }
  }

  /** Draining the edge (c, s) leaves everything but `s` blocked as it was. */
  lemma DrainStep(h: Heritage, final: set<Class>, processed: set<Class>, classMap: set<Class>,
                  nodes: set<Class>, edges: set<Edge>, w: set<Edge>, c: Class, s: Class)
    requires IsGraph(h, final, processed, classMap, nodes, edges, w, {})
    requires (c, s) in w
    ensures s in processed && s !in final
    ensures IsGraph(h, final, processed, classMap, nodes, edges - {(c, s)}, w - {(c, s)}, {s})
    ensures IsBlocked(edges - {(c, s)}, s) ==>
              IsGraph(h, final, processed, classMap, nodes, edges - {(c, s)}, w - {(c, s)}, {})
  {
    assert IsWaiting(h, final, processed, w, c, s);
    var edges' := edges - {(c, s)};
    forall x | x in processed && x !in final && x != s
      ensures IsBlocked(edges', x)
    {
      assert IsBlocked(edges, x);
      var b :| (b, x) in edges;
      assert (b, x) in edges';
    }
    forall b, x
      ensures (b, x) in edges' <==> IsWaiting(h, final, processed, w - {(c, s)}, b, x)
    {
      assert (b, x) in edges <==> IsWaiting(h, final, processed, w, b, x);
    }
  }

  /** With no edge into `c`, all its bases are final. */
  lemma UnblockedBases(h: Heritage, final: set<Class>, processed: set<Class>, classMap: set<Class>,
                       nodes: set<Class>, edges: set<Edge>, w: set<Edge>, next: set<Class>, c: Class)
    requires IsGraph(h, final, processed, classMap, nodes, edges, w, next)
    requires c in processed && c !in final && !IsBlocked(edges, c)
    ensures !c.ConstructedClass? && StrippedBases(h, c) <= final
    ensures forall s :: (c, s) !in w
  {
    forall b | b in StrippedBases(h, c)
      ensures b in final
    {
      assert (b, c) in edges <==> IsWaiting(h, final, processed, w, b, c);
    }
  }

  /** Adding the list of a class whose ancestors are all finalized breaks no other list. */
  lemma AddClassList(lists: ClassLists, stamp: Stamps, c: Class, s: seq<Class>)
    requires ListsAreClosed(lists, stamp)
    requires !c.ConstructedClass? && c !in stamp && s != [] && s[0] == c
    requires forall x | x in stamp :: stamp[x] < |stamp|
    requires forall x | x in lists && x.ConstructedClass? :: x.generic in stamp
    requires forall i :: 1 <= i < |s| ==> s[i] in lists && WellFormed(s[i]) && Stripped(s[i]) in stamp
    ensures ListsAreClosed(lists[c := s], stamp[c := |stamp|])
  {
    var lists', stamp' := lists[c := s], stamp[c := |stamp|];
    forall k, i | k in stamp' && k in lists' && 1 <= i < |lists'[k]|
      ensures IsEarlier(lists', stamp', lists'[k][i], k)
    {
      if k != c {
        assert lists'[k] == lists[k];
        assert IsEarlier(lists, stamp, lists[k][i], k);
      }
    }
    forall k | k in lists' && k.ConstructedClass?
      ensures WellFormed(k) && IsInstanceList(k, ListOf(lists', k.generic), lists'[k])
    {
      assert lists'[k] == lists[k] && ListOf(lists', k.generic) == ListOf(lists, k.generic);
    }
  }

  /** The list of a normal or generic class holds the class itself first and only first. */
  lemma ListEntry(lists: ClassLists, stamp: Stamps, g: Class, i: nat)
    requires ListsAreClosed(lists, stamp) && !g.ConstructedClass?
    requires g in lists && i < |lists[g]|
    ensures g in stamp && (lists[g][i] == g <==> i == 0)
    ensures i > 0 ==> IsEarlier(lists, stamp, lists[g][i], g)
  {
    if i > 0 {
      assert IsEarlier(lists, stamp, lists[g][i], g);
    }
  }

  lemma AddStamp(h: Heritage, stamp: Stamps, c: Class)
    requires IsBaseFirst(h, stamp) && !c.ConstructedClass? && c !in stamp
    requires forall b | b in StrippedBases(h, c) :: b in stamp
    ensures IsBaseFirst(h, stamp[c := |stamp|])
  {
    var stamp' := stamp[c := |stamp|];
    forall x, b | x in stamp' && b in StrippedBases(h, x)
      ensures IsBefore(stamp', b, x)
    {
      if x != c {
        assert IsBefore(stamp, b, x);
      }
    }
  }

  lemma AddBreadthFirst(h: Heritage, lists: ClassLists, stamp: Stamps, c: Class, s: seq<Class>)
    requires ListsAreBreadthFirst(h, lists, stamp) && c !in stamp
    requires IsBreadthFirst(h, c, s)
    ensures ListsAreBreadthFirst(h, lists[c := s], stamp[c := |stamp|])
  {
  }

  ghost function EdgesTo(sources: set<Class>, c: Class): set<Edge> {
    set b | b in sources :: (b, c)
  }

  lemma NamedBases(h: Heritage, processed: set<Class>, c: Class)
    ensures forall b :: IsNamedBase(h, processed + {c}, b) <==> IsNamedBase(h, processed, b) || b in StrippedBases(h, c)
  {
    hide StrippedBases;
    forall b | IsNamedBase(h, processed, b) || b in StrippedBases(h, c)
      ensures IsNamedBase(h, processed + {c}, b)
    {
      if IsNamedBase(h, processed, b) {
        var x :| x in processed && b in StrippedBases(h, x);
        assert x in processed + {c};
      }
    }
  }

  /** A newly processed class with pending bases is blocked by them. */
  lemma ProcessStep(h: Heritage, final: set<Class>, processed: set<Class>, classMap: set<Class>,
                    nodes: set<Class>, edges: set<Edge>, c: Class, pending: set<Class>)
    requires IsGraph(h, final, processed, classMap, nodes, edges, {}, {})
    requires !c.ConstructedClass? && c !in processed
    requires pending == StrippedBases(h, c) - final
    ensures pending == {} ==>
              IsGraph(h, final, processed + {c}, classMap, nodes, edges, {}, {c}) && !IsBlocked(edges, c)
    ensures pending != {} ==>
              var classMap' := classMap + {c} + pending;
              IsGraph(h, final, processed + {c}, classMap', classMap' - final, edges + EdgesTo(pending, c), {}, {})
  {
    hide StrippedBases, IsNamedBase;
    var edges' := edges + EdgesTo(pending, c);
    forall b, x
      ensures (b, x) in edges' <==> IsWaiting(h, final, processed + {c}, {}, b, x)
    {
      assert (b, x) in edges <==> IsWaiting(h, final, processed, {}, b, x);
      assert (b, x) in EdgesTo(pending, c) <==> b in pending && x == c;
    }
    assert pending == {} ==> edges' == edges;
    NamedBases(h, processed, c);
    forall x | x in processed + {c} && x !in final && (x != c || pending != {})
      ensures IsBlocked(edges', x)
    {
      if x == c {
        var b :| b in pending;
        assert (b, c) in edges';
      } else {
        assert IsBlocked(edges, x);
        var b :| (b, x) in edges;
        assert (b, x) in edges';
      }
    }
  }

  lemma NothingYet(h: Heritage)
    ensures IsBaseFirst(h, map[]) && ListsAreClosed(map[], map[]) && ListsAreBreadthFirst(h, map[], map[])
    ensures HoldsEntries(map[], {}) && IsReached({}, map[], {})
    ensures IsGraph(h, {}, {}, {}, {}, {}, {}, {})
  {
  }

  // ----- The finalized classes are the least closed set

  /** Classes whose bases come first are in every closed set. */
  lemma {:induction false} FinalInClosed(h: Heritage, processed: set<Class>, stamp: Stamps, t: set<Class>, c: Class)
    requires IsBaseFirst(h, stamp) && stamp.Keys <= processed
    requires IsClosed(h, processed, t) && c in stamp
    ensures c in t
    decreases stamp[c]
  {
    forall b | b in StrippedBases(h, c)
      ensures b in t
    {
      assert IsBefore(stamp, b, c);
      FinalInClosed(h, processed, stamp, t, b);
    }
  }

  lemma FinalIsLeastClosed(h: Heritage, stamp: Stamps, processed: set<Class>, classMap: set<Class>,
                           nodes: set<Class>, edges: set<Edge>)
    requires IsBaseFirst(h, stamp)
    requires IsGraph(h, stamp.Keys, processed, classMap, nodes, edges, {}, {})
    ensures IsLeastClosed(h, processed, stamp.Keys)
  {
    forall c | c in processed && StrippedBases(h, c) <= stamp.Keys
      ensures c in stamp.Keys
    {
      assert forall b :: (b, c) in edges <==> IsWaiting(h, stamp.Keys, processed, {}, b, c);
      assert c !in stamp ==> IsBlocked(edges, c);
    }
    forall t | IsClosed(h, processed, t)
      ensures stamp.Keys <= t
    {
      forall c | c in stamp
        ensures c in t
      {
        FinalInClosed(h, processed, stamp, t, c);
      }
    }
  }

  lemma LeastClosedUnique(h: Heritage, processed: set<Class>, s: set<Class>, t: set<Class>)
    requires IsLeastClosed(h, processed, s) && IsLeastClosed(h, processed, t)
    ensures s == t
  {
  }

  lemma WaitingEdge(h: Heritage, final: set<Class>, processed: set<Class>, classMap: set<Class>,
                    nodes: set<Class>, edges: set<Edge>, b: Class, c: Class)
    requires IsGraph(h, final, processed, classMap, nodes, edges, {}, {})
    requires c in processed && c !in final && b !in final && b in StrippedBases(h, c)
    ensures (b, c) in edges
  {
    assert IsWaiting(h, final, processed, {}, b, c);
  }

  /** Every class of `knot` has a base in `knot`, as the classes of a cycle do. */
  ghost predicate IsKnot(h: Heritage, knot: set<Class>) {
    forall c | c in knot :: !(StrippedBases(h, c) !! knot)
  }

  /** Classes that each have a base among them are never finalized. */
  lemma KnotIsNeverFinal(h: Heritage, processed: set<Class>, final: set<Class>, knot: set<Class>)
    requires IsLeastClosed(h, processed, final) && IsKnot(h, knot)
    ensures final !! knot
  {
    var t := final - knot;
    forall c | c in processed && StrippedBases(h, c) <= t
      ensures c in t
    {
      assert c in final;
    }
    assert IsClosed(h, processed, t);
  }

  lemma KeepBreadthFirst(h: Heritage, before: ClassLists, after: ClassLists, stamp: Stamps)
    requires ListsAreClosed(before, stamp) && Keeps(before, after)
    requires ListsAreBreadthFirst(h, before, stamp)
    ensures ListsAreBreadthFirst(h, after, stamp)
  {
  }

  // ----- Errors

  function IdOf(c: Class): nat {
    if c.ConstructedClass? then 0 else c.id
  }

  /** The pair of the two classes, the one with the smaller id first. */
  function KeyOf(user: Class, using: Class): Edge {
    if IdOf(user) < IdOf(using) then (user, using) else (using, user)
  }

  ghost predicate HasUniqueIds(s: set<Class>) {
    forall a, b | a in s && b in s && IdOf(a) == IdOf(b) :: a == b
  }

  ghost predicate IsReported(reported: seq<ClassTreeError>, b: Class, c: Class) {
    CycleError(b, c) in reported || CycleError(c, b) in reported
  }

  /** No two errors are about the same class, or the same unordered pair of classes. */
  ghost predicate NothingTwice(reported: seq<ClassTreeError>) {
    forall i, j | 0 <= i < j < |reported| :: !IsSameError(reported[i], reported[j])
  }

  ghost predicate IsSameError(e: ClassTreeError, f: ClassTreeError) {
    e == f || (e.CycleError? && f.CycleError? && e.user == f.using && e.using == f.user)
  }

  class ClassTreeBuilder {
    const heritage: Heritage

    /** The `class_list_` of every class that has one; a class is finalized when it is in here. */
    var classLists: ClassLists
    var processed: set<Class>
    var pendingConstructedClasses: set<Class>
    /** The classes that have or had a graph node, and those whose node is still in the graph. */
    var classMap: set<Class>
    var nodes: set<Class>
    /** An edge (b, c) says that c waits for its base b. */
    var edges: set<Edge>
    var errors: seq<ClassTreeError>

    /** The finalized normal and generic classes, and when they were finalized. */
    ghost var stamp: Stamps
    /** The constructed classes that `ProcessClassReference` has been given. */
    ghost var referenced: set<Class>

    constructor (heritage: Heritage)
      requires WellFormedHeritage(heritage)
      ensures Valid() && this.heritage == heritage
      ensures processed == {} && pendingConstructedClasses == {} && Finalized() == {} && errors == []
      ensures referenced == {}
    {
      hide IsGraph, ListsAreClosed, IsBaseFirst, ListsAreBreadthFirst, IsReached, HoldsEntries, WellFormedHeritage;
      NothingYet(heritage);
      this.heritage := heritage;
      classLists := map[];
      processed, pendingConstructedClasses, classMap, nodes, edges := {}, {}, {}, {}, {};
      errors := [];
      stamp, referenced := map[], {};
      new;
      assert stamp.Keys == {} && classLists.Keys == {} && stamp.Keys + referenced == {};
    }

    /** The finalized normal and generic classes. */
    ghost function Finalized(): set<Class>
      reads this
    {
      set c | c in stamp
    }

    /** The class lists, and the stamps that order them. */
    ghost predicate ListsValid()
      reads this`classLists, this`stamp
    {
      && WellFormedHeritage(heritage)
      && IsBaseFirst(heritage, stamp)
      && ListsAreClosed(classLists, stamp)
      && HoldsEntries(classLists, classLists.Keys)
    }

    /** No constructed class is finalized before its generic class. */
    ghost predicate ConstructedAreReady()
      reads this`classLists, this`stamp
    {
      forall c | c in classLists && c.ConstructedClass? :: c.generic in stamp
    }

    /** The invariant of all lists. */
    ghost predicate FinalizationValid()
      reads this`classLists, this`stamp, this`referenced
    {
      && ListsValid() && ConstructedAreReady()
      && ListsAreBreadthFirst(heritage, classLists, stamp)
      && NothingElseIsListed()
    }

    /** The graph is right for the edges `w` still to be drained, `next` aside. */
    ghost predicate GraphValid(w: set<Edge>, next: set<Class>)
      reads this`stamp, this`processed, this`classMap, this`nodes, this`edges
    {
      IsGraph(heritage, stamp.Keys, processed, classMap, nodes, edges, w, next)
    }

    /** Nothing is in progress: every class that can be final is, with the right list. */
    ghost predicate IsSettled()
      reads this
    {
      ListsValid() && GraphValid({}, {}) && ListsAreBreadthFirst(heritage, classLists, stamp) && NothingElseIsListed()
    }

    /** Classes have lists only because of the finalized and the referenced ones. */
    ghost predicate NothingElseIsListed()
      reads this`classLists, this`stamp, this`referenced
    {
      IsReached({}, classLists, stamp.Keys + referenced)
    }

    /** The invariant between calls. */
    ghost predicate Valid()
      reads this
    {
      IsSettled() && ConstructedAreReady() && PendingAreConstructed() && ReferencedAreKept()
    }

    /** A referenced constructed class has a list, or is pending. */
    ghost predicate ReferencedAreKept()
      reads this`classLists, this`pendingConstructedClasses, this`referenced
    {
      pendingConstructedClasses <= referenced && referenced <= classLists.Keys + pendingConstructedClasses
    }

    ghost predicate PendingAreConstructed()
      reads this`pendingConstructedClasses
    {
      forall c | c in pendingConstructedClasses :: c.ConstructedClass? && WellFormed(c)
    }

    predicate HasPredecessor(c: Class)
      reads this`edges
      ensures HasPredecessor(c) <==> IsBlocked(edges, c)
    {
      assert forall e :: e in edges <==> (e.0, e.1) in edges;
      exists e :: e in edges && e.1 == c
    }

    predicate CanFinalize(c: Class)
      reads this
      decreases c
    {
      if c.ConstructedClass? then
        CanFinalize(c.generic)
      else
        && c !in classLists && c in processed
        && forall b | b in BaseClasses(heritage, c) :: Stripped(b) in classLists && Stripped(b) in processed
    }

    // ----- Constructed classes

    /** Gives `c` its generic class's list, instantiated with `c`'s arguments. */
    method FinalizeConstructedClass(c: Class)
      requires ListsValid() && c.ConstructedClass? && WellFormed(c)
      requires c !in classLists
      modifies this`classLists
      ensures ListsValid() && AddsConstructed(old(classLists), classLists)
      ensures c in classLists && IsReached(old(classLists).Keys, classLists, {c})
      ensures forall x | x in classLists && x !in old(classLists) ::
                x == c || (x.generic in stamp && Rank(stamp, x.generic) < Rank(stamp, c.generic))
      decreases Rank(stamp, c.generic), 0
    {
      hide IsBaseFirst, WellFormedHeritage, ListsAreClosed, Substitute, HoldsEntries, IsReached, Elements, IsInstancePrefix;
      NothingReached(Elements([c]));
      NoInstances(c, if c.generic in classLists then classLists[c.generic] else []);
      var argumentMap := ComputeArgumentMap(c);
      var genericList := if c.generic in classLists then classLists[c.generic] else [];
      var classList := [c];
      ghost var rank := Rank(stamp, c.generic);
      for i := 0 to |genericList|
        invariant ListsValid() && AddsConstructed(old(classLists), classLists)
        invariant c !in classLists
        invariant genericList == ListOf(classLists, c.generic)
        invariant forall x | x in classLists && x !in old(classLists) ::
                    x.generic in stamp && Rank(stamp, x.generic) < rank
        invariant IsInstancePrefix(c, genericList, i, classList)
        invariant IsReached(old(classLists).Keys, classLists, Elements(classList))
        invariant forall x | x in classList :: x == c || x in classLists
      {
        InstanceOneMore(c, genericList, i, classList);
        ListEntry(classLists, stamp, c.generic, i);
        if genericList[i] == c.generic {
          continue;
        }
        ghost var middle := classLists;
        var x := ConstructClass(genericList[i], argumentMap);
        ElementsAppend(classList, x);
        ReachFurther(old(classLists).Keys, middle, classLists, Elements(classList), {x}, Elements(classList + [x]));
        classList := classList + [x];
      }
      AddInstanceList(classLists, stamp, c, classList);
      HoldNewList(classLists, c, classList);
      ReachFromHead(old(classLists).Keys, classLists, c, classList);
      classLists := classLists[c := classList];
    }

    /** `c` with the type parameters among its arguments replaced. */
    method ConstructClass(c: Class, argumentMap: map<Type, Type>) returns (r: Class)
      requires ListsValid() && WellFormed(c) && Stripped(c) in stamp
      modifies this`classLists
      ensures ListsValid() && AddsConstructed(old(classLists), classLists)
      ensures r == Substitute(c, argumentMap)
      ensures r == c || r in classLists
      ensures c.ConstructedClass? ==> r in classLists
      ensures IsReached(old(classLists).Keys, classLists, {r})
      ensures forall x | x in classLists && x !in old(classLists) ::
                x.generic in stamp && Rank(stamp, x.generic) <= Rank(stamp, Stripped(c))
      decreases Rank(stamp, Stripped(c)), 1
    {
      hide ListsAreClosed, IsBaseFirst, WellFormedHeritage, HoldsEntries, IsReached;
      NothingReached({Substitute(c, argumentMap)});
      if !c.ConstructedClass? {
        return c;
      }
      var arguments := [];
      var hasParameters := false;
      for i := 0 to |c.arguments|
        invariant arguments == seq(i, j requires 0 <= j < i => SubstituteType(c.arguments[j], argumentMap))
        invariant !hasParameters ==> arguments == c.arguments[..i]
      {
        var argument := c.arguments[i];
        if !argument.TypeParameter? || argument !in argumentMap {
          arguments := arguments + [argument];
        } else {
          arguments := arguments + [argumentMap[argument]];
          hasParameters := true;
        }
      }
      if !hasParameters {
        assert c.arguments[..|c.arguments|] == c.arguments;
        r := c;
      } else {
        r := ConstructedClass(c.generic, arguments);
      }
      if r !in classLists {
        FinalizeConstructedClass(r);
      }
    }

    lemma NothingReached(roots: set<Class>)
      ensures IsReached(classLists.Keys, classLists, roots)
    {
    }

    // ----- Finalization

    /** Finalized, with its generic class. */
    ghost predicate IsKnown(x: Class)
      reads this`classLists, this`stamp
    {
      x in classLists && WellFormed(x) && Stripped(x) in stamp
    }

    /** The walk from `clazz` has met exactly the classes `seen`. */
    ghost predicate HasMet(clazz: Class, seen: seq<Class>, classList: seq<Class>, presents: set<Class>)
      reads this
    {
      && classList == [clazz] + FirstOccurrences(seen)
      && (forall x :: x in presents <==> x in seen)
      && (forall x | x in seen :: IsKnown(x))
    }

    lemma MeetOneMore(clazz: Class, seen: seq<Class>, classList: seq<Class>, presents: set<Class>, b: Class)
      requires HasMet(clazz, seen, classList, presents) && IsKnown(b)
      ensures if b in presents then HasMet(clazz, seen + [b], classList, presents)
              else HasMet(clazz, seen + [b], classList + [b], presents + {b})
    {
      FirstOccurrencesAppend(seen, b);
      assert classList + [b] == [clazz] + (FirstOccurrences(seen) + [b]);
    }

    /** What `b` reaches is reached from the classes met, once `b` is among them. */
    lemma ReachMet(before: set<Class>, middle: ClassLists, clazz: Class, seen: seq<Class>, classList: seq<Class>,
                   presents: set<Class>, b: Class)
      requires HasMet(clazz, seen, classList, presents)
      requires IsReached(before, middle, Elements(classList)) && Keeps(middle, classLists)
      requires IsReached(middle.Keys, classLists, {b})
      ensures IsReached(before, classLists, Elements(if b in presents then classList else classList + [b]))
    {
      hide IsReached, FirstOccurrences, IsKnown, Keeps, HoldsEntries;
      var after := if b in presents then classList else classList + [b];
      assert b in after && classList <= after;
      ReachFurther(before, middle, classLists, Elements(classList), {b}, Elements(after));
    }

    lemma NothingMet(clazz: Class)
      ensures HasMet(clazz, AllBases(heritage, []), [clazz], {})
      ensures IsProductive(heritage, clazz, [clazz], 0)
    {
    }

    lemma EntryIsKnown(clazz: Class, seen: seq<Class>, classList: seq<Class>, presents: set<Class>, i: nat)
      requires HasMet(clazz, seen, classList, presents) && i < |classList|
      ensures classList[i] == clazz || IsKnown(classList[i])
    {
      assert i == 0 || classList[i] == FirstOccurrences(seen)[i - 1];
    }

    /** The walk is no longer than there are classes. */
    lemma WalkIsBounded(clazz: Class, visited: seq<Class>, classList: seq<Class>, presents: set<Class>)
      requires ListsValid() && !clazz.ConstructedClass? && clazz !in stamp
      requires HasMet(clazz, AllBases(heritage, visited), classList, presents)
      ensures classList == Discovered(heritage, clazz, visited)
      ensures |classList| <= |Universe(heritage, clazz)|
    {
      hide IsBaseFirst, WellFormedHeritage, FirstOccurrences, AllBases, Universe;
      DiscoveredSize(heritage, clazz, visited);
    }

    lemma WalkIsDone(clazz: Class, classList: seq<Class>, presents: set<Class>)
      requires ListsValid() && !clazz.ConstructedClass? && clazz !in stamp
      requires HasMet(clazz, AllBases(heritage, classList), classList, presents)
      requires IsProductive(heritage, clazz, classList, |classList|)
      ensures IsBreadthFirst(heritage, clazz, classList) && clazz !in classLists
      ensures forall x | x in AllBases(heritage, classList) :: IsKnown(x)
    {
      hide IsBaseFirst, WellFormedHeritage, FirstOccurrences, AllBases, IsProductive;
      OnlyFinalAreListed();
    }

    /** The breadth-first loop of `FinalizeClass`. */
    method ComputeClassList(clazz: Class) returns (classList: seq<Class>)
      requires ListsValid() && !clazz.ConstructedClass? && clazz !in stamp
      requires forall b | b in StrippedBases(heritage, clazz) :: b in stamp
      modifies this`classLists
      ensures ListsValid() && AddsConstructed(old(classLists), classLists)
      ensures forall x | x in classLists && x !in old(classLists) :: x.generic in stamp
      ensures IsReached(old(classLists).Keys, classLists, Elements(classList))
      ensures IsBreadthFirst(heritage, clazz, classList) && clazz !in classLists
      ensures forall x | x in AllBases(heritage, classList) :: IsKnown(x)
    {
      hide HoldsEntries, IsReached, Elements, HasMet, AllBases, IsProductive, IsBreadthFirst, FirstOccurrences;
      hide ListsAreClosed, IsBaseFirst, WellFormedHeritage, Universe, IsKnown, StrippedBases;
      classList := [clazz];
      NothingReached(Elements(classList));
      NothingMet(clazz);
      var presents: set<Class> := {};
      var index := 0;
      ghost var visited: seq<Class> := [];
      while index < |classList|
        invariant ListsValid() && AddsConstructed(old(classLists), classLists)
        invariant forall x | x in classLists && x !in old(classLists) :: x.generic in stamp
        invariant index <= |classList| && visited == classList[..index]
        invariant HasMet(clazz, AllBases(heritage, visited), classList, presents)
        invariant IsReached(old(classLists).Keys, classLists, Elements(classList))
        invariant IsProductive(heritage, clazz, classList, index)
        decreases |Universe(heritage, clazz)| - index
      {
        WalkIsBounded(clazz, visited, classList, presents);
        EntryIsKnown(clazz, AllBases(heritage, visited), classList, presents, index);
        ghost var before, middle := classList, classLists;
        ghost var seen := AllBases(heritage, visited);
        classList, presents := VisitBases(clazz, classList[index], seen, classList, presents);
        WalkOneMore(heritage, clazz, before, classList, index);
        visited := classList[..index + 1];
        ElementsGrow(before, classList);
        ReachFurther(old(classLists).Keys, middle, classLists, Elements(before), Elements(classList), Elements(classList));
        index := index + 1;
      }
      assert classList[..index] == classList;
      WalkIsDone(clazz, classList, presents);
    }

    lemma BaseIsStamped(clazz: Class, user: Class, base: Class)
      requires ListsValid() && (user == clazz || IsKnown(user))
      requires forall b | b in StrippedBases(heritage, clazz) :: b in stamp
      requires base in BaseClasses(heritage, user)
      ensures WellFormed(base) && Stripped(base) in stamp
    {
      BaseIsWellFormed(heritage, user, base);
      assert Stripped(base) in StrippedBases(heritage, user);
      if user != clazz {
        assert IsBefore(stamp, Stripped(base), user);
      }
    }

    /** Gives the base `base` of a class its list, if it is a constructed class without one. */
    method FinalizeBase(base: Class)
      requires ListsValid() && WellFormed(base) && Stripped(base) in stamp
      modifies this`classLists
      ensures ListsValid() && AddsConstructed(old(classLists), classLists)
      ensures forall x | x in classLists && x !in old(classLists) :: x.generic in stamp
      ensures IsKnown(base) && IsReached(old(classLists).Keys, classLists, {base})
    {
      hide ListsAreClosed, IsBaseFirst, WellFormedHeritage, HoldsEntries, IsReached;
      NothingReached({base});
      OnlyFinalAreListed();
      if base.ConstructedClass? && base !in classLists {
        FinalizeConstructedClass(base);
      }
    }

    /** The inner loop: visits the base classes of `user`. */
    method VisitBases(clazz: Class, user: Class, ghost seen: seq<Class>, found: seq<Class>, met: set<Class>)
      returns (classList: seq<Class>, presents: set<Class>)
      requires ListsValid() && HasMet(clazz, seen, found, met)
      requires !clazz.ConstructedClass? && clazz !in stamp
      requires user == clazz || IsKnown(user)
      requires forall b | b in StrippedBases(heritage, clazz) :: b in stamp
      modifies this`classLists
      ensures ListsValid() && AddsConstructed(old(classLists), classLists)
      ensures forall x | x in classLists && x !in old(classLists) :: x.generic in stamp
      ensures HasMet(clazz, seen + BaseClasses(heritage, user), classList, presents)
      ensures found <= classList && IsReached(old(classLists).Keys, classLists, Elements(classList))
    {
      hide ListsAreClosed, IsBaseFirst, WellFormedHeritage, WellFormed, StrippedBases, AllBases;
      hide HoldsEntries, IsReached, Elements, FirstOccurrences, BaseClasses;
      classList, presents := found, met;
      var bases := BaseClasses(heritage, user);
      assert seen + bases[..0] == seen;
      NothingReached(Elements(classList));
      for k := 0 to |bases|
        invariant ListsValid() && AddsConstructed(old(classLists), classLists)
        invariant forall x | x in classLists && x !in old(classLists) :: x.generic in stamp
        invariant HasMet(clazz, seen + bases[..k], classList, presents)
        invariant found <= classList && IsReached(old(classLists).Keys, classLists, Elements(classList))
      {
        var base := bases[k];
        ghost var middle := classLists;
        BaseIsStamped(clazz, user, base);
        FinalizeBase(base);
        TakeOneMore(seen, bases, k);
        MeetOneMore(clazz, seen + bases[..k], classList, presents, base);
        ReachMet(old(classLists).Keys, middle, clazz, seen + bases[..k], classList, presents, base);
        if base in presents {
          continue;
        }
        classList := classList + [base];
        presents := presents + {base};
      }
      assert seen + bases[..|bases|] == seen + bases;
    }

    function Successors(c: Class): (r: set<Class>)
      reads this`edges
      ensures forall s :: s in r <==> (c, s) in edges
    {
      assert forall e :: e in edges <==> (e.0, e.1) in edges;
      set e | e in edges && e.0 == c :: e.1
    }

    /** Adds a node for `c` unless it has, or had, one. */
    method GetOrNewNode(c: Class)
      modifies this`classMap, this`nodes
      ensures classMap == old(classMap) + {c}
      ensures nodes == if c in old(classMap) then old(nodes) else old(nodes) + {c}
    {
      if c in classMap {
        return;
      }
      classMap := classMap + {c};
      nodes := nodes + {c};
    }

    /** Finalizes `clazz`, and then every class that was waiting for nothing else. */
    method FinalizeClass(clazz: Class, ghost w: set<Edge>)
      requires FinalizationValid()
      requires GraphValid(w, {clazz})
      requires clazz in processed && clazz !in stamp && !IsBlocked(edges, clazz)
      modifies this`classLists, this`classMap, this`nodes, this`edges, this`stamp
      ensures FinalizationValid()
      ensures GraphValid(w, {})
      ensures old(stamp).Keys + {clazz} <= stamp.Keys
      ensures Keeps(old(classLists), classLists)
      decreases processed - stamp.Keys
    {
      hide IsGraph, ListsAreClosed, IsBaseFirst, ListsAreBreadthFirst, ConstructedAreReady;
      var successors := FinalizeAlone(clazz, w);
      while successors != {}
        invariant FinalizationValid()
        invariant GraphValid(w + EdgesFrom(clazz, successors), {})
        invariant old(stamp).Keys + {clazz} <= stamp.Keys && Keeps(old(classLists), classLists)
        decreases successors
      {
        var successor :| successor in successors;
        RemoveSuccessorEdge(clazz, successor, w + EdgesFrom(clazz, successors));
        ghost var remaining := w + EdgesFrom(clazz, successors) - {(clazz, successor)};
        DrainEdge(w, clazz, successor, successors);
        successors := successors - {successor};
        if !HasPredecessor(successor) {
          FinalizeClass(successor, remaining);
        }
      }
      assert w + EdgesFrom(clazz, {}) == w;
    }

    /** `FinalizeClass` up to its loop: `clazz` becomes final, its edges remain. */
    method FinalizeAlone(clazz: Class, ghost w: set<Edge>) returns (successors: set<Class>)
      requires FinalizationValid()
      requires GraphValid(w, {clazz})
      requires clazz in processed && clazz !in stamp && !IsBlocked(edges, clazz)
      modifies this`classLists, this`classMap, this`nodes, this`stamp
      ensures FinalizationValid()
      ensures GraphValid(w + EdgesFrom(clazz, successors), {})
      ensures stamp.Keys == old(stamp).Keys + {clazz} && forall s :: (clazz, s) !in w
      ensures Keeps(old(classLists), classLists)
    {
      hide IsGraph, ListsAreClosed, IsBaseFirst, ListsAreBreadthFirst, IsReached, HoldsEntries, Elements;
      hide IsBreadthFirst, AllBases, WellFormedHeritage;
      UnblockedBases(heritage, stamp.Keys, processed, classMap, nodes, edges, w, {clazz}, clazz);
      var classList := ComputeClassList(clazz);
      SetClassList(clazz, classList, old(classLists));
      successors := RetireNode(clazz, old(stamp).Keys, w);
    }

    /** Takes the node of `clazz` out of the graph. */
    method RetireNode(clazz: Class, ghost final: set<Class>, ghost w: set<Edge>) returns (successors: set<Class>)
      requires IsGraph(heritage, final, processed, classMap, nodes, edges, w, {clazz})
      requires clazz in processed && clazz !in final && !IsBlocked(edges, clazz)
      modifies this`classMap, this`nodes
      ensures IsGraph(heritage, final + {clazz}, processed, classMap, nodes, edges, w + EdgesFrom(clazz, successors), {})
    {
      successors := Successors(clazz);
      FinalizeStep(heritage, final, processed, classMap, nodes, edges, w, clazz, successors);
      GetOrNewNode(clazz);
      nodes := nodes - {clazz};
      assert nodes == old(nodes) - {clazz};
    }

    /** Removes the edge from the final class `clazz` to `successor`. */
    method RemoveSuccessorEdge(clazz: Class, successor: Class, ghost w: set<Edge>)
      requires GraphValid(w, {}) && (clazz, successor) in w
      modifies this`edges
      ensures successor in processed && successor !in stamp
      ensures edges == old(edges) - {(clazz, successor)}
      ensures GraphValid(w - {(clazz, successor)}, {successor})
      ensures IsBlocked(edges, successor) ==> GraphValid(w - {(clazz, successor)}, {})
    {
      DrainStep(heritage, stamp.Keys, processed, classMap, nodes, edges, w, clazz, successor);
      edges := edges - {(clazz, successor)};
    }

    /** `classList` is what the breadth-first loop gives `clazz`, coming from the lists `before`. */
    ghost predicate IsNextList(before: ClassLists, clazz: Class, classList: seq<Class>)
      reads this`classLists, this`stamp, this`referenced
    {
      && ListsValid() && ConstructedAreReady() && ListsAreBreadthFirst(heritage, before, stamp)
      && ListsAreClosed(before, stamp) && Keeps(before, classLists)
      && IsReached({}, before, stamp.Keys + referenced)
      && !clazz.ConstructedClass? && clazz !in stamp && clazz !in classLists
      && IsBreadthFirst(heritage, clazz, classList)
      && IsReached(before.Keys, classLists, Elements(classList))
      && StrippedBases(heritage, clazz) <= stamp.Keys
      && forall x | x in AllBases(heritage, classList) :: IsKnown(x)
    }

    lemma NextListIsClosed(before: ClassLists, clazz: Class, classList: seq<Class>)
      requires IsNextList(before, clazz, classList)
      ensures ListsAreClosed(classLists[clazz := classList], stamp[clazz := |stamp|])
      ensures HoldsEntries(classLists[clazz := classList], classLists[clazz := classList].Keys)
      ensures IsBaseFirst(heritage, stamp[clazz := |stamp|])
    {
      hide IsBreadthFirst, AllBases, ListsAreClosed, ListsAreBreadthFirst, IsReached, HoldsEntries, WellFormedHeritage;
      BreadthFirstHead(heritage, clazz, classList);
      assert forall x | x in stamp :: stamp[x] < |stamp|;
      AddClassList(classLists, stamp, clazz, classList);
      HoldNewList(classLists, clazz, classList);
      AddStamp(heritage, stamp, clazz);
    }

    lemma NextListIsReached(before: ClassLists, clazz: Class, classList: seq<Class>)
      requires IsNextList(before, clazz, classList)
      ensures IsReached({}, classLists[clazz := classList], stamp[clazz := |stamp|].Keys + referenced)
      ensures ListsAreBreadthFirst(heritage, classLists[clazz := classList], stamp[clazz := |stamp|])
    {
      hide IsBreadthFirst, AllBases, ListsAreClosed, ListsAreBreadthFirst, IsBaseFirst, IsReached, HoldsEntries;
      hide WellFormedHeritage, Elements, StrippedBases;
      KeepBreadthFirst(heritage, before, classLists, stamp);
      AddBreadthFirst(heritage, classLists, stamp, clazz, classList);
      ReachFromHead(before.Keys, classLists, clazz, classList);
      ReachFurther({}, before, classLists[clazz := classList], stamp.Keys + referenced, {clazz},
                   stamp[clazz := |stamp|].Keys + referenced);
    }

    /** Gives `clazz` its class list, with the latest stamp. */
    method SetClassList(clazz: Class, classList: seq<Class>, ghost before: ClassLists)
      requires IsNextList(before, clazz, classList)
      modifies this`classLists, this`stamp
      ensures FinalizationValid()
      ensures classLists == old(classLists)[clazz := classList]
      ensures stamp.Keys == old(stamp).Keys + {clazz}
    {
      hide IsBreadthFirst, AllBases, ListsAreClosed, ListsAreBreadthFirst, IsBaseFirst, IsReached, HoldsEntries;
      hide WellFormedHeritage, Elements, StrippedBases, IsKnown;
      NextListIsClosed(before, clazz, classList);
      NextListIsReached(before, clazz, classList);
      classLists := classLists[clazz := classList];
      stamp := stamp[clazz := |stamp|];
    }

    // ----- Entry points

    /**
     Receives the definition of `derivedClass`. Afterwards the finalized classes are again
     the least set of processed classes closed under "all bases are in the set".
     */
    method ProcessClassDefinition(derivedClass: Class)
      requires Valid() && !derivedClass.ConstructedClass? && derivedClass !in processed
      modifies this
      ensures Valid()
      ensures processed == old(processed) + {derivedClass}
      ensures IsLeastClosed(heritage, processed, Finalized())
      ensures Keeps(old(classLists), classLists)
      ensures pendingConstructedClasses == old(pendingConstructedClasses) && referenced == old(referenced)
      ensures errors == old(errors)
    {
      hide IsGraph, ListsAreClosed, IsBaseFirst, ListsAreBreadthFirst, ConstructedAreReady, IsReached, HoldsEntries;
      hide WellFormedHeritage;
      ghost var pending := StrippedBases(heritage, derivedClass) - stamp.Keys;
      ProcessStep(heritage, stamp.Keys, processed, classMap, nodes, edges, derivedClass, pending);
      ClassMapNodes();
      processed := processed + {derivedClass};
      var pendingClasses := PendingBases(derivedClass);
      if pendingClasses == {} {
        FinalizeClass(derivedClass, {});
      } else {
        AddPendingEdges(derivedClass, pendingClasses);
      }
      FinalizedMeaning();
    }

    lemma ClassMapNodes()
      requires GraphValid({}, {})
      ensures nodes == classMap - stamp.Keys && stamp.Keys <= processed
    {
    }

    lemma StrippedBase(c: Class, base: Class)
      requires FinalizationValid() && base in BaseClasses(heritage, c)
      ensures !Stripped(base).ConstructedClass? && WellFormed(Stripped(base))
    {
      hide ConstructedAreReady, ListsAreBreadthFirst, NothingElseIsListed, ListsAreClosed, IsBaseFirst, HoldsEntries;
      BaseIsWellFormed(heritage, c, base);
    }

    /** The stripped bases of `derivedClass` that are not finalized. */
    method PendingBases(derivedClass: Class) returns (pendingClasses: set<Class>)
      requires FinalizationValid()
      modifies this`classLists, this`pendingConstructedClasses, this`referenced
      ensures pendingClasses == StrippedBases(heritage, derivedClass) - stamp.Keys
      ensures classLists == old(classLists) && pendingConstructedClasses == old(pendingConstructedClasses)
      ensures referenced == old(referenced)
    {
      hide FinalizationValid, WellFormedHeritage, WellFormed;
      pendingClasses := {};
      var bases := BaseClasses(heritage, derivedClass);
      for i := 0 to |bases|
        invariant FinalizationValid()
        invariant classLists == old(classLists) && pendingConstructedClasses == old(pendingConstructedClasses)
        invariant referenced == old(referenced)
        invariant pendingClasses == (set b | b in bases[..i] :: Stripped(b)) - stamp.Keys
      {
        StrippedBase(derivedClass, bases[i]);
        var base := Stripped(bases[i]);
        assert bases[..i + 1] == bases[..i] + [bases[i]];
        var isFinal := ProcessClassReference(base);
        if isFinal {
          continue;
        }
        pendingClasses := pendingClasses + {base};
      }
      assert bases[..|bases|] == bases;
    }

    /** Makes `derivedClass` wait for `pendingClasses`. */
    method AddPendingEdges(derivedClass: Class, pendingClasses: set<Class>)
      requires nodes == classMap - stamp.Keys
      requires derivedClass !in stamp && pendingClasses !! stamp.Keys
      modifies this`classMap, this`nodes, this`edges
      ensures classMap == old(classMap) + {derivedClass} + pendingClasses
      ensures nodes == classMap - stamp.Keys
      ensures edges == old(edges) + EdgesTo(pendingClasses, derivedClass)
    {
      GetOrNewNode(derivedClass);
      var rest := pendingClasses;
      while rest != {}
        invariant rest <= pendingClasses
        invariant classMap == old(classMap) + {derivedClass} + (pendingClasses - rest)
        invariant nodes == classMap - stamp.Keys
        invariant edges == old(edges) + EdgesTo(pendingClasses - rest, derivedClass)
      {
        var base :| base in rest;
        GetOrNewNode(base);
        edges := edges + {(base, derivedClass)};
        assert EdgesTo(pendingClasses - (rest - {base}), derivedClass)
               == EdgesTo(pendingClasses - rest, derivedClass) + {(base, derivedClass)};
        rest := rest - {base};
      }
    }

    /** True if `c` is final afterwards; an unready constructed class is kept for `Build`. */
    method ProcessClassReference(c: Class) returns (isFinal: bool)
      requires FinalizationValid()
      requires WellFormed(c)
      requires c.ConstructedClass? && c.generic in stamp ==> c !in classLists
      modifies this`classLists, this`pendingConstructedClasses, this`referenced
      ensures FinalizationValid()
      ensures isFinal <==> Stripped(c) in stamp
      ensures isFinal ==> c in classLists
      ensures Keeps(old(classLists), classLists) && (!c.ConstructedClass? ==> classLists == old(classLists))
      ensures pendingConstructedClasses ==
              old(pendingConstructedClasses) + if c.ConstructedClass? && !isFinal then {c} else {}
      ensures referenced == old(referenced) + if c.ConstructedClass? then {c} else {}
      ensures old(Valid()) ==> Valid()
    {
      hide IsGraph, ListsAreClosed, IsBaseFirst, ListsAreBreadthFirst, IsReached, HoldsEntries, WellFormedHeritage;
      OnlyFinalAreListed();
      if !c.ConstructedClass? {
        return c in classLists;
      }
      NothingReached({});
      ReachFurther({}, classLists, classLists, stamp.Keys + referenced, {}, stamp.Keys + (referenced + {c}));
      referenced := referenced + {c};
      if c.generic in classLists {
        FinalizeReferenced(c);
        return true;
      }
      pendingConstructedClasses := pendingConstructedClasses + {c};
      return false;
    }

    /** `FinalizeConstructedClass`, as it is called for a class that was referenced. */
    method FinalizeReferenced(c: Class)
      requires ListsValid() && ListsAreBreadthFirst(heritage, classLists, stamp) && NothingElseIsListed()
      requires c.ConstructedClass? && WellFormed(c) && c !in classLists && c in referenced
      modifies this`classLists
      ensures ListsValid() && ListsAreBreadthFirst(heritage, classLists, stamp) && NothingElseIsListed()
      ensures Keeps(old(classLists), classLists) && c in classLists
      ensures c.generic in stamp && old(ConstructedAreReady()) ==> ConstructedAreReady()
    {
      hide IsGraph, ListsAreClosed, IsBaseFirst, ListsAreBreadthFirst, IsReached, HoldsEntries, WellFormedHeritage;
      FinalizeConstructedClass(c);
      KeepBreadthFirst(heritage, old(classLists), classLists, stamp);
      ReachFurther({}, old(classLists), classLists, stamp.Keys + referenced, {c}, stamp.Keys + referenced);
    }

    /**
     Ends the run. No class was left to finalize; every constructed class that was referenced
     too early gets its list now; and the classes that never became final are reported.
     A constructed class whose generic class is not final gets the list [itself].
     */
    method Build()
      requires Valid() && errors == []
      modifies this`classLists, this`errors
      ensures IsSettled() && Keeps(old(classLists), classLists)
      ensures forall c | c in pendingConstructedClasses :: c in classLists
      ensures IsLeastListed(classLists, Finalized() + referenced, classLists.Keys)
      ensures ErrorsAreSound(errors) && ErrorsAreComplete(errors)
      ensures errors == [] <==> forall c | c in processed || IsNamedBase(heritage, processed, c) :: c in Finalized()
      ensures HasUniqueIds(nodes) ==> NothingTwice(errors)
    {
      hide IsGraph, ListsAreClosed, IsBaseFirst, ListsAreBreadthFirst, IsLeastClosed, IsReached, HoldsEntries, IsLeastListed;
      var rest := nodes;
      while rest != {}
        invariant rest <= nodes
        invariant Valid()
        invariant classLists == old(classLists) && errors == []
      {
        var c :| c in rest;
        rest := rest - {c};
        NodeCannotFinalize(c);
        if CanFinalize(c) {
          assert false;
        }
      }
      FinalizePendingClasses();
      ListedMeaning();
      ValidateClassTree();
      GraphFacts();
      FinalizedMeaning();
    }

    /** No class left in the graph is ready, so the first loop of `Build` has nothing to do. */
    lemma NodeCannotFinalize(c: Class)
      requires ListsValid() && GraphValid({}, {}) && c in nodes
      ensures !CanFinalize(c)
      ensures c in processed ==> c in heritage && exists b :: b in heritage[c] && Stripped(b) !in Finalized()
    {
      hide ListsAreClosed, IsBaseFirst;
      NodeIsWaiting(heritage, stamp.Keys, processed, classMap, nodes, edges, c);
      OnlyFinalAreListed();
    }

    lemma OnlyFinalAreListed()
      requires ListsValid()
      ensures forall c: Class | !c.ConstructedClass? :: c in classLists <==> c in stamp
    {
    }

    /** The second loop of `Build`. */
    method FinalizePendingClasses()
      requires ListsValid() && ListsAreBreadthFirst(heritage, classLists, stamp) && NothingElseIsListed()
      requires PendingAreConstructed() && ReferencedAreKept()
      modifies this`classLists
      ensures ListsValid() && ListsAreBreadthFirst(heritage, classLists, stamp) && NothingElseIsListed()
      ensures Keeps(old(classLists), classLists) && referenced <= classLists.Keys
    {
      hide ListsAreClosed, IsBaseFirst, ListsAreBreadthFirst, IsReached, HoldsEntries, WellFormedHeritage;
      var rest := pendingConstructedClasses;
      while rest != {}
        invariant rest <= pendingConstructedClasses
        invariant ListsValid() && ListsAreBreadthFirst(heritage, classLists, stamp) && NothingElseIsListed()
        invariant Keeps(old(classLists), classLists) && referenced <= classLists.Keys + rest
      {
        var c :| c in rest;
        if c !in classLists {
          FinalizeReferenced(c);
        }
        rest := rest - {c};
      }
    }

    // ----- Errors

    /** Each error names a class that is not final, for the reason it gives. */
    ghost predicate ErrorsAreSound(reported: seq<ClassTreeError>)
      reads this
    {
      forall e | e in reported ::
        match e
        case UndefinedClass(user) => IsNamedBase(heritage, processed, user) && user !in processed
        case CycleError(user, using) => (user, using) in edges && user in processed && using in processed
    }

    /** Every base that was never defined, and every processed pair of waiting classes, is reported. */
    ghost predicate ErrorsAreComplete(reported: seq<ClassTreeError>)
      reads this
    {
      && (forall c | IsNamedBase(heritage, processed, c) && c !in processed :: UndefinedClass(c) in reported)
      && (forall b, c | b in processed && (b, c) in edges :: IsReported(reported, b, c))
    }

    /** `cycles` holds the keys of exactly the reported pairs. */
    ghost predicate CyclesAreReported(cycles: set<Edge>)
      reads this`errors
    {
      && (forall b, c | (b, c) in cycles :: IsReported(errors, b, c))
      && (forall b, c | CycleError(b, c) in errors :: KeyOf(b, c) in cycles)
    }

    method ValidateClassTree()
      requires WellFormedHeritage(heritage) && GraphValid({}, {}) && errors == []
      modifies this`errors
      ensures ErrorsAreSound(errors) && ErrorsAreComplete(errors)
      ensures errors == [] <==> nodes == {}
      ensures HasUniqueIds(nodes) ==> NothingTwice(errors)
    {
      hide IsGraph;
      GraphFacts();
      var cycles: set<Edge> := {};
      var rest := nodes;
      while rest != {}
        invariant rest <= nodes
        invariant ErrorsAreSound(errors) && CyclesAreReported(cycles)
        invariant HasUniqueIds(nodes) ==> NothingTwice(errors)
        invariant forall c :: UndefinedClass(c) in errors <==> c in nodes - rest && c !in processed
        invariant forall b, c | b in nodes - rest && b in processed && (b, c) in edges :: IsReported(errors, b, c)
      {
        var user :| user in rest;
        rest := rest - {user};
        if user !in processed {
          errors := errors + [UndefinedClass(user)];
          continue;
        }
        cycles := ReportSuccessors(user, cycles);
      }
      if nodes != {} {
        SomethingIsReported();
      }
      assert errors != [] ==> errors[0] in errors;
    }

    /** The inner loop of `ValidateClassTree`. */
    method ReportSuccessors(user: Class, reported: set<Edge>) returns (cycles: set<Edge>)
      requires user in processed && user in nodes
      requires forall b, c | (b, c) in edges :: b in nodes && c in nodes && c in processed
      requires ErrorsAreSound(errors) && CyclesAreReported(reported)
      requires HasUniqueIds(nodes) ==> NothingTwice(errors)
      modifies this`errors
      ensures ErrorsAreSound(errors) && CyclesAreReported(cycles)
      ensures HasUniqueIds(nodes) ==> NothingTwice(errors)
      ensures forall e | e in old(errors) :: e in errors
      ensures forall c :: UndefinedClass(c) in errors <==> UndefinedClass(c) in old(errors)
      ensures forall c | (user, c) in edges :: IsReported(errors, user, c)
    {
      cycles := reported;
      var successors := Successors(user);
      while successors != {}
        invariant successors <= Successors(user)
        invariant ErrorsAreSound(errors) && CyclesAreReported(cycles)
        invariant HasUniqueIds(nodes) ==> NothingTwice(errors)
        invariant forall e | e in old(errors) :: e in errors
        invariant forall c :: UndefinedClass(c) in errors <==> UndefinedClass(c) in old(errors)
        invariant forall c | (user, c) in edges && c !in successors :: IsReported(errors, user, c)
      {
        var using :| using in successors;
        successors := successors - {using};
        if !HasPredecessor(using) {
          continue;
        }
        var key := KeyOf(user, using);
        if key in cycles {
          continue;
        }
        cycles := cycles + {key};
        errors := errors + [CycleError(user, using)];
      }
    }

    /** The edges join nodes of the graph, and nodes are undefined bases or waiting classes. */
    lemma GraphFacts()
      requires WellFormedHeritage(heritage) && GraphValid({}, {})
      ensures forall b, c | (b, c) in edges :: b in nodes && c in nodes && c in processed
      ensures forall c | c in nodes && c !in processed :: IsNamedBase(heritage, processed, c)
      ensures forall c | IsNamedBase(heritage, processed, c) && c !in processed :: c in nodes
      ensures nodes == {} <==> forall c | c in processed || IsNamedBase(heritage, processed, c) :: c in stamp
    {
      forall b, c | (b, c) in edges
        ensures b in nodes && c in nodes && c in processed
      {
        assert IsWaiting(heritage, stamp.Keys, processed, {}, b, c);
        assert IsNamedBase(heritage, processed, b);
      }
    }

    lemma SomethingIsReported()
      requires WellFormedHeritage(heritage) && GraphValid({}, {}) && nodes != {}
      requires ErrorsAreComplete(errors)
      ensures errors != []
    {
      var c :| c in nodes;
      NodeIsWaiting(heritage, stamp.Keys, processed, classMap, nodes, edges, c);
      if c in processed {
        var b :| b in BaseClasses(heritage, c) && Stripped(b) in nodes && (Stripped(b), c) in edges;
        NodeIsWaiting(heritage, stamp.Keys, processed, classMap, nodes, edges, Stripped(b));
      }
    }

    // ----- What the result means

    /**
     In terms of the `extends` and `implements` lists as they are written: a processed class is
     final if and only if every class named there is, a constructed class by its generic class.
     */
    lemma FinalIfAllBasesAre(c: Class)
      requires IsSettled() && c in processed
      ensures c in Finalized() <==>
              (c !in heritage || forall b | b in heritage[c] :: (if b.ConstructedClass? then b.generic else b) in Finalized())
    {
      hide IsGraph, ListsAreClosed, ListsAreBreadthFirst, IsReached, HoldsEntries, WellFormedHeritage;
      FinalizedMeaning();
      ProcessedIsNotConstructed(c);
      assert c in stamp ==> forall b | b in StrippedBases(heritage, c) :: IsBefore(stamp, b, c);
      if c in heritage {
        assert BaseClasses(heritage, c) == heritage[c];
        assert forall b | b in heritage[c] :: Stripped(b) in StrippedBases(heritage, c);
      }
    }

    lemma ProcessedIsNotConstructed(c: Class)
      requires GraphValid({}, {}) && c in processed
      ensures !c.ConstructedClass?
    {
    }

    /** The class list begins with the class and the classes it names, in the order written, each once. */
    lemma NamedBasesComeFirst(c: Class)
      requires IsSettled() && c in Finalized() && c in heritage
      ensures c in classLists && [c] + FirstOccurrences(heritage[c]) <= classLists[c]
      ensures forall x | x in heritage[c] :: x in classLists[c][1..]
    {
      hide IsGraph, IsBaseFirst, IsReached, HoldsEntries, WellFormedHeritage, FirstOccurrences, NoDuplicates, Within, Reachable;
      var s, bases := classLists[c], heritage[c];
      OnlyFinalAreListed();
      assert IsBreadthFirst(heritage, c, s) && !c.ConstructedClass?;
      hide ListsAreClosed, ListsAreBreadthFirst, IsBreadthFirst;
      BreadthFirstHead(heritage, c, s);
      DiscoveredPrefix(heritage, c, s, 1);
      assert s[..1] == [] + [c];
      AllBasesAppend(heritage, [], c);
      assert AllBases(heritage, []) + bases == bases;
      assert Discovered(heritage, c, s[..1]) == [c] + FirstOccurrences(bases);
      forall x | x in bases
        ensures x in s[1..]
      {
        var k :| 0 <= k < |FirstOccurrences(bases)| && FirstOccurrences(bases)[k] == x;
        AfterHead(c, FirstOccurrences(bases), s, k);
      }
    }

    /** Without repetitions the classes named follow the class itself as they are written. */
    lemma NamedBasesAreNext(c: Class)
      requires IsSettled() && c in Finalized() && c in heritage
      requires forall i, j :: 0 <= i < j < |heritage[c]| ==> heritage[c][i] != heritage[c][j]
      ensures c in classLists && [c] + heritage[c] <= classLists[c]
    {
      assert NoDuplicates(heritage[c]);
      hide *;
      NamedBasesComeFirst(c);
      FirstOccurrencesOfDistinct(heritage[c]);
    }

    /** The first mentions of two classes are listed in the order written. */
    lemma NamedBasesInOrder(c: Class, i: nat, j: nat) returns (p: nat, q: nat)
      requires IsSettled() && c in Finalized() && c in heritage && i < j < |heritage[c]|
      requires heritage[c][i] !in heritage[c][..i] && heritage[c][j] !in heritage[c][..j]
      ensures 1 <= p < q < |classLists[c]|
      ensures classLists[c][p] == heritage[c][i] && classLists[c][q] == heritage[c][j]
    {
      hide *;
      NamedBasesComeFirst(c);
      p, q := FirstOccurrencesInOrder(heritage[c], i, j);
      AfterHead(c, FirstOccurrences(heritage[c]), classLists[c], p);
      AfterHead(c, FirstOccurrences(heritage[c]), classLists[c], q);
      p, q := p + 1, q + 1;
    }

    /** `c` was processed and names `b` among its bases, or a class constructed from `b`. */
    ghost predicate Names(c: Class, b: Class)
      reads this`processed
    {
      c in processed && c in heritage && exists x :: x in heritage[c] && b == if x.ConstructedClass? then x.generic else x
    }

    lemma NamesIsStrippedBase(c: Class, b: Class)
      requires forall x | x in processed :: !x.ConstructedClass?
      ensures Names(c, b) <==> c in processed && b in StrippedBases(heritage, c)
    {
      if c in processed && b in StrippedBases(heritage, c) {
        var x :| x in BaseClasses(heritage, c) && b == Stripped(x);
        assert x in heritage[c];
      }
      if Names(c, b) {
        var x :| x in heritage[c] && b == if x.ConstructedClass? then x.generic else x;
        assert x in BaseClasses(heritage, c);
      }
    }

    /**
     What `Build` reports, in terms of the written lists: exactly the classes that are named
     but were never processed, and every pair of unfinished classes one of which names the other.
     */
    lemma ErrorsMeaning()
      requires IsSettled() && ErrorsAreSound(errors) && ErrorsAreComplete(errors)
      ensures forall b :: UndefinedClass(b) in errors <==> b !in processed && exists c :: Names(c, b)
      ensures forall b, c :: CycleError(b, c) in errors ==>
                b in processed && b !in Finalized() && c !in Finalized() && Names(c, b)
      ensures forall b, c | b in processed && b !in Finalized() && c !in Finalized() && Names(c, b) ::
                CycleError(b, c) in errors || CycleError(c, b) in errors
    {
      hide ListsAreClosed, IsBaseFirst, ListsAreBreadthFirst, IsReached, HoldsEntries, StrippedBases;
      forall b, c
        ensures Names(c, b) <==> c in processed && b in StrippedBases(heritage, c)
      {
        NamesIsStrippedBase(c, b);
      }
      hide Names;
      forall b
        ensures IsNamedBase(heritage, processed, b) <==> exists c :: Names(c, b)
      {
      }
      forall b, c
        ensures (b, c) in edges <==> c !in stamp && b !in stamp && Names(c, b)
      {
        assert (b, c) in edges <==> IsWaiting(heritage, stamp.Keys, processed, {}, b, c);
      }
    }

    /** No class is reported twice as undefined, and no two classes twice for each other. */
    lemma ErrorsAreDistinct(i: nat, j: nat)
      requires NothingTwice(errors) && i < j < |errors|
      ensures errors[i] != errors[j]
      ensures errors[i].CycleError? ==> errors[j] != CycleError(errors[i].using, errors[i].user)
    {
      assert !IsSameError(errors[i], errors[j]);
    }

    /** It takes different ids of all nodes, which are normal and generic classes. */
    lemma IdsAreUnique()
      requires WellFormedHeritage(heritage) && GraphValid({}, {})
      requires forall a, b | a in nodes && b in nodes && !a.ConstructedClass? && !b.ConstructedClass? && a.id == b.id :: a == b
      ensures HasUniqueIds(nodes)
    {
      hide IsGraph;
      forall c | c in nodes
        ensures !c.ConstructedClass?
      {
        NodeIsWaiting(heritage, stamp.Keys, processed, classMap, nodes, edges, c);
      }
    }

    /** What the class list of a finalized class says about the heritage. */
    lemma ClassListMeaning(c: Class)
      requires IsSettled() && c in Finalized()
      ensures c in classLists && classLists[c] != [] && classLists[c][0] == c
      ensures NoDuplicates(classLists[c])
      ensures forall x :: x in classLists[c] <==> Reachable(heritage, c, x)
      ensures forall i, j, n: nat | 0 <= i < j < |classLists[c]| && classLists[c][j] in Within(heritage, c, n) ::
                classLists[c][i] in Within(heritage, c, n)
    {
      hide IsGraph, IsBreadthFirst, AllBases, Within, Reachable, NoDuplicates;
      var s := classLists[c];
      assert IsBreadthFirst(heritage, c, s);
      BreadthFirstHead(heritage, c, s);
      forall i | 1 <= i < |s|
        ensures s[i] != c
      {
        assert IsEarlier(classLists, stamp, s[i], c);
      }
      NotAmongBases(heritage, c, s);
      BreadthFirstMeaning(heritage, c, s);
    }

    /**
     The list of a constructed class is the list of its generic class with the head replaced
     by the class itself and, in every later entry, each type parameter among the direct
     arguments replaced by the argument at its position.
     */
    lemma ConstructedListMeaning(c: Class)
      requires IsSettled() && c in classLists && c.ConstructedClass? && c.generic in Finalized()
      ensures WellFormed(c) && |classLists[c]| == |classLists[c.generic]| && classLists[c][0] == c
      ensures forall i | 1 <= i < |classLists[c]| :: IsInstanceOf(c, classLists[c.generic][i], classLists[c][i])
    {
      hide IsGraph, IsBaseFirst, ListsAreBreadthFirst;
      InstanceListMeaning(c, classLists[c.generic], classLists[c]);
    }

    /**
     With `G<T>` naming a base `B<..T..>`, the list of `G<argument>` holds `B<..argument..>`:
     position by position, a type parameter of `G` is replaced by the argument for it, and
     everything else is kept.
     */
    lemma InstantiatedBase(c: Class, b: Class) returns (y: Class)
      requires IsSettled() && c in classLists && c.ConstructedClass? && c.generic in Finalized()
      requires c.generic in heritage && b in heritage[c.generic] && b.ConstructedClass?
      ensures y in classLists[c] && y.ConstructedClass? && y.generic == b.generic
      ensures WellFormed(c) && |y.arguments| == |b.arguments|
      ensures forall k, i | 0 <= k < |b.arguments| && 0 <= i < |c.arguments| && b.arguments[k].TypeParameter? &&
                            b.arguments[k] == c.generic.parameters[i] && b.arguments[k] !in c.generic.parameters[..i] ::
                y.arguments[k] == c.arguments[i]
      ensures forall k | 0 <= k < |b.arguments| && b.arguments[k] !in c.generic.parameters :: y.arguments[k] == b.arguments[k]
      ensures forall k | 0 <= k < |b.arguments| && !b.arguments[k].TypeParameter? :: y.arguments[k] == b.arguments[k]
    {
      hide IsGraph, IsBaseFirst, ListsAreBreadthFirst, IsReached, HoldsEntries, ListsAreClosed, WellFormedHeritage;
      ConstructedList(c);
      NamedBasesComeFirst(c.generic);
      ConstructedListMeaning(c);
      var i :| 0 <= i < |classLists[c.generic][1..]| && classLists[c.generic][1..][i] == b;
      y := classLists[c][i + 1];
      assert IsInstanceOf(c, b, y);
    }

    lemma ConstructedList(c: Class)
      requires IsSettled() && c in classLists && c.ConstructedClass? && c.generic in Finalized()
      ensures WellFormed(c) && c.generic in classLists && !c.generic.ConstructedClass?
      ensures IsInstanceList(c, classLists[c.generic], classLists[c])
    {
      hide IsGraph, IsBaseFirst, ListsAreBreadthFirst, IsReached, HoldsEntries, IsInstanceList, WellFormedHeritage;
    }

    /** A constructed class lists itself and the instances of all other classes its generic class reaches. */
    lemma ConstructedAncestry(c: Class, x: Class)
      requires IsSettled() && c in classLists && c.ConstructedClass? && c.generic in Finalized()
      ensures WellFormed(c)
      ensures x in classLists[c] <==>
              x == c || exists z :: z != c.generic && Reachable(heritage, c.generic, z) && x == Instance(c, z)
    {
      hide IsGraph, IsBaseFirst, ListsAreBreadthFirst, IsReached, HoldsEntries, Reachable, Instance, Within, NoDuplicates;
      hide ListsAreClosed, WellFormedHeritage, IsBreadthFirst;
      ConstructedList(c);
      var s, g := classLists[c], classLists[c.generic];
      ClassListMeaning(c.generic);
      if x in s {
        var i :| 0 <= i < |s| && s[i] == x;
        if i > 0 {
          ListEntry(classLists, stamp, c.generic, i);
          assert g[i] in g && g[i] != c.generic;
        }
      }
      forall z | z != c.generic && Reachable(heritage, c.generic, z)
        ensures Instance(c, z) in s
      {
        var i :| 0 <= i < |g| && g[i] == z;
        assert s[i] == Instance(c, z);
      }
    }

    /**
     A class list stops at constructed classes. It holds what the constructed classes in it
     list exactly if the class also reaches, some other way, each instance of what their
     generic classes reach.
     */
    lemma WhenListIsTransitive(c: Class)
      requires IsSettled() && c in Finalized()
      ensures (forall y, x | y in classLists[c] && y.ConstructedClass? && x in ListOf(classLists, y) :: x in classLists[c]) <==>
              (forall y, z | Reachable(heritage, c, y) && y.ConstructedClass? && WellFormed(y) && z != y.generic &&
                             Reachable(heritage, y.generic, z) :: Reachable(heritage, c, Instance(y, z)))
    {
      hide IsGraph, IsBaseFirst, ListsAreBreadthFirst, IsReached, HoldsEntries, Reachable, Instance, Within, NoDuplicates;
      hide WellFormedHeritage;
      ClassListMeaning(c);
      forall y | y in classLists[c] && y.ConstructedClass?
        ensures y in classLists && WellFormed(y) && y.generic in Finalized()
      {
        var i :| 0 <= i < |classLists[c]| && classLists[c][i] == y;
        ListEntry(classLists, stamp, c, i);
      }
      forall y, x | y in classLists[c] && y.ConstructedClass?
        ensures WellFormed(y)
        ensures x in classLists[y] <==>
                x == y || exists z :: z != y.generic && Reachable(heritage, y.generic, z) && x == Instance(y, z)
      {
        ConstructedAncestry(y, x);
      }
    }

    /** The classes with a list are the finalized and the referenced ones, and what their lists lead to. */
    lemma ListedMeaning()
      requires IsSettled() && referenced <= classLists.Keys
      ensures IsLeastListed(classLists, Finalized() + referenced, classLists.Keys)
      ensures forall c | c in Finalized() || c in referenced :: c in classLists
      ensures forall c, x | c in classLists && x in classLists[c] :: x in classLists
    {
      hide IsGraph, IsBaseFirst, IsBreadthFirst;
      OnlyFinalAreListed();
      assert Finalized() == stamp.Keys;
      assert stamp.Keys <= classLists.Keys;
    }

    /** The finalized classes are determined by what was processed. */
    lemma FinalizedMeaning()
      requires ListsValid() && GraphValid({}, {})
      ensures IsLeastClosed(heritage, processed, Finalized())
      ensures Finalized() == stamp.Keys
    {
      assert Finalized() == stamp.Keys;
      FinalIsLeastClosed(heritage, stamp, processed, classMap, nodes, edges);
    }

    /**
     Two builders that processed the same classes, in whatever order and with whatever
     references in between, have finalized the same classes with the same lists.
     */
    lemma OrderDoesNotMatter(other: ClassTreeBuilder)
      requires IsSettled() && other.IsSettled()
      requires heritage == other.heritage && processed == other.processed
      ensures Finalized() == other.Finalized()
      ensures forall c | c in classLists && c in other.classLists :: classLists[c] == other.classLists[c]
    {
      hide IsGraph, IsBreadthFirst, IsBaseFirst, IsLeastClosed, IsInstanceList, IsReached, HoldsEntries;
      FinalizedMeaning();
      other.FinalizedMeaning();
      LeastClosedUnique(heritage, processed, Finalized(), other.Finalized());
      forall c | c in classLists && c in other.classLists && !c.ConstructedClass?
        ensures classLists[c] == other.classLists[c]
      {
        assert IsBreadthFirst(heritage, c, classLists[c]);
        assert IsBreadthFirst(heritage, c, other.classLists[c]);
        BreadthFirstUnique(heritage, c, classLists[c], other.classLists[c]);
      }
      forall c | c in classLists && c in other.classLists && c.ConstructedClass?
        ensures classLists[c] == other.classLists[c]
      {
        assert !c.generic.ConstructedClass? && (c.generic in classLists <==> c.generic in other.classLists);
        assert ListOf(classLists, c.generic) == ListOf(other.classLists, c.generic);
        InstanceListUnique(c, ListOf(classLists, c.generic), classLists[c], other.classLists[c]);
      }
    }

    /**
     After `Build`, everything is determined by the heritage, the processed classes and the
     constructed classes that were referenced: which classes have a list, and which list.
     */
    lemma ResultIsDetermined(other: ClassTreeBuilder)
      requires IsSettled() && other.IsSettled()
      requires referenced <= classLists.Keys && other.referenced <= other.classLists.Keys
      requires heritage == other.heritage && processed == other.processed && referenced == other.referenced
      ensures classLists == other.classLists
    {
      hide IsGraph, ListsAreBreadthFirst, IsBaseFirst, ListsAreClosed, HoldsEntries, IsReached;
      OrderDoesNotMatter(other);
      ListedMeaning();
      other.ListedMeaning();
      SharedKeys(classLists, other.classLists, Finalized() + referenced);
      SharedKeys(other.classLists, classLists, Finalized() + referenced);
    }

    /**
     After `Build`, classes that each have a base among them, such as the classes of a
     heritage cycle, are not final, and every heritage step between them is reported.
     */
    lemma CyclesAreAllReported(knot: set<Class>)
      requires IsSettled() && ErrorsAreComplete(errors)
      requires IsKnot(heritage, knot) && knot <= processed
      ensures Finalized() !! knot
      ensures forall x, c | x in knot && c in knot && x in StrippedBases(heritage, c) :: IsReported(errors, x, c)
    {
      hide IsGraph, IsKnot, ListsAreClosed, IsBaseFirst, ListsAreBreadthFirst, IsLeastClosed;
      FinalizedMeaning();
      KnotIsNeverFinal(heritage, processed, Finalized(), knot);
      forall x, c | x in knot && c in knot && x in StrippedBases(heritage, c)
        ensures IsReported(errors, x, c)
      {
        WaitingEdge(heritage, stamp.Keys, processed, classMap, nodes, edges, x, c);
      }
    }
  }
}
