/**
 What a run of the name resolver makes of one reference, in terms of the declarations around
 it. A site is the path to a declaration or reference: its index in the program, or in the
 block at that index, and so on inward.
 */
module ScopeMeaning {
  import opened ScopeRules
  import opened Wrappers

  predicate IsSite(items: seq<Item>, path: seq<nat>)
    decreases |path|
  {
    && path != [] && path[0] < |items|
    && (|path| == 1 ==> !items[path[0]].Block?)
    && (|path| > 1 ==> items[path[0]].Block? && IsSite(items[path[0]].items, path[1..]))
  }

  /** The items of the scope `d` steps inward on the way to the site. */
  function ScopeAt(items: seq<Item>, path: seq<nat>, d: nat): (r: seq<Item>)
    requires IsSite(items, path) && d < |path|
    ensures path[d] < |r|
    decreases d
  {
    if d == 0 then items else ScopeAt(items[path[0]].items, path[1..], d - 1)
  }

  function ItemAt(items: seq<Item>, path: seq<nat>): Item
    requires IsSite(items, path)
  {
    ScopeAt(items, path, |path| - 1)[path[|path| - 1]]
  }

  /** Item `i` of the scope is its first declaration of `name`. */
  predicate IsFirst(scope: seq<Item>, i: nat, name: Name) {
    && i < |scope| && scope[i].Declare? && scope[i].name == name
    && forall j | 0 <= j < i && scope[j].Declare? :: scope[j].name != name
  }

  /** None of the first `n` items of the scope declares `name`. */
  predicate NoneAmong(scope: seq<Item>, n: nat, name: Name)
    requires n <= |scope|
  {
    forall j | 0 <= j < n && scope[j].Declare? :: scope[j].name != name
  }

  // ----- The frames at a site

  /** What the scopes from the outermost to the innermost bind when the site is reached. */
  function FramesAt(items: seq<Item>, path: seq<nat>, frame: Frame): (r: seq<Frame>)
    requires IsSite(items, path)
    ensures |r| == |path|
    decreases |path|
  {
    [Bindings(items[..path[0]], frame)] + if |path| == 1 then [] else FramesAt(items[path[0]].items, path[1..], map[])
  }

  /** What they bind in the end. */
  function FinalsAt(items: seq<Item>, path: seq<nat>, frame: Frame): (r: seq<Frame>)
    requires IsSite(items, path)
    ensures |r| == |path|
    decreases |path|
  {
    [Bindings(items, frame)] + if |path| == 1 then [] else FinalsAt(items[path[0]].items, path[1..], map[])
  }

  lemma {:induction false} OneScope(items: seq<Item>, path: seq<nat>, frame: Frame)
    requires IsSite(items, path) && |path| == 1
    ensures path[0] < |items| && ItemAt(items, path) == items[path[0]] && !items[path[0]].Block?
    ensures ScopeAt(items, path, 0) == items
    ensures FramesAt(items, path, frame) == [Bindings(items[..path[0]], frame)]
    ensures FinalsAt(items, path, frame) == [Bindings(items, frame)]
  {
  }

  /** One step inward. */
  lemma {:induction false} StepIn(items: seq<Item>, path: seq<nat>, frame: Frame)
    requires IsSite(items, path) && |path| > 1
    ensures path[0] < |items| && items[path[0]].Block? && IsSite(items[path[0]].items, path[1..])
    ensures ItemAt(items, path) == ItemAt(items[path[0]].items, path[1..])
    ensures ScopeAt(items, path, |path| - 1) == ScopeAt(items[path[0]].items, path[1..], |path[1..]| - 1)
    ensures FramesAt(items, path, frame) ==
            [Bindings(items[..path[0]], frame)] + FramesAt(items[path[0]].items, path[1..], map[])
    ensures FinalsAt(items, path, frame) == [Bindings(items, frame)] + FinalsAt(items[path[0]].items, path[1..], map[])
    ensures FinalsAt(items[path[0]].items, path[1..], map[])[0] == Bindings(items[path[0]].items, map[])
  {
    hide Bindings;
  }

  lemma {:induction false} ScopeStep(items: seq<Item>, path: seq<nat>, d: nat)
    requires IsSite(items, path) && d < |path|
    ensures d == 0 ==> path[0] < |items| && ScopeAt(items, path, d) == items
    ensures d > 0 ==> ScopeAt(items, path, d) == ScopeAt(items[path[0]].items, path[1..], d - 1)
  {
  }

  lemma {:induction false} FirstFrame(items: seq<Item>, path: seq<nat>, frame: Frame)
    requires IsSite(items, path)
    ensures path[0] < |items|
    ensures FramesAt(items, path, frame)[0] == Bindings(items[..path[0]], frame)
    ensures FinalsAt(items, path, frame)[0] == Bindings(items, frame)
  {
  }

  lemma {:induction false} FrameAt(items: seq<Item>, path: seq<nat>, frame: Frame, d: nat)
    requires IsSite(items, path) && d < |path|
    ensures FramesAt(items, path, frame)[d] == Bindings(ScopeAt(items, path, d)[..path[d]], if d == 0 then frame else map[])
    ensures FinalsAt(items, path, frame)[d] == Bindings(ScopeAt(items, path, d), if d == 0 then frame else map[])
    decreases d
  {
    hide IsSite, FramesAt, FinalsAt, ScopeAt, Bindings, ItemAt;
    ScopeStep(items, path, d);
    if d > 0 {
      StepIn(items, path, frame);
      FrameAt(items[path[0]].items, path[1..], map[], d - 1);
    } else {
      FirstFrame(items, path, frame);
    }
  }

  /** The outcomes of the items before one, and of that one, are among all outcomes. */
  lemma {:induction false} OutcomesHold(keywords: set<Name>, items: seq<Item>, outer: seq<Frame>, frame: Frame, finals: seq<Frame>,
                                        i: nat, o: (Ref, Outcome))
    requires i < |items|
    requires o in OutcomesOf(keywords, items[i], outer + [Bindings(items[..i], frame)], finals)
    ensures o in Outcomes(keywords, items, outer, frame, finals)
  {
    hide OutcomesOf, Bindings;
    var n := |items| - 1;
    if i < n {
      assert items[..n][..i] == items[..i];
      OutcomesHold(keywords, items[..n], outer, frame, finals, i, o);
    }
  }

  lemma {:induction false} OutcomeAt(keywords: set<Name>, items: seq<Item>, outer: seq<Frame>, frame: Frame, finals: seq<Frame>,
                                     path: seq<nat>)
    requires IsSite(items, path) && ItemAt(items, path).Reference? && ItemAt(items, path).ref.name !in keywords
    ensures var ref := ItemAt(items, path).ref;
            (ref, ResolveWith(ref, outer + FramesAt(items, path, frame), finals + FinalsAt(items, path, frame)[1..]))
            in Outcomes(keywords, items, outer, frame, finals)
    decreases |path|
  {
    hide Outcomes, Bindings, ResolveWith, IsSite, FramesAt, FinalsAt, ScopeAt, ItemAt;
    SiteIndex(items, path);
    var i := path[0];
    var ref := ItemAt(items, path).ref;
    var frames := outer + [Bindings(items[..i], frame)];
    if |path| == 1 {
      OneScope(items, path, frame);
      assert finals + FinalsAt(items, path, frame)[1..] == finals;
      OutcomesHold(keywords, items, outer, frame, finals, i, (ref, ResolveWith(ref, frames, finals)));
    } else {
      StepIn(items, path, frame);
      var body := items[i].items;
      OutcomeAt(keywords, body, frames, map[], finals + [Bindings(body, map[])], path[1..]);
      assert frames + FramesAt(body, path[1..], map[]) == outer + FramesAt(items, path, frame);
      assert finals + [Bindings(body, map[])] + FinalsAt(body, path[1..], map[])[1..]
          == finals + FinalsAt(items, path, frame)[1..];
      OutcomesHold(keywords, items, outer, frame, finals, i,
                   (ref, ResolveWith(ref, outer + FramesAt(items, path, frame), finals + FinalsAt(items, path, frame)[1..])));
    }
  }

  lemma SiteIndex(items: seq<Item>, path: seq<nat>)
    requires IsSite(items, path)
    ensures path != [] && path[0] < |items|
  {
  }

  // ----- Looking up

  lemma {:induction false} FoundAt(frames: seq<Frame>, name: Name, d: nat)
    requires d < |frames| && name in frames[d] && forall e | d < e < |frames| :: name !in frames[e]
    ensures Lookup(frames, name) == Some(frames[d][name])
  {
    var i := LookupMeaning(frames, name);
  }

  lemma {:induction false} FoundNowhere(frames: seq<Frame>, name: Name)
    requires forall e | 0 <= e < |frames| :: name !in frames[e]
    ensures Lookup(frames, name) == None
  {
    var i := LookupMeaning(frames, name);
  }

  lemma BoundFirst(scope: seq<Item>, n: nat, frame: Frame, i: nat, name: Name)
    requires i < n <= |scope| && IsFirst(scope, i, name) && name !in frame
    ensures name in Bindings(scope[..n], frame) && Bindings(scope[..n], frame)[name] == scope[i].variable
  {
    BindingsMeaning(scope[..n], frame, name);
    assert scope[..n][i] == scope[i];
  }

  lemma NotBound(scope: seq<Item>, n: nat, frame: Frame, name: Name)
    requires n <= |scope| && NoneAmong(scope, n, name)
    ensures name in Bindings(scope[..n], frame) <==> name in frame
    ensures name in frame ==> Bindings(scope[..n], frame)[name] == frame[name]
  {
    BindingsMeaning(scope[..n], frame, name);
  }

  // ----- The four ways a reference can go

  /** What becomes of the reference at a site of a whole program. */
  ghost predicate Becomes(keywords: set<Name>, items: seq<Item>, globals: Frame, ref: Ref, outcome: Outcome) {
    (ref, outcome) in Outcomes(keywords, items, [], globals, [Bindings(items, globals)])
  }

  lemma BecomesLookedUp(keywords: set<Name>, items: seq<Item>, globals: Frame, path: seq<nat>)
    requires IsSite(items, path) && ItemAt(items, path).Reference? && ItemAt(items, path).ref.name !in keywords
    ensures var ref := ItemAt(items, path).ref;
            Becomes(keywords, items, globals, ref,
                    ResolveWith(ref, FramesAt(items, path, globals), FinalsAt(items, path, globals)))
  {
    hide Outcomes, Bindings, ResolveWith;
    OutcomeAt(keywords, items, [], globals, [Bindings(items, globals)], path);
    assert [] + FramesAt(items, path, globals) == FramesAt(items, path, globals);
    assert [Bindings(items, globals)] + FinalsAt(items, path, globals)[1..] == FinalsAt(items, path, globals);
  }

  /** The innermost scope that has declared the name by then decides, with its first declaration. */
  lemma DeclaredBefore(keywords: set<Name>, items: seq<Item>, globals: Frame, path: seq<nat>, d: nat, i: nat)
    requires IsSite(items, path) && ItemAt(items, path).Reference? && ItemAt(items, path).ref.name !in keywords
    requires d < |path| && i < path[d] && IsFirst(ScopeAt(items, path, d), i, ItemAt(items, path).ref.name)
    requires d == 0 ==> ItemAt(items, path).ref.name !in globals
    requires forall e | d < e < |path| :: NoneAmong(ScopeAt(items, path, e), path[e], ItemAt(items, path).ref.name)
    ensures Becomes(keywords, items, globals, ItemAt(items, path).ref, Registered(ScopeAt(items, path, d)[i].variable))
  {
    hide Becomes, Bindings, FramesAt, FinalsAt, IsFirst, NoneAmong, ScopeAt, IsSite, ItemAt;
    var name := ItemAt(items, path).ref.name;
    var frames := FramesAt(items, path, globals);
    BecomesLookedUp(keywords, items, globals, path);
    FrameAt(items, path, globals, d);
    BoundFirst(ScopeAt(items, path, d), path[d], if d == 0 then globals else map[], i, name);
    forall e | d < e < |path|
      ensures name !in frames[e]
    {
      FrameAt(items, path, globals, e);
      NotBound(ScopeAt(items, path, e), path[e], map[], name);
    }
    FoundAt(frames, name, d);
  }

  /** A global name is found if no scope around the reference hides it by then. */
  lemma Global(keywords: set<Name>, items: seq<Item>, globals: Frame, path: seq<nat>)
    requires IsSite(items, path) && ItemAt(items, path).Reference? && ItemAt(items, path).ref.name !in keywords
    requires ItemAt(items, path).ref.name in globals
    requires forall e | 1 <= e < |path| :: NoneAmong(ScopeAt(items, path, e), path[e], ItemAt(items, path).ref.name)
    ensures Becomes(keywords, items, globals, ItemAt(items, path).ref, Registered(globals[ItemAt(items, path).ref.name]))
  {
    hide Becomes, Bindings, FramesAt, FinalsAt, NoneAmong, ScopeAt, IsSite, ItemAt;
    var name := ItemAt(items, path).ref.name;
    var frames := FramesAt(items, path, globals);
    SiteIndex(items, path);
    BecomesLookedUp(keywords, items, globals, path);
    FrameAt(items, path, globals, 0);
    BindingsMeaning(ScopeAt(items, path, 0)[..path[0]], globals, name);
    forall e | 1 <= e < |path|
      ensures name !in frames[e]
    {
      FrameAt(items, path, globals, e);
      NotBound(ScopeAt(items, path, e), path[e], map[], name);
    }
    FoundAt(frames, name, 0);
  }

  /** With no declaration before it, a reference means the innermost scope that declares the name at all. */
  lemma DeclaredLater(keywords: set<Name>, items: seq<Item>, globals: Frame, path: seq<nat>, d: nat, i: nat)
    requires IsSite(items, path) && ItemAt(items, path).Reference? && ItemAt(items, path).ref.name !in keywords
    requires ItemAt(items, path).ref.name !in globals
    requires forall e | 0 <= e < |path| :: NoneAmong(ScopeAt(items, path, e), path[e], ItemAt(items, path).ref.name)
    requires d < |path| && IsFirst(ScopeAt(items, path, d), i, ItemAt(items, path).ref.name)
    requires forall e | d < e < |path| :: NoneAmong(ScopeAt(items, path, e), |ScopeAt(items, path, e)|, ItemAt(items, path).ref.name)
    ensures Becomes(keywords, items, globals, ItemAt(items, path).ref, Registered(ScopeAt(items, path, d)[i].variable))
  {
    hide Becomes, Bindings, FramesAt, FinalsAt, NoneAmong, ScopeAt, IsSite, ItemAt;
    var name := ItemAt(items, path).ref.name;
    var finals := FinalsAt(items, path, globals);
    BecomesLookedUp(keywords, items, globals, path);
    NothingBefore(items, globals, path, name);
    FrameAt(items, path, globals, d);
    var scope := ScopeAt(items, path, d);
    assert scope[..|scope|] == scope;
    BoundFirst(scope, |scope|, if d == 0 then globals else map[], i, name);
    forall e | d < e < |path|
      ensures name !in finals[e]
    {
      NotBoundInTheEnd(items, globals, path, e, name);
    }
    FoundAt(finals, name, d);
  }

  lemma NothingBefore(items: seq<Item>, globals: Frame, path: seq<nat>, name: Name)
    requires IsSite(items, path) && name !in globals
    requires forall e | 0 <= e < |path| :: NoneAmong(ScopeAt(items, path, e), path[e], name)
    ensures Lookup(FramesAt(items, path, globals), name) == None
  {
    hide Bindings, FramesAt, NoneAmong, ScopeAt, IsSite;
    forall e | 0 <= e < |path|
      ensures name !in FramesAt(items, path, globals)[e]
    {
      FrameAt(items, path, globals, e);
      NotBound(ScopeAt(items, path, e), path[e], if e == 0 then globals else map[], name);
    }
    FoundNowhere(FramesAt(items, path, globals), name);
  }

  lemma NotBoundInTheEnd(items: seq<Item>, globals: Frame, path: seq<nat>, e: nat, name: Name)
    requires IsSite(items, path) && name !in globals && e < |path|
    requires NoneAmong(ScopeAt(items, path, e), |ScopeAt(items, path, e)|, name)
    ensures name !in FinalsAt(items, path, globals)[e]
  {
    hide Bindings, FinalsAt, NoneAmong, ScopeAt, IsSite;
    FrameAt(items, path, globals, e);
    var scope := ScopeAt(items, path, e);
    NotBound(scope, |scope|, if e == 0 then globals else map[], name);
    assert scope[..|scope|] == scope;
  }

  /** A name that is neither global nor declared in any scope around the reference is undefined. */
  lemma DeclaredNowhere(keywords: set<Name>, items: seq<Item>, globals: Frame, path: seq<nat>)
    requires IsSite(items, path) && ItemAt(items, path).Reference? && ItemAt(items, path).ref.name !in keywords
    requires ItemAt(items, path).ref.name !in globals
    requires forall e | 0 <= e < |path| :: NoneAmong(ScopeAt(items, path, e), |ScopeAt(items, path, e)|, ItemAt(items, path).ref.name)
    ensures Becomes(keywords, items, globals, ItemAt(items, path).ref, Undefined)
  {
    hide Becomes, Bindings, FramesAt, FinalsAt, ScopeAt, IsSite, ItemAt;
    var name := ItemAt(items, path).ref.name;
    BecomesLookedUp(keywords, items, globals, path);
    assert forall e | 0 <= e < |path| :: path[e] <= |ScopeAt(items, path, e)| by {
      forall e | 0 <= e < |path| ensures path[e] <= |ScopeAt(items, path, e)| {
        var _ := ScopeAt(items, path, e);
      }
    }
    hide NoneAmong;
    FewerAmong(items, path, name);
    NothingBefore(items, globals, path, name);
    forall e | 0 <= e < |path|
      ensures name !in FinalsAt(items, path, globals)[e]
    {
      NotBoundInTheEnd(items, globals, path, e, name);
    }
    FoundNowhere(FinalsAt(items, path, globals), name);
  }

  lemma FewerAmong(items: seq<Item>, path: seq<nat>, name: Name)
    requires IsSite(items, path)
    requires forall e | 0 <= e < |path| :: NoneAmong(ScopeAt(items, path, e), |ScopeAt(items, path, e)|, name)
    ensures forall e | 0 <= e < |path| :: NoneAmong(ScopeAt(items, path, e), path[e], name)
  {
    hide IsSite;
    forall e | 0 <= e < |path|
      ensures NoneAmong(ScopeAt(items, path, e), path[e], name)
    {
      assert NoneAmong(ScopeAt(items, path, e), |ScopeAt(items, path, e)|, name);
    }
  }

  /** What a run registered and reported is what becomes of the references. */
  lemma BecomesInRun(keywords: set<Name>, items: seq<Item>, globals: Frame, ref: Ref, outcome: Outcome,
                     registered: seq<(Ref, Variable)>, undefined: seq<Ref>)
    requires multiset(AsOutcomes(registered)) + multiset(AsUndefined(undefined))
          == multiset(Outcomes(keywords, items, [], globals, [Bindings(items, globals)]))
    requires Becomes(keywords, items, globals, ref, outcome)
    ensures match outcome
            case Registered(v) => (ref, v) in registered
            case Undefined => ref in undefined
  {
    hide Outcomes;
    assert (ref, outcome) in multiset(AsOutcomes(registered)) + multiset(AsUndefined(undefined));
    if (ref, outcome) in AsOutcomes(registered) {
      var k :| 0 <= k < |registered| && AsOutcomes(registered)[k] == (ref, outcome);
      assert registered[k] == (ref, registered[k].1);
    } else {
      assert (ref, outcome) in AsUndefined(undefined);
      var k :| 0 <= k < |undefined| && AsUndefined(undefined)[k] == (ref, outcome);
    }
  }

  /** Nothing else becomes of anything: every outcome is that of a reference in the program, and of no keyword. */
  lemma {:induction false} OutcomeHasSite(keywords: set<Name>, items: seq<Item>, outer: seq<Frame>, frame: Frame, finals: seq<Frame>,
                                          o: (Ref, Outcome)) returns (path: seq<nat>)
    requires o in Outcomes(keywords, items, outer, frame, finals)
    ensures IsSite(items, path) && ItemAt(items, path) == Reference(o.0) && o.0.name !in keywords
    decreases items
  {
    hide Bindings, ResolveWith, ScopeAt, NoneAmong;
    var n := |items| - 1;
    if o in Outcomes(keywords, items[..n], outer, frame, finals) {
      path := OutcomeHasSite(keywords, items[..n], outer, frame, finals, o);
      SiteOfMore(items, path, o.0.name);
    } else {
      var frames := outer + [Bindings(items[..n], frame)];
      assert o in OutcomesOf(keywords, items[n], frames, finals);
      match items[n]
      case Declare(_, _) =>
        path := [];
      case Reference(_) =>
        path := [n];
        LastSite(items);
      case Block(body) =>
        var inner := OutcomeHasSite(keywords, body, frames, map[], finals + [Bindings(body, map[])], o);
        path := [n] + inner;
        SiteInBlock(items, n, inner);
    }
  }

  lemma LastSite(items: seq<Item>)
    requires items != [] && !items[|items| - 1].Block?
    ensures IsSite(items, [|items| - 1]) && ItemAt(items, [|items| - 1]) == items[|items| - 1]
  {
  }

  // ----- Repeated declarations

  lemma {:induction false} RedeclaredHolds(items: seq<Item>, frame: Frame, i: nat, o: (Name, Variable))
    requires i < |items| && o in RedeclaredBy(items[i], Bindings(items[..i], frame))
    ensures o in Redeclared(items, frame)
  {
    hide RedeclaredBy, Bindings;
    var n := |items| - 1;
    if i < n {
      assert items[..n][..i] == items[..i];
      RedeclaredHolds(items[..n], frame, i, o);
    }
  }

  /** A declaration of a name its scope has declared before is reported, with the variable of the first. */
  lemma {:induction false} RepeatedDeclaration(items: seq<Item>, globals: Frame, path: seq<nat>, i: nat)
    requires IsSite(items, path) && ItemAt(items, path).Declare?
    requires ghost var d := |path| - 1;
             i < path[d] && IsFirst(ScopeAt(items, path, d), i, ItemAt(items, path).name)
    requires |path| == 1 ==> ItemAt(items, path).name !in globals
    ensures (ItemAt(items, path).name, ScopeAt(items, path, |path| - 1)[i].variable) in Redeclared(items, globals)
    decreases |path|
  {
    hide Redeclared, Bindings, IsSite, ScopeAt, ItemAt, IsFirst;
    SiteIndex(items, path);
    var scope := ScopeAt(items, path, |path| - 1);
    var name, k := ItemAt(items, path).name, path[0];
    FirstDeclares(scope, i, name);
    var v := scope[i].variable;
    if |path| == 1 {
      OneScope(items, path, globals);
      BoundFirst(items, k, globals, i, name);
      RedeclaredHolds(items, globals, k, (name, v));
    } else {
      StepIn(items, path, globals);
      RepeatedDeclaration(items[k].items, map[], path[1..], i);
      RedeclaredHolds(items, globals, k, (name, v));
    }
  }

  lemma FirstDeclares(scope: seq<Item>, i: nat, name: Name)
    requires IsFirst(scope, i, name)
    ensures i < |scope| && scope[i].Declare?
  {
  }

  /** Nothing else is reported: there is a declaration for it that comes second in its scope. */
  lemma {:induction false} ReportedDeclaration(items: seq<Item>, globals: Frame, o: (Name, Variable)) returns (path: seq<nat>)
    requires o in Redeclared(items, globals)
    ensures IsSite(items, path) && ItemAt(items, path).Declare? && ItemAt(items, path).name == o.0
    ensures ghost var d := |path| - 1;
            (d == 0 && o.0 in globals) || !NoneAmong(ScopeAt(items, path, d), path[d], o.0)
    decreases items
  {
    hide Bindings, ScopeAt, NoneAmong;
    var n := |items| - 1;
    if o in Redeclared(items[..n], globals) {
      path := ReportedDeclaration(items[..n], globals, o);
      SiteOfMore(items, path, o.0);
    } else {
      assert o in RedeclaredBy(items[n], Bindings(items[..n], globals));
      match items[n]
      case Declare(_, _) =>
        path := [n];
        SecondOfScope(items, globals, n);
      case Reference(_) =>
        path := [];
      case Block(body) =>
        var inner := ReportedDeclaration(body, map[], o);
        path := [n] + inner;
        SiteInBlock(items, n, inner);
    }
  }

  lemma SecondOfScope(items: seq<Item>, globals: Frame, n: nat)
    requires n < |items| && items[n].Declare? && items[n].name in Bindings(items[..n], globals)
    ensures IsSite(items, [n]) && ItemAt(items, [n]) == items[n] && ScopeAt(items, [n], 0) == items
    ensures items[n].name in globals || !NoneAmong(items, n, items[n].name)
  {
    if NoneAmong(items, n, items[n].name) {
      NotBound(items, n, globals, items[n].name);
    }
  }

  lemma SiteInBlock(items: seq<Item>, n: nat, inner: seq<nat>)
    requires n < |items| && items[n].Block? && IsSite(items[n].items, inner)
    ensures IsSite(items, [n] + inner) && ItemAt(items, [n] + inner) == ItemAt(items[n].items, inner)
    ensures ScopeAt(items, [n] + inner, |inner|) == ScopeAt(items[n].items, inner, |inner| - 1)
  {
    assert ([n] + inner)[1..] == inner;
  }

  /** A site stays where it is when one item is added at the end; only the outermost scope grows. */
  lemma SiteOfMore(items: seq<Item>, path: seq<nat>, name: Name)
    requires items != [] && IsSite(items[..|items| - 1], path)
    ensures IsSite(items, path) && ItemAt(items, path) == ItemAt(items[..|items| - 1], path)
    ensures ghost var d := |path| - 1;
            NoneAmong(ScopeAt(items, path, d), path[d], name) <==> NoneAmong(ScopeAt(items[..|items| - 1], path, d), path[d], name)
  {
    hide IsSite, ScopeAt, ItemAt, FramesAt, FinalsAt, Bindings;
    SameSite(items[..|items| - 1], items, path);
    if |path| == 1 {
      OneScope(items[..|items| - 1], path, map[]);
      OneScope(items, path, map[]);
    } else {
      StepIn(items[..|items| - 1], path, map[]);
      StepIn(items, path, map[]);
    }
  }

  lemma {:induction false} SameSite(items: seq<Item>, more: seq<Item>, path: seq<nat>)
    requires items <= more && IsSite(items, path)
    ensures IsSite(more, path) && path[0] < |items|
  {
  }
}
