/**
 How references find their variables. A program is a tree of declarations, references and
 blocks. `Outcomes` is the rule as a two-pass reader would apply it: it knows the final
 bindings of every enclosing scope. `ResolvedAfter` and `EscapingFrom` describe what a one-pass
 resolver has settled, and still owes, after visiting some items. `OnePassIsTwoPass` says
 that they agree.
 */
module ScopeRules {
  import opened Wrappers

  /** Interned names, and variables identified by the node that declares them. */
  type Name = int
  type Variable = int
  type Frame = map<Name, Variable>

  datatype Ref = Ref(name: Name, node: int)

  datatype Item =
    | Declare(name: Name, variable: Variable)
    | Reference(ref: Ref)
    | Block(items: seq<Item>)

  datatype Outcome =
    | Registered(variable: Variable)
    | Undefined

  // ----- Scopes

  /** The binding of `name` in the innermost frame that has one; the last frame is innermost. */
  function Lookup(frames: seq<Frame>, name: Name): Option<Variable> {
    if frames == [] then None
    else if name in frames[|frames| - 1] then Some(frames[|frames| - 1][name])
    else Lookup(frames[..|frames| - 1], name)
  }

  /** The frame that answers is the innermost of those that bind the name, if any does. */
  lemma {:induction false} LookupMeaning(frames: seq<Frame>, name: Name) returns (i: int)
    ensures -1 <= i < |frames|
    ensures forall j :: i < j < |frames| ==> name !in frames[j]
    ensures i == -1 ==> Lookup(frames, name) == None
    ensures i >= 0 ==> name in frames[i] && Lookup(frames, name) == Some(frames[i][name])
  {
    if frames == [] {
      i := -1;
    } else if name in frames[|frames| - 1] {
      i := |frames| - 1;
    } else {
      i := LookupMeaning(frames[..|frames| - 1], name);
    }
  }

  /** A declaration binds its name unless the scope has it already; nothing else binds. */
  function Bind(item: Item, frame: Frame): Frame {
    if item.Declare? && item.name !in frame then frame[item.name := item.variable] else frame
  }

  function Bindings(items: seq<Item>, frame: Frame): Frame {
    if items == [] then frame else Bind(items[|items| - 1], Bindings(items[..|items| - 1], frame))
  }

  /** The first declaration of a name in a scope counts. */
  lemma {:induction false} BindingsMeaning(items: seq<Item>, frame: Frame, name: Name)
    ensures name in Bindings(items, frame) <==>
            name in frame || exists i :: 0 <= i < |items| && items[i].Declare? && items[i].name == name
    ensures name in frame ==> Bindings(items, frame)[name] == frame[name]
    ensures forall i | 0 <= i < |items| && items[i].Declare? && items[i].name == name && name !in frame
                       && (forall j | 0 <= j < i :: !(items[j].Declare? && items[j].name == name)) ::
              Bindings(items, frame)[name] == items[i].variable
  {
    if items != [] {
      BindingsMeaning(items[..|items| - 1], frame, name);
    }
  }

  // ----- The two-pass rule

  /**
   What becomes of each reference in `items`, in order. `outer` and `frame` are what the
   enclosing scopes bind when `items` are reached, `finals` what they bind in the end.
   A reference means the innermost scope that binds its name already, or else the innermost
   that will. Keywords are not references.
   */
  function Outcomes(keywords: set<Name>, items: seq<Item>, outer: seq<Frame>, frame: Frame, finals: seq<Frame>)
    : seq<(Ref, Outcome)>
    decreases items
  {
    if items == [] then [] else
      var n := |items| - 1;
      Outcomes(keywords, items[..n], outer, frame, finals) +
      OutcomesOf(keywords, items[n], outer + [Bindings(items[..n], frame)], finals)
  }

  function OutcomesOf(keywords: set<Name>, item: Item, frames: seq<Frame>, finals: seq<Frame>): seq<(Ref, Outcome)>
    decreases item
  {
    match item
    case Declare(_, _) => []
    case Reference(ref) => if ref.name in keywords then [] else [(ref, ResolveWith(ref, frames, finals))]
    case Block(body) => Outcomes(keywords, body, frames, map[], finals + [Bindings(body, map[])])
  }

  function ResolveWith(ref: Ref, frames: seq<Frame>, finals: seq<Frame>): Outcome {
    match Lookup(frames, ref.name)
    case Some(v) => Registered(v)
    case None => ResolveFinally(ref, finals)
  }

  function ResolveFinally(ref: Ref, finals: seq<Frame>): Outcome {
    match Lookup(finals, ref.name)
    case Some(v) => Registered(v)
    case None => Undefined
  }

  /** All references in `items` and the blocks below. */
  function References(keywords: set<Name>, items: seq<Item>): seq<Ref>
    decreases items
  {
    if items == [] then [] else
      var n := |items| - 1;
      References(keywords, items[..n]) +
      match items[n]
      case Declare(_, _) => []
      case Reference(ref) => if ref.name in keywords then [] else [ref]
      case Block(body) => References(keywords, body)
  }

  function RefsOf(outcomes: seq<(Ref, Outcome)>): seq<Ref> {
    if outcomes == [] then [] else RefsOf(outcomes[..|outcomes| - 1]) + [outcomes[|outcomes| - 1].0]
  }

  lemma {:induction false} RefsOfConcat(a: seq<(Ref, Outcome)>, b: seq<(Ref, Outcome)>)
    ensures RefsOf(a + b) == RefsOf(a) + RefsOf(b)
  {
    if b == [] {
      assert a + b == a;
    } else {
      assert (a + b)[..|a + b| - 1] == a + b[..|b| - 1];
      RefsOfConcat(a, b[..|b| - 1]);
    }
  }

  /** Every reference has exactly one outcome. */
  lemma {:induction false} OneOutcomeEach(keywords: set<Name>, items: seq<Item>, outer: seq<Frame>, frame: Frame, finals: seq<Frame>)
    ensures RefsOf(Outcomes(keywords, items, outer, frame, finals)) == References(keywords, items)
    decreases items
  {
    if items != [] {
      var n := |items| - 1;
      var frames := outer + [Bindings(items[..n], frame)];
      OneOutcomeEach(keywords, items[..n], outer, frame, finals);
      RefsOfConcat(Outcomes(keywords, items[..n], outer, frame, finals), OutcomesOf(keywords, items[n], frames, finals));
      match items[n]
      case Declare(_, _) =>
      case Reference(ref) =>
      case Block(body) =>
        OneOutcomeEach(keywords, body, frames, map[], finals + [Bindings(body, map[])]);
    }
  }

  /** Reordered outcomes are about the same references. */
  lemma {:induction false} SameRefs(a: seq<(Ref, Outcome)>, b: seq<(Ref, Outcome)>)
    requires multiset(a) == multiset(b)
    ensures multiset(RefsOf(a)) == multiset(RefsOf(b))
  {
    if a == [] {
      assert |b| == |multiset(b)| == 0;
    } else {
      var x := a[|a| - 1];
      assert x in multiset(a);
      var j :| 0 <= j < |b| && b[j] == x;
      var b1, b2 := b[..j], b[j + 1..];
      assert a == a[..|a| - 1] + [x];
      assert b == (b1 + [x]) + b2;
      RemoveOne(a[..|a| - 1], b1, b2, x);
      SameRefs(a[..|a| - 1], b1 + b2);
      RefsOfConcat(a[..|a| - 1], [x]);
      RefsOfConcat(b1 + [x], b2);
      RefsOfConcat(b1, [x]);
      RefsOfConcat(b1, b2);
    }
  }

  lemma RemoveOne(a: seq<(Ref, Outcome)>, b1: seq<(Ref, Outcome)>, b2: seq<(Ref, Outcome)>, x: (Ref, Outcome))
    requires multiset(a + [x]) == multiset((b1 + [x]) + b2)
    ensures multiset(a) == multiset(b1 + b2)
  {
    assert multiset(a) == multiset(a + [x]) - multiset{x};
    assert multiset(b1 + b2) == multiset((b1 + [x]) + b2) - multiset{x};
  }

  // ----- The one-pass resolver

  /** The references among `refs` that `frame` binds, with their variables. */
  function Bound(refs: seq<Ref>, frame: Frame): seq<(Ref, Variable)> {
    if refs == [] then [] else
      var r := refs[|refs| - 1];
      var before := Bound(refs[..|refs| - 1], frame);
      if r.name in frame then before + [(r, frame[r.name])] else before
  }

  function Unbound(refs: seq<Ref>, frame: Frame): seq<Ref> {
    if refs == [] then [] else
      var r := refs[|refs| - 1];
      var before := Unbound(refs[..|refs| - 1], frame);
      if r.name in frame then before else before + [r]
  }

  lemma CloseNothing(refs: seq<Ref>, frame: Frame)
    ensures Bound(refs[..0], frame) == [] && Unbound(refs[..0], frame) == []
  {
  }

  lemma CloseOneMore(refs: seq<Ref>, i: nat, frame: Frame)
    requires i < |refs|
    ensures Bound(refs[..i + 1], frame) ==
            if refs[i].name in frame then Bound(refs[..i], frame) + [(refs[i], frame[refs[i].name])] else Bound(refs[..i], frame)
    ensures Unbound(refs[..i + 1], frame) ==
            if refs[i].name in frame then Unbound(refs[..i], frame) else Unbound(refs[..i], frame) + [refs[i]]
  {
    assert refs[..i + 1][..i] == refs[..i];
  }

  /** The references registered while `items` are visited. */
  function ResolvedAfter(keywords: set<Name>, items: seq<Item>, outer: seq<Frame>, frame: Frame): seq<(Ref, Variable)>
    decreases items
  {
    if items == [] then [] else
      var n := |items| - 1;
      ResolvedAfter(keywords, items[..n], outer, frame) +
      ResolvedBy(keywords, items[n], outer + [Bindings(items[..n], frame)])
  }

  function ResolvedBy(keywords: set<Name>, item: Item, frames: seq<Frame>): seq<(Ref, Variable)>
    decreases item
  {
    match item
    case Declare(_, _) => []
    case Reference(ref) =>
      if ref.name in keywords then [] else RegisterIfFound(ref, Lookup(frames, ref.name))
    case Block(body) =>
      ResolvedAfter(keywords, body, frames, map[]) +
      Bound(EscapingFrom(keywords, body, frames, map[]), Bindings(body, map[]))
  }

  function RegisterIfFound(ref: Ref, found: Option<Variable>): seq<(Ref, Variable)> {
    if found.Some? then [(ref, found.value)] else []
  }

  /** The declarations that repeat a name of their scope, with the variable that name keeps. */
  function Redeclared(items: seq<Item>, frame: Frame): seq<(Name, Variable)>
    decreases items
  {
    if items == [] then [] else
      var n := |items| - 1;
      Redeclared(items[..n], frame) + RedeclaredBy(items[n], Bindings(items[..n], frame))
  }

  function RedeclaredBy(item: Item, frame: Frame): seq<(Name, Variable)>
    decreases item
  {
    match item
    case Declare(name, _) => if name in frame then [(name, frame[name])] else []
    case Reference(_) => []
    case Block(body) => Redeclared(body, map[])
  }

  /** The references in `items` that are still without a variable after the visit. */
  function EscapingFrom(keywords: set<Name>, items: seq<Item>, outer: seq<Frame>, frame: Frame): seq<Ref>
    decreases items
  {
    if items == [] then [] else
      var n := |items| - 1;
      EscapingFrom(keywords, items[..n], outer, frame) +
      EscapingOf(keywords, items[n], outer + [Bindings(items[..n], frame)])
  }

  function EscapingOf(keywords: set<Name>, item: Item, frames: seq<Frame>): seq<Ref>
    decreases item
  {
    match item
    case Declare(_, _) => []
    case Reference(ref) => if ref.name in keywords || Lookup(frames, ref.name).Some? then [] else [ref]
    case Block(body) => Unbound(EscapingFrom(keywords, body, frames, map[]), Bindings(body, map[]))
  }

  // ----- They agree

  function AsOutcomes(resolved: seq<(Ref, Variable)>): (r: seq<(Ref, Outcome)>)
  {
    seq(|resolved|, i requires 0 <= i < |resolved| => (resolved[i].0, Registered(resolved[i].1)))
  }

  function FinalOutcomes(refs: seq<Ref>, finals: seq<Frame>): (r: seq<(Ref, Outcome)>)
  {
    seq(|refs|, i requires 0 <= i < |refs| => (refs[i], ResolveFinally(refs[i], finals)))
  }

  function AsUndefined(refs: seq<Ref>): seq<(Ref, Outcome)> {
    seq(|refs|, i requires 0 <= i < |refs| => (refs[i], Undefined))
  }

  lemma {:induction false} RefsOfUndefined(refs: seq<Ref>)
    ensures RefsOf(AsUndefined(refs)) == refs
  {
    if refs != [] {
      var n := |refs| - 1;
      assert AsUndefined(refs)[..n] == AsUndefined(refs[..n]);
      RefsOfUndefined(refs[..n]);
    }
  }

  lemma AsOutcomesConcat(a: seq<(Ref, Variable)>, b: seq<(Ref, Variable)>)
    ensures AsOutcomes(a + b) == AsOutcomes(a) + AsOutcomes(b)
  {
  }

  lemma FinalOutcomesConcat(a: seq<Ref>, b: seq<Ref>, finals: seq<Frame>)
    ensures FinalOutcomes(a + b, finals) == FinalOutcomes(a, finals) + FinalOutcomes(b, finals)
  {
  }

  /** Closing a scope splits what it owes into what it binds itself and what it passes outward. */
  lemma {:induction false} CloseSplits(refs: seq<Ref>, finals: seq<Frame>, frame: Frame)
    ensures multiset(FinalOutcomes(refs, finals + [frame]))
         == multiset(AsOutcomes(Bound(refs, frame))) + multiset(FinalOutcomes(Unbound(refs, frame), finals))
  {
    if refs != [] {
      var p, r := refs[..|refs| - 1], refs[|refs| - 1];
      CloseSplits(p, finals, frame);
      assert refs == p + [r];
      FinalOutcomesConcat(p, [r], finals + [frame]);
      assert (finals + [frame])[..|finals|] == finals;
      if r.name in frame {
        AsOutcomesConcat(Bound(p, frame), [(r, frame[r.name])]);
        assert FinalOutcomes([r], finals + [frame]) == AsOutcomes([(r, frame[r.name])]);
      } else {
        FinalOutcomesConcat(Unbound(p, frame), [r], finals);
        assert FinalOutcomes([r], finals + [frame]) == FinalOutcomes([r], finals);
      }
    }
  }

  /**
   What the one-pass resolver registers during the visit, and what the enclosing scopes make
   of the references that escape, is what the two-pass rule says, each reference once.
   */
  lemma {:induction false} OnePassIsTwoPass(keywords: set<Name>, items: seq<Item>, outer: seq<Frame>, frame: Frame, finals: seq<Frame>)
    ensures multiset(AsOutcomes(ResolvedAfter(keywords, items, outer, frame)))
          + multiset(FinalOutcomes(EscapingFrom(keywords, items, outer, frame), finals))
         == multiset(Outcomes(keywords, items, outer, frame, finals))
    decreases items
  {
    if items != [] {
      var n := |items| - 1;
      var frames := outer + [Bindings(items[..n], frame)];
      OnePassIsTwoPass(keywords, items[..n], outer, frame, finals);
      OnePassStep(keywords, items[n], frames, finals);
      AsOutcomesConcat(ResolvedAfter(keywords, items[..n], outer, frame), ResolvedBy(keywords, items[n], frames));
      FinalOutcomesConcat(EscapingFrom(keywords, items[..n], outer, frame), EscapingOf(keywords, items[n], frames), finals);
    }
  }

  lemma {:induction false} OnePassStep(keywords: set<Name>, item: Item, frames: seq<Frame>, finals: seq<Frame>)
    ensures multiset(AsOutcomes(ResolvedBy(keywords, item, frames)))
          + multiset(FinalOutcomes(EscapingOf(keywords, item, frames), finals))
         == multiset(OutcomesOf(keywords, item, frames, finals))
    decreases item
  {
    match item
    case Declare(_, _) =>
    case Reference(ref) =>
      if ref.name !in keywords {
        var found := Lookup(frames, ref.name);
        if found.Some? {
          assert AsOutcomes([(ref, found.value)]) == [(ref, ResolveWith(ref, frames, finals))];
        } else {
          assert FinalOutcomes([ref], finals) == [(ref, ResolveWith(ref, frames, finals))];
        }
      }
    case Block(body) =>
      var final := Bindings(body, map[]);
      var escaping := EscapingFrom(keywords, body, frames, map[]);
      OnePassIsTwoPass(keywords, body, frames, map[], finals + [final]);
      CloseSplits(escaping, finals, final);
      AsOutcomesConcat(ResolvedAfter(keywords, body, frames, map[]), Bound(escaping, final));
  }

  /** Closing the outermost scope settles the rest: bound there, or undefined. */
  lemma WholeRun(keywords: set<Name>, items: seq<Item>, globals: Frame, final: Frame, escaping: seq<Ref>)
    requires final == Bindings(items, globals)
    requires escaping == EscapingFrom(keywords, items, [], globals)
    ensures multiset(AsOutcomes(ResolvedAfter(keywords, items, [], globals) + Bound(escaping, final)))
          + multiset(AsUndefined(Unbound(escaping, final)))
         == multiset(Outcomes(keywords, items, [], globals, [final]))
  {
    OnePassIsTwoPass(keywords, items, [], globals, [final]);
    CloseSplits(escaping, [], final);
    assert [] + [final] == [final];
    AsOutcomesConcat(ResolvedAfter(keywords, items, [], globals), Bound(escaping, final));
    assert FinalOutcomes(Unbound(escaping, final), []) == AsUndefined(Unbound(escaping, final));
  }
}
