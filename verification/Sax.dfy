/** The event handler that dispatches the events of a JSON text to a tree of parsers, by a stack of
    parsers some of which may be missing. */
module Sax {
  import opened Wrappers
  import opened Dom

  /** The parsers of an application: what a call does to their common state, which parser it answers
      with, and whether a parser has recorded an error. Parsers are named by numbers. */
  datatype Parsers<!W(!new)> = Parsers(call: (W, nat, Event) -> (W, Option<nat>), failed: (W, nat) -> bool) {

    /** Pass an event to a parser, if there is one. */
    function Notify(w: W, p: Option<nat>, e: Event): (r: (W, Option<nat>)) {
      if p.None? then (w, None) else call(w, p.value, e)
    }

    /** The parser, if there is one, has recorded no error. */
    predicate Fine(w: W, p: Option<nat>) {
      p.None? || !failed(w, p.value)
    }

    /** A call can make no parser but the called one fail, and never takes an error back. */
    ghost predicate ErrorsStick() {
      forall w, p: nat, e, q: nat {:trigger failed(call(w, p, e).0, q)} ::
        && (failed(w, q) ==> failed(call(w, p, e).0, q))
        && (q != p && failed(call(w, p, e).0, q) ==> failed(w, q))
    }
  }

  /** `Rejected` stops the reader; `Underflow` would be a pop below the first entry. */
  datatype Outcome<W> =
    | Running(stack: seq<Option<nat>>, world: W)
    | Rejected(stack: seq<Option<nat>>, world: W)
    | Underflow

  function Top(stack: seq<Option<nat>>): (r: Option<nat>)
    requires stack != []
  {
    stack[|stack| - 1]
  }

  function Verdict<W(!new)>(ps: Parsers<W>, stack: seq<Option<nat>>, w: W): (r: Outcome<W>)
    requires stack != []
  {
    if ps.Fine(w, Top(stack)) then Running(stack, w) else Rejected(stack, w)
  }

  /** One event. Nulls reach no parser: the handler leaves them to its base class, which accepts them. */
  function Step<W(!new)>(ps: Parsers<W>, stack: seq<Option<nat>>, w: W, e: Event): (r: Outcome<W>) {
    if stack == [] then Underflow
    else match e
      case NullEvent => Running(stack, w)
      case StartObject => Verdict(ps, stack + [None], ps.Notify(w, Top(stack), e).0)
      case StartArray =>
        var (w', p) := ps.Notify(w, Top(stack), e);
        Verdict(ps, stack + [p], w')
      case Key(_, _) =>
        var below := stack[..|stack| - 1];
        if below == [] then Underflow
        else
          var (w', p) := ps.Notify(w, Top(below), e);
          Verdict(ps, below + [p], w')
      case EndObject(_) => Close(ps, stack[..|stack| - 1], w, e)
      case EndArray(_) => Close(ps, stack[..|stack| - 1], w, e)
      case _ => Verdict(ps, stack, ps.Notify(w, Top(stack), e).0)
  }

  function Close<W(!new)>(ps: Parsers<W>, stack: seq<Option<nat>>, w: W, e: Event): (r: Outcome<W>) {
    if stack == [] then Underflow else Verdict(ps, stack, ps.Notify(w, Top(stack), e).0)
  }

  function Run<W(!new)>(ps: Parsers<W>, stack: seq<Option<nat>>, w: W, events: seq<Event>): (r: Outcome<W>)
    decreases |events|
  {
    if events == [] then Running(stack, w)
    else
      var next := Step(ps, stack, w, events[0]);
      if next.Running? then Run(ps, next.stack, next.world, events[1..]) else next
  }

  lemma {:induction false} RunConcat<W(!new)>(
    ps: Parsers<W>, stack: seq<Option<nat>>, w: W, first: seq<Event>, second: seq<Event>)
    ensures Run(ps, stack, w, first + second)
         == var mid := Run(ps, stack, w, first);
            if mid.Running? then Run(ps, mid.stack, mid.world, second) else mid
    decreases |first|
  {
    if first == [] {
      assert first + second == second;
    } else {
      assert (first + second)[1..] == first[1..] + second;
      var next := Step(ps, stack, w, first[0]);
      if next.Running? {
        RunConcat(ps, next.stack, next.world, first[1..], second);
      }
    }
  }

  // ----- the reference: recursive descent, with no stack

  /** The state afterwards, and whether the value was accepted. */
  ghost function Descend<W(!new)>(ps: Parsers<W>, w: W, p: Option<nat>, v: Value): (r: (W, bool))
    decreases v
  {
    match v
    case Null => (w, true)
    case Object(members) =>
      var start := ps.Notify(w, p, StartObject).0;
      Finish(ps, DescendMembers(ps, start, p, members), p, EndObject(|members|))
    case Array(elements) =>
      var (start, q) := ps.Notify(w, p, StartArray);
      if !ps.Fine(start, q) then (start, false)
      else Finish(ps, DescendElements(ps, start, q, elements), p, EndArray(|elements|))
    case _ =>
      var w' := ps.Notify(w, p, Scalar(v)).0;
      (w', ps.Fine(w', p))
  }

  ghost function DescendElements<W(!new)>(ps: Parsers<W>, w: W, q: Option<nat>, elements: seq<Value>): (r: (W, bool))
    decreases elements
  {
    if elements == [] then (w, true)
    else
      var first := Descend(ps, w, q, elements[0]);
      if first.1 then DescendElements(ps, first.0, q, elements[1..]) else first
  }

  ghost function DescendMember<W(!new)>(ps: Parsers<W>, w: W, p: Option<nat>, m: Member): (r: (W, bool))
    decreases m
  {
    var (w', q) := ps.Notify(w, p, KeyEvent(m.name));
    if ps.Fine(w', q) then Descend(ps, w', q, m.value) else (w', false)
  }

  ghost function DescendMembers<W(!new)>(ps: Parsers<W>, w: W, p: Option<nat>, members: seq<Member>): (r: (W, bool))
    decreases members
  {
    if members == [] then (w, true)
    else
      var first := DescendMember(ps, w, p, members[0]);
      if first.1 then DescendMembers(ps, first.0, p, members[1..]) else first
  }

  ghost function Finish<W(!new)>(ps: Parsers<W>, body: (W, bool), p: Option<nat>, e: Event): (r: (W, bool)) {
    if !body.1 then body
    else
      var w' := ps.Notify(body.0, p, e).0;
      (w', ps.Fine(w', p))
  }

  function Scalar(v: Value): (e: Event)
    requires !v.Array? && !v.Object?
  {
    Events(v)[0]
  }

  /** A run does what a descent does: it is accepted when the descent is, leaves the stack as it was, and
      even when it stops early it has not touched the entries below. */
  ghost predicate Mirrors<W(!new)>(o: Outcome<W>, stack: seq<Option<nat>>, d: (W, bool)) {
    && !o.Underflow? && o.world == d.0 && o.Running? == d.1
    && (o.Running? ==> o.stack == stack)
    && stack <= o.stack
  }

  lemma {:induction false} RunOne<W(!new)>(ps: Parsers<W>, stack: seq<Option<nat>>, w: W, e: Event)
    ensures Run(ps, stack, w, [e]) == Step(ps, stack, w, e)
  {
    assert [e][1..] == [];
  }

  /** The stack machine is a recursive descent. */
  lemma {:induction false} RunIsDescent<W(!new)>(ps: Parsers<W>, stack: seq<Option<nat>>, w: W, v: Value)
    requires Built(v) && stack != []
    ensures Mirrors(Run(ps, stack, w, Events(v)), stack, Descend(ps, w, Top(stack), v))
    decreases v
  {
    match v
    case Object(members) =>
      ObjectIsDescent(ps, stack, w, members);
    case Array(elements) =>
      ArrayIsDescent(ps, stack, w, elements);
    case _ =>
      assert Events(v) == [Scalar(v)];
      RunOne(ps, stack, w, Scalar(v));
  }

  /** Popping the entry that the opening event pushed. */
  lemma {:induction false} CloseIsFinish<W(!new)>(
    ps: Parsers<W>, stack: seq<Option<nat>>, w: W, body: seq<Event>, inner: Option<nat>, d: (W, bool), close: Event)
    requires stack != [] && (close.EndObject? || close.EndArray?)
    requires var o := Run(ps, stack + [inner], w, body);
             && !o.Underflow? && o.world == d.0 && o.Running? == d.1 && stack <= o.stack
             && (o.Running? ==> |o.stack| == |stack| + 1)
    ensures Mirrors(Run(ps, stack + [inner], w, body + [close]), stack, Finish(ps, d, Top(stack), close))
  {
    RunConcat(ps, stack + [inner], w, body, [close]);
    var o := Run(ps, stack + [inner], w, body);
    if o.Running? {
      assert o.stack[..|o.stack| - 1] == stack;
      RunOne(ps, o.stack, o.world, close);
    }
  }

  lemma {:induction false} ArrayIsDescent<W(!new)>(ps: Parsers<W>, stack: seq<Option<nat>>, w: W, elements: seq<Value>)
    requires Built(Array(elements)) && stack != []
    ensures Mirrors(Run(ps, stack, w, Events(Array(elements))), stack, Descend(ps, w, Top(stack), Array(elements)))
    decreases elements, 1
  {
    var (start, q) := ps.Notify(w, Top(stack), StartArray);
    var body, close := ElementEvents(elements), EndArray(|elements|);
    assert Events(Array(elements)) == [StartArray] + (body + [close]);
    RunOne(ps, stack, w, StartArray);
    RunConcat(ps, stack, w, [StartArray], body + [close]);
    if ps.Fine(start, q) {
      ElementsAreDescent(ps, stack + [q], start, elements);
      CloseIsFinish(ps, stack, start, body, q, DescendElements(ps, start, q, elements), close);
    }
  }

  lemma {:induction false} ElementsAreDescent<W(
    !new)>(ps: Parsers<W>, stack: seq<Option<nat>>, w: W, elements: seq<Value>)
    requires stack != [] && forall i :: 0 <= i < |elements| ==> Built(elements[i])
    ensures Mirrors(Run(ps, stack, w, ElementEvents(elements)), stack, DescendElements(ps, w, Top(stack), elements))
    decreases elements, 0
  {
    if elements != [] {
      RunIsDescent(ps, stack, w, elements[0]);
      var d := Descend(ps, w, Top(stack), elements[0]);
      RunConcat(ps, stack, w, Events(elements[0]), ElementEvents(elements[1..]));
      if d.1 {
        ElementsAreDescent(ps, stack, d.0, elements[1..]);
      }
    }
  }

  lemma {:induction false} ObjectIsDescent<W(!new)>(ps: Parsers<W>, stack: seq<Option<nat>>, w: W, members: seq<Member>)
    requires Built(Object(members)) && stack != []
    ensures Mirrors(Run(ps, stack, w, Events(Object(members))), stack, Descend(ps, w, Top(stack), Object(members)))
    decreases members, 1
  {
    var start := ps.Notify(w, Top(stack), StartObject).0;
    var body, close := MemberEvents(members), EndObject(|members|);
    assert Events(Object(members)) == [StartObject] + (body + [close]);
    RunOne(ps, stack, w, StartObject);
    RunConcat(ps, stack, w, [StartObject], body + [close]);
    MembersAreDescent(ps, stack, start, None, members);
    CloseIsFinish(ps, stack, start, body, None, DescendMembers(ps, start, Top(stack), members), close);
  }

  /** While an object is open there is one more entry, for the parser of the current key. */
  ghost predicate MirrorsInside<W(!new)>(o: Outcome<W>, stack: seq<Option<nat>>, d: (W, bool)) {
    && !o.Underflow? && o.world == d.0 && o.Running? == d.1
    && (o.Running? ==> |o.stack| == |stack| + 1)
    && stack <= o.stack
  }

  lemma {:induction false} MembersAreDescent<W(!new)>(
    ps: Parsers<W>, stack: seq<Option<nat>>, w: W, slot: Option<nat>, members: seq<Member>)
    requires Built(Object(members)) && stack != []
    ensures MirrorsInside(
              Run(ps, stack + [slot], w, MemberEvents(members)), stack, DescendMembers(ps, w, Top(stack), members))
    decreases members, 0
  {
    if members != [] {
      var m := members[0];
      MemberIsDescent(ps, stack, w, slot, m);
      RunConcat(ps, stack + [slot], w, OneMember(m), MemberEvents(members[1..]));
      var o := Run(ps, stack + [slot], w, OneMember(m));
      if o.Running? {
        assert o.stack == stack + [Top(o.stack)];
        MembersAreDescent(ps, stack, o.world, Top(o.stack), members[1..]);
      }
    }
  }

  lemma {:induction false} MemberIsDescent<W(!new)>(
    ps: Parsers<W>, stack: seq<Option<nat>>, w: W, slot: Option<nat>, m: Member)
    requires m.name.Text? && Built(m.value) && stack != []
    ensures MirrorsInside(Run(ps, stack + [slot], w, OneMember(m)), stack, DescendMember(ps, w, Top(stack), m))
    decreases m, 0
  {
    var key := KeyEvent(m.name);
    var (w', q) := ps.Notify(w, Top(stack), key);
    assert (stack + [slot])[..|stack|] == stack;
    RunOne(ps, stack + [slot], w, key);
    RunConcat(ps, stack + [slot], w, [key], Events(m.value));
    if ps.Fine(w', q) {
      RunIsDescent(ps, stack + [q], w', m.value);
    }
  }

  // ----- what a descent promises

  /** No parser is called inside a value for which there is no parser, and the value is accepted. */
  lemma {:induction false} NothingCalledWithoutParser<W(!new)>(ps: Parsers<W>, w: W, v: Value)
    ensures Descend(ps, w, None, v) == (w, true)
    decreases v
  {
    match v
    case Object(members) => NothingCalledForMembers(ps, w, members);
    case Array(elements) => NothingCalledForElements(ps, w, elements);
    case _ =>
  }

  lemma {:induction false} NothingCalledForElements<W(!new)>(ps: Parsers<W>, w: W, elements: seq<Value>)
    ensures DescendElements(ps, w, None, elements) == (w, true)
    decreases elements
  {
    if elements != [] {
      NothingCalledWithoutParser(ps, w, elements[0]);
      NothingCalledForElements(ps, w, elements[1..]);
    }
  }

  lemma {:induction false} NothingCalledForMembers<W(!new)>(ps: Parsers<W>, w: W, members: seq<Member>)
    ensures DescendMembers(ps, w, None, members) == (w, true)
    decreases members
  {
    if members != [] {
      NothingCalledForMember(ps, w, members[0]);
      NothingCalledForMembers(ps, w, members[1..]);
    }
  }

  lemma {:induction false} NothingCalledForMember<W(!new)>(ps: Parsers<W>, w: W, m: Member)
    ensures DescendMember(ps, w, None, m) == (w, true)
    decreases m
  {
    NothingCalledWithoutParser(ps, w, m.value);
  }

  /** What every call keeps, a descent keeps. */
  ghost predicate CallsKeep<W(!new)>(ps: Parsers<W>, inv: W -> bool) {
    forall w, p: nat, e {:trigger ps.call(w, p, e)} :: inv(w) ==> inv(ps.call(w, p, e).0)
  }

  lemma {:induction false} DescentKeeps<W(!new)>(ps: Parsers<W>, inv: W -> bool, w: W, p: Option<nat>, v: Value)
    requires CallsKeep(ps, inv) && inv(w)
    ensures inv(Descend(ps, w, p, v).0)
    decreases v
  {
    match v
    case Object(members) =>
      MembersKeepInvariant(ps, inv, ps.Notify(w, p, StartObject).0, p, members);
    case Array(elements) =>
      var (start, q) := ps.Notify(w, p, StartArray);
      ElementsKeepInvariant(ps, inv, start, q, elements);
    case _ =>
  }

  lemma {:induction false} ElementsKeepInvariant<W(
    !new)>(ps: Parsers<W>, inv: W -> bool, w: W, q: Option<nat>, elements: seq<Value>)
    requires CallsKeep(ps, inv) && inv(w)
    ensures inv(DescendElements(ps, w, q, elements).0)
    decreases elements
  {
    if elements != [] {
      DescentKeeps(ps, inv, w, q, elements[0]);
      ElementsKeepInvariant(ps, inv, Descend(ps, w, q, elements[0]).0, q, elements[1..]);
    }
  }

  lemma {:induction false} MemberKeepsInvariant<W(
    !new)>(ps: Parsers<W>, inv: W -> bool, w: W, p: Option<nat>, m: Member)
    requires CallsKeep(ps, inv) && inv(w)
    ensures inv(DescendMember(ps, w, p, m).0)
    decreases m
  {
    var (w', q) := ps.Notify(w, p, KeyEvent(m.name));
    DescentKeeps(ps, inv, w', q, m.value);
  }

  lemma {:induction false} MembersKeepInvariant<W(
    !new)>(ps: Parsers<W>, inv: W -> bool, w: W, p: Option<nat>, members: seq<Member>)
    requires CallsKeep(ps, inv) && inv(w)
    ensures inv(DescendMembers(ps, w, p, members).0)
    decreases members
  {
    if members != [] {
      MemberKeepsInvariant(ps, inv, w, p, members[0]);
      MembersKeepInvariant(ps, inv, DescendMember(ps, w, p, members[0]).0, p, members[1..]);
    }
  }

  /** Errors that were there before are there afterwards. */
  ghost predicate Kept<W(!new)>(ps: Parsers<W>, w: W, w': W) {
    forall q: nat :: ps.failed(w, q) ==> ps.failed(w', q)
  }

  /** No parser has failed since, except perhaps one. */
  ghost predicate NoneSince<W(!new)>(ps: Parsers<W>, w: W, w': W, except: Option<nat>) {
    forall q: nat :: ps.failed(w', q) ==> ps.failed(w, q) || except == Some(q)
  }

  lemma CallKeeps<W(!new)>(ps: Parsers<W>, w: W, p: Option<nat>, e: Event)
    requires ps.ErrorsStick()
    ensures Kept(ps, w, ps.Notify(w, p, e).0) && NoneSince(ps, w, ps.Notify(w, p, e).0, p)
  {
    if p.Some? {
      assert ps.Notify(w, p, e).0 == ps.call(w, p.value, e).0;
    }
  }

  /** An accepted value has made no parser fail: each error, also one that is raised when an object or
      array starts, is reported at the latest when the value ends. */
  lemma {:induction false} AcceptedMeansNoError<W(!new)>(ps: Parsers<W>, w: W, p: Option<nat>, v: Value)
    requires ps.ErrorsStick()
    ensures Kept(ps, w, Descend(ps, w, p, v).0)
    ensures Descend(ps, w, p, v).1 ==> NoneSince(ps, w, Descend(ps, w, p, v).0, None)
    decreases v
  {
    match v
    case Null =>
    case Object(members) =>
      CallKeeps(ps, w, p, StartObject);
      var start := ps.Notify(w, p, StartObject).0;
      MembersKeep(ps, start, p, members);
      var d := DescendMembers(ps, start, p, members);
      CallKeeps(ps, d.0, p, EndObject(|members|));
    case Array(elements) =>
      CallKeeps(ps, w, p, StartArray);
      var (start, q) := ps.Notify(w, p, StartArray);
      ElementsKeep(ps, start, q, elements);
      var d := DescendElements(ps, start, q, elements);
      CallKeeps(ps, d.0, p, EndArray(|elements|));
    case _ =>
      CallKeeps(ps, w, p, Scalar(v));
  }

  lemma {:induction false} ElementsKeep<W(!new)>(ps: Parsers<W>, w: W, q: Option<nat>, elements: seq<Value>)
    requires ps.ErrorsStick()
    ensures Kept(ps, w, DescendElements(ps, w, q, elements).0)
    ensures DescendElements(ps, w, q, elements).1 ==> NoneSince(ps, w, DescendElements(ps, w, q, elements).0, None)
    decreases elements
  {
    if elements != [] {
      AcceptedMeansNoError(ps, w, q, elements[0]);
      ElementsKeep(ps, Descend(ps, w, q, elements[0]).0, q, elements[1..]);
    }
  }

  /** A key can make only the object's own parser fail. */
  lemma {:induction false} MemberKeeps<W(!new)>(ps: Parsers<W>, w: W, p: Option<nat>, m: Member)
    requires ps.ErrorsStick()
    ensures Kept(ps, w, DescendMember(ps, w, p, m).0)
    ensures DescendMember(ps, w, p, m).1 ==> NoneSince(ps, w, DescendMember(ps, w, p, m).0, p)
    decreases m
  {
    CallKeeps(ps, w, p, KeyEvent(m.name));
    var (w', q) := ps.Notify(w, p, KeyEvent(m.name));
    AcceptedMeansNoError(ps, w', q, m.value);
  }

  lemma {:induction false} MembersKeep<W(!new)>(ps: Parsers<W>, w: W, p: Option<nat>, members: seq<Member>)
    requires ps.ErrorsStick()
    ensures Kept(ps, w, DescendMembers(ps, w, p, members).0)
    ensures DescendMembers(ps, w, p, members).1 ==> NoneSince(ps, w, DescendMembers(ps, w, p, members).0, p)
    decreases members
  {
    if members != [] {
      MemberKeeps(ps, w, p, members[0]);
      MembersKeep(ps, DescendMember(ps, w, p, members[0]).0, p, members[1..]);
    }
  }

  /** A parser that has failed already accepts nothing but null. */
  lemma {:induction false} FailedAcceptsOnlyNull<W(!new)>(ps: Parsers<W>, w: W, p: nat, v: Value)
    requires ps.ErrorsStick() && ps.failed(w, p)
    ensures Descend(ps, w, Some(p), v).1 <==> v.Null?
  {
    AcceptedMeansNoError(ps, w, Some(p), v);
  }

  // ----- the handler

  class Handler<!W(!new)> {
    const parsers: Parsers<W>
    var stack: seq<Option<nat>>
    var world: W

    constructor (parsers: Parsers<W>, root: nat, world: W)
      ensures this.parsers == parsers && stack == [Some(root)] && this.world == world
    {
      this.parsers, this.world := parsers, world;
      stack := [Some(root)];
    }

    ghost function After(e: Event): (r: Outcome<W>)
      reads this
    {
      Step(parsers, stack, world, e)
    }

    ghost predicate Reached(o: Outcome<W>, ok: bool)
      reads this
    {
      o == if ok then Running(stack, world) else Rejected(stack, world)
    }

    method Pop()
      requires stack != []
      modifies this`stack
      ensures stack == old(stack)[..|old(stack)| - 1]
    {
      stack := stack[..|stack| - 1];
    }

    method CheckTopParser() returns (ok: bool)
      requires stack != []
      ensures ok == parsers.Fine(world, Top(stack))
    {
      ok := parsers.Fine(world, Top(stack));
    }

    method On(e: Event) returns (ok: bool)
      requires !After(e).Underflow?
      modifies this
      ensures Reached(old(After(e)), ok)
    {
      match e {
      case NullEvent =>
        return true;
      case StartObject =>
        world := parsers.Notify(world, Top(stack), e).0;
        stack := stack + [None];
      case StartArray =>
        var (w, p) := parsers.Notify(world, Top(stack), e);
        world, stack := w, stack + [p];
      case Key(_, _) =>
        Pop();
        var (w, p) := parsers.Notify(world, Top(stack), e);
        world, stack := w, stack + [p];
      case EndObject(_) =>
        Pop();
        world := parsers.Notify(world, Top(stack), e).0;
      case EndArray(_) =>
        Pop();
        world := parsers.Notify(world, Top(stack), e).0;
      case _ =>
        world := parsers.Notify(world, Top(stack), e).0;
      }
      ok := CheckTopParser();
    }

    /** Feed the events of a value until one is rejected. */
    method Parse(v: Value) returns (ok: bool)
      requires Built(v) && stack != []
      modifies this
      ensures (world, ok) == Descend(parsers, old(world), Top(old(stack)), v)
      ensures ok ==> stack == old(stack)
      ensures old(stack) <= stack
    {
      RunIsDescent(parsers, stack, world, v);
      var events := Events(v);
      ghost var outcome := Run(parsers, stack, world, events);
      var i := 0;
      ok := true;
      assert events[0..] == events;
      while ok && i < |events|
        invariant i <= |events|
        invariant outcome == if ok then Run(parsers, stack, world, events[i..]) else Rejected(stack, world)
      {
        assert events[i..][1..] == events[i + 1..];
        ok := On(events[i]);
        i := i + 1;
      }
    }
  }
}
