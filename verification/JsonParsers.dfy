/** The parsers that applications compose: objects, arrays, scalars, fixed-size number arrays (vectors,
    colours, matrices) and bounds. */
module JsonParsers {
  import opened Wrappers
  import opened Dom
  import opened Sax

  /** `Base` refuses every event. A `Numbers` parser fills up to `size` components; vectors and matrices
      are reset to their initial components when an array starts, colours are not. */
  datatype Kind =
    | Base
    | ObjectParser(parsers: map<string, nat>)
    | ArrayParser(element: nat)
    | NumberParser
    | StringParser
    | BoolParser
    | VariantParser
    | Numbers(size: nat, resets: bool)
    | BoundsParser(min: nat, max: nat)

  /** A component of a target as it was constructed, or as it was read from an event. */
  datatype Component = Initial | Read(e: Event)

  datatype State = State(kind: Kind, error: bool, target: seq<Component>, i: nat)

  type World = seq<State>

  function Failed(w: World, p: nat): (r: bool) {
    p < |w| && w[p].error
  }

  predicate IsNumber(e: Event) {
    e.IntEvent? || e.UintEvent? || e.Int64Event? || e.Uint64Event? || e.DoubleEvent?
  }

  /** The event of a scalar that a kind of parser overrides. */
  predicate Takes(k: Kind, e: Event) {
    match k
    case NumberParser | Numbers(_, _) => IsNumber(e)
    case StringParser => e.StringEvent?
    case BoolParser => e.BoolEvent?
    case VariantParser => IsNumber(e) || e.StringEvent? || e.BoolEvent?
    case _ => false
  }

  function Members(k: Kind): (r: map<string, nat>)
    requires k.ObjectParser? || k.BoundsParser?
  {
    if k.ObjectParser? then k.parsers else map["min" := k.min, "max" := k.max]
  }

  function Blank(n: nat): (r: seq<Component>) {
    seq(n, _ => Initial)
  }

  /** A number that a fixed-size parser receives; numbers beyond its size are dropped. */
  function Store(s: State, e: Event): (r: State)
    requires s.kind.Numbers?
  {
    if s.i < s.kind.size && s.i < |s.target| then s.(target := s.target[s.i := Read(e)], i := s.i + 1) else s
  }

  function Target(w: World, p: nat): (r: seq<Component>) {
    if p < |w| then w[p].target else []
  }

  /** A call of one parser. */
  function Call(w: World, p: nat, e: Event): (r: (World, Option<nat>)) {
    if p >= |w| then (w, None)
    else
      var s := w[p];
      var refused := w[p := s.(error := true)];
      match e
      case EndArray(_) => (w, None)
      case EndObject(_) =>
        if s.kind.BoundsParser? then (w[p := s.(target := Target(w, s.kind.min) + Target(w, s.kind.max))], None)
        else (w, None)
      case StartObject => (if s.kind.ObjectParser? || s.kind.BoundsParser? then w else refused, None)
      case Key(name, _) =>
        if s.kind.ObjectParser? || s.kind.BoundsParser? then
          (w, if name in Members(s.kind) then Some(Members(s.kind)[name]) else None)
        else (refused, None)
      case StartArray =>
        if s.kind.ArrayParser? then (w, Some(s.kind.element))
        else if s.kind.Numbers? then
          (w[p := s.(i := 0, target := if s.kind.resets then Blank(s.kind.size) else s.target)], Some(p))
        else (refused, None)
      case _ =>
        if !Takes(s.kind, e) then (refused, None)
        else if s.kind.Numbers? then (w[p := Store(s, e)], None)
        else (w[p := s.(target := [Read(e)])], None)
  }

  function Json(): (ps: Parsers<World>) {
    Parsers(Call, Failed)
  }

  lemma JsonErrorsStick()
    ensures Json().ErrorsStick()
  {
  }

  // ----- which values a tree of parsers accepts

  function Kinds(w: World): (r: seq<Kind>) {
    seq(|w|, i requires 0 <= i < |w| => w[i].kind)
  }

  ghost predicate Clean(w: World) {
    forall p: nat :: !Failed(w, p)
  }

  /** The parser for a member: none when its name is not registered. */
  function Registered(k: Kind, name: Value): (r: Option<nat>)
    requires k.ObjectParser? || k.BoundsParser?
  {
    if name.Text? && name.chars in Members(k) then Some(Members(k)[name.chars]) else None
  }

  /** The values that match the schema given by a parser and those it refers to. Nulls and values without
      a parser always do. */
  ghost predicate Conforms(kinds: seq<Kind>, p: Option<nat>, v: Value)
    decreases v
  {
    if p.None? || p.value >= |kinds| then true
    else
      var k := kinds[p.value];
      match v
      case Array(elements) =>
        && (k.ArrayParser? || k.Numbers?)
        && ElementsConform(kinds, if k.ArrayParser? then Some(k.element) else p, elements)
      case Object(members) =>
        (k.ObjectParser? || k.BoundsParser?) && MembersConform(kinds, k, members)
      case Null => true
      case Bool(_) | Number(_, _) | Double(_) | Text(_, _) => Suits(k, v)
  }

  /** The scalars that a kind of parser is for. */
  ghost predicate Suits(k: Kind, v: Value) {
    match k
    case NumberParser | Numbers(_, _) => v.Number? || v.Double?
    case StringParser => v.Text?
    case BoolParser => v.Bool?
    case VariantParser => v.Number? || v.Double? || v.Text? || v.Bool?
    case _ => false
  }

  ghost predicate ElementsConform(kinds: seq<Kind>, q: Option<nat>, elements: seq<Value>)
    decreases elements
  {
    elements == [] || (Conforms(kinds, q, elements[0]) && ElementsConform(kinds, q, elements[1..]))
  }

  ghost predicate MemberConforms(kinds: seq<Kind>, k: Kind, m: Member)
    requires k.ObjectParser? || k.BoundsParser?
    decreases m
  {
    Conforms(kinds, Registered(k, m.name), m.value)
  }

  ghost predicate MembersConform(kinds: seq<Kind>, k: Kind, members: seq<Member>)
    requires k.ObjectParser? || k.BoundsParser?
    decreases members
  {
    members == [] || (MemberConforms(kinds, k, members[0]) && MembersConform(kinds, k, members[1..]))
  }

  lemma KindsStay(kinds: seq<Kind>)
    ensures CallsKeep(Json(), (w: World) => Kinds(w) == kinds)
  {
    forall w, p: nat, e | Kinds(w) == kinds ensures Kinds(Call(w, p, e).0) == kinds {
      assert Kinds(Call(w, p, e).0) == Kinds(w);
    }
  }

  /** An accepted value leaves the parsers without errors and of the same kinds. */
  ghost predicate Ready(w: World, kinds: seq<Kind>) {
    Clean(w) && Kinds(w) == kinds
  }

  lemma {:induction false} AcceptedIsReady(w: World, p: Option<nat>, v: Value)
    requires Clean(w)
    ensures Descend(Json(), w, p, v).1 ==> Ready(Descend(Json(), w, p, v).0, Kinds(w))
  {
    JsonErrorsStick();
    KindsStay(Kinds(w));
    AcceptedMeansNoError(Json(), w, p, v);
    DescentKeeps(Json(), (x: World) => Kinds(x) == Kinds(w), w, p, v);
  }

  /** References lead to parsers. */
  ghost predicate Linked(kinds: seq<Kind>) {
    forall p :: 0 <= p < |kinds| ==>
      && (kinds[p].ArrayParser? ==> kinds[p].element < |kinds|)
      && (kinds[p].BoundsParser? ==> kinds[p].min < |kinds| && kinds[p].max < |kinds|)
      && (kinds[p].ObjectParser? ==> forall name :: name in kinds[p].parsers ==> kinds[p].parsers[name] < |kinds|)
  }

  ghost predicate Known(kinds: seq<Kind>, p: Option<nat>) {
    Linked(kinds) && (p.Some? ==> p.value < |kinds|)
  }

  /** A value is accepted exactly when it conforms to the schema. */
  lemma {:induction false} AcceptsExactly(w: World, p: Option<nat>, v: Value)
    requires Clean(w) && Built(v) && Known(Kinds(w), p)
    ensures Descend(Json(), w, p, v).1 <==> Conforms(Kinds(w), p, v)
    decreases v
  {
    if p.None? {
      NothingCalledWithoutParser(Json(), w, v);
    } else {
      match v
      case Array(elements) =>
        AcceptsArray(w, p.value, elements);
      case Object(members) =>
        AcceptsObject(w, p.value, members);
      case _ =>
        assert Kinds(w)[p.value] == w[p.value].kind;
        assert !Failed(w, p.value);
    }
  }

  lemma {:induction false} AcceptsArray(w: World, p: nat, elements: seq<Value>)
    requires Clean(w) && Built(Array(elements)) && Known(Kinds(w), Some(p))
    ensures Descend(Json(), w, Some(p), Array(elements)).1 <==> Conforms(Kinds(w), Some(p), Array(elements))
    decreases elements, 1
  {
    var (start, q) := Call(w, p, StartArray);
    assert Kinds(start) == Kinds(w);
    var k := w[p].kind;
    assert Kinds(w)[p] == k && !Failed(w, p);
    if k.ArrayParser? || k.Numbers? {
      forall x: nat ensures !Failed(start, x) {
        assert !Failed(w, x);
      }
      AcceptsElements(start, q, elements);
      ElementsReady(start, q, elements);
    } else {
      NothingCalledForElements(Json(), start, elements);
      assert Failed(start, p);
    }
  }

  lemma {:induction false} ElementsReady(w: World, q: Option<nat>, elements: seq<Value>)
    requires Clean(w)
    ensures DescendElements(Json(), w, q, elements).1 ==> Clean(DescendElements(Json(), w, q, elements).0)
  {
    JsonErrorsStick();
    ElementsKeep(Json(), w, q, elements);
  }

  lemma {:induction false} AcceptsElements(w: World, q: Option<nat>, elements: seq<Value>)
    requires Clean(w) && Known(Kinds(w), q) && forall i :: 0 <= i < |elements| ==> Built(elements[i])
    ensures DescendElements(Json(), w, q, elements).1 <==> ElementsConform(Kinds(w), q, elements)
    decreases elements, 0
  {
    if elements != [] {
      AcceptsExactly(w, q, elements[0]);
      AcceptedIsReady(w, q, elements[0]);
      var d := Descend(Json(), w, q, elements[0]);
      if d.1 {
        AcceptsElements(d.0, q, elements[1..]);
      }
    }
  }

  lemma {:induction false} AcceptsObject(w: World, p: nat, members: seq<Member>)
    requires Clean(w) && Built(Object(members)) && Known(Kinds(w), Some(p))
    ensures Descend(Json(), w, Some(p), Object(members)).1 <==> Conforms(Kinds(w), Some(p), Object(members))
    decreases members, 1
  {
    var start := Call(w, p, StartObject).0;
    var k := w[p].kind;
    assert Kinds(w)[p] == k && !Failed(w, p);
    JsonErrorsStick();
    MembersKeep(Json(), start, Some(p), members);
    if k.ObjectParser? || k.BoundsParser? {
      AcceptsMembers(w, p, members);
    } else {
      assert Failed(start, p);
    }
  }

  lemma {:induction false} AcceptsMembers(w: World, p: nat, members: seq<Member>)
    requires Clean(w) && Built(Object(members)) && Known(Kinds(w), Some(p))
    requires w[p].kind.ObjectParser? || w[p].kind.BoundsParser?
    ensures var d := DescendMembers(Json(), w, Some(p), members);
            && (d.1 <==> MembersConform(Kinds(w), w[p].kind, members))
            && (d.1 ==> Ready(d.0, Kinds(w)))
    decreases members, 0
  {
    if members != [] {
      AcceptsMember(w, p, members[0]);
      var d := DescendMember(Json(), w, Some(p), members[0]);
      if d.1 {
        assert Kinds(d.0)[p] == Kinds(w)[p];
        AcceptsMembers(d.0, p, members[1..]);
      }
    }
  }

  lemma {:induction false} AcceptsMember(w: World, p: nat, m: Member)
    requires Clean(w) && m.name.Text? && Built(m.value) && Known(Kinds(w), Some(p))
    requires w[p].kind.ObjectParser? || w[p].kind.BoundsParser?
    ensures var d := DescendMember(Json(), w, Some(p), m);
            && (d.1 <==> MemberConforms(Kinds(w), w[p].kind, m))
            && (d.1 ==> Ready(d.0, Kinds(w)))
    decreases m, 0
  {
    var q := Registered(w[p].kind, m.name);
    assert Kinds(w)[p] == w[p].kind;
    assert Call(w, p, KeyEvent(m.name)) == (w, q);
    AcceptsExactly(w, q, m.value);
    AcceptedIsReady(w, q, m.value);
  }

  // ----- what the fixed-size parsers read

  /** An array of numbers fills the components in order; numbers beyond the size are dropped, and missing
      ones leave the component as it was when the array started. */
  lemma {:induction false} NumbersAreRead(w: World, p: nat, elements: seq<Value>)
    requires p < |w| && w[p].kind.Numbers? && !w[p].error && |w[p].target| == w[p].kind.size
    requires forall i :: 0 <= i < |elements| ==> elements[i].Number? || elements[i].Double?
    ensures var s := w[p];
            var (w', ok) := Descend(Json(), w, Some(p), Array(elements));
            && ok && |w'| == |w| && (forall q :: 0 <= q < |w| && q != p ==> w'[q] == w[q])
            && |w'[p].target| == s.kind.size
            && forall i :: 0 <= i < s.kind.size ==>
                 w'[p].target[i] == if i < |elements| then Read(Scalar(elements[i]))
                                    else if s.kind.resets then Initial else s.target[i]
  {
    var start := Call(w, p, StartArray).0;
    ElementsAreRead(start, p, elements);
  }

  lemma {:induction false} ElementsAreRead(w: World, p: nat, elements: seq<Value>)
    requires p < |w| && w[p].kind.Numbers? && !w[p].error
    requires w[p].i <= |w[p].target| == w[p].kind.size
    requires forall i :: 0 <= i < |elements| ==> elements[i].Number? || elements[i].Double?
    ensures var s := w[p];
            var (w', ok) := DescendElements(Json(), w, Some(p), elements);
            && ok && |w'| == |w| && (forall q :: 0 <= q < |w| && q != p ==> w'[q] == w[q])
            && |w'[p].target| == s.kind.size && !w'[p].error
            && forall i :: 0 <= i < s.kind.size ==>
                 w'[p].target[i] == if s.i <= i < s.i + |elements| then Read(Scalar(elements[i - s.i])) else s.target[i]
    decreases |elements|
  {
    if elements != [] {
      var next := w[p := Store(w[p], Scalar(elements[0]))];
      assert Descend(Json(), w, Some(p), elements[0]) == (next, true);
      ElementsAreRead(next, p, elements[1..]);
    }
  }

  // ----- what the other parsers read

  /** A scalar that suits the parser is what its variable holds afterwards; any other makes it fail. No other
      parser changes. A fixed-size parser takes it as its next component, if there is one. */
  lemma {:induction false} ScalarIsRead(w: World, p: nat, v: Value)
    requires p < |w| && !w[p].error && (v.Bool? || v.Number? || v.Double? || v.Text?)
    ensures var s := w[p];
            Descend(Json(), w, Some(p), v) ==
            if !Suits(s.kind, v) then (w[p := s.(error := true)], false)
            else if !s.kind.Numbers? then (w[p := s.(target := [Read(Scalar(v))])], true)
            else if s.i < s.kind.size && s.i < |s.target| then
              (w[p := s.(target := s.target[s.i := Read(Scalar(v))], i := s.i + 1)], true)
            else (w, true)
  {
    assert w[p := w[p]] == w;
  }

  /** An array parser passes each element, in order, to its element parser, and changes nothing itself. */
  lemma {:induction false} ArrayIsRead(w: World, p: nat, elements: seq<Value>)
    requires Clean(w) && p < |w| && w[p].kind.ArrayParser?
    ensures Descend(Json(), w, Some(p), Array(elements))
         == DescendElements(Json(), w, Some(w[p].kind.element), elements)
  {
    assert Call(w, p, StartArray) == (w, Some(w[p].kind.element)) && !Failed(w, w[p].kind.element);
    ElementsReady(w, Some(w[p].kind.element), elements);
    var d := DescendElements(Json(), w, Some(w[p].kind.element), elements);
    assert d.1 ==> !Failed(d.0, p);
  }

  /** The parsers of a region refer to each other only. */
  ghost predicate Closed(w: World, region: set<nat>) {
    forall x :: x in region ==> x < |w| && RefersInto(w[x].kind, region)
  }

  ghost predicate RefersInto(k: Kind, region: set<nat>) {
    && (k.ArrayParser? ==> k.element in region)
    && (k.ObjectParser? || k.BoundsParser? ==> forall name :: name in Members(k) ==> Members(k)[name] in region)
    && (k.BoundsParser? ==> k.min in region && k.max in region)
  }

  ghost predicate Alike(v: World, w: World, region: set<nat>) {
    |v| == |w| && forall x :: x in region && x < |w| ==> v[x] == w[x]
  }

  /** A region is closed afterwards, and nothing outside it has changed. */
  ghost predicate StaysInside(w: World, w': World, region: set<nat>) {
    && Closed(w', region) && |w'| == |w|
    && forall x: nat :: x < |w| && x !in region ==> w'[x] == w[x]
  }

  ghost predicate SomeIn(p: Option<nat>, region: set<nat>) {
    p.Some? ==> p.value in region
  }

  /** What is read into a region depends on the region only, and changes nothing else. */
  ghost predicate Local(w: World, d: (World, bool), d': (World, bool), region: set<nat>) {
    d.1 == d'.1 && Alike(d.0, d'.0, region) && StaysInside(w, d.0, region)
  }

  lemma {:induction false} CallIsLocal(w: World, v: World, region: set<nat>, p: Option<nat>, e: Event)
    requires Alike(w, v, region) && Closed(w, region) && SomeIn(p, region)
    ensures var (w', q) := Json().Notify(w, p, e);
            var (v', q') := Json().Notify(v, p, e);
            && q == q' && Alike(w', v', region) && StaysInside(w, w', region) && SomeIn(q, region)
            && Json().Fine(w', p) == Json().Fine(v', p) && Json().Fine(w', q) == Json().Fine(v', q)
  {
    if p.Some? {
      assert RefersInto(w[p.value].kind, region);
      var w' := Call(w, p.value, e).0;
      assert |w'| == |w| && w' == w[p.value := w'[p.value]] && w'[p.value].kind == w[p.value].kind;
    }
  }

  lemma {:induction false} FinishIsLocal(
    w: World, d: (World, bool), d': (World, bool), region: set<nat>, p: Option<nat>, e: Event)
    requires Local(w, d, d', region) && SomeIn(p, region)
    ensures Local(w, Finish(Json(), d, p, e), Finish(Json(), d', p, e), region)
  {
    CallIsLocal(d.0, d'.0, region, p, e);
  }

  lemma {:induction false} DescentIsLocal(w: World, v: World, region: set<nat>, p: Option<nat>, value: Value)
    requires Alike(w, v, region) && Closed(w, region) && SomeIn(p, region)
    ensures Local(w, Descend(Json(), w, p, value), Descend(Json(), v, p, value), region)
    decreases value
  {
    match value
    case Null =>
    case Object(members) =>
      CallIsLocal(w, v, region, p, StartObject);
      var w', v' := Json().Notify(w, p, StartObject).0, Json().Notify(v, p, StartObject).0;
      MembersAreLocal(w', v', region, p, members);
      FinishIsLocal(w, DescendMembers(Json(), w', p, members), DescendMembers(Json(), v', p, members),
                    region, p, EndObject(|members|));
    case Array(elements) =>
      CallIsLocal(w, v, region, p, StartArray);
      var (w', q) := Json().Notify(w, p, StartArray);
      var v' := Json().Notify(v, p, StartArray).0;
      if Json().Fine(w', q) {
        ElementsAreLocal(w', v', region, q, elements);
        FinishIsLocal(w, DescendElements(Json(), w', q, elements), DescendElements(Json(), v', q, elements),
                      region, p, EndArray(|elements|));
      }
    case _ =>
      CallIsLocal(w, v, region, p, Scalar(value));
  }

  lemma {:induction false} ElementsAreLocal(
    w: World, v: World, region: set<nat>, q: Option<nat>, elements: seq<Value>)
    requires Alike(w, v, region) && Closed(w, region) && SomeIn(q, region)
    ensures Local(w, DescendElements(Json(), w, q, elements), DescendElements(Json(), v, q, elements), region)
    decreases elements
  {
    if elements != [] {
      DescentIsLocal(w, v, region, q, elements[0]);
      var d, d' := Descend(Json(), w, q, elements[0]), Descend(Json(), v, q, elements[0]);
      if d.1 {
        ElementsAreLocal(d.0, d'.0, region, q, elements[1..]);
      }
    }
  }

  lemma {:induction false} MemberIsLocal(w: World, v: World, region: set<nat>, p: Option<nat>, m: Member)
    requires Alike(w, v, region) && Closed(w, region) && SomeIn(p, region)
    ensures Local(w, DescendMember(Json(), w, p, m), DescendMember(Json(), v, p, m), region)
    decreases m
  {
    CallIsLocal(w, v, region, p, KeyEvent(m.name));
    var (w', q) := Json().Notify(w, p, KeyEvent(m.name));
    if Json().Fine(w', q) {
      DescentIsLocal(w', Json().Notify(v, p, KeyEvent(m.name)).0, region, q, m.value);
    }
  }

  lemma {:induction false} MembersAreLocal(w: World, v: World, region: set<nat>, p: Option<nat>, members: seq<Member>)
    requires Alike(w, v, region) && Closed(w, region) && SomeIn(p, region)
    ensures Local(w, DescendMembers(Json(), w, p, members), DescendMembers(Json(), v, p, members), region)
    decreases members
  {
    if members != [] {
      MemberIsLocal(w, v, region, p, members[0]);
      var d, d' := DescendMember(Json(), w, p, members[0]), DescendMember(Json(), v, p, members[0]);
      if d.1 {
        MembersAreLocal(d.0, d'.0, region, p, members[1..]);
      }
    }
  }

  /** Every registered name has a region of its own that holds its parser but not the object's. */
  ghost predicate Apart(w: World, p: nat, regions: map<string, set<nat>>) {
    && p < |w| && (w[p].kind.ObjectParser? || w[p].kind.BoundsParser?)
    && regions.Keys == Members(w[p].kind).Keys
    && (forall name :: name in regions ==>
          Closed(w, regions[name]) && Members(w[p].kind)[name] in regions[name] && p !in regions[name])
    && forall n, m {:trigger regions[n], regions[m]} ::
         n in regions && m in regions && n != m ==> regions[n] !! regions[m]
  }

  /** The names are strings, and no two are the same. */
  ghost predicate DistinctNames(members: seq<Member>) {
    && (forall i :: 0 <= i < |members| ==> members[i].name.Text?)
    && forall i, j :: 0 <= i < j < |members| ==> members[i].name.chars != members[j].name.chars
  }

  ghost predicate Names(members: seq<Member>, name: string) {
    exists i :: 0 <= i < |members| && members[i].name.Text? && members[i].name.chars == name
  }

  /** What reading the value of a member with its own parser, if it has one, would give. */
  ghost function Alone(w: World, p: nat, m: Member): (d: (World, bool))
    requires p < |w| && (w[p].kind.ObjectParser? || w[p].kind.BoundsParser?)
  {
    Descend(Json(), w, Registered(w[p].kind, m.name), m.value)
  }

  /** The region of a member, if it is registered, is as if the object had no other member. */
  ghost predicate IsRead(w: World, w': World, p: nat, regions: map<string, set<nat>>, m: Member)
    requires Apart(w, p, regions)
  {
    m.name.Text? && m.name.chars in regions ==> Alike(w', Alone(w, p, m).0, regions[m.name.chars])
  }

  /** Nothing has changed outside the regions of the names that occur. */
  ghost predicate OthersStay(w: World, w': World, regions: map<string, set<nat>>, members: seq<Member>) {
    && |w'| == |w|
    && forall x: nat :: x < |w| && (forall name :: name in regions && Names(members, name) ==> x !in regions[name]) ==>
         w'[x] == w[x]
  }

  lemma {:induction false} FirstIsRead(w: World, p: nat, m: Member, regions: map<string, set<nat>>)
    requires Clean(w) && Apart(w, p, regions) && m.name.Text?
    ensures var d := DescendMember(Json(), w, Some(p), m);
            && d == Alone(w, p, m)
            && (d.1 ==> Clean(d.0) && Apart(d.0, p, regions) && d.0[p] == w[p] && OthersStay(w, d.0, regions, [m]))
  {
    var q := Registered(w[p].kind, m.name);
    assert Call(w, p, KeyEvent(m.name)) == (w, q);
    var d := Alone(w, p, m);
    AcceptedIsReady(w, q, m.value);
    assert [m][0] == m && Names([m], m.name.chars);
    if q.None? {
      NothingCalledWithoutParser(Json(), w, m.value);
    } else {
      var region := regions[m.name.chars];
      DescentIsLocal(w, w, region, q, m.value);
      forall name | name in regions ensures Closed(d.0, regions[name]) {
      }
    }
  }

  /** Reading one member does not change what another one gives. */
  lemma {:induction false} ReadingsCommute(w: World, w': World, p: nat, m: Member, regions: map<string, set<nat>>)
    requires Apart(w, p, regions) && Apart(w', p, regions) && w'[p] == w[p] && m.name.Text?
    requires m.name.chars in regions ==> Alike(w, w', regions[m.name.chars])
    ensures Alone(w, p, m).1 == Alone(w', p, m).1
    ensures m.name.chars in regions ==> Alike(Alone(w, p, m).0, Alone(w', p, m).0, regions[m.name.chars])
  {
    var q := Registered(w[p].kind, m.name);
    if q.None? {
      NothingCalledWithoutParser(Json(), w, m.value);
      NothingCalledWithoutParser(Json(), w', m.value);
    } else {
      DescentIsLocal(w, w', regions[m.name.chars], q, m.value);
    }
  }

  /** Each registered member of an object reaches exactly its own parser and those that one refers to: the
      object is accepted exactly when each member alone would be, and then each is read as if it was alone. */
  lemma {:induction false} MembersAreRead(w: World, p: nat, members: seq<Member>, regions: map<string, set<nat>>)
    requires Clean(w) && Apart(w, p, regions) && DistinctNames(members)
    ensures var d := DescendMembers(Json(), w, Some(p), members);
            && (d.1 <==> forall i :: 0 <= i < |members| ==> Alone(w, p, members[i]).1)
            && (d.1 ==> Clean(d.0) && OthersStay(w, d.0, regions, members) && d.0[p] == w[p])
            && (d.1 ==> forall i :: 0 <= i < |members| ==> IsRead(w, d.0, p, regions, members[i]))
    decreases |members|
  {
    if members != [] {
      var m, rest := members[0], members[1..];
      FirstIsRead(w, p, m, regions);
      var first := DescendMember(Json(), w, Some(p), m);
      if first.1 {
        MembersAreRead(first.0, p, rest, regions);
        RestIsRead(w, first.0, DescendMembers(Json(), first.0, Some(p), rest), p, members, regions);
      }
    }
  }

  /** From the members behind the first to all of them. */
  lemma {:induction false} RestIsRead(
    w: World, w': World, d: (World, bool), p: nat, members: seq<Member>, regions: map<string, set<nat>>)
    requires Apart(w, p, regions) && Apart(w', p, regions) && w'[p] == w[p] && DistinctNames(members) && members != []
    requires Alone(w, p, members[0]) == (w', true) && OthersStay(w, w', regions, [members[0]])
    requires d.1 <==> forall i :: 0 <= i < |members[1..]| ==> Alone(w', p, members[1..][i]).1
    requires d.1 ==> OthersStay(w', d.0, regions, members[1..]) && d.0[p] == w'[p]
    requires d.1 ==> forall i :: 0 <= i < |members[1..]| ==> IsRead(w', d.0, p, regions, members[1..][i])
    ensures d.1 <==> forall i :: 0 <= i < |members| ==> Alone(w, p, members[i]).1
    ensures d.1 ==> OthersStay(w, d.0, regions, members)
    ensures d.1 ==> forall i :: 0 <= i < |members| ==> IsRead(w, d.0, p, regions, members[i])
  {
    var rest := members[1..];
    forall i | 1 <= i < |members|
      ensures Alone(w, p, members[i]).1 == Alone(w', p, rest[i - 1]).1
      ensures d.1 ==> IsRead(w, d.0, p, regions, members[i])
    {
      var m := members[i];
      assert m == rest[i - 1] && m.name.chars != members[0].name.chars;
      if m.name.chars in regions {
        UntouchedRegion(w, w', regions, [members[0]], m.name.chars);
      }
      ReadingsCommute(w, w', p, m, regions);
    }
    if d.1 {
      if members[0].name.chars in regions {
        UntouchedRegion(w', d.0, regions, rest, members[0].name.chars);
      }
      forall x: nat | x < |w| && (forall name :: name in regions && Names(members, name) ==> x !in regions[name])
        ensures d.0[x] == w[x]
      {
        forall name | name in regions && (Names([members[0]], name) || Names(rest, name)) ensures x !in regions[name] {
          NamesOfRest(members, name);
        }
      }
    }
  }

  lemma NamesOfRest(members: seq<Member>, name: string)
    requires members != []
    ensures Names(members, name) <==> Names([members[0]], name) || Names(members[1..], name)
  {
    if Names([members[0]], name) {
      assert members[0].name.chars == name;
    }
    if Names(members[1..], name) {
      var i :| 0 <= i < |members[1..]| && members[1..][i].name.Text? && members[1..][i].name.chars == name;
      assert members[i + 1].name.chars == name;
    }
    if Names(members, name) {
      var i :| 0 <= i < |members| && members[i].name.Text? && members[i].name.chars == name;
      assert i == 0 || members[1..][i - 1] == members[i];
      assert i == 0 ==> [members[0]][0].name.chars == name;
    }
  }

  /** The region of a name that does not occur. */
  lemma UntouchedRegion(w: World, w': World, regions: map<string, set<nat>>, members: seq<Member>, name: string)
    requires OthersStay(w, w', regions, members) && name in regions && !Names(members, name)
    requires forall n, m {:trigger regions[n], regions[m]} ::
               n in regions && m in regions && n != m ==> regions[n] !! regions[m]
    ensures Alike(w, w', regions[name])
  {
    forall x | x in regions[name] && x < |w| ensures w'[x] == w[x] {
      forall other | other in regions && Names(members, other) ensures x !in regions[other] {
        assert other != name;
      }
    }
  }

  /** A whole object. The parser of bounds ends with what its two parsers hold, the others as they were. */
  lemma {:induction false} ObjectIsRead(w: World, p: nat, members: seq<Member>, regions: map<string, set<nat>>)
    requires Clean(w) && Apart(w, p, regions) && DistinctNames(members)
    ensures var (w', ok) := Descend(Json(), w, Some(p), Object(members));
            && (ok <==> forall i :: 0 <= i < |members| ==> Alone(w, p, members[i]).1)
            && (ok ==> |w'| == |w| && forall i :: 0 <= i < |members| ==> IsRead(w, w', p, regions, members[i]))
            && (ok ==> w'[p] == if w[p].kind.BoundsParser?
                                then w[p].(target := Target(w', w[p].kind.min) + Target(w', w[p].kind.max))
                                else w[p])
            && (ok ==> OthersStay(w, w'[p := w[p]], regions, members))
  {
    MembersAreRead(w, p, members, regions);
    var d := DescendMembers(Json(), w, Some(p), members);
    assert Call(w, p, StartObject).0 == w && !Failed(w, p);
    if d.1 {
      var k := w[p].kind;
      var w' := Call(d.0, p, EndObject(|members|)).0;
      if k.BoundsParser? {
        assert regions.Keys == {"min", "max"};
        assert k.min in regions["min"] && k.max in regions["max"];
      }
      assert w'[p := w[p]] == d.0;
      forall i | 0 <= i < |members| ensures IsRead(w, w', p, regions, members[i]) {
        assert IsRead(w, d.0, p, regions, members[i]);
      }
    }
  }

  /** The coordinates that an array of numbers gives; missing ones are as they were constructed. */
  function Coordinates(numbers: seq<Value>): (r: seq<Component>)
    requires forall i :: 0 <= i < |numbers| ==> numbers[i].Number? || numbers[i].Double?
  {
    seq(3, i requires 0 <= i < 3 => if i < |numbers| then Read(Scalar(numbers[i])) else Initial)
  }

  /** The parsers of bounds as they are constructed: two parsers of vectors of its own. */
  ghost predicate BoundsAt(w: World, p: nat) {
    && p < |w| && w[p].kind.BoundsParser?
    && var (min, max) := (w[p].kind.min, w[p].kind.max);
       && min < |w| && max < |w| && p != min && p != max && min != max
       && w[min].kind == w[max].kind == Numbers(3, true) && |w[min].target| == |w[max].target| == 3
  }

  ghost predicate HasNumbers(m: Member, name: string, numbers: seq<Value>) {
    && m.name.Text? && m.name.chars == name && m.value == Array(numbers)
    && forall i :: 0 <= i < |numbers| ==> numbers[i].Number? || numbers[i].Double?
  }

  /** An object with two arrays of numbers, "min" and "max", among members of any other names, is accepted
      as bounds: the coordinates of "min" followed by those of "max". */
  lemma {:induction false} BoundsAreRead(
    w: World, p: nat, members: seq<Member>, i: nat, j: nat, a: seq<Value>, b: seq<Value>)
    requires Clean(w) && BoundsAt(w, p) && DistinctNames(members) && i < |members| && j < |members|
    requires HasNumbers(members[i], "min", a) && HasNumbers(members[j], "max", b)
    ensures var (w', ok) := Descend(Json(), w, Some(p), Object(members));
            ok && |w'| == |w| && w'[p] == w[p].(target := Coordinates(a) + Coordinates(b))
  {
    var min, max := w[p].kind.min, w[p].kind.max;
    var regions := map["min" := {min}, "max" := {max}];
    assert Apart(w, p, regions);
    ObjectIsRead(w, p, members, regions);
    VectorIsRead(w, min, a);
    VectorIsRead(w, max, b);
    forall k | 0 <= k < |members| ensures Alone(w, p, members[k]).1 {
      if k != i && k != j {
        NothingCalledWithoutParser(Json(), w, members[k].value);
      }
    }
    var w' := Descend(Json(), w, Some(p), Object(members)).0;
    assert IsRead(w, w', p, regions, members[i]) && IsRead(w, w', p, regions, members[j]);
  }

  lemma {:induction false} VectorIsRead(w: World, p: nat, numbers: seq<Value>)
    requires Clean(w) && p < |w| && w[p].kind == Numbers(3, true) && |w[p].target| == 3
    requires forall i :: 0 <= i < |numbers| ==> numbers[i].Number? || numbers[i].Double?
    ensures var (w', ok) := Descend(Json(), w, Some(p), Array(numbers));
            ok && |w'| == |w| && w'[p].target == Coordinates(numbers)
  {
    assert !Failed(w, p);
    NumbersAreRead(w, p, numbers);
  }
}
