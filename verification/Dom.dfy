/** The document object model of the JSON library: values, the events by which a value is visited, and
    the document, which builds a value from events on a stack. */
module Dom {
  import opened Wrappers

  // ----- integers

  const TWO31: int := 0x8000_0000
  const TWO32: int := 0x1_0000_0000
  const TWO63: int := 0x8000_0000_0000_0000
  const TWO64: int := 0x1_0000_0000_0000_0000

  type Int32 = i: int | -TWO31 <= i < TWO31
  type Uint32 = i: int | 0 <= i < TWO32
  type Int64 = i: int | -TWO63 <= i < TWO63
  type Uint64 = i: int | 0 <= i < TWO64

  /** Which integer types a number can be read as. */
  datatype Flags = Flags(int32: bool, uint32: bool, int64: bool, uint64: bool)

  /** Some bit of the word from position k on is set, where `power` is the k-th power of two. */
  predicate HighBits(u: Uint64, power: int)
    requires power > 0
  {
    u / power != 0
  }

  /** The word that stores an integer in two's complement. */
  function WordOf(i: int): (u: Uint64) {
    i % TWO64
  }

  function FromInt(i: Int32): (v: Value) {
    Number(WordOf(i), if i >= 0 then Flags(true, true, true, true) else Flags(true, false, true, false))
  }

  function FromUint(u: Uint32): (v: Value) {
    Number(u, if HighBits(u, TWO31) then Flags(false, true, true, true) else Flags(true, true, true, true))
  }

  function FromInt64(i: Int64): (v: Value) {
    var word := WordOf(i);
    Number(word, if i >= 0 then Flags(!HighBits(word, TWO31), !HighBits(word, TWO32), true, true)
                 else Flags(i >= -TWO31, false, true, false))
  }

  function FromUint64(u: Uint64): (v: Value) {
    Number(u, Flags(!HighBits(u, TWO31), !HighBits(u, TWO32), !HighBits(u, TWO63), true))
  }

  /** The number for an integer, by its mathematical value alone. */
  ghost function Integer(i: int): (v: Value) {
    Number(WordOf(i), Flags(-TWO31 <= i < TWO31, 0 <= i < TWO32, -TWO63 <= i < TWO63, 0 <= i < TWO64))
  }

  /** Whatever constructor an integer comes through, its word and flags depend only on its value. */
  lemma ConstructorsAgree(i: int)
    ensures -TWO31 <= i < TWO31 ==> FromInt(i) == Integer(i)
    ensures 0 <= i < TWO32 ==> FromUint(i) == Integer(i)
    ensures -TWO63 <= i < TWO63 ==> FromInt64(i) == Integer(i)
    ensures 0 <= i < TWO64 ==> FromUint64(i) == Integer(i)
  {
  }

  /** Reading the low half or the whole word, signed or unsigned. */
  function SignedLow(u: Uint64): (i: Int32) {
    var low := u % TWO32;
    if low < TWO31 then low else low - TWO32
  }

  function Signed(u: Uint64): (i: Int64) {
    if u < TWO63 then u else u - TWO64
  }

  /** Every flag that is set names a type as which the integer is read back. */
  lemma FlagsAreExact(i: int)
    requires -TWO63 <= i < TWO64
    ensures Integer(i).flags.int32 ==> SignedLow(WordOf(i)) == i
    ensures Integer(i).flags.uint32 ==> WordOf(i) % TWO32 == i
    ensures Integer(i).flags.int64 ==> Signed(WordOf(i)) == i
    ensures Integer(i).flags.uint64 ==> WordOf(i) == i
    ensures Integer(i).flags.int64 || Integer(i).flags.uint64
  {
    if i < 0 {
      assert WordOf(i) == i + TWO64;
      assert (i + TWO64) % TWO32 == i % TWO32;
    } else {
      assert WordOf(i) == i;
    }
  }

  // ----- values

  /** A string refers to the caller's characters, or is copied to the heap, or is stored in the value. */
  datatype Storage = Constant | Copied | Inline

  datatype Value =
    | Null
    | Bool(b: bool)
    | Number(word: Uint64, flags: Flags)
    | Double(pattern: Uint64)
    | Text(chars: string, storage: Storage)
    | Array(elements: seq<Value>)
    | Object(members: seq<Member>)

  datatype Member = Member(name: Value, value: Value)

  /** The longest string that is stored in the value itself. */
  const MAX_SHORT: nat := 13

  function FromString(chars: string, copy: bool): (v: Value) {
    Text(chars, if !copy then Constant else if |chars| <= MAX_SHORT then Inline else Copied)
  }

  /** The bytes of a value that hold a short string: its characters, a zero, and in the last one how much
      shorter it is than the longest. The last two coincide for a string of the greatest length. */
  function Pack(payload: seq<char>, chars: string): (r: seq<char>)
    requires |chars| < |payload| < 256
  {
    var length := |payload| - 1 - |chars|;
    chars + [0 as char] + payload[|payload| - 1 := length as char][|chars| + 1..]
  }

  function Unpack(payload: seq<char>): (r: string)
    requires payload != [] && payload[|payload| - 1] as int < |payload|
  {
    payload[..|payload| - 1 - payload[|payload| - 1] as int]
  }

  /** A copied string is stored in the value exactly when it fits there with a terminator, and is read
      back from there with its length. */
  lemma {:induction false} ShortIsExact(chars: string, payload: seq<char>)
    requires |payload| == 14
    ensures FromString(chars, false).storage == Constant
    ensures FromString(chars, true).storage == if |chars| + 1 <= |payload| then Inline else Copied
    ensures FromString(chars, true).storage == Inline ==>
              var r := Pack(payload, chars);
              && |r| == |payload| && r[13] as int <= 13 && Unpack(r) == chars && r[|chars|] as int == 0
  {
  }

  /** What the typed constructors, and adding elements and members to such values, can build. */
  ghost predicate Built(v: Value)
    decreases v
  {
    match v
    case Null | Bool(_) | Double(_) => true
    case Number(_, _) =>
      || (exists i: Int32 :: v == FromInt(i)) || (exists i: Uint32 :: v == FromUint(i))
      || (exists i: Int64 :: v == FromInt64(i)) || (exists i: Uint64 :: v == FromUint64(i))
    case Text(chars, storage) => exists copy :: v == FromString(chars, copy)
    case Array(elements) => forall i :: 0 <= i < |elements| ==> Built(elements[i])
    case Object(members) =>
      forall i :: 0 <= i < |members| ==> members[i].name.Text? && Built(members[i].name) && Built(members[i].value)
  }

  // ----- events

  datatype Event =
    | NullEvent
    | BoolEvent(b: bool)
    | IntEvent(i: Int32)
    | UintEvent(u: Uint32)
    | Int64Event(i64: Int64)
    | Uint64Event(u64: Uint64)
    | DoubleEvent(pattern: Uint64)
    | StringEvent(chars: string, copy: bool)
    | StartObject
    | Key(chars: string, copy: bool)
    | EndObject(count: nat)
    | StartArray
    | EndArray(count: nat)

  function NumberEvent(word: Uint64, flags: Flags): (e: Event) {
    if flags.int32 then IntEvent(SignedLow(word))
    else if flags.uint32 then UintEvent(word % TWO32)
    else if flags.int64 then Int64Event(Signed(word))
    else Uint64Event(word)
  }

  /** The events by which a value is visited. */
  function Events(v: Value): (r: seq<Event>)
    decreases v
  {
    match v
    case Null => [NullEvent]
    case Bool(b) => [BoolEvent(b)]
    case Number(word, flags) => [NumberEvent(word, flags)]
    case Double(pattern) => [DoubleEvent(pattern)]
    case Text(chars, storage) => [StringEvent(chars, storage != Constant)]
    case Array(elements) => [StartArray] + ElementEvents(elements) + [EndArray(|elements|)]
    case Object(members) => [StartObject] + MemberEvents(members) + [EndObject(|members|)]
  }

  function ElementEvents(elements: seq<Value>): (r: seq<Event>)
    decreases elements
  {
    if elements == [] then [] else Events(elements[0]) + ElementEvents(elements[1..])
  }

  /** A name that is no string cannot be announced as a key. */
  function KeyEvent(name: Value): (e: Event) {
    if name.Text? then Key(name.chars, name.storage != Constant) else NullEvent
  }

  function OneMember(m: Member): (r: seq<Event>)
    decreases m
  {
    [KeyEvent(m.name)] + Events(m.value)
  }

  function MemberEvents(members: seq<Member>): (r: seq<Event>)
    decreases members
  {
    if members == [] then []
    else OneMember(members[0]) + MemberEvents(members[1..])
  }

  // ----- the document's stack

  /** Members are laid out on the stack as names and values in turn. */
  function Flatten(members: seq<Member>): (r: seq<Value>)
    ensures |r| == 2 * |members|
  {
    if members == [] then [] else [members[0].name, members[0].value] + Flatten(members[1..])
  }

  function PairUp(values: seq<Value>): (r: seq<Member>) {
    if |values| < 2 then [] else [Member(values[0], values[1])] + PairUp(values[2..])
  }

  lemma {:induction false} PairUpFlatten(members: seq<Member>)
    ensures PairUp(Flatten(members)) == members
  {
    if members != [] {
      assert Flatten(members)[2..] == Flatten(members[1..]);
      PairUpFlatten(members[1..]);
    }
  }

  /** The stack after an event; none when the event pops more than there is. */
  function Handle(stack: seq<Value>, e: Event): (r: Option<seq<Value>>) {
    match e
    case NullEvent => Some(stack + [Null])
    case BoolEvent(b) => Some(stack + [Bool(b)])
    case IntEvent(i) => Some(stack + [FromInt(i)])
    case UintEvent(u) => Some(stack + [FromUint(u)])
    case Int64Event(i) => Some(stack + [FromInt64(i)])
    case Uint64Event(u) => Some(stack + [FromUint64(u)])
    case DoubleEvent(pattern) => Some(stack + [Double(pattern)])
    case StringEvent(chars, copy) => Some(stack + [FromString(chars, copy)])
    case Key(chars, copy) => Some(stack + [FromString(chars, copy)])
    case StartObject => Some(stack + [Object([])])
    case StartArray => Some(stack + [Array([])])
    case EndObject(count) =>
      if |stack| <= 2 * count then None
      else
        var rest := |stack| - 2 * count;
        Some(stack[..rest - 1] + [Object(PairUp(stack[rest..]))])
    case EndArray(count) =>
      if |stack| <= count then None
      else
        var rest := |stack| - count;
        Some(stack[..rest - 1] + [Array(stack[rest..])])
  }

  function Replay(stack: seq<Value>, events: seq<Event>): (r: Option<seq<Value>>)
    decreases |events|
  {
    if events == [] then Some(stack)
    else
      var next := Handle(stack, events[0]);
      if next.None? then None else Replay(next.value, events[1..])
  }

  lemma {:induction false} ReplayConcat(stack: seq<Value>, first: seq<Event>, second: seq<Event>)
    ensures Replay(stack, first + second)
         == var mid := Replay(stack, first); if mid.None? then None else Replay(mid.value, second)
    decreases |first|
  {
    if first == [] {
      assert first + second == second;
    } else {
      assert (first + second)[1..] == first[1..] + second;
      var next := Handle(stack, first[0]);
      if next.Some? {
        ReplayConcat(next.value, first[1..], second);
      }
    }
  }

  // ----- the round trip

  lemma {:induction false} NumberIsRebuilt(v: Value, stack: seq<Value>)
    requires v.Number? && Built(v)
    ensures Handle(stack, NumberEvent(v.word, v.flags)) == Some(stack + [v])
  {
    var i := IntegerBehind(v);
    ConstructorsAgree(i);
    FlagsAreExact(i);
  }

  /** Which event announces an integer, by its mathematical value: the first of the four types it fits. */
  lemma {:induction false} IntegerEvent(i: int)
    requires -TWO63 <= i < TWO64
    ensures -TWO31 <= i < TWO31 ==> Events(Integer(i)) == [IntEvent(i)]
    ensures TWO31 <= i < TWO32 ==> Events(Integer(i)) == [UintEvent(i)]
    ensures -TWO63 <= i < -TWO31 || TWO32 <= i < TWO63 ==> Events(Integer(i)) == [Int64Event(i)]
    ensures TWO63 <= i ==> Events(Integer(i)) == [Uint64Event(i)]
  {
    FlagsAreExact(i);
  }

  lemma IntegerBehind(v: Value) returns (i: int)
    requires v.Number? && Built(v)
    ensures -TWO63 <= i < TWO64 && v == Integer(i)
  {
    if j: Int32 :| v == FromInt(j) {
      i := j;
    } else if j: Uint32 :| v == FromUint(j) {
      i := j;
    } else if j: Int64 :| v == FromInt64(j) {
      i := j;
    } else {
      var j: Uint64 :| v == FromUint64(j);
      i := j;
    }
    ConstructorsAgree(i);
  }

  /** Replaying the events of any value pushes exactly that value, whatever lies below. */
  lemma {:induction false} ReplayRebuilds(v: Value, stack: seq<Value>)
    requires Built(v)
    ensures Replay(stack, Events(v)) == Some(stack + [v])
    decreases v
  {
    match v
    case Number(word, flags) =>
      NumberIsRebuilt(v, stack);
      ReplayOne(stack, NumberEvent(word, flags));
    case Text(chars, storage) =>
      ReplayOne(stack, StringEvent(chars, storage != Constant));
    case Array(elements) =>
      ArrayRebuilds(elements, stack);
    case Object(members) =>
      ObjectRebuilds(members, stack);
    case Null => ReplayOne(stack, NullEvent);
    case Bool(b) => ReplayOne(stack, BoolEvent(b));
    case Double(pattern) => ReplayOne(stack, DoubleEvent(pattern));
  }

  lemma {:induction false} ReplayOne(stack: seq<Value>, e: Event)
    ensures Replay(stack, [e]) == Handle(stack, e)
  {
    assert [e][1..] == [];
  }

  /** An opening event, a body and a closing event. */
  lemma {:induction false} ReplayBracket(
    stack: seq<Value>, open: Event, body: seq<Event>, close: Event, mid: seq<Value>)
    requires Handle(stack, open).Some? && Replay(Handle(stack, open).value, body) == Some(mid)
    ensures Replay(stack, [open] + body + [close]) == Handle(mid, close)
  {
    ReplayOne(stack, open);
    ReplayConcat(stack, [open], body);
    ReplayConcat(stack, [open] + body, [close]);
    ReplayOne(mid, close);
  }

  lemma {:induction false} ArrayRebuilds(elements: seq<Value>, stack: seq<Value>)
    requires Built(Array(elements))
    ensures Replay(stack, Events(Array(elements))) == Some(stack + [Array(elements)])
    decreases elements, 1
  {
    var mid := stack + [Array([])] + elements;
    ElementsRebuild(elements, stack + [Array([])]);
    ReplayBracket(stack, StartArray, ElementEvents(elements), EndArray(|elements|), mid);
    assert mid[..|stack|] == stack && mid[|stack| + 1..] == elements;
  }

  lemma {:induction false} ElementsRebuild(elements: seq<Value>, stack: seq<Value>)
    requires forall i :: 0 <= i < |elements| ==> Built(elements[i])
    ensures Replay(stack, ElementEvents(elements)) == Some(stack + elements)
    decreases elements, 0
  {
    if elements == [] {
      assert stack + elements == stack;
    } else {
      ReplayRebuilds(elements[0], stack);
      ElementsRebuild(elements[1..], stack + [elements[0]]);
      ReplayConcat(stack, Events(elements[0]), ElementEvents(elements[1..]));
      assert stack + [elements[0]] + elements[1..] == stack + elements;
    }
  }

  lemma {:induction false} ObjectRebuilds(members: seq<Member>, stack: seq<Value>)
    requires Built(Object(members))
    ensures Replay(stack, Events(Object(members))) == Some(stack + [Object(members)])
    decreases members, 1
  {
    var mid := stack + [Object([])] + Flatten(members);
    MembersRebuild(members, stack + [Object([])]);
    ReplayBracket(stack, StartObject, MemberEvents(members), EndObject(|members|), mid);
    CloseObject(members, stack, mid);
  }

  lemma {:induction false} CloseObject(members: seq<Member>, stack: seq<Value>, mid: seq<Value>)
    requires mid == stack + [Object([])] + Flatten(members)
    ensures Handle(mid, EndObject(|members|)) == Some(stack + [Object(members)])
  {
    PairUpFlatten(members);
    assert mid[..|stack|] == stack && mid[|stack| + 1..] == Flatten(members);
  }

  lemma {:induction false} MembersRebuild(members: seq<Member>, stack: seq<Value>)
    requires Built(Object(members))
    ensures Replay(stack, MemberEvents(members)) == Some(stack + Flatten(members))
    decreases members, 0
  {
    if members == [] {
      assert stack + Flatten(members) == stack;
    } else {
      var name, value := members[0].name, members[0].value;
      var named := stack + [name];
      ReplayOne(stack, KeyEvent(name));
      ReplayRebuilds(value, named);
      ReplayConcat(stack, [KeyEvent(name)], Events(value));
      MembersRebuild(members[1..], named + [value]);
      ReplayConcat(stack, [KeyEvent(name)] + Events(value), MemberEvents(members[1..]));
      assert named + [value] + Flatten(members[1..]) == stack + Flatten(members);
    }
  }

  /** The events of a value determine it. */
  lemma {:induction false} EventsDetermine(v: Value, w: Value)
    requires Built(v) && Built(w) && Events(v) == Events(w)
    ensures v == w
  {
    ReplayRebuilds(v, []);
    ReplayRebuilds(w, []);
    assert ([] + [v])[0] == ([] + [w])[0];
  }

  // ----- the document

  class Document {
    var stack: seq<Value>
    var root: Value

    constructor ()
      ensures stack == [] && root == Null
    {
      stack, root := [], Null;
    }

    method Push(v: Value)
      modifies this`stack
      ensures stack == old(stack) + [v]
    {
      stack := stack + [v];
    }

    /** The topmost values become the members of the object below them. */
    method EndObject(count: nat)
      requires |stack| > 2 * count
      modifies this`stack
      ensures Some(stack) == Handle(old(stack), Event.EndObject(count))
    {
      var rest := |stack| - 2 * count;
      var members := PairUp(stack[rest..]);
      stack := stack[..rest];
      stack := stack[..|stack| - 1] + [Object(members)];
      assert old(stack)[..rest][..rest - 1] == old(stack)[..rest - 1];
    }

    method EndArray(count: nat)
      requires |stack| > count
      modifies this`stack
      ensures Some(stack) == Handle(old(stack), Event.EndArray(count))
    {
      var rest := |stack| - count;
      var elements := stack[rest..];
      stack := stack[..rest];
      stack := stack[..|stack| - 1] + [Array(elements)];
      assert old(stack)[..rest][..rest - 1] == old(stack)[..rest - 1];
    }

    method On(e: Event)
      requires Handle(stack, e).Some?
      modifies this`stack
      ensures Some(stack) == Handle(old(stack), e)
    {
      match e
      case NullEvent => Push(Null);
      case BoolEvent(b) => Push(Bool(b));
      case IntEvent(i) => Push(FromInt(i));
      case UintEvent(u) => Push(FromUint(u));
      case Int64Event(i) => Push(FromInt64(i));
      case Uint64Event(u) => Push(FromUint64(u));
      case DoubleEvent(pattern) => Push(Double(pattern));
      case StringEvent(chars, copy) => Push(FromString(chars, copy));
      case Key(chars, copy) => Push(FromString(chars, copy));
      case StartObject => Push(Object([]));
      case StartArray => Push(Array([]));
      case EndObject(count) => EndObject(count);
      case EndArray(count) => EndArray(count);
    }

    /** Copy a value into this document by its events: exactly one value is left on the stack, and it is
        the value that was visited. */
    method Populate(v: Value)
      requires Built(v) && stack == []
      modifies this
      ensures root == v && stack == []
    {
      ReplayRebuilds(v, []);
      var events := Events(v);
      var i := 0;
      assert events[0..] == events && [] + [v] == [v];
      while i < |events|
        invariant i <= |events| && Replay(stack, events[i..]) == Some([v])
      {
        On(events[i]);
        i := i + 1;
      }
      assert |stack| == 1;
      root := stack[0];
      stack := [];
    }
  }
}
