/** The members of a JSON object in the layout with an index: an array of members, a multimap from names
    to positions, and for each position the iterator of its entry in the multimap. */
module MembersMap {
  import opened Dom

  /** An entry of the multimap. Entries keep their identity, a number, while they are in the map. */
  datatype Entry = Entry(name: string, position: nat)

  function NameOf(m: Member): (name: string)
    ensures m.name.Text? ==> name == m.name.chars
  {
    if m.name.Text? then m.name.chars else ""
  }

  /** There is exactly one entry per member, and the i-th iterator leads to the entry for member i. */
  ghost predicate Exact(members: seq<Member>, iterators: seq<nat>, size: nat, index: map<nat, Entry>) {
    && size <= |members| == |iterators|
    && (forall i :: 0 <= i < size ==> iterators[i] in index && index[iterators[i]] == Entry(NameOf(members[i]), i))
    && forall id :: id in index ==> index[id].position < size && iterators[index[id].position] == id
  }

  /** The first member with a name, or the number of members. */
  function FirstNamed(members: seq<Member>, name: string): (r: nat)
    ensures r <= |members|
  {
    if members == [] || NameOf(members[0]) == name then 0 else 1 + FirstNamed(members[1..], name)
  }

  ghost predicate UniqueNames(members: seq<Member>) {
    forall i, j :: 0 <= i < j < |members| ==> NameOf(members[i]) != NameOf(members[j])
  }

  lemma {:induction false} FirstNamedIsFirst(members: seq<Member>, name: string)
    ensures var r := FirstNamed(members, name);
            && (r < |members| ==> NameOf(members[r]) == name)
            && forall i :: 0 <= i < r ==> NameOf(members[i]) != name
  {
    if members != [] && NameOf(members[0]) != name {
      FirstNamedIsFirst(members[1..], name);
      forall i | 0 < i < FirstNamed(members, name) ensures NameOf(members[i]) != name {
        assert members[1..][i - 1] == members[i];
      }
    }
  }

  /** Positions that an indexed lookup may answer with. */
  ghost predicate Answers(members: seq<Member>, name: string, r: nat) {
    if r < |members| then NameOf(members[r]) == name
    else r == |members| && forall i :: 0 <= i < |members| ==> NameOf(members[i]) != name
  }

  /** The name belongs to at most one member. */
  ghost predicate AtMostOnce(members: seq<Member>, name: string) {
    forall i, j :: 0 <= i < j < |members| ==> NameOf(members[i]) != name || NameOf(members[j]) != name
  }

  /** The linear answer is an admissible indexed one, and it is the only one exactly when the name belongs
      to at most one member. */
  lemma {:induction false} LookupsAgree(members: seq<Member>, name: string)
    ensures Answers(members, name, FirstNamed(members, name))
    ensures AtMostOnce(members, name)
            <==> forall r: nat :: Answers(members, name, r) ==> r == FirstNamed(members, name)
  {
    FirstNamedIsFirst(members, name);
    var f := FirstNamed(members, name);
    if AtMostOnce(members, name) {
      forall r: nat | Answers(members, name, r) ensures r == f {
        if r < |members| {
          assert f < |members| && NameOf(members[r]) == NameOf(members[f]);
        }
      }
    } else {
      var i, j :| 0 <= i < j < |members| && NameOf(members[i]) == name && NameOf(members[j]) == name;
      assert Answers(members, name, i) && Answers(members, name, j);
    }
  }

  /** All lookups agree exactly when names are unique. */
  lemma {:induction false} AllLookupsAgree(members: seq<Member>)
    ensures UniqueNames(members)
            <==> forall name, r: nat :: Answers(members, name, r) ==> r == FirstNamed(members, name)
  {
    forall name ensures AtMostOnce(members, name)
                        <==> forall r: nat :: Answers(members, name, r) ==> r == FirstNamed(members, name) {
      LookupsAgree(members, name);
    }
    if !UniqueNames(members) {
      var i, j :| 0 <= i < j < |members| && NameOf(members[i]) == NameOf(members[j]);
      assert !AtMostOnce(members, NameOf(members[i]));
    }
  }

  /** Removal moves the last member to the removed place. */
  function Removed(members: seq<Member>, position: nat): (r: seq<Member>)
    requires position < |members|
  {
    members[position := members[|members| - 1]][..|members| - 1]
  }

  const DEFAULT_CAPACITY: nat := 16

  const UNUSED: Member := Member(Null, Null)

  /** `members` and `iterators` are the buffers, as long as the capacity; `size` places of them are used. */
  class MemberTable {
    var members: seq<Member>
    var iterators: seq<nat>
    var size: nat
    var index: map<nat, Entry>
    var nextEntry: nat  // the identity of the next entry

    ghost predicate Valid()
      reads this
    {
      && Exact(members, iterators, size, index)
      && forall id :: id in index ==> id < nextEntry
    }

    function Contents(): (r: seq<Member>)
      requires size <= |members|
      reads this
    {
      members[..size]
    }

    constructor ()
      ensures Valid() && Contents() == [] && members == []
    {
      members, iterators := [], [];
      size, index, nextEntry := 0, map[], 0;
    }

    /** Move to a larger layout; the number of members that are copied is the number of entries. */
    method Reserve(newCapacity: nat)
      requires Valid()
      modifies this`members, this`iterators
      ensures Valid() && Contents() == old(Contents())
      ensures |members| == if newCapacity > |old(members)| then newCapacity else |old(members)|
    {
      if newCapacity > |members| {
        EntriesAreMembers(members, iterators, size, index);
        var ms, its := Relocate(members, iterators, |index|, newCapacity);
        SameUsed(members, iterators, size, index, ms, its);
        members, iterators := ms, its;
      }
    }

    method AddMember(m: Member)
      requires Valid()
      modifies this
      ensures Valid() && Contents() == old(Contents()) + [m]
      ensures |members| == if old(size) < |old(members)| then |old(members)|
                           else if old(members) == [] then DEFAULT_CAPACITY
                           else |old(members)| + (|old(members)| + 1) / 2
    {
      if size >= |members| {
        Reserve(if |members| > 0 then |members| + (|members| + 1) / 2 else DEFAULT_CAPACITY);
      }
      AddKeeps(members, iterators, size, index, m, nextEntry);
      members := members[size := m];
      iterators := iterators[size := nextEntry];
      index := index[nextEntry := Entry(NameOf(m), size)];
      nextEntry := nextEntry + 1;
      size := size + 1;
    }

    /** Build the table for the members of a parsed object. */
    method SetObjectRaw(ms: seq<Member>)
      modifies this
      ensures Valid() && Contents() == ms && |members| == |ms|
    {
      members, iterators := seq(|ms|, _ => UNUSED), seq(|ms|, _ => 0);
      size, index, nextEntry := 0, map[], 0;
      while size < |ms|
        invariant size <= |ms| == |members| && Valid() && Contents() == ms[..size]
      {
        ghost var n := size;
        AddMember(ms[size]);
        assert ms[..n + 1] == ms[..n] + [ms[n]];
      }
    }

    method FindMember(name: string) returns (r: nat)
      requires Valid()
      ensures Answers(Contents(), name, r)
      ensures AtMostOnce(Contents(), name) ==> r == FirstNamed(Contents(), name)
    {
      if id :| id in index && index[id].name == name {
        r := index[id].position;
      } else {
        r := size;
        forall i | 0 <= i < size ensures NameOf(members[i]) != name {
          assert iterators[i] in index;
        }
      }
      LookupsAgree(Contents(), name);
    }

    /** The lookup of the layout without an index. */
    method FindMemberLinear(name: string) returns (r: nat)
      requires Valid()
      ensures r == FirstNamed(Contents(), name)
    {
      r := 0;
      while r < size && NameOf(members[r]) != name
        invariant r <= size && FirstNamed(Contents(), name) == r + FirstNamed(Contents()[r..], name)
      {
        assert Contents()[r..][1..] == Contents()[r + 1..];
        r := r + 1;
      }
    }

    method RemoveMember(position: nat)
      requires Valid() && position < size
      modifies this
      ensures Valid() && Contents() == Removed(old(Contents()), position) && |members| == |old(members)|
    {
      var last := size - 1;
      RemoveKeeps(members, iterators, size, index, position);
      ghost var unlinked := Unlinked(iterators, size, index, position);
      index := index - {iterators[position]};
      if size > 1 && position != last {
        iterators := iterators[position := iterators[last]];
        index := index[iterators[position] := index[iterators[position]].(position := position)];
        members := members[position := members[last]];
      }
      assert index == unlinked;
      size := last;
    }

    /** Remove a range of members and close the gap. */
    method EraseMembers(first: nat, last: nat)
      requires Valid() && first <= last <= size
      modifies this`index, this`members, this`iterators, this`size
      ensures Valid() && Contents() == old(Contents())[..first] + old(Contents())[last..]
    {
      ghost var kept := EraseEntries(first, last);
      Erased(old(members), old(iterators), old(index), size, first, last, members, iterators, kept, index);
      Closed(old(members), members, first, last, size);
      size := size - (last - first);
    }

    method EraseEntries(first: nat, last: nat) returns (ghost kept: map<nat, Entry>)
      requires Valid() && first <= last <= size
      modifies this`index, this`members, this`iterators
      ensures Survivors(old(index), first, last, kept) && Shifted(kept, last, size, last - first, index)
      ensures Closing(old(members), members, first, last, size) && Closing(old(iterators), iterators, first, last, size)
    {
      DropEntries(first, last);
      kept := index;
      if first != last {
        SurvivorsLead(members, iterators, old(index), size, first, last, kept);
        CloseGap(first, last);
      } else {
        NothingErased(members, iterators, kept, first, size);
      }
    }

    method DropEntries(first: nat, last: nat)
      requires Valid() && first <= last <= size
      modifies this`index
      ensures Survivors(old(index), first, last, index)
    {
      var i := first;
      while i < last
        invariant first <= i <= last && Survivors(old(index), first, i, index)
      {
        index := index - {iterators[i]};
        i := i + 1;
      }
    }

    /** Move the members behind the gap, and their iterators, and set the positions of their entries. */
    method CloseGap(first: nat, last: nat)
      requires first < last <= size <= |members| == |iterators|
      requires Leads(iterators, index, last, size)
      modifies this`index, this`members, this`iterators
      ensures Closing(old(members), members, first, last, size)
      ensures Closing(old(iterators), iterators, first, last, size)
      ensures Shifted(old(index), last, size, last - first, index)
    {
      ClosingStart(members, iterators, index, first, last, size);
      var gap := last - first;
      var to, next := first, last;
      while next < size
        invariant to + gap == next && last <= next <= size <= |members| == |iterators|
        invariant BothClosing(
                    old(members), members, old(iterators), iterators, old(index), index, first, last, size, next)
      {
        MoveDown(old(members), old(iterators), old(index), first, last, to, next);
        to, next := to + 1, next + 1;
      }
    }

    /** Move one member down into the gap. */
    method MoveDown(
      ghost was: seq<Member>, ghost led: seq<nat>, ghost index': map<nat, Entry>, ghost first: nat, ghost last: nat,
      to: nat, from: nat)
      requires first < last <= from == to + (last - first) && from < size <= |members| == |iterators|
      requires BothClosing(was, members, led, iterators, index', index, first, last, size, from)
      modifies this`index, this`members, this`iterators
      ensures |members| == |iterators| == old(|members|)
      ensures BothClosing(was, members, led, iterators, index', index, first, last, size, from + 1)
    {
      ClosingStep(was, members, first, last, from);
      IndexedStep(led, iterators, index', index, first, last, size, from);
      members := members[to := members[from]];
      iterators := iterators[to := iterators[from]];
      index := index[iterators[to] := index[iterators[to]].(position := to)];
    }

    method Clear()
      requires Valid()
      modifies this`index, this`size
      ensures Valid() && Contents() == [] && index == map[]
    {
      var i := 0;
      while i < size
        invariant i <= size == old(size)
        invariant forall id :: id in index <==> id in old(index) && old(index)[id].position >= i
      {
        index := index - {iterators[i]};
        i := i + 1;
      }
      size := 0;
    }
  }

  /** Copy the first `count` members and iterators, the last ones first, to buffers of a larger capacity. */
  method Relocate(members: seq<Member>, iterators: seq<nat>, count: nat, capacity: nat)
    returns (members': seq<Member>, iterators': seq<nat>)
    requires count <= |members| == |iterators| <= capacity
    ensures |members'| == |iterators'| == capacity
    ensures members'[..count] == members[..count] && iterators'[..count] == iterators[..count]
  {
    members', iterators' := seq(capacity, _ => UNUSED), seq(capacity, _ => 0);
    var i := count;
    while i > 0
      invariant 0 <= i <= count && |members'| == |iterators'| == capacity
      invariant members'[i..count] == members[i..count] && iterators'[i..count] == iterators[i..count]
    {
      i := i - 1;
      members' := members'[i := members[i]];
      iterators' := iterators'[i := iterators[i]];
    }
    assert members'[0..count] == members'[..count] && iterators'[0..count] == iterators'[..count];
    assert members[0..count] == members[..count] && iterators[0..count] == iterators[..count];
  }

  /** The entries for positions outside a range. */
  ghost predicate Survivors(index: map<nat, Entry>, first: nat, last: nat, index': map<nat, Entry>) {
    && (forall id :: id in index' <==> id in index && !(first <= index[id].position < last))
    && forall id :: id in index' ==> index'[id] == index[id]
  }

  function Shift(e: Entry, first: nat, last: nat, gap: nat): (r: Entry)
    requires gap <= first
  {
    if first <= e.position < last then e.(position := e.position - gap) else e
  }

  /** The entries for positions in a range are moved down by the gap, and no others. */
  ghost predicate Shifted(index: map<nat, Entry>, first: nat, last: nat, gap: nat, index': map<nat, Entry>)
    requires gap <= first
  {
    && index'.Keys == index.Keys
    && forall id :: id in index ==> index'[id] == Shift(index[id], first, last, gap)
  }

  /** The elements up to `next` behind a gap have been moved down to close it. */
  ghost predicate Closing<T>(was: seq<T>, now: seq<T>, first: nat, last: nat, next: nat) {
    && first <= last <= next <= |was| == |now|
    && now[..next - (last - first)] == was[..first] + was[last..next]
    && now[next..] == was[next..]
  }

  lemma Closed<T>(was: seq<T>, now: seq<T>, first: nat, last: nat, size: nat)
    requires Closing(was, now, first, last, size)
    ensures now[..size - (last - first)] == was[..size][..first] + was[..size][last..]
  {
    assert was[..size][..first] == was[..first] && was[..size][last..] == was[last..size];
  }

  lemma ClosingStart(
    members: seq<Member>, iterators: seq<nat>, index: map<nat, Entry>, first: nat, last: nat, size: nat)
    requires first <= last <= size <= |members| == |iterators| && Leads(iterators, index, last, size)
    ensures BothClosing(members, members, iterators, iterators, index, index, first, last, size, last)
  {
  }

  lemma NothingErased(members: seq<Member>, iterators: seq<nat>, index: map<nat, Entry>, first: nat, size: nat)
    requires first <= size <= |members| == |iterators|
    ensures Closing(members, members, first, first, size) && Closing(iterators, iterators, first, first, size)
    ensures Shifted(index, first, size, 0, index)
  {
    assert members[..size] == members[..first] + members[first..size];
    assert iterators[..size] == iterators[..first] + iterators[first..size];
  }

  /** Iterators and entries lead to each other, for positions in a range. */
  ghost predicate Leads(iterators: seq<nat>, index: map<nat, Entry>, first: nat, last: nat) {
    && last <= |iterators|
    && (forall i :: first <= i < last ==> iterators[i] in index && index[iterators[i]].position == i)
    && forall id :: id in index && first <= index[id].position < last ==> iterators[index[id].position] == id
  }

  lemma LeadsTo(iterators: seq<nat>, index: map<nat, Entry>, first: nat, last: nat, next: nat)
    requires Leads(iterators, index, first, last) && first <= next < last
    ensures iterators[next] in index && index[iterators[next]].position == next
    ensures forall id :: id in index && index[id].position == next ==> id == iterators[next]
  {
  }

  lemma SurvivorsLead(
    members: seq<Member>, iterators: seq<nat>, index: map<nat, Entry>, size: nat, first: nat, last: nat,
    kept: map<nat, Entry>)
    requires first <= last <= size && Exact(members, iterators, size, index) && Survivors(index, first, last, kept)
    ensures Leads(iterators, kept, last, size)
  {
  }

  lemma Erased(
    members: seq<Member>, iterators: seq<nat>, index: map<nat, Entry>, size: nat, first: nat, last: nat,
    members': seq<Member>, iterators': seq<nat>, kept: map<nat, Entry>, index': map<nat, Entry>)
    requires first <= last <= size && Exact(members, iterators, size, index)
    requires Closing(members, members', first, last, size) && Closing(iterators, iterators', first, last, size)
    requires Survivors(index, first, last, kept) && Shifted(kept, last, size, last - first, index')
    ensures Exact(members', iterators', size - (last - first), index')
    ensures forall id :: id in index' ==> id in index
  {
    var left := size - (last - first);
    forall i | 0 <= i < left
      ensures iterators'[i] in index' && index'[iterators'[i]] == Entry(NameOf(members'[i]), i)
    {
      var j := ClosedAt(members, members', first, last, size, i);
      var _ := ClosedAt(iterators, iterators', first, last, size, i);
      assert index[iterators[j]] == Entry(NameOf(members[j]), j) == kept[iterators[j]];
    }
    forall id | id in index' ensures index'[id].position < left && iterators'[index'[id].position] == id {
      assert index'[id] == Shift(index[id], last, size, last - first);
      assert iterators[index[id].position] == id;
      var _ := ClosedAt(iterators, iterators', first, last, size, index'[id].position);
    }
  }

  /** Where the i-th element comes from when the gap is closed. */
  lemma ClosedAt<T>(was: seq<T>, now: seq<T>, first: nat, last: nat, size: nat, i: nat) returns (j: nat)
    requires Closing(was, now, first, last, size) && i < size - (last - first)
    ensures j == (if i < first then i else i + (last - first)) && now[i] == was[j]
  {
    j := if i < first then i else i + (last - first);
    assert now[i] == now[..size - (last - first)][i] == (was[..first] + was[last..size])[i];
  }

  lemma ClosingStep<T>(was: seq<T>, now: seq<T>, first: nat, last: nat, next: nat)
    requires Closing(was, now, first, last, next) && first < last && next < |was|
    ensures now[next] == was[next]
    ensures Closing(was, now[next - (last - first) := now[next]], first, last, next + 1)
  {
    var to := next - (last - first);
    var now' := now[to := now[next]];
    assert now[next..][0] == was[next..][0];
    assert now'[..to + 1] == now[..to] + [was[next]];
    assert was[last..next + 1] == was[last..next] + [was[next]];
    assert now'[next + 1..] == now[next..][1..];
    assert was[next + 1..] == was[next..][1..];
  }

  /** Iterators and entries while the gap is being closed. */
  ghost predicate ClosingIndexed(
    was: seq<nat>, now: seq<nat>, index: map<nat, Entry>, index': map<nat, Entry>, first: nat, last: nat, size: nat,
    next: nat)
  {
    && first <= last <= next <= size && Leads(was, index, last, size)
    && Closing(was, now, first, last, next) && Shifted(index, last, next, last - first, index')
  }

  /** Members, iterators and entries while the gap is being closed. */
  ghost predicate BothClosing(
    was: seq<Member>, now: seq<Member>, led: seq<nat>, leads: seq<nat>, index: map<nat, Entry>,
    index': map<nat, Entry>, first: nat, last: nat, size: nat, next: nat)
  {
    Closing(was, now, first, last, next) && ClosingIndexed(led, leads, index, index', first, last, size, next)
  }

  lemma IndexedStep(
    was: seq<nat>, now: seq<nat>, index: map<nat, Entry>, index': map<nat, Entry>, first: nat, last: nat, size: nat,
    next: nat)
    requires ClosingIndexed(was, now, index, index', first, last, size, next) && first < last && next < size
    ensures now[next] in index'
    ensures var to, id := next - (last - first), now[next];
            ClosingIndexed(
              was, now[to := id], index, index'[id := index'[id].(position := to)], first, last, size, next + 1)
  {
    ClosingStep(was, now, first, last, next);
    ShiftNext(was, index, last, size, next, last - first, index');
  }

  lemma ShiftNext(
    iterators: seq<nat>, index: map<nat, Entry>, first: nat, last: nat, next: nat, gap: nat, index': map<nat, Entry>)
    requires Leads(iterators, index, first, last)
    requires gap <= first <= next < last && Shifted(index, first, next, gap, index')
    ensures iterators[next] in index'
    ensures var id := iterators[next];
            Shifted(index, first, next + 1, gap, index'[id := index'[id].(position := next - gap)])
  {
    LeadsTo(iterators, index, first, last, next);
    ShiftStep(index, first, next, gap, index', iterators[next]);
  }

  lemma ShiftStep(index: map<nat, Entry>, first: nat, next: nat, gap: nat, index': map<nat, Entry>, id: nat)
    requires gap <= first <= next && Shifted(index, first, next, gap, index')
    requires id in index && index[id].position == next
    requires forall other :: other in index && index[other].position == next ==> other == id
    ensures Shifted(index, first, next + 1, gap, index'[id := index'[id].(position := next - gap)])
  {
  }

  lemma AddKeeps(members: seq<Member>, iterators: seq<nat>, size: nat, index: map<nat, Entry>, m: Member, id: nat)
    requires Exact(members, iterators, size, index) && size < |members| && id !in index
    ensures Exact(members[size := m], iterators[size := id], size + 1, index[id := Entry(NameOf(m), size)])
    ensures members[size := m][..size + 1] == members[..size] + [m]
  {
  }

  lemma SameUsed(
    members: seq<Member>, iterators: seq<nat>, size: nat, index: map<nat, Entry>, members': seq<Member>,
    iterators': seq<nat>)
    requires Exact(members, iterators, size, index) && size <= |members'| == |iterators'|
    requires members'[..size] == members[..size] && iterators'[..size] == iterators[..size]
    ensures Exact(members', iterators', size, index)
  {
    forall i | 0 <= i < size ensures members'[i] == members[i] && iterators'[i] == iterators[i] {
      assert members'[..size][i] == members[..size][i] && iterators'[..size][i] == iterators[..size][i];
    }
  }

  /** The index after a removal. */
  function Unlinked(iterators: seq<nat>, size: nat, index: map<nat, Entry>, position: nat): (r: map<nat, Entry>)
    requires position < size <= |iterators| && iterators[size - 1] in index
  {
    var last := iterators[size - 1];
    var index' := index - {iterators[position]};
    if position == size - 1 then index' else index'[last := index[last].(position := position)]
  }

  lemma RemoveKeeps(members: seq<Member>, iterators: seq<nat>, size: nat, index: map<nat, Entry>, position: nat)
    requires Exact(members, iterators, size, index) && position < size
    ensures var last := size - 1;
            var members', iterators' := members[position := members[last]], iterators[position := iterators[last]];
            var index' := Unlinked(iterators, size, index, position);
            && (position != last ==> iterators[position] != iterators[last])
            && (position == last ==> members' == members && iterators' == iterators)
            && members'[..last] == Removed(members[..size], position)
            && Exact(members', iterators', last, index') && forall id :: id in index' ==> id in index
  {
  }

  lemma {:induction false} EntriesAreMembers(
    members: seq<Member>, iterators: seq<nat>, size: nat, index: map<nat, Entry>)
    requires Exact(members, iterators, size, index)
    ensures |index| == size
    decreases size
  {
    if size == 0 {
      assert index == map[];
    } else {
      var last := iterators[size - 1];
      RemoveKeeps(members, iterators, size, index, size - 1);
      EntriesAreMembers(members, iterators, size - 1, index - {last});
      assert index.Keys == (index - {last}).Keys + {last};
      assert |index.Keys| == |(index - {last}).Keys| + 1;
    }
  }
}
