/** The bucket array of a hopscotch table as a value: its representation invariant, and the four
    ways in which the table changes it (place, remove, move, flag). */
module HopscotchBuckets {
  import opened Wrappers

  datatype Entry<+K, +V> = Entry(key: K, value: V)

  /** `neighbors[i]` says that the bucket i places further on holds a value that belongs here. */
  datatype Bucket<+K, +V> = Bucket(neighbors: seq<bool>, hasOverflow: bool, slot: Option<Entry<K, V>>)

  /** What decides where a key belongs: home bucket of a key, neighbourhood size and bucket count. */
  datatype Layout<!K> = Layout(home: K -> nat, n: nat, count: nat)

  /** The array has n - 1 more buckets than the table, so that the last home has n neighbours. */
  function ArrayLength<K>(l: Layout<K>): (r: nat)
    requires l.n > 0
  {
    if l.count == 0 then 0 else l.count + l.n - 1
  }

  function EmptyBucket<K, V>(n: nat): (b: Bucket<K, V>) {
    Bucket(seq(n, _ => false), false, None)
  }

  // ----- representation invariant

  ghost predicate Sized<K, V>(l: Layout<K>, bs: seq<Bucket<K, V>>) {
    && l.n > 0
    && |bs| == ArrayLength(l)
    && forall b :: 0 <= b < |bs| ==> |bs[b].neighbors| == l.n
  }

  ghost predicate Belongs<K, V>(l: Layout<K>, bucket: Bucket<K, V>, home: nat) {
    bucket.slot.Some? && l.home(bucket.slot.value.key) == home
  }

  /** A bit is set exactly when the bucket it points at holds a value whose home is the bit's bucket. */
  ghost predicate BitsExact<K, V>(l: Layout<K>, bs: seq<Bucket<K, V>>)
    requires Sized(l, bs)
  {
    forall b, i :: 0 <= b < |bs| && 0 <= i < l.n ==>
      (bs[b].neighbors[i] <==> b + i < |bs| && Belongs(l, bs[b + i], b))
  }

  /** Every value sits in the neighbourhood of its home. */
  ghost predicate InReach<K, V>(l: Layout<K>, bs: seq<Bucket<K, V>>) {
    forall x :: 0 <= x < |bs| && bs[x].slot.Some? ==>
      var home := l.home(bs[x].slot.value.key);
      home < l.count && home <= x < home + l.n
  }

  ghost predicate Wired<K, V>(l: Layout<K>, bs: seq<Bucket<K, V>>) {
    Sized(l, bs) && BitsExact(l, bs) && InReach(l, bs)
  }

  ghost predicate Overflows<K, V>(l: Layout<K>, overflow: seq<Entry<K, V>>, home: nat) {
    exists j :: 0 <= j < |overflow| && BelongsTo(l, overflow[j], home)
  }

  ghost predicate BelongsTo<K, V>(l: Layout<K>, e: Entry<K, V>, home: nat) {
    l.home(e.key) == home
  }

  /** The overflow flag is set exactly on the homes of the elements in the overflow list. */
  ghost predicate Flagged<K, V>(l: Layout<K>, bs: seq<Bucket<K, V>>, overflow: seq<Entry<K, V>>) {
    forall b {:trigger bs[b].hasOverflow} :: 0 <= b < |bs| ==> (bs[b].hasOverflow <==> Overflows(l, overflow, b))
  }

  predicate Holds<K(==), V>(bucket: Bucket<K, V>, key: K) {
    bucket.slot.Some? && bucket.slot.value.key == key
  }

  ghost predicate InBuckets<K, V>(bs: seq<Bucket<K, V>>, key: K) {
    exists x :: 0 <= x < |bs| && Holds(bs[x], key)
  }

  ghost predicate InOverflow<K, V>(overflow: seq<Entry<K, V>>, key: K) {
    exists j :: 0 <= j < |overflow| && overflow[j].key == key
  }

  /** No key is stored twice. */
  ghost predicate Unique<K, V>(bs: seq<Bucket<K, V>>, overflow: seq<Entry<K, V>>) {
    && (forall x, y {:trigger Differ(bs[x], bs[y])} ::
          0 <= x < |bs| && 0 <= y < |bs| && x != y ==> Differ(bs[x], bs[y]))
    && (forall x, j {:trigger Lacks(bs[x], overflow[j])} ::
          0 <= x < |bs| && 0 <= j < |overflow| ==> Lacks(bs[x], overflow[j]))
    && DistinctKeys(overflow)
  }

  predicate Differ<K(==), V>(b: Bucket<K, V>, c: Bucket<K, V>) {
    b.slot.Some? && c.slot.Some? ==> b.slot.value.key != c.slot.value.key
  }

  predicate Lacks<K(==), V>(b: Bucket<K, V>, e: Entry<K, V>) {
    b.slot.Some? ==> b.slot.value.key != e.key
  }

  predicate Maps<K(==), V(==)>(m: map<K, V>, e: Entry<K, V>) {
    e.key in m && m[e.key] == e.value
  }

  /** Buckets and overflow list together hold exactly the entries of `m`. */
  ghost predicate Stores<K, V>(bs: seq<Bucket<K, V>>, overflow: seq<Entry<K, V>>, m: map<K, V>) {
    && (forall x :: 0 <= x < |bs| && bs[x].slot.Some? ==> Maps(m, bs[x].slot.value))
    && (forall j :: 0 <= j < |overflow| ==> Maps(m, overflow[j]))
    && (forall k {:trigger InBuckets(bs, k)} {:trigger InOverflow(overflow, k)} ::
          k in m ==> InBuckets(bs, k) || InOverflow(overflow, k))
  }

  ghost predicate Represents<K, V>(bs: seq<Bucket<K, V>>, overflow: seq<Entry<K, V>>, m: map<K, V>) {
    Unique(bs, overflow) && Stores(bs, overflow, m)
  }

  /** The stored values in bucket order. */
  function Entries<K, V>(bs: seq<Bucket<K, V>>): (es: seq<Entry<K, V>>) {
    if bs == [] then []
    else
      var last := bs[|bs| - 1].slot;
      Entries(bs[..|bs| - 1]) + (if last.Some? then [last.value] else [])
  }

  ghost predicate Invariant<K, V>(l: Layout<K>, bs: seq<Bucket<K, V>>, overflow: seq<Entry<K, V>>, m: map<K, V>) {
    && Wired(l, bs)
    && Flagged(l, bs, overflow)
    && Represents(bs, overflow, m)
  }

  // ----- consequences of the invariant

  /** Every occupied bucket is claimed by exactly one bit of one bucket. */
  lemma ClaimedOnce<K, V>(l: Layout<K>, bs: seq<Bucket<K, V>>, x: nat)
    requires Wired(l, bs) && x < |bs|
    ensures bs[x].slot.Some? ==>
              var home := l.home(bs[x].slot.value.key);
              && home <= x < home + l.n && bs[home].neighbors[x - home]
              && forall b :: 0 <= b <= x && x - b < l.n && bs[b].neighbors[x - b] ==> b == home
    ensures bs[x].slot.None? ==> forall b :: 0 <= b <= x && x - b < l.n ==> !bs[b].neighbors[x - b]
  {
    forall b | 0 <= b <= x && x - b < l.n
      ensures bs[b].neighbors[x - b] <==> Belongs(l, bs[x], b)
    {
      assert b + (x - b) == x;
    }
  }

  /** The n - 1 buckets behind the last home own no bit and never have the overflow flag. */
  lemma TailOwnsNothing<K, V>(l: Layout<K>, bs: seq<Bucket<K, V>>, overflow: seq<Entry<K, V>>, b: nat)
    requires Wired(l, bs) && Flagged(l, bs, overflow) && l.count <= b < |bs|
    requires forall j :: 0 <= j < |overflow| ==> l.home(overflow[j].key) < l.count
    ensures !bs[b].hasOverflow && true !in bs[b].neighbors
  {
  }

  // ----- the four changes

  function Toggle<K, V>(bs: seq<Bucket<K, V>>, b: nat, i: nat): (r: seq<Bucket<K, V>>)
    requires b < |bs| && i < |bs[b].neighbors|
  {
    bs[b := bs[b].(neighbors := bs[b].neighbors[i := !bs[b].neighbors[i]])]
  }

  function WithSlot<K, V>(bs: seq<Bucket<K, V>>, x: nat, slot: Option<Entry<K, V>>): (r: seq<Bucket<K, V>>)
    requires x < |bs|
  {
    bs[x := bs[x].(slot := slot)]
  }

  function WithFlag<K, V>(bs: seq<Bucket<K, V>>, b: nat, flag: bool): (r: seq<Bucket<K, V>>)
    requires b < |bs|
  {
    bs[b := bs[b].(hasOverflow := flag)]
  }

  /** Put a value that belongs to `home` into the empty bucket x. */
  function Place<K, V>(bs: seq<Bucket<K, V>>, x: nat, home: nat, e: Entry<K, V>): (r: seq<Bucket<K, V>>)
    requires home <= x < |bs| && x - home < |bs[home].neighbors|
  {
    Toggle(WithSlot(bs, x, Some(e)), home, x - home)
  }

  /** Take the value, which belongs to `home`, out of bucket x. */
  function Remove<K, V>(bs: seq<Bucket<K, V>>, x: nat, home: nat): (r: seq<Bucket<K, V>>)
    requires home <= x < |bs| && x - home < |bs[home].neighbors|
  {
    Toggle(WithSlot(bs, x, None), home, x - home)
  }

  /** Move the value, which belongs to `home`, from one bucket to an empty one. */
  function Move<K, V>(bs: seq<Bucket<K, V>>, from: nat, to: nat, home: nat): (r: seq<Bucket<K, V>>)
    requires home <= from < to < |bs| && to - home < |bs[home].neighbors|
  {
    var moved := WithSlot(WithSlot(bs, to, bs[from].slot), from, None);
    Toggle(Toggle(moved, home, to - home), home, from - home)
  }

  lemma PlaceKeepsWiring<K, V>(l: Layout<K>, bs: seq<Bucket<K, V>>, x: nat, home: nat, e: Entry<K, V>)
    requires Wired(l, bs) && home <= x < |bs| && x - home < l.n
    requires bs[x].slot.None? && l.home(e.key) == home && home < l.count
    ensures Wired(l, Place(bs, x, home, e))
  {
    var bs' := Place(bs, x, home, e);
    forall b, i | 0 <= b < |bs'| && 0 <= i < l.n
      ensures bs'[b].neighbors[i] <==> b + i < |bs'| && Belongs(l, bs'[b + i], b)
    {
      if b + i != x {
        assert bs'[b].neighbors[i] == bs[b].neighbors[i];
        assert b + i < |bs| ==> bs'[b + i].slot == bs[b + i].slot;
      }
    }
  }

  lemma RemoveKeepsWiring<K, V>(l: Layout<K>, bs: seq<Bucket<K, V>>, x: nat, home: nat)
    requires Wired(l, bs) && home <= x < |bs| && x - home < l.n
    requires Belongs(l, bs[x], home)
    ensures Wired(l, Remove(bs, x, home))
  {
    var bs' := Remove(bs, x, home);
    forall b, i | 0 <= b < |bs'| && 0 <= i < l.n
      ensures bs'[b].neighbors[i] <==> b + i < |bs'| && Belongs(l, bs'[b + i], b)
    {
      if b + i != x {
        assert bs'[b].neighbors[i] == bs[b].neighbors[i];
        assert b + i < |bs| ==> bs'[b + i].slot == bs[b + i].slot;
      }
    }
  }

  lemma MoveIsRemoveThenPlace<K, V>(bs: seq<Bucket<K, V>>, from: nat, to: nat, home: nat)
    requires home <= from < to < |bs| && to - home < |bs[home].neighbors| && bs[from].slot.Some?
    ensures Move(bs, from, to, home) == Place(Remove(bs, from, home), to, home, bs[from].slot.value)
  {
    var moved, placed := Move(bs, from, to, home), Place(Remove(bs, from, home), to, home, bs[from].slot.value);
    forall x | 0 <= x < |bs| ensures moved[x] == placed[x] {
      assert moved[x].neighbors == placed[x].neighbors;
    }
  }

  /** All slots but that of x, and all overflow flags, are the same. */
  ghost predicate SameBut<K, V>(bs: seq<Bucket<K, V>>, bs': seq<Bucket<K, V>>, x: nat) {
    && |bs'| == |bs|
    && (forall y :: 0 <= y < |bs| && y != x ==> bs'[y].slot == bs[y].slot)
    && (forall y :: 0 <= y < |bs| ==> bs'[y].hasOverflow == bs[y].hasOverflow)
  }

  lemma FillSlot<K, V>(
    bs: seq<Bucket<K, V>>, bs': seq<Bucket<K, V>>, overflow: seq<Entry<K, V>>, m: map<K, V>, x: nat, e: Entry<K, V>)
    requires Represents(bs, overflow, m) && x < |bs| && SameBut(bs, bs', x)
    requires bs[x].slot.None? && bs'[x].slot == Some(e) && e.key !in m
    ensures Represents(bs', overflow, m[e.key := e.value])
  {
    var m' := m[e.key := e.value];
    forall a, b | 0 <= a < |bs'| && 0 <= b < |bs'| && a != b ensures Differ(bs'[a], bs'[b]) {
      assert Differ(bs[a], bs[b]);
    }
    forall a, j | 0 <= a < |bs'| && 0 <= j < |overflow| ensures Lacks(bs'[a], overflow[j]) {
      assert Lacks(bs[a], overflow[j]);
    }
    forall k | k in m' ensures InBuckets(bs', k) || InOverflow(overflow, k) {
      if k == e.key {
        assert Holds(bs'[x], k);
      } else if InBuckets(bs, k) {
        var y :| 0 <= y < |bs| && Holds(bs[y], k);
        assert Holds(bs'[y], k);
      }
    }
  }

  /** The entries beside that of bucket x have other keys. */
  lemma OthersKept<K, V>(bs: seq<Bucket<K, V>>, overflow: seq<Entry<K, V>>, m: map<K, V>, x: nat)
    requires Represents(bs, overflow, m) && x < |bs| && bs[x].slot.Some?
    ensures forall y :: 0 <= y < |bs| && y != x && bs[y].slot.Some? ==>
              bs[y].slot.value.key != bs[x].slot.value.key && Maps(m, bs[y].slot.value)
    ensures forall j :: 0 <= j < |overflow| ==> overflow[j].key != bs[x].slot.value.key && Maps(m, overflow[j])
  {
    forall y | 0 <= y < |bs| && y != x ensures Differ(bs[y], bs[x]) {
    }
    forall j | 0 <= j < |overflow| ensures Lacks(bs[x], overflow[j]) {
    }
  }

  lemma ClearSlot<K, V>(bs: seq<Bucket<K, V>>, bs': seq<Bucket<K, V>>, overflow: seq<Entry<K, V>>, m: map<K, V>, x: nat)
    requires Represents(bs, overflow, m) && x < |bs| && SameBut(bs, bs', x)
    requires bs[x].slot.Some? && bs'[x].slot.None?
    ensures Represents(bs', overflow, m - {bs[x].slot.value.key})
  {
    var m' := m - {bs[x].slot.value.key};
    forall a, b | 0 <= a < |bs'| && 0 <= b < |bs'| && a != b ensures Differ(bs'[a], bs'[b]) {
      assert Differ(bs[a], bs[b]);
    }
    forall a, j | 0 <= a < |bs'| && 0 <= j < |overflow| ensures Lacks(bs'[a], overflow[j]) {
      assert Lacks(bs[a], overflow[j]);
    }
    OthersKept(bs, overflow, m, x);
    forall k | k in m' ensures InBuckets(bs', k) || InOverflow(overflow, k) {
      if InBuckets(bs, k) {
        var y :| 0 <= y < |bs| && Holds(bs[y], k);
        assert Holds(bs'[y], k);
      }
    }
  }

  /** Placing adds one entry and disturbs nothing else. */
  lemma {:induction false} PlaceKeepsInvariant<K, V>(
    l: Layout<K>, bs: seq<Bucket<K, V>>, overflow: seq<Entry<K, V>>, m: map<K, V>, x: nat, home: nat, e: Entry<K, V>)
    requires Invariant(l, bs, overflow, m) && home <= x < |bs| && x - home < l.n
    requires bs[x].slot.None? && l.home(e.key) == home && home < l.count && e.key !in m
    ensures Invariant(l, Place(bs, x, home, e), overflow, m[e.key := e.value])
    ensures |Entries(Place(bs, x, home, e))| == |Entries(bs)| + 1
  {
    var bs' := Place(bs, x, home, e);
    PlaceKeepsWiring(l, bs, x, home, e);
    FillSlot(bs, bs', overflow, m, x, e);
    EntriesLength(bs, bs', x);
  }

  /** Removing takes one entry away and disturbs nothing else. */
  lemma {:induction false} RemoveKeepsInvariant<K, V>(
    l: Layout<K>, bs: seq<Bucket<K, V>>, overflow: seq<Entry<K, V>>, m: map<K, V>, x: nat, home: nat)
    requires Invariant(l, bs, overflow, m) && home <= x < |bs| && x - home < l.n
    requires Belongs(l, bs[x], home)
    ensures Invariant(l, Remove(bs, x, home), overflow, m - {bs[x].slot.value.key})
    ensures |Entries(Remove(bs, x, home))| == |Entries(bs)| - 1
  {
    var bs' := Remove(bs, x, home);
    RemoveKeepsWiring(l, bs, x, home);
    ClearSlot(bs, bs', overflow, m, x);
    EntriesLength(bs, bs', x);
  }

  ghost predicate MovedSlot<K, V>(bs: seq<Bucket<K, V>>, bs': seq<Bucket<K, V>>, from: nat, to: nat) {
    && from < to < |bs| && |bs'| == |bs|
    && bs'[from].slot.None? && bs'[to].slot == bs[from].slot
    && forall y :: 0 <= y < |bs| && y != from && y != to ==> bs'[y].slot == bs[y].slot
  }

  lemma MoveMovesSlot<K, V>(bs: seq<Bucket<K, V>>, from: nat, to: nat, home: nat)
    requires home <= from < to < |bs| && to - home < |bs[home].neighbors|
    ensures MovedSlot(bs, Move(bs, from, to, home), from, to)
  {
  }

  /** Moving changes no entry at all. */
  lemma {:induction false} MoveKeepsInvariant<K, V>(
    l: Layout<K>, bs: seq<Bucket<K, V>>, overflow: seq<Entry<K, V>>, m: map<K, V>, from: nat, to: nat, home: nat)
    requires Invariant(l, bs, overflow, m) && home <= from < to < |bs| && to - home < l.n
    requires Belongs(l, bs[from], home) && bs[to].slot.None?
    ensures Invariant(l, Move(bs, from, to, home), overflow, m)
    ensures |Entries(Move(bs, from, to, home))| == |Entries(bs)|
  {
    var e := bs[from].slot.value;
    assert Maps(m, e) && home < l.count;
    var removed, m' := Remove(bs, from, home), m - {e.key};
    assert m'[e.key := e.value] == m;
    RemoveKeepsInvariant(l, bs, overflow, m, from, home);
    assert removed[to].slot.None?;
    PlaceKeepsInvariant(l, removed, overflow, m', to, home, e);
    MoveIsRemoveThenPlace(bs, from, to, home);
  }

  function Occupancy<K, V>(b: Bucket<K, V>): (r: nat) {
    if b.slot.Some? then 1 else 0
  }

  lemma {:induction false} EntriesLength<K, V>(bs: seq<Bucket<K, V>>, bs': seq<Bucket<K, V>>, x: nat)
    requires x < |bs| && |bs'| == |bs|
    requires forall y :: 0 <= y < |bs| && y != x ==> bs'[y].slot == bs[y].slot
    ensures |Entries(bs')| - Occupancy(bs'[x]) == |Entries(bs)| - Occupancy(bs[x])
  {
    var last := |bs| - 1;
    if x < last {
      EntriesLength(bs[..last], bs'[..last], x);
    } else {
      SameEntries(bs[..last], bs'[..last]);
    }
  }

  lemma {:induction false} RemoveFromEntries<K, V>(l: Layout<K>, bs: seq<Bucket<K, V>>, x: nat, home: nat)
    requires Wired(l, bs) && home <= x < |bs| && x - home < l.n && Belongs(l, bs[x], home)
    ensures Wired(l, Remove(bs, x, home)) && |Entries(Remove(bs, x, home))| == |Entries(bs)| - 1
  {
    RemoveKeepsWiring(l, bs, x, home);
    EntriesLength(bs, Remove(bs, x, home), x);
  }

  lemma {:induction false} SameEntries<K, V>(bs: seq<Bucket<K, V>>, bs': seq<Bucket<K, V>>)
    requires |bs'| == |bs| && forall y :: 0 <= y < |bs| ==> bs'[y].slot == bs[y].slot
    ensures Entries(bs') == Entries(bs)
  {
    if bs != [] {
      SameEntries(bs[..|bs| - 1], bs'[..|bs| - 1]);
    }
  }

  /** Slots are the same; flags may differ. */
  ghost predicate SameSlots<K, V>(bs: seq<Bucket<K, V>>, bs': seq<Bucket<K, V>>) {
    |bs'| == |bs| && forall y :: 0 <= y < |bs| ==> bs'[y].slot == bs[y].slot
  }

  /** Appending to the overflow list and raising the flag of the home adds one entry. */
  lemma {:induction false} OverflowKeepsInvariant<K, V>(
    l: Layout<K>, bs: seq<Bucket<K, V>>, overflow: seq<Entry<K, V>>, m: map<K, V>, home: nat, e: Entry<K, V>)
    requires Invariant(l, bs, overflow, m) && home < |bs|
    requires l.home(e.key) == home && e.key !in m
    ensures Invariant(l, WithFlag(bs, home, true), overflow + [e], m[e.key := e.value])
    ensures Entries(WithFlag(bs, home, true)) == Entries(bs)
  {
    var bs' := WithFlag(bs, home, true);
    FlagKeepsWiring(l, bs, home, true);
    forall b | 0 <= b < |bs'| ensures bs'[b].hasOverflow <==> Overflows(l, overflow + [e], b) {
      OverflowsAppend(l, overflow, e, b);
    }
    AppendOverflow(bs, bs', overflow, m, e);
    SameEntries(bs, bs');
  }

  lemma AppendOverflow<K, V>(
    bs: seq<Bucket<K, V>>, bs': seq<Bucket<K, V>>, overflow: seq<Entry<K, V>>, m: map<K, V>, e: Entry<K, V>)
    requires Represents(bs, overflow, m) && SameSlots(bs, bs') && e.key !in m
    ensures Represents(bs', overflow + [e], m[e.key := e.value])
  {
    var overflow', m' := overflow + [e], m[e.key := e.value];
    forall a, b | 0 <= a < |bs'| && 0 <= b < |bs'| && a != b ensures Differ(bs'[a], bs'[b]) {
      assert Differ(bs[a], bs[b]);
    }
    forall a, j | 0 <= a < |bs'| && 0 <= j < |overflow'| ensures Lacks(bs'[a], overflow'[j]) {
      assert j < |overflow| ==> Lacks(bs[a], overflow[j]);
    }
    forall i, j | 0 <= i < |overflow'| && 0 <= j < |overflow'| && i != j ensures OtherKey(overflow'[i], overflow'[j]) {
      assert i < |overflow| && j < |overflow| ==> OtherKey(overflow[i], overflow[j]);
    }
    forall k | k in m' ensures InBuckets(bs', k) || InOverflow(overflow', k) {
      if k == e.key {
        assert overflow'[|overflow|].key == k;
      } else if InBuckets(bs, k) {
        var y :| 0 <= y < |bs| && Holds(bs[y], k);
        assert Holds(bs'[y], k);
      } else {
        var j :| 0 <= j < |overflow| && overflow[j].key == k;
        assert overflow'[j].key == k;
      }
    }
  }

  lemma OverflowsAppend<K, V>(l: Layout<K>, overflow: seq<Entry<K, V>>, e: Entry<K, V>, b: nat)
    ensures Overflows(l, overflow + [e], b) <==> Overflows(l, overflow, b) || l.home(e.key) == b
  {
    var overflow' := overflow + [e];
    assert overflow'[|overflow|] == e;
    if Overflows(l, overflow, b) {
      var j :| 0 <= j < |overflow| && l.home(overflow[j].key) == b;
      assert overflow'[j] == overflow[j];
    }
  }

  lemma FlagKeepsWiring<K, V>(l: Layout<K>, bs: seq<Bucket<K, V>>, b: nat, flag: bool)
    requires Wired(l, bs) && b < |bs|
    ensures Wired(l, WithFlag(bs, b, flag))
  {
  }

  function Without<T>(s: seq<T>, p: nat): (r: seq<T>)
    requires p < |s|
  {
    s[..p] + s[p + 1..]
  }

  /** Erasing from the overflow list, and lowering the flag of the home only when no other element of
      the list has that home, takes one entry away. */
  lemma {:induction false} UnoverflowKeepsInvariant<K, V>(
    l: Layout<K>, bs: seq<Bucket<K, V>>, overflow: seq<Entry<K, V>>, m: map<K, V>, p: nat, home: nat)
    requires Invariant(l, bs, overflow, m) && p < |overflow| && home < |bs|
    requires l.home(overflow[p].key) == home
    ensures Invariant(l, WithFlag(bs, home, Overflows(l, Without(overflow, p), home)), Without(overflow, p),
                      m - {overflow[p].key})
    ensures Entries(WithFlag(bs, home, Overflows(l, Without(overflow, p), home))) == Entries(bs)
    ensures WithFlag(bs, home, true) == bs
  {
    OverflowsWithout(l, overflow, p, home);
    var rest := Without(overflow, p);
    var bs' := WithFlag(bs, home, Overflows(l, rest, home));
    FlagKeepsWiring(l, bs, home, Overflows(l, rest, home));
    forall b | 0 <= b < |bs'| ensures bs'[b].hasOverflow <==> Overflows(l, rest, b) {
      OverflowsWithout(l, overflow, p, b);
    }
    EraseOverflow(bs, bs', overflow, m, p);
    SameEntries(bs, bs');
  }

  lemma OverflowsWithout<K, V>(l: Layout<K>, overflow: seq<Entry<K, V>>, p: nat, b: nat)
    requires p < |overflow|
    ensures Overflows(l, overflow, b) <==> Overflows(l, Without(overflow, p), b) || l.home(overflow[p].key) == b
  {
    var rest := Without(overflow, p);
    WithoutIndex(overflow, p);
    if Overflows(l, overflow, b) {
      var j :| 0 <= j < |overflow| && l.home(overflow[j].key) == b;
      assert j != p ==> rest[if j < p then j else j - 1] == overflow[j];
    }
  }

  lemma EraseOverflow<K, V>(
    bs: seq<Bucket<K, V>>, bs': seq<Bucket<K, V>>, overflow: seq<Entry<K, V>>, m: map<K, V>, p: nat)
    requires Represents(bs, overflow, m) && SameSlots(bs, bs') && p < |overflow|
    ensures Represents(bs', Without(overflow, p), m - {overflow[p].key})
  {
    var rest, m' := Without(overflow, p), m - {overflow[p].key};
    WithoutIndex(overflow, p);
    forall a, b | 0 <= a < |bs'| && 0 <= b < |bs'| && a != b ensures Differ(bs'[a], bs'[b]) {
      assert Differ(bs[a], bs[b]);
    }
    forall a, j | 0 <= a < |bs'| && 0 <= j < |rest| ensures Lacks(bs'[a], rest[j]) {
      assert Lacks(bs[a], overflow[if j < p then j else j + 1]);
    }
    forall i, j | 0 <= i < |rest| && 0 <= j < |rest| && i != j ensures OtherKey(rest[i], rest[j]) {
      assert OtherKey(overflow[if i < p then i else i + 1], overflow[if j < p then j else j + 1]);
    }
    forall j | 0 <= j < |rest| ensures Maps(m', rest[j]) {
      assert OtherKey(overflow[if j < p then j else j + 1], overflow[p]);
    }
    forall a | 0 <= a < |bs'| && bs'[a].slot.Some? ensures Maps(m', bs'[a].slot.value) {
      assert Lacks(bs[a], overflow[p]);
    }
    forall k | k in m' ensures InBuckets(bs', k) || InOverflow(rest, k) {
      if InBuckets(bs, k) {
        var y :| 0 <= y < |bs| && Holds(bs[y], k);
        assert Holds(bs'[y], k);
      } else {
        var j :| 0 <= j < |overflow| && overflow[j].key == k;
        assert rest[if j < p then j else j - 1] == overflow[j];
      }
    }
  }

  lemma WithoutIndex<T>(s: seq<T>, p: nat)
    requires p < |s|
    ensures |Without(s, p)| == |s| - 1
    ensures forall j :: 0 <= j < |s| - 1 ==> Without(s, p)[j] == s[if j < p then j else j + 1]
  {
  }

  /** Overwriting a stored value overwrites it in the map. */
  lemma {:induction false} AssignKeepsInvariant<K, V>(
    l: Layout<K>, bs: seq<Bucket<K, V>>, overflow: seq<Entry<K, V>>, m: map<K, V>, x: nat, e: Entry<K, V>)
    requires Invariant(l, bs, overflow, m) && x < |bs| && Holds(bs[x], e.key)
    ensures Invariant(l, WithSlot(bs, x, Some(e)), overflow, m[e.key := e.value])
    ensures |Entries(WithSlot(bs, x, Some(e)))| == |Entries(bs)|
  {
    var bs' := WithSlot(bs, x, Some(e));
    AssignKeepsWiring(l, bs, x, e);
    OverwriteSlot(bs, bs', overflow, m, x, e);
    EntriesLength(bs, bs', x);
  }

  lemma AssignKeepsWiring<K, V>(l: Layout<K>, bs: seq<Bucket<K, V>>, x: nat, e: Entry<K, V>)
    requires Wired(l, bs) && x < |bs| && Holds(bs[x], e.key)
    ensures Wired(l, WithSlot(bs, x, Some(e)))
  {
  }

  lemma OverwriteSlot<K, V>(
    bs: seq<Bucket<K, V>>, bs': seq<Bucket<K, V>>, overflow: seq<Entry<K, V>>, m: map<K, V>, x: nat, e: Entry<K, V>)
    requires Represents(bs, overflow, m) && x < |bs| && SameBut(bs, bs', x)
    requires Holds(bs[x], e.key) && bs'[x].slot == Some(e)
    ensures Represents(bs', overflow, m[e.key := e.value])
  {
    var m' := m[e.key := e.value];
    forall a, b | 0 <= a < |bs'| && 0 <= b < |bs'| && a != b ensures Differ(bs'[a], bs'[b]) {
      assert Differ(bs[a], bs[b]);
    }
    forall a, j | 0 <= a < |bs'| && 0 <= j < |overflow| ensures Lacks(bs'[a], overflow[j]) {
      assert Lacks(bs[a], overflow[j]);
    }
    OthersKept(bs, overflow, m, x);
    forall k | k in m' ensures InBuckets(bs', k) || InOverflow(overflow, k) {
      if InBuckets(bs, k) {
        var y :| 0 <= y < |bs| && Holds(bs[y], k);
        assert Holds(bs'[y], k);
      }
    }
  }

  lemma AssignOverflowKeepsInvariant<K, V>(
    l: Layout<K>, bs: seq<Bucket<K, V>>, overflow: seq<Entry<K, V>>, m: map<K, V>, p: nat, e: Entry<K, V>)
    requires Invariant(l, bs, overflow, m) && p < |overflow| && overflow[p].key == e.key
    ensures Invariant(l, bs, overflow[p := e], m[e.key := e.value])
  {
    var overflow', m' := overflow[p := e], m[e.key := e.value];
    forall b | 0 <= b < |bs| ensures bs[b].hasOverflow <==> Overflows(l, overflow', b) {
      if Overflows(l, overflow, b) {
        var j :| 0 <= j < |overflow| && l.home(overflow[j].key) == b;
        assert overflow'[j].key == overflow[j].key;
      }
    }
    OverwriteOverflow(bs, overflow, m, p, e);
  }

  lemma OverwriteOverflow<K, V>(bs: seq<Bucket<K, V>>, overflow: seq<Entry<K, V>>, m: map<K, V>, p: nat, e: Entry<K, V>)
    requires Represents(bs, overflow, m) && p < |overflow| && overflow[p].key == e.key
    ensures Represents(bs, overflow[p := e], m[e.key := e.value])
  {
    var overflow', m' := overflow[p := e], m[e.key := e.value];
    forall a, j | 0 <= a < |bs| && 0 <= j < |overflow'| ensures Lacks(bs[a], overflow'[j]) {
      assert Lacks(bs[a], overflow[j]);
    }
    forall i, j | 0 <= i < |overflow'| && 0 <= j < |overflow'| && i != j ensures OtherKey(overflow'[i], overflow'[j]) {
      assert OtherKey(overflow[i], overflow[j]);
    }
    forall j | 0 <= j < |overflow'| ensures Maps(m', overflow'[j]) {
      assert j != p ==> OtherKey(overflow[j], overflow[p]);
    }
    forall a | 0 <= a < |bs| && bs[a].slot.Some? ensures Maps(m', bs[a].slot.value) {
      assert Lacks(bs[a], overflow[p]);
    }
    forall k | k in m' ensures InBuckets(bs, k) || InOverflow(overflow', k) {
      if !InBuckets(bs, k) {
        var j :| 0 <= j < |overflow| && overflow[j].key == k;
        assert overflow'[j].key == k;
      }
    }
  }

  // ----- a fresh array

  lemma {:induction false} FreshInvariant<K, V>(l: Layout<K>, bs: seq<Bucket<K, V>>)
    requires l.n > 0 && |bs| == ArrayLength(l)
    requires forall b :: 0 <= b < |bs| ==> bs[b] == EmptyBucket<K, V>(l.n)
    ensures Invariant(l, bs, [], map[]) && Entries(bs) == []
  {
    NoEntries(bs);
  }

  lemma {:induction false} NoEntries<K, V>(bs: seq<Bucket<K, V>>)
    requires forall b :: 0 <= b < |bs| ==> bs[b].slot.None?
    ensures Entries(bs) == []
  {
    if bs != [] {
      NoEntries(bs[..|bs| - 1]);
    }
  }

  // ----- iteration order

  lemma {:induction false} EntryFromSlot<K, V>(bs: seq<Bucket<K, V>>, x: nat)
    requires x < |bs| && bs[x].slot.Some?
    ensures bs[x].slot.value in Entries(bs)
  {
    var last := |bs| - 1;
    if x < last {
      EntryFromSlot(bs[..last], x);
    }
  }

  lemma {:induction false} SlotOfEntry<K, V>(bs: seq<Bucket<K, V>>, i: nat) returns (x: nat)
    requires i < |Entries(bs)|
    ensures x < |bs| && bs[x].slot == Some(Entries(bs)[i]) && i == |Entries(bs[..x])|
  {
    var last := |bs| - 1;
    if i < |Entries(bs[..last])| {
      x := SlotOfEntry(bs[..last], i);
      assert bs[..last][..x] == bs[..x];
    } else {
      x := last;
    }
  }

  lemma {:induction false} EntriesConcat<K, V>(s: seq<Bucket<K, V>>, t: seq<Bucket<K, V>>)
    ensures Entries(s + t) == Entries(s) + Entries(t)
  {
    if t == [] {
      assert s + t == s;
    } else {
      EntriesConcat(s, t[..|t| - 1]);
      assert (s + t)[..|s + t| - 1] == s + t[..|t| - 1];
    }
  }

  lemma EntriesFrom<K, V>(bs: seq<Bucket<K, V>>, x: nat)
    requires x < |bs|
    ensures bs[x].slot.None? ==> Entries(bs[x..]) == Entries(bs[x + 1..])
    ensures bs[x].slot.Some? ==> Entries(bs[x..]) == [bs[x].slot.value] + Entries(bs[x + 1..])
  {
    assert bs[x..] == [bs[x]] + bs[x + 1..];
    EntriesConcat([bs[x]], bs[x + 1..]);
    assert [bs[x]][..0] == [];
  }

  ghost predicate DistinctKeys<K, V>(es: seq<Entry<K, V>>) {
    forall i, j {:trigger OtherKey(es[i], es[j])} ::
      0 <= i < |es| && 0 <= j < |es| && i != j ==> OtherKey(es[i], es[j])
  }

  predicate OtherKey<K(==), V>(e: Entry<K, V>, f: Entry<K, V>) {
    e.key != f.key
  }

  /** Bucket order followed by the overflow list lists every entry of the map exactly once. */
  lemma {:induction false} IterationIsExact<K, V>(bs: seq<Bucket<K, V>>, overflow: seq<Entry<K, V>>, m: map<K, V>)
    requires Represents(bs, overflow, m)
    ensures var all := Entries(bs) + overflow;
            && DistinctKeys(all) && |all| == |m|
            && (forall e :: e in all ==> Maps(m, e))
            && forall k :: k in m ==> Entry(k, m[k]) in all
  {
    var all := Entries(bs) + overflow;
    DistinctEntries(bs, overflow);
    forall e | e in all ensures Maps(m, e) {
      ListedIsMapped(bs, overflow, m, e);
    }
    forall k | k in m ensures Entry(k, m[k]) in all {
      MappedIsListed(bs, overflow, m, k);
    }
    KeySetSize(all, m);
  }

  lemma {:induction false} ListedIsMapped<K, V>(
    bs: seq<Bucket<K, V>>, overflow: seq<Entry<K, V>>, m: map<K, V>, e: Entry<K, V>)
    requires Represents(bs, overflow, m) && e in Entries(bs) + overflow
    ensures Maps(m, e)
  {
    var all := Entries(bs) + overflow;
    var i :| 0 <= i < |all| && all[i] == e;
    if i < |Entries(bs)| {
      var x := SlotOfEntry(bs, i);
    } else {
      assert e == overflow[i - |Entries(bs)|];
    }
  }

  lemma {:induction false} MappedIsListed<K, V>(bs: seq<Bucket<K, V>>, overflow: seq<Entry<K, V>>, m: map<K, V>, k: K)
    requires Represents(bs, overflow, m) && k in m
    ensures Entry(k, m[k]) in Entries(bs) + overflow
  {
    if InBuckets(bs, k) {
      var x :| 0 <= x < |bs| && Holds(bs[x], k);
      EntryFromSlot(bs, x);
    }
  }

  lemma {:induction false} DistinctEntries<K, V>(bs: seq<Bucket<K, V>>, overflow: seq<Entry<K, V>>)
    requires Unique(bs, overflow)
    ensures DistinctKeys(Entries(bs) + overflow)
  {
    var es := Entries(bs);
    var all := es + overflow;
    forall i, j | 0 <= i < j < |all| ensures OtherKey(all[i], all[j]) && OtherKey(all[j], all[i]) {
      if i < |es| {
        var x := SlotOfEntry(bs, i);
        if j < |es| {
          var y := SlotOfEntry(bs, j);
          assert Differ(bs[x], bs[y]);
        } else {
          assert all[j] == overflow[j - |es|] && Lacks(bs[x], overflow[j - |es|]);
        }
      } else {
        assert all[i] == overflow[i - |es|] && all[j] == overflow[j - |es|];
        assert OtherKey(overflow[i - |es|], overflow[j - |es|]);
      }
    }
  }

  lemma {:induction false} KeySetSize<K, V>(es: seq<Entry<K, V>>, m: map<K, V>)
    requires DistinctKeys(es)
    requires forall e :: e in es ==> Maps(m, e)
    requires forall k :: k in m ==> Entry(k, m[k]) in es
    ensures |es| == |m|
  {
    if es == [] {
      assert m == map[];
    } else {
      var last := es[|es| - 1];
      assert Maps(m, last);
      var rest, m' := es[..|es| - 1], m - {last.key};
      WithoutLast(es, m);
      KeySetSize(rest, m');
      assert m == m'[last.key := last.value];
    }
  }

  lemma {:induction false} WithoutLast<K, V>(es: seq<Entry<K, V>>, m: map<K, V>)
    requires es != [] && DistinctKeys(es)
    requires forall e :: e in es ==> Maps(m, e)
    requires forall k :: k in m ==> Entry(k, m[k]) in es
    ensures var rest, m' := es[..|es| - 1], m - {es[|es| - 1].key};
            && DistinctKeys(rest) && (forall e :: e in rest ==> Maps(m', e))
            && forall k :: k in m' ==> Entry(k, m'[k]) in rest
  {
    var last := es[|es| - 1];
    var rest, m' := es[..|es| - 1], m - {last.key};
    forall k | k in m' ensures Entry(k, m'[k]) in rest {
      var i :| 0 <= i < |es| && es[i] == Entry(k, m[k]);
      assert rest[i] == es[i];
    }
    forall e | e in rest ensures Maps(m', e) {
      var i :| 0 <= i < |rest| && rest[i] == e;
      assert es[i] == e && e in es && OtherKey(es[i], last);
    }
    forall i, j | 0 <= i < |rest| && 0 <= j < |rest| && i != j ensures OtherKey(rest[i], rest[j]) {
      assert OtherKey(es[i], es[j]);
    }
  }

  /** The map that inserting a list of entries one after the other builds. */
  ghost function ToMap<K, V>(es: seq<Entry<K, V>>): (m: map<K, V>) {
    if es == [] then map[] else ToMap(es[..|es| - 1])[es[|es| - 1].key := es[|es| - 1].value]
  }

  lemma {:induction false} ToMapKeys<K, V>(es: seq<Entry<K, V>>, k: K)
    ensures k in ToMap(es) <==> InOverflow(es, k)
  {
    if es != [] {
      ToMapKeys(es[..|es| - 1], k);
      if InOverflow(es[..|es| - 1], k) {
        var j :| 0 <= j < |es| - 1 && es[..|es| - 1][j].key == k;
        assert es[j].key == k;
      }
    }
  }

  lemma {:induction false} ToMapValues<K, V>(es: seq<Entry<K, V>>, j: nat)
    requires DistinctKeys(es) && j < |es|
    ensures Maps(ToMap(es), es[j])
  {
    if j < |es| - 1 {
      var rest := es[..|es| - 1];
      PrefixDistinct(rest, es[|es| - 1..]);
      ToMapValues(rest, j);
      assert OtherKey(es[j], es[|es| - 1]);
    }
  }

  /** A list without repeated keys builds exactly the map whose entries it lists, in any order. */
  lemma {:induction false} ToMapIsExact<K, V>(es: seq<Entry<K, V>>, m: map<K, V>)
    requires DistinctKeys(es)
    requires forall e :: e in es ==> Maps(m, e)
    requires forall k :: k in m ==> Entry(k, m[k]) in es
    ensures ToMap(es) == m
  {
    forall k | k in ToMap(es) ensures k in m {
      ToMapKeys(es, k);
      var j :| 0 <= j < |es| && es[j].key == k;
      assert es[j] in es;
    }
    forall k | k in m ensures k in ToMap(es) {
      ToMapKeys(es, k);
      var j :| 0 <= j < |es| && es[j] == Entry(k, m[k]);
      assert es[j].key == k;
    }
    forall k | k in m ensures ToMap(es)[k] == m[k] {
      var j :| 0 <= j < |es| && es[j] == Entry(k, m[k]);
      ToMapValues(es, j);
    }
  }

  lemma {:induction false} NothingStored<K, V>(bs: seq<Bucket<K, V>>, overflow: seq<Entry<K, V>>)
    requires Represents(bs, overflow, map[])
    ensures overflow == [] && Entries(bs) == [] && forall b :: 0 <= b < |bs| ==> bs[b].slot.None?
  {
    assert |overflow| > 0 ==> Maps<K, V>(map[], overflow[0]);
    NoEntries(bs);
  }

  lemma {:induction false} ToMapSize<K, V>(es: seq<Entry<K, V>>)
    requires DistinctKeys(es)
    ensures |ToMap(es)| == |es|
  {
    forall e | e in es ensures Maps(ToMap(es), e) {
      var j :| 0 <= j < |es| && es[j] == e;
      ToMapValues(es, j);
    }
    forall k | k in ToMap(es) ensures Entry(k, ToMap(es)[k]) in es {
      ToMapKeys(es, k);
      var j :| 0 <= j < |es| && es[j].key == k;
      ToMapValues(es, j);
    }
    KeySetSize(es, ToMap(es));
  }

  lemma {:induction false} RepresentsToMap<K, V>(bs: seq<Bucket<K, V>>, overflow: seq<Entry<K, V>>, m: map<K, V>)
    requires Represents(bs, overflow, m)
    ensures DistinctKeys(Entries(bs) + overflow) && ToMap(Entries(bs) + overflow) == m
    ensures DistinctKeys(overflow + Entries(bs)) && ToMap(overflow + Entries(bs)) == m
  {
    IterationIsExact(bs, overflow, m);
    ToMapIsExact(Entries(bs) + overflow, m);
    DistinctSwapped(Entries(bs), overflow);
    ToMapIsExact(overflow + Entries(bs), m);
  }

  lemma DistinctSwapped<K, V>(s: seq<Entry<K, V>>, t: seq<Entry<K, V>>)
    requires DistinctKeys(s + t)
    ensures DistinctKeys(t + s) && forall e :: e in t + s <==> e in s + t
  {
    var all, swapped := s + t, t + s;
    forall i, j | 0 <= i < |swapped| && 0 <= j < |swapped| && i != j ensures OtherKey(swapped[i], swapped[j]) {
      assert swapped[i] == all[if i < |t| then |s| + i else i - |t|];
      assert swapped[j] == all[if j < |t| then |s| + j else j - |t|];
      assert OtherKey(all[if i < |t| then |s| + i else i - |t|], all[if j < |t| then |s| + j else j - |t|]);
    }
  }

  /** Only the overflow list is filled, and only its homes are flagged. */
  lemma {:induction false} OverflowOnly<K, V>(l: Layout<K>, bs: seq<Bucket<K, V>>, list: seq<Entry<K, V>>)
    requires Wired(l, bs) && Flagged(l, bs, list) && DistinctKeys(list)
    requires forall b :: 0 <= b < |bs| ==> bs[b].slot.None?
    ensures Invariant(l, bs, list, ToMap(list)) && Entries(bs) == []
  {
    NoEntries(bs);
    forall j | 0 <= j < |list| ensures Maps(ToMap(list), list[j]) {
      ToMapValues(list, j);
    }
    forall k | k in ToMap(list) ensures InOverflow(list, k) {
      ToMapKeys(list, k);
    }
  }

  lemma FlagForOneMore<K, V>(l: Layout<K>, bs: seq<Bucket<K, V>>, list: seq<Entry<K, V>>, e: Entry<K, V>)
    requires Flagged(l, bs, list) && l.home(e.key) < |bs|
    ensures Flagged(l, WithFlag(bs, l.home(e.key), true), list + [e])
  {
    forall b | 0 <= b < |bs| {
      OverflowsAppend(l, list, e, b);
    }
  }

  /** One step of a loop over the buckets, seen from the list of entries. */
  lemma ExtendEntries<K, V>(list: seq<Entry<K, V>>, bs: seq<Bucket<K, V>>, x: nat)
    requires x < |bs| && DistinctKeys(list + Entries(bs))
    ensures bs[x].slot.None? ==> Entries(bs[..x + 1]) == Entries(bs[..x])
    ensures bs[x].slot.Some? ==> |ToMap(list + Entries(bs[..x]))| < |list + Entries(bs)|
    ensures bs[x].slot.Some? ==>
              var e, m := bs[x].slot.value, ToMap(list + Entries(bs[..x]));
              e.key !in m && ToMap(list + Entries(bs[..x + 1])) == m[e.key := e.value]
  {
    assert bs[..x + 1][..x] == bs[..x];
    if bs[x].slot.Some? {
      var e := bs[x].slot.value;
      var before := list + Entries(bs[..x]);
      assert list + Entries(bs[..x + 1]) == before + [e];
      EntriesPrefix(bs, x + 1);
      assert before + [e] <= list + Entries(bs);
      LastIsNew(before, e);
      ToMapSize(before);
    }
  }

  lemma {:induction false} ExtendOverflow<K, V>(list: seq<Entry<K, V>>, overflow: seq<Entry<K, V>>, j: nat)
    requires j < |overflow| && DistinctKeys(list + overflow)
    ensures var e, m := overflow[j], ToMap(list + overflow[..j]);
            && e.key !in m && |m| < |list + overflow|
            && ToMap(list + overflow[..j + 1]) == m[e.key := e.value]
  {
    var before := list + overflow[..j];
    assert list + overflow[..j + 1] == before + [overflow[j]];
    assert before + [overflow[j]] <= list + overflow;
    LastIsNew(before, overflow[j]);
    ToMapSize(before);
  }

  lemma {:induction false} LastIsNew<K, V>(before: seq<Entry<K, V>>, e: Entry<K, V>)
    requires DistinctKeys(before + [e])
    ensures e.key !in ToMap(before) && ToMap(before + [e]) == ToMap(before)[e.key := e.value]
  {
    var all := before + [e];
    assert all[..|all| - 1] == before;
    ToMapKeys(before, e.key);
    forall j | 0 <= j < |before| ensures before[j].key != e.key {
      assert all[j] == before[j] && all[|before|] == e && OtherKey(all[j], all[|before|]);
    }
  }

  lemma {:induction false} EntriesPrefix<K, V>(bs: seq<Bucket<K, V>>, x: nat)
    requires x <= |bs|
    ensures Entries(bs[..x]) <= Entries(bs)
  {
    if x < |bs| {
      EntriesPrefix(bs[..|bs| - 1], x);
      assert bs[..|bs| - 1][..x] == bs[..x];
    } else {
      assert bs[..x] == bs;
    }
  }

  lemma PrefixDistinct<K, V>(es: seq<Entry<K, V>>, rest: seq<Entry<K, V>>)
    requires DistinctKeys(es + rest)
    ensures DistinctKeys(es) && DistinctKeys([] + es)
  {
    assert es <= es + rest && [] + es == es;
  }

  // ----- searching and displacing

  lemma NoneAfter(bits: seq<bool>, k: nat)
    requires k <= |bits| && true !in bits[k..]
    ensures forall i :: k <= i < |bits| ==> !bits[i]
  {
    forall i | k <= i < |bits| ensures !bits[i] {
      assert bits[k..][i - k] == bits[i];
    }
  }

  /** Follows the set bits of the home bucket: finds the key if and only if some bucket holds it. */
  method FindInNeighborhood<K(==), V>(ghost l: Layout<K>, bs: seq<Bucket<K, V>>, home: nat, key: K)
    returns (r: Option<nat>)
    requires Wired(l, bs) && l.home(key) == home < l.count
    ensures r.Some? ==> r.value < |bs| && Holds(bs[r.value], key)
    ensures r.None? ==> !InBuckets(bs, key)
  {
    var infos, x := bs[home].neighbors, home;
    while true in infos
      invariant home <= x <= home + l.n && infos == bs[home].neighbors[x - home..]
      invariant forall y :: home <= y < x ==> !Holds(bs[y], key)
      decreases |infos|
    {
      assert infos[0] == bs[home].neighbors[x - home];
      assert home + (x - home) == x;
      if infos[0] && bs[x].slot.value.key == key {
        return Some(x);
      }
      x := x + 1;
      infos := infos[1..];
    }
    r := None;
    NoneAfter(bs[home].neighbors, x - home);
    forall y | 0 <= y < |bs| ensures !Holds(bs[y], key) {
      ClaimedOnce(l, bs, y);
    }
  }

  /** The first empty bucket within `probes` buckets from `start`, or the length of the array. */
  method FindEmptyBucket<K, V>(bs: seq<Bucket<K, V>>, start: nat, probes: nat) returns (r: nat)
    requires start <= |bs|
    ensures start <= r <= |bs|
    ensures r < |bs| ==> bs[r].slot.None? && r < start + probes
    ensures forall y :: start <= y < r && (r < |bs| || y < start + probes) ==> bs[y].slot.Some?
  {
    var limit := if start + probes < |bs| then start + probes else |bs|;
    r := start;
    while r < limit
      invariant start <= r <= limit
      invariant forall y :: start <= y < r ==> bs[y].slot.Some?
    {
      if bs[r].slot.None? {
        return;
      }
      r := r + 1;
    }
    r := |bs|;
  }

  /** The value in bucket `from` may move to the empty bucket `to`: it keeps its home in reach. */
  ghost predicate Movable<K, V>(l: Layout<K>, bs: seq<Bucket<K, V>>, from: nat, to: nat) {
    && from < to < |bs| && bs[from].slot.Some?
    && to < l.home(bs[from].slot.value.key) + l.n
  }

  /** Of the values that may move to the empty bucket, the one in bucket `from` has the lowest home, and of
      those of that home it is the first. */
  ghost predicate MovesFirst<K, V>(l: Layout<K>, bs: seq<Bucket<K, V>>, from: nat, to: nat, home: nat) {
    && Movable(l, bs, from, to) && l.home(bs[from].slot.value.key) == home
    && home <= from && to - home < |bs[home].neighbors|
    && forall other: nat {:trigger Movable(l, bs, other, to)} :: Movable(l, bs, other, to) ==>
         var h := l.home(bs[other].slot.value.key); home < h || (home == h && from <= other)
  }

  /** Looks for a value that may move into the empty bucket, and moves the first there is. Gives up exactly
      when no value may move. */
  method SwapEmptyBucketCloser<K, V>(ghost l: Layout<K>, bs: seq<Bucket<K, V>>, n: nat, empty: nat)
    returns (swapped: bool, r: seq<Bucket<K, V>>, empty': nat, ghost home: nat)
    requires Wired(l, bs) && n == l.n <= empty < |bs| && bs[empty].slot.None?
    ensures !swapped ==> r == bs && empty' == empty && forall from: nat :: !Movable(l, bs, from, empty)
    ensures swapped ==>
              && empty - n < home <= empty' < empty && Belongs(l, bs[empty'], home)
              && r == Move(bs, empty', empty, home) && MovesFirst(l, bs, empty', empty, home)
  {
    var check := empty - n + 1;
    while check < empty
      invariant empty - n < check <= empty
      invariant forall b, i :: empty - n < b < check && 0 <= i < n && b + i < empty ==> !bs[b].neighbors[i]
    {
      var infos, swap := bs[check].neighbors, check;
      while true in infos && swap < empty
        invariant check <= swap <= empty && swap <= check + n && infos == bs[check].neighbors[swap - check..]
        invariant forall i :: 0 <= i < swap - check ==> !bs[check].neighbors[i]
        decreases |infos|
      {
        assert infos[0] == bs[check].neighbors[swap - check];
        assert check + (swap - check) == swap;
        if infos[0] {
          home := check;
          FirstInScan(l, bs, check, swap, empty);
          return true, Move(bs, swap, empty, check), swap, check;
        }
        swap := swap + 1;
        infos := infos[1..];
      }
      if swap < empty {
        NoneAfter(bs[check].neighbors, swap - check);
      }
      check := check + 1;
    }
    swapped, r, empty', home := false, bs, empty, 0;
    forall from: nat ensures !Movable(l, bs, from, empty) {
      if from < |bs| {
        ClaimedOnce(l, bs, from);
      }
    }
  }

  lemma {:induction false} FirstInScan<K, V>(l: Layout<K>, bs: seq<Bucket<K, V>>, check: nat, swap: nat, empty: nat)
    requires Wired(l, bs) && l.n <= empty < |bs| && empty - l.n < check <= swap < empty
    requires bs[check].neighbors[swap - check]
    requires forall b, i :: empty - l.n < b < check && 0 <= i < l.n && b + i < empty ==> !bs[b].neighbors[i]
    requires forall i :: 0 <= i < swap - check ==> !bs[check].neighbors[i]
    ensures MovesFirst(l, bs, swap, empty, check)
  {
    assert check + (swap - check) == swap;
    forall other: nat | Movable(l, bs, other, empty)
      ensures var h := l.home(bs[other].slot.value.key); check < h || (check == h && swap <= other)
    {
      ClaimedOnce(l, bs, other);
    }
  }

  ghost predicate SomeMoves<K, V>(l: Layout<K>, bs: seq<Bucket<K, V>>, to: nat) {
    exists from: nat, home: nat :: MovesFirst(l, bs, from, to, home)
  }

  /** The bucket of the value that moves first, and its home. */
  ghost function FirstMove<K, V>(l: Layout<K>, bs: seq<Bucket<K, V>>, to: nat): (r: (nat, nat))
    requires SomeMoves(l, bs, to)
    ensures MovesFirst(l, bs, r.0, to, r.1)
  {
    var from: nat, home: nat :| MovesFirst(l, bs, from, to, home);
    (from, home)
  }

  /** Moving values, the first possible one at a time, brings the empty bucket x into the reach of `home`. */
  ghost predicate Relievable<K, V>(l: Layout<K>, bs: seq<Bucket<K, V>>, home: nat, x: nat)
    decreases x
  {
    || x < home + l.n
    || (SomeMoves(l, bs, x) &&
        var (from, h) := FirstMove(l, bs, x);
        Relievable(l, Move(bs, from, x, h), home, from))
  }

  /** One move more or less does not change whether the empty bucket gets into reach. */
  lemma {:induction false} RelievableStep<K, V>(
    l: Layout<K>, bs: seq<Bucket<K, V>>, home: nat, x: nat, from: nat, h: nat)
    requires home + l.n <= x && MovesFirst(l, bs, from, x, h)
    ensures Relievable(l, bs, home, x) <==> Relievable(l, Move(bs, from, x, h), home, from)
  {
    var (from', h') := FirstMove(l, bs, x);
    OneMovesFirst(l, bs, from, from', x, h, h');
  }

  lemma {:induction false} OneMovesFirst<K, V>(
    l: Layout<K>, bs: seq<Bucket<K, V>>, from: nat, from': nat, to: nat, home: nat, home': nat)
    requires MovesFirst(l, bs, from, to, home) && MovesFirst(l, bs, from', to, home')
    ensures from == from' && home == home'
  {
    assert Movable(l, bs, from, to) && Movable(l, bs, from', to);
  }

  /** The bucket x is the first empty one from `home` on, and the probe gets as far as that. */
  ghost predicate FirstEmpty<K, V>(bs: seq<Bucket<K, V>>, home: nat, probes: nat, x: nat) {
    && home <= x < |bs| && x < home + probes && bs[x].slot.None?
    && forall y :: home <= y < x ==> bs[y].slot.Some?
  }

  /** A value can be stored near its home: the first empty bucket is probed and can be brought into reach. */
  ghost predicate HasPlace<K, V>(l: Layout<K>, bs: seq<Bucket<K, V>>, home: nat) {
    exists x: nat :: FirstEmpty(bs, home, 12 * l.n, x) && Relievable(l, bs, home, x)
  }

  /** All n buckets from `home` on are occupied. */
  ghost predicate Full<K, V>(bs: seq<Bucket<K, V>>, n: nat, home: nat) {
    home + n <= |bs| && forall y :: home <= y < home + n ==> bs[y].slot.Some?
  }

  /** The n buckets from `home` on hold what they held. */
  ghost predicate KeepsSlots<K, V>(bs: seq<Bucket<K, V>>, r: seq<Bucket<K, V>>, home: nat, n: int) {
    |r| == |bs| && forall y :: home <= y < home + n && y < |bs| ==> r[y].slot == bs[y].slot
  }

  lemma {:induction false} FullMeansMany<K, V>(bs: seq<Bucket<K, V>>, n: nat, home: nat)
    requires Full(bs, n, home)
    ensures |Entries(bs)| >= n
  {
    var before, full, after := bs[..home], bs[home..home + n], bs[home + n..];
    assert bs == before + full + after;
    AllOccupied(full);
    EntriesConcat(before, full);
    EntriesConcat(before + full, after);
  }

  lemma {:induction false} AllOccupied<K, V>(bs: seq<Bucket<K, V>>)
    requires forall y :: 0 <= y < |bs| ==> bs[y].slot.Some?
    ensures |Entries(bs)| == |bs|
  {
    if bs != [] {
      AllOccupied(bs[..|bs| - 1]);
    }
  }

  /** No empty bucket is probed, or there is one out of reach into which no value may move. */
  ghost predicate Unrelieved<K, V>(l: Layout<K>, bs: seq<Bucket<K, V>>, home: nat) {
    || (forall y :: home <= y < home + 12 * l.n && y < |bs| ==> bs[y].slot.Some?)
    || exists x: nat :: Blocked(l, bs, home, x)
  }

  ghost predicate Blocked<K, V>(l: Layout<K>, bs: seq<Bucket<K, V>>, home: nat, x: nat) {
    home + l.n <= x < |bs| && bs[x].slot.None? && forall from: nat :: !Movable(l, bs, from, x)
  }

  /** The array r on the way from bs, where `empty` is the first empty bucket from `home` on: the bucket x is
      now, and gets into reach exactly when `empty` does. */
  ghost predicate Displacing<K, V>(
    l: Layout<K>, bs: seq<Bucket<K, V>>, r: seq<Bucket<K, V>>, home: nat, empty: nat, x: nat)
  {
    && home <= x <= empty < |bs| == |r| && r[x].slot.None? && (empty - home >= l.n ==> home < x)
    && (forall y :: home <= y < x ==> r[y].slot.Some?)
    && (Relievable(l, r, home, x) <==> Relievable(l, bs, home, empty))
    && KeepsSlots(bs, r, home, x - home) && (empty - home < l.n ==> r == bs && x == empty)
  }

  lemma {:induction false} DisplacingStep<K, V>(
    l: Layout<K>, bs: seq<Bucket<K, V>>, r: seq<Bucket<K, V>>, home: nat, empty: nat, x: nat, x': nat, owner: nat)
    requires Displacing(l, bs, r, home, empty, x) && x - home >= l.n
    requires x - l.n < owner && MovesFirst(l, r, x', x, owner)
    ensures Displacing(l, bs, Move(r, x', x, owner), home, empty, x')
  {
    RelievableStep(l, r, home, x, x', owner);
    MoveMovesSlot(r, x', x, owner);
  }

  /** Moves an empty bucket towards the home until it is in reach, never to or past the home; each time the
      first value that may move. It fails when none may, and then the whole neighbourhood of the home is
      occupied, as it was. */
  method Displace<K, V>(
    ghost l: Layout<K>, bs: seq<Bucket<K, V>>, ghost overflow: seq<Entry<K, V>>, ghost m: map<K, V>, n: nat,
    home: nat, empty: nat)
    returns (found: bool, r: seq<Bucket<K, V>>, x: nat)
    requires Invariant(l, bs, overflow, m) && n == l.n
    requires home <= empty < |bs| && bs[empty].slot.None?
    requires forall y :: home <= y < empty ==> bs[y].slot.Some?
    ensures Invariant(l, r, overflow, m) && |Entries(r)| == |Entries(bs)|
    ensures found <==> Relievable(l, bs, home, empty)
    ensures Displacing(l, bs, r, home, empty, x) && (found <==> x - home < n)
    ensures !found ==> forall from: nat :: !Movable(l, r, from, x)
  {
    r, x := bs, empty;
    while x - home >= n
      invariant Displacing(l, bs, r, home, empty, x)
      invariant Invariant(l, r, overflow, m) && |Entries(r)| == |Entries(bs)|
      decreases x
    {
      var swapped, moved, x';
      ghost var owner;
      swapped, moved, x', owner := SwapEmptyBucketCloser(l, r, n, x);
      if !swapped {
        NoneMoves(l, r, x);
        return false, r, x;
      }
      DisplacingStep(l, bs, r, home, empty, x, x', owner);
      MoveKeepsInvariant(l, r, overflow, m, x', x, owner);
      r, x := moved, x';
    }
    found := true;
  }

  lemma {:induction false} NoneMoves<K, V>(l: Layout<K>, bs: seq<Bucket<K, V>>, to: nat)
    requires forall from: nat :: !Movable(l, bs, from, to)
    ensures !SomeMoves(l, bs, to)
  {
  }

  /** Stores an entry in the neighbourhood of its home if that is not full or can be relieved. */
  method InsertNearHome<K, V>(
    ghost l: Layout<K>, bs: seq<Bucket<K, V>>, ghost overflow: seq<Entry<K, V>>, ghost m: map<K, V>, n: nat,
    home: nat, e: Entry<K, V>)
    returns (stored: bool, r: seq<Bucket<K, V>>, x: nat)
    requires Invariant(l, bs, overflow, m) && n == l.n && l.home(e.key) == home < l.count && e.key !in m
    ensures stored ==> Invariant(l, r, overflow, m[e.key := e.value]) && |Entries(r)| == |Entries(bs)| + 1
    ensures stored ==> x < |r| && r[x].slot == Some(e)
    ensures !stored ==> Invariant(l, r, overflow, m) && |Entries(r)| == |Entries(bs)|
    ensures !stored ==> Full(bs, n, home) && Full(r, n, home) && KeepsSlots(bs, r, home, n)
    ensures stored <==> HasPlace(l, bs, home)
    ensures !stored ==> Unrelieved(l, r, home)
  {
    var empty := FindEmptyBucket(bs, home, 12 * n);
    if empty == |bs| {
      NothingEmpty(l, bs, home);
      return false, bs, empty;
    }
    stored, r, x := Displace(l, bs, overflow, m, n, home, empty);
    PlaceIsFirst(l, bs, home, empty);
    if stored {
      PlaceKeepsInvariant(l, r, overflow, m, x, home, e);
      r := Place(r, x, home, e);
    } else {
      StaysFull(l, bs, r, home, empty, x);
    }
  }

  lemma {:induction false} NothingEmpty<K, V>(l: Layout<K>, bs: seq<Bucket<K, V>>, home: nat)
    requires Sized(l, bs) && home < l.count
    requires forall y :: home <= y < home + 12 * l.n && y < |bs| ==> bs[y].slot.Some?
    ensures Full(bs, l.n, home) && !HasPlace(l, bs, home) && Unrelieved(l, bs, home)
  {
  }

  lemma {:induction false} PlaceIsFirst<K, V>(l: Layout<K>, bs: seq<Bucket<K, V>>, home: nat, empty: nat)
    requires FirstEmpty(bs, home, 12 * l.n, empty)
    ensures HasPlace(l, bs, home) <==> Relievable(l, bs, home, empty)
  {
    forall x: nat | FirstEmpty(bs, home, 12 * l.n, x) ensures x == empty {
    }
  }

  lemma {:induction false} StaysFull<K, V>(
    l: Layout<K>, bs: seq<Bucket<K, V>>, r: seq<Bucket<K, V>>, home: nat, empty: nat, x: nat)
    requires Displacing(l, bs, r, home, empty, x) && home + l.n <= x
    requires forall from: nat :: !Movable(l, r, from, x)
    ensures Full(bs, l.n, home) && Full(r, l.n, home) && KeepsSlots(bs, r, home, l.n) && Unrelieved(l, r, home)
  {
    assert Blocked(l, r, home, x);
    forall y | home <= y < home + l.n ensures bs[y].slot.Some? {
      assert r[y].slot == bs[y].slot;
    }
  }

  /** Flags the homes of a list of entries in an array without values. */
  method FlagHomes<K, V>(l: Layout<K>, bs: seq<Bucket<K, V>>, list: seq<Entry<K, V>>) returns (r: seq<Bucket<K, V>>)
    requires Wired(l, bs) && Flagged<K, V>(l, bs, [])
    requires forall b :: 0 <= b < |bs| ==> bs[b].slot.None?
    requires forall j :: 0 <= j < |list| ==> l.home(list[j].key) < |bs|
    ensures Wired(l, r) && Flagged(l, r, list)
    ensures forall b :: 0 <= b < |r| ==> r[b].slot.None?
  {
    r := bs;
    var j := 0;
    while j < |list|
      invariant j <= |list| && |r| == |bs|
      invariant Wired(l, r) && Flagged(l, r, list[..j])
      invariant forall b :: 0 <= b < |r| ==> r[b].slot.None?
    {
      var home := l.home(list[j].key);
      assert list[..j + 1] == list[..j] + [list[j]];
      FlagKeepsWiring(l, r, home, true);
      FlagForOneMore(l, r, list[..j], list[j]);
      r := WithFlag(r, home, true);
      j := j + 1;
    }
    assert list[..j] == list;
  }

  /** The first occupied bucket from x on, or the end of the array. */
  method SkipEmpty<K, V>(bs: seq<Bucket<K, V>>, start: nat) returns (x: nat)
    requires start <= |bs|
    ensures start <= x <= |bs| && (x < |bs| ==> bs[x].slot.Some?)
    ensures Entries(bs[x..]) == Entries(bs[start..])
  {
    x := start;
    while x != |bs| && bs[x].slot.None?
      invariant start <= x <= |bs|
      invariant Entries(bs[x..]) == Entries(bs[start..])
    {
      EntriesFrom(bs, x);
      x := x + 1;
    }
  }
}
