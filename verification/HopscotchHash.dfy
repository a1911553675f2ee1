/** The hopscotch hash table: lookup, displacement, insertion, growth, erasure and iteration. */
module HopscotchHash {
  import opened GrowthPolicy
  import opened HopscotchBuckets
  import opened Words
  import opened Wrappers

  /** What a table is instantiated with. `maxSize` is the limit of the bucket vector. */
  datatype Config<!K> = Config(hash: K -> nat, n: nat, policy: Policy, maxSize: nat, nothrowMove: bool) {

    predicate Valid() {
      && 4 <= n <= 62
      && policy.Valid()
      && n <= policy.MaxCount() && n <= maxSize
    }

    function MaxBuckets(): (r: nat)
      requires Valid()
    {
      (if policy.MaxCount() < maxSize then policy.MaxCount() else maxSize) - n + 1
    }

    /** How many buckets a table may still gain. */
    function Spare(count: nat): (r: nat) {
      if Valid() && count <= MaxBuckets() then MaxBuckets() - count else 0
    }

    /** The bucket count that a table constructed with `min` gets, unless it is refused. */
    function Settle(min: nat): (r: Option<nat>)
      requires Valid()
    {
      match policy.Create(min)
      case None => None
      case Some(count) => if count > MaxBuckets() then None else Some(count)
    }

    function LayoutFor(count: nat): (l: Layout<K>) {
      Layout((k: K) => BucketFor(count, hash(k)), n, count)
    }
  }

  /** The array for that many buckets, with the tail of the last neighbourhood, is within both limits. */
  ghost predicate ArrayFits<K>(config: Config<K>, count: nat)
    requires config.Valid()
  {
    count > 0 ==> count + config.n - 1 <= config.maxSize && count + config.n - 1 <= config.policy.MaxCount()
  }

  /** A request settles on the least count of the policy whose array fits, or is refused as there is none. */
  lemma {:induction false} SettleIsLeast<K>(config: Config<K>, min: nat)
    requires config.Valid()
    ensures match config.Settle(min)
            case Some(count) =>
              && config.policy.IsCount(count) && min <= count && ArrayFits(config, count)
              && forall c: nat :: config.policy.IsCount(c) && min <= c ==> count <= c
            case None => forall c: nat :: config.policy.IsCount(c) && min <= c ==> !ArrayFits(config, c)
  {
    CreateIsLeast(config.policy, min);
  }

  /** The load thresholds as functions of the bucket count, and the bucket count needed for a number
      of elements. Nothing but the two facts of Valid is assumed about the arithmetic behind them. */
  datatype Load = Load(minThreshold: nat -> nat, maxThreshold: nat -> nat, bucketsFor: nat -> nat) {

    ghost predicate Valid() {
      && maxThreshold(0) == 0
      && forall size: nat :: size > 0 ==> bucketsFor(size) > 0
    }

    /** A table with `count` buckets takes `total` elements without ever growing. */
    predicate Roomy(count: nat, total: nat) {
      total <= maxThreshold(count) && total <= minThreshold(count)
    }
  }

  // ----- when a table cannot grow

  /** Growing a table with `count` buckets and `size` elements is refused: the policy has no larger count,
      or no admissible count is large enough. */
  predicate GrowthRefused<K>(config: Config<K>, load: Load, count: nat, size: nat)
    requires config.Valid()
  {
    var next := config.policy.Next(count);
    next.None? || RehashRefused(config, load, next.value, size)
  }

  /** There is no admissible count for a rehash to `count` buckets of a table with `size` elements. */
  predicate RehashRefused<K>(config: Config<K>, load: Load, count: nat, size: nat)
    requires config.Valid()
  {
    config.Settle(if count < load.bucketsFor(size) then load.bucketsFor(size) else count).None?
  }

  /** A table with `count` buckets and `size` elements may ask for more room: its load is at the upper
      threshold, or at the lower one with enough elements to fill a neighbourhood. */
  predicate WantsRoom<K>(config: Config<K>, load: Load, count: nat, size: nat) {
    load.maxThreshold(count) <= size || (load.minThreshold(count) <= size && config.n <= size)
  }

  /** Some bucket count not below `from` wants room for at most `total` elements and is refused it. */
  ghost predicate Cornered<K>(config: Config<K>, load: Load, from: nat, total: nat)
    requires config.Valid()
  {
    exists c: nat, s: nat :: Stuck(config, load, from, total, c, s)
  }

  ghost predicate Stuck<K>(config: Config<K>, load: Load, from: nat, total: nat, c: nat, s: nat)
    requires config.Valid()
  {
    && from <= c <= config.MaxBuckets() && config.policy.IsCount(c) && s <= total
    && WantsRoom(config, load, c, s) && GrowthRefused(config, load, c, s)
  }

  lemma CorneredWider<K>(config: Config<K>, load: Load, from: nat, total: nat, from': nat, total': nat)
    requires config.Valid() && Cornered(config, load, from, total) && from' <= from && total <= total'
    ensures Cornered(config, load, from', total')
  {
    var c: nat, s: nat :| Stuck(config, load, from, total, c, s);
    assert Stuck(config, load, from', total', c, s);
  }

  /** A table is never cornered by `total` elements if each count up to `top` has a next count, none of
      these is above an admissible `limit`, which is enough for the elements, and the thresholds of all
      counts above `top` are above the elements. */
  lemma {:induction false} NeverCornered<K>(config: Config<K>, load: Load, top: nat, limit: nat, total: nat)
    requires config.Valid() && config.policy.IsCount(limit) && limit <= config.MaxBuckets()
    requires forall c: nat :: c <= top && config.policy.IsCount(c) ==> HasNextWithin(config.policy, c, limit)
    requires forall s: nat :: s <= total ==> load.bucketsFor(s) <= limit
    requires forall c: nat :: c > top && config.policy.IsCount(c) ==>
               load.maxThreshold(c) > total && load.minThreshold(c) > total
    ensures !Cornered(config, load, 0, total)
  {
    forall c: nat, s: nat ensures !Stuck(config, load, 0, total, c, s) {
      if s <= total && c <= top && config.policy.IsCount(c) {
        GrowthIsGranted(config, load, c, s, limit);
      }
    }
  }

  predicate HasNextWithin(p: Policy, count: nat, limit: nat)
    requires p.Valid()
  {
    p.Next(count).Some? && p.Next(count).value <= limit
  }

  lemma {:induction false} GrowthIsGranted<K>(config: Config<K>, load: Load, c: nat, s: nat, limit: nat)
    requires config.Valid() && config.policy.IsCount(limit) && limit <= config.MaxBuckets()
    requires HasNextWithin(config.policy, c, limit) && load.bucketsFor(s) <= limit
    ensures !GrowthRefused(config, load, c, s)
  {
    var next := config.policy.Next(c).value;
    CreateIsLeast(config.policy, if next < load.bucketsFor(s) then load.bucketsFor(s) else next);
  }

  /** For powers of two: room for the growth factor times 2^k buckets. */
  lemma {:induction false} PowersNeverCornered<K>(config: Config<K>, load: Load, k: nat, total: nat)
    requires config.Valid() && config.policy.PowerOfTwo?
    requires Pow2(k) * config.policy.growthFactor <= config.MaxBuckets()
    requires forall s: nat :: s <= total ==> load.bucketsFor(s) <= Pow2(k) * config.policy.growthFactor
    requires forall c: nat :: c > Pow2(k) ==> load.maxThreshold(c) > total && load.minThreshold(c) > total
    ensures !Cornered(config, load, 0, total)
  {
    var p, g := config.policy, config.policy.growthFactor;
    var limit := Pow2(k) * g;
    Pow2IsPow2(k);
    Pow2Product(Pow2(k), g);
    forall c: nat | c <= Pow2(k) && p.IsCount(c) ensures HasNextWithin(p, c, limit) {
      QuotientBound(Divisor(c), g, p.MaxCount());
      MulMonotone(Divisor(c), Pow2(k), g);
    }
    NeverCornered(config, load, Pow2(k), limit, total);
  }

  /** For a table of counts: room for the count behind the j-th. */
  lemma {:induction false} PrimesNeverCornered<K>(config: Config<K>, load: Load, j: nat, total: nat)
    requires config.Valid() && config.policy.Prime? && j + 1 < |config.policy.primes|
    requires config.policy.primes[j + 1] <= config.MaxBuckets()
    requires forall s: nat :: s <= total ==> load.bucketsFor(s) <= config.policy.primes[j + 1]
    requires forall c: nat :: c > config.policy.primes[j] ==>
               load.maxThreshold(c) > total && load.minThreshold(c) > total
    ensures !Cornered(config, load, 0, total)
  {
    var p := config.policy;
    forall c: nat | c <= p.primes[j] && p.IsCount(c) ensures HasNextWithin(p, c, p.primes[j + 1]) {
      NextPrime(p, c, j);
    }
    assert p.primes[j + 1] in p.primes;
    NeverCornered(config, load, p.primes[j], p.primes[j + 1], total);
  }

  lemma {:induction false} NextPrime(p: Policy, count: nat, j: nat)
    requires p.Valid() && p.Prime? && j + 1 < |p.primes| && count <= p.primes[j]
    ensures HasNextWithin(p, count, p.primes[j + 1])
  {
    var i := LowerBound(p.primes, count, 0);
    assert i <= j;
    assert i == j || p.primes[i + 1] < p.primes[j + 1];
  }

  /** `LengthError`: refused, the table is as before. `Abandoned`: a table that moves its values was
      refused more room in the middle of a rehash. */
  datatype Outcome = Done | LengthError | Abandoned

  /** An iterator: a bucket index, and an index into the overflow list once the buckets are through. */
  datatype Cursor = Cursor(bucket: nat, overflow: nat)

  // ----- what a plain finite map does, command by command

  datatype Command<+K, +V> =
    | Insert(key: K, value: V)
    | InsertOrAssign(key: K, value: V)
    | Subscript(key: K, default: V)
    | Erase(key: K)
    | Clear
    | Lookup(key: K)
    | Rehash(count: nat)
    | Reserve(count: nat)

  /** `Refused`: length error, nothing changed. `Broken`: the table was abandoned in a rehash. */
  datatype Answer<+V> = Changed(yes: bool) | Found(value: Option<V>) | Silent | Refused | Broken

  function MapStep<K(==), V>(m: map<K, V>, c: Command<K, V>): (r: (map<K, V>, Answer<V>)) {
    match c
    case Insert(k, v) => if k in m then (m, Changed(false)) else (m[k := v], Changed(true))
    case InsertOrAssign(k, v) => (m[k := v], Changed(k !in m))
    case Subscript(k, d) => if k in m then (m, Found(Some(m[k]))) else (m[k := d], Found(Some(d)))
    case Erase(k) => (m - {k}, Changed(k in m))
    case Clear => (map[], Silent)
    case Lookup(k) => (m, Found(if k in m then Some(m[k]) else None))
    case Rehash(_) => (m, Silent)
    case Reserve(_) => (m, Silent)
  }

  /** A command on a table with the contents m can fail: it stores an absent key or rehashes, and there is
      no admissible bucket count, or growth is refused at a count that wants room for these contents. */
  ghost predicate Refusable<K, V>(config: Config<K>, load: Load, m: map<K, V>, c: Command<K, V>)
    requires config.Valid()
  {
    match c
    case Insert(k, _) => k !in m && Cornered(config, load, 0, |m|)
    case InsertOrAssign(k, _) => k !in m && Cornered(config, load, 0, |m|)
    case Subscript(k, _) => k !in m && Cornered(config, load, 0, |m|)
    case Rehash(n) => RehashRefused(config, load, n, |m|) || Cornered(config, load, 0, |m|)
    case Reserve(n) => RehashRefused(config, load, load.bucketsFor(n), |m|) || Cornered(config, load, 0, |m|)
    case _ => false
  }

  /** One command: a refusal has a cause and changes nothing, any other answer is that of the plain map. */
  ghost predicate StepAgrees<K, V>(
    config: Config<K>, load: Load, m: map<K, V>, c: Command<K, V>, a: Answer<V>, m': map<K, V>)
    requires config.Valid()
  {
    if a.Refused? then m' == m && Refusable(config, load, m, c) else (m', a) == MapStep(m, c)
  }

  /** A run of the first |answers| commands through the contents ms. */
  ghost predicate RunAgrees<K, V>(
    config: Config<K>, load: Load, ms: seq<map<K, V>>, cs: seq<Command<K, V>>, answers: seq<Answer<V>>)
    requires config.Valid()
  {
    && |ms| == |answers| + 1 <= |cs| + 1
    && forall i :: 0 <= i < |answers| ==> StepAgrees(config, load, ms[i], cs[i], answers[i], ms[i + 1])
  }

  predicate NoneRefused<V>(answers: seq<Answer<V>>) {
    forall i :: 0 <= i < |answers| ==> !answers[i].Refused?
  }

  // ----- runs in which nothing can fail

  /** The number of commands that may add an entry. */
  function Additions<K, V>(cs: seq<Command<K, V>>): (n: nat) {
    if cs == [] then 0
    else
      var c := cs[|cs| - 1];
      Additions(cs[..|cs| - 1]) + if c.Insert? || c.InsertOrAssign? || c.Subscript? then 1 else 0
  }

  /** A table has room for `total` elements whatever its bucket count, and for each rehash in the run. */
  ghost predicate Accommodates<K, V>(config: Config<K>, load: Load, total: nat, cs: seq<Command<K, V>>)
    requires config.Valid()
  {
    && !Cornered(config, load, 0, total)
    && forall i, s: nat :: 0 <= i < |cs| && s <= total ==> RehashGranted(config, load, cs[i], s)
  }

  predicate RehashGranted<K, V>(config: Config<K>, load: Load, c: Command<K, V>, s: nat)
    requires config.Valid()
  {
    && (c.Rehash? ==> !RehashRefused(config, load, c.count, s))
    && (c.Reserve? ==> !RehashRefused(config, load, load.bucketsFor(c.count), s))
  }

  lemma NotRefusable<K, V>(config: Config<K>, load: Load, total: nat, cs: seq<Command<K, V>>, m: map<K, V>, i: nat)
    requires config.Valid() && Accommodates(config, load, total, cs) && i < |cs| && |m| <= total
    ensures !Refusable(config, load, m, cs[i])
  {
    if Cornered(config, load, 0, |m|) {
      CorneredWider(config, load, 0, |m|, 0, total);
    }
    assert RehashGranted(config, load, cs[i], |m|);
  }

  lemma StepSize<K, V>(m: map<K, V>, c: Command<K, V>)
    ensures |MapStep(m, c).0| <= |m| + if c.Insert? || c.InsertOrAssign? || c.Subscript? then 1 else 0
  {
    var m' := MapStep(m, c).0;
    if c.Insert? || c.InsertOrAssign? || c.Subscript? {
      assert m'.Keys <= m.Keys + {c.key};
      Subset(m'.Keys, m.Keys + {c.key});
    } else {
      assert m'.Keys <= m.Keys;
      Subset(m'.Keys, m.Keys);
    }
    assert |m'| == |m'.Keys| && |m| == |m.Keys|;
  }

  lemma Subset<T>(a: set<T>, b: set<T>)
    requires a <= b
    ensures |a| <= |b|
  {
    assert b == a + (b - a);
  }

  lemma {:induction false} RunSize<K, V>(
    config: Config<K>, load: Load, ms: seq<map<K, V>>, cs: seq<Command<K, V>>, answers: seq<Answer<V>>, i: nat)
    requires config.Valid() && RunAgrees(config, load, ms, cs, answers) && i <= |answers|
    ensures |ms[i]| <= |ms[0]| + Additions(cs[..i])
    decreases i
  {
    if i > 0 {
      RunSize(config, load, ms, cs, answers, i - 1);
      StepSize(ms[i - 1], cs[i - 1]);
      assert cs[..i][..i - 1] == cs[..i - 1];
      assert StepAgrees(config, load, ms[i - 1], cs[i - 1], answers[i - 1], ms[i - 1 + 1]);
    }
  }

  lemma {:induction false} AdditionsGrow<K, V>(cs: seq<Command<K, V>>, i: nat)
    requires i <= |cs|
    ensures Additions(cs[..i]) <= Additions(cs)
    decreases |cs|
  {
    if i < |cs| {
      var last := |cs| - 1;
      AdditionsGrow(cs[..last], i);
      assert cs[..last][..i] == cs[..i];
    } else {
      assert cs[..i] == cs;
    }
  }

  /** Where the table accommodates the run, the next command cannot fail. */
  lemma {:induction false} NextIsGranted<K, V>(
    config: Config<K>, load: Load, ms: seq<map<K, V>>, cs: seq<Command<K, V>>, answers: seq<Answer<V>>, total: nat)
    requires config.Valid() && RunAgrees(config, load, ms, cs, answers) && |answers| < |cs|
    requires |ms[0]| + Additions(cs) <= total && Accommodates(config, load, total, cs)
    ensures !Refusable(config, load, ms[|answers|], cs[|answers|])
  {
    RunSize(config, load, ms, cs, answers, |answers|);
    AdditionsGrow(cs, |answers|);
    NotRefusable(config, load, total, cs, ms[|answers|], |answers|);
  }

  lemma {:induction false} RunStep<K, V>(
    config: Config<K>, load: Load, ms: seq<map<K, V>>, cs: seq<Command<K, V>>, answers: seq<Answer<V>>,
    a: Answer<V>, m: map<K, V>, ample: bool)
    requires config.Valid() && RunAgrees(config, load, ms, cs, answers) && |answers| < |cs|
    requires StepAgrees(config, load, ms[|answers|], cs[|answers|], a, m)
    requires ample ==> NoneRefused(answers) && !Refusable(config, load, ms[|answers|], cs[|answers|])
    ensures RunAgrees(config, load, ms + [m], cs, answers + [a])
    ensures ample ==> NoneRefused(answers + [a])
  {
    var ms', answers' := ms + [m], answers + [a];
    forall i | 0 <= i < |answers'| ensures StepAgrees(config, load, ms'[i], cs[i], answers'[i], ms'[i + 1]) {
      if i < |answers| {
        assert StepAgrees(config, load, ms[i], cs[i], answers[i], ms[i + 1]);
      }
    }
  }

  // ----- what a table holds while buckets are moved into it

  /** What it holds before and after one bucket, if it ends with `total` elements. */
  ghost predicate Stage<K, V>(b: Bucket<K, V>, m: map<K, V>, m': map<K, V>, total: nat) {
    match b.slot
    case None => m' == m
    case Some(e) => e.key !in m && |m| < total && m' == m[e.key := e.value]
  }

  ghost predicate Stages<K, V>(was: seq<Bucket<K, V>>, stages: seq<map<K, V>>, total: nat) {
    && |stages| == |was| + 1
    && forall x :: 0 <= x < |was| ==> Stage(was[x], stages[x], stages[x + 1], total)
  }

  ghost function StagesFrom<K, V>(list: seq<Entry<K, V>>, was: seq<Bucket<K, V>>): (r: seq<map<K, V>>)
    ensures |r| == |was| + 1
    ensures forall x :: 0 <= x <= |was| ==> r[x] == ToMap(list + Entries(was[..x]))
  {
    seq(|was| + 1, x requires 0 <= x <= |was| => ToMap(list + Entries(was[..x])))
  }

  lemma {:induction false} StagesAreSteps<K, V>(list: seq<Entry<K, V>>, was: seq<Bucket<K, V>>)
    requires DistinctKeys(list + Entries(was))
    ensures Stages(was, StagesFrom(list, was), |list + Entries(was)|)
  {
    var stages := StagesFrom(list, was);
    forall x | 0 <= x < |was| ensures Stage(was[x], stages[x], stages[x + 1], |list + Entries(was)|) {
      ExtendEntries(list, was, x);
    }
  }

  // ----- the invariant of a table, by its fields

  /** The bucket count of an array of the given length. */
  function CountOf(n: nat, length: nat): (r: nat) {
    if length < n then 0 else length - n + 1
  }

  /** The bucket count is admissible and the thresholds are those of the count. */
  ghost predicate Shaped<K>(config: Config<K>, load: Load, length: nat, minThreshold: nat, maxThreshold: nat) {
    && config.Valid() && load.Valid()
    && var count := CountOf(config.n, length);
       && count <= config.MaxBuckets() && config.policy.IsCount(count)
       && minThreshold == load.minThreshold(count) && maxThreshold == load.maxThreshold(count)
  }

  /** Bits, flags, values and the element count fit the contents. */
  ghost predicate Filled<K, V>(
    config: Config<K>, bs: seq<Bucket<K, V>>, overflow: seq<Entry<K, V>>, size: nat, m: map<K, V>)
  {
    && Invariant(config.LayoutFor(CountOf(config.n, |bs|)), bs, overflow, m)
    && size == |Entries(bs)| + |overflow| && (bs == [] ==> overflow == [])
  }

  /** The value of a bucket has another home with `next` buckets than with `count`. */
  predicate ChangesHome<K, V>(config: Config<K>, count: nat, next: nat, b: Bucket<K, V>) {
    b.slot.Some? && var hash := config.hash(b.slot.value.key); BucketFor(count, hash) != BucketFor(next, hash)
  }

  /** The policy has a next count, with which some value in the neighbourhood of `home` gets another home. */
  ghost predicate Changes<K, V>(config: Config<K>, bs: seq<Bucket<K, V>>, home: nat)
    requires config.Valid()
  {
    var count := CountOf(config.n, |bs|);
    && config.policy.Next(count).Some?
    && exists y :: home <= y < home + config.n && y < |bs|
                   && ChangesHome(config, count, config.policy.Next(count).value, bs[y])
  }

  lemma {:induction false} SameChanges<K, V>(
    config: Config<K>, bs: seq<Bucket<K, V>>, bs': seq<Bucket<K, V>>, home: nat)
    requires config.Valid() && KeepsSlots(bs, bs', home, config.n)
    ensures Changes(config, bs, home) <==> Changes(config, bs', home)
  {
    var count := CountOf(config.n, |bs|);
    var next := config.policy.Next(count);
    forall y | next.Some? && home <= y < home + config.n && y < |bs|
      ensures ChangesHome(config, count, next.value, bs[y]) <==> ChangesHome(config, count, next.value, bs'[y])
    {
      assert bs'[y].slot == bs[y].slot;
    }
  }

  /** What decides an insertion behind the first load check: a place near the home, a load below the lower
      threshold, or a neighbourhood that growing would change. */
  datatype Crowding = HasRoom | Overflowing | Growing | CannotTell

  ghost function CrowdingOf<K, V>(config: Config<K>, bs: seq<Bucket<K, V>>, home: nat, low: bool): (c: Crowding)
    requires config.Valid()
  {
    if HasPlace(config.LayoutFor(CountOf(config.n, |bs|)), bs, home) then HasRoom
    else Crowded(config, bs, home, low)
  }

  /** Where there is no place: without a next count it cannot be told whether growing would help. */
  ghost function Crowded<K, V>(config: Config<K>, bs: seq<Bucket<K, V>>, home: nat, low: bool): (c: Crowding)
    requires config.Valid()
  {
    if low then Overflowing
    else if config.policy.Next(CountOf(config.n, |bs|)).None? then CannotTell
    else if Changes(config, bs, home) then Growing
    else Overflowing
  }

  lemma {:induction false} AllEntries<K, V>(bs: seq<Bucket<K, V>>)
    ensures [] + Entries(bs[..|bs|]) == Entries(bs)
  {
    assert bs[..|bs|] == bs;
  }

  lemma {:induction false} PlaceKeeps<K, V>(
    config: Config<K>, bs: seq<Bucket<K, V>>, bs': seq<Bucket<K, V>>, overflow: seq<Entry<K, V>>, size: nat,
    m: map<K, V>, m': map<K, V>)
    requires Filled(config, bs, overflow, size, m) && |bs'| == |bs|
    requires Invariant(config.LayoutFor(CountOf(config.n, |bs|)), bs', overflow, m')
    ensures Filled(config, bs', overflow, |Entries(bs')| + |overflow|, m')
  {
  }

  lemma {:induction false} AssignKeeps<K, V>(
    config: Config<K>, bs: seq<Bucket<K, V>>, overflow: seq<Entry<K, V>>, size: nat, m: map<K, V>, x: nat,
    e: Entry<K, V>)
    requires Filled(config, bs, overflow, size, m) && x < |bs| && HopscotchBuckets.Holds(bs[x], e.key)
    ensures Filled(config, WithSlot(bs, x, Some(e)), overflow, size, m[e.key := e.value])
  {
    AssignKeepsInvariant(config.LayoutFor(CountOf(config.n, |bs|)), bs, overflow, m, x, e);
  }

  lemma {:induction false} AssignOverflowKeeps<K, V>(
    config: Config<K>, bs: seq<Bucket<K, V>>, overflow: seq<Entry<K, V>>, size: nat, m: map<K, V>, p: nat,
    e: Entry<K, V>)
    requires Filled(config, bs, overflow, size, m) && p < |overflow| && overflow[p].key == e.key
    ensures Filled(config, bs, overflow[p := e], size, m[e.key := e.value])
  {
    AssignOverflowKeepsInvariant(config.LayoutFor(CountOf(config.n, |bs|)), bs, overflow, m, p, e);
  }

  lemma {:induction false} OverflowKeeps<K, V>(
    config: Config<K>, bs: seq<Bucket<K, V>>, overflow: seq<Entry<K, V>>, size: nat, m: map<K, V>, home: nat,
    e: Entry<K, V>)
    requires Filled(config, bs, overflow, size, m) && home < |bs| && e.key !in m
    requires config.LayoutFor(CountOf(config.n, |bs|)).home(e.key) == home
    ensures Filled(config, WithFlag(bs, home, true), overflow + [e], size + 1, m[e.key := e.value])
  {
    OverflowKeepsInvariant(config.LayoutFor(CountOf(config.n, |bs|)), bs, overflow, m, home, e);
  }

  lemma {:induction false} UnoverflowKeeps<K, V>(
    config: Config<K>, bs: seq<Bucket<K, V>>, overflow: seq<Entry<K, V>>, size: nat, m: map<K, V>, p: nat, home: nat,
    still: bool)
    requires Filled(config, bs, overflow, size, m) && p < |overflow| && home < |bs|
    requires config.LayoutFor(CountOf(config.n, |bs|)).home(overflow[p].key) == home
    requires still <==> Overflows(config.LayoutFor(CountOf(config.n, |bs|)), Without(overflow, p), home)
    ensures size > 0 && WithFlag(bs, home, true) == bs
    ensures Filled(config, WithFlag(bs, home, still), Without(overflow, p), size - 1, m - {overflow[p].key})
  {
    UnoverflowKeepsInvariant(config.LayoutFor(CountOf(config.n, |bs|)), bs, overflow, m, p, home);
  }

  lemma {:induction false} RemoveKeeps<K, V>(
    config: Config<K>, bs: seq<Bucket<K, V>>, overflow: seq<Entry<K, V>>, size: nat, m: map<K, V>, x: nat, home: nat)
    requires Filled(config, bs, overflow, size, m) && home <= x < |bs| && x - home < config.n
    requires Belongs(config.LayoutFor(CountOf(config.n, |bs|)), bs[x], home)
    ensures x - home < |bs[home].neighbors| && size > 0
    ensures Filled(config, Remove(bs, x, home), overflow, size - 1, m - {bs[x].slot.value.key})
    ensures Entries(Remove(bs, x, home)[x + 1..]) == Entries(bs[x + 1..])
  {
    RemoveKeepsInvariant(config.LayoutFor(CountOf(config.n, |bs|)), bs, overflow, m, x, home);
    SameEntries(bs[x + 1..], Remove(bs, x, home)[x + 1..]);
  }

  lemma {:induction false} OverflowIsFilled<K, V>(config: Config<K>, bs: seq<Bucket<K, V>>, list: seq<Entry<K, V>>)
    requires Wired(config.LayoutFor(CountOf(config.n, |bs|)), bs) && bs != [] && DistinctKeys(list)
    requires Flagged(config.LayoutFor(CountOf(config.n, |bs|)), bs, list)
    requires forall b :: 0 <= b < |bs| ==> bs[b].slot.None?
    ensures Filled(config, bs, list, |list|, ToMap(list))
  {
    OverflowOnly(config.LayoutFor(CountOf(config.n, |bs|)), bs, list);
  }

  lemma {:induction false} EmptyIsFilled<K, V>(config: Config<K>, bs: seq<Bucket<K, V>>)
    requires config.n > 0 && (|bs| == 0 || |bs| >= config.n)
    requires forall b :: 0 <= b < |bs| ==> bs[b] == EmptyBucket<K, V>(config.n)
    ensures Filled(config, bs, [], 0, map[])
  {
    FreshInvariant(config.LayoutFor(CountOf(config.n, |bs|)), bs);
  }

  class HopscotchHash<K(==, !new), V(==, !new)> {
    const config: Config<K>
    var load: Load
    var buckets: seq<Bucket<K, V>>
    var overflow: seq<Entry<K, V>>
    var size: nat
    var minThreshold: nat
    var maxThreshold: nat
    ghost var Contents: map<K, V>

    function BucketCount(): (r: nat)
      reads this
    {
      CountOf(config.n, |buckets|)
    }

    function HomeOf(key: K): (r: nat)
      reads this
    {
      BucketFor(BucketCount(), config.hash(key))
    }

    ghost function TheLayout(): (l: Layout<K>)
      reads this
    {
      config.LayoutFor(BucketCount())
    }

    ghost predicate Valid()
      reads this
    {
      && Shaped(config, load, |buckets|, minThreshold, maxThreshold)
      && Filled(config, buckets, overflow, size, Contents)
    }

    constructor (config: Config<K>, load: Load, count: nat)
      requires config.Valid() && load.Valid()
      requires config.policy.IsCount(count) && count <= config.MaxBuckets()
      ensures Valid() && Contents == map[] && BucketCount() == count
      ensures this.config == config && this.load == load
    {
      this.config := config;
      this.load := load;
      var n := if count == 0 then 0 else count + config.n - 1;
      buckets := seq(n, _ => EmptyBucket<K, V>(config.n));
      overflow := [];
      size := 0;
      minThreshold := load.minThreshold(count);
      maxThreshold := load.maxThreshold(count);
      Contents := map[];
      new;
      EmptyIsFilled(config, buckets);
    }

    // ----- lookup

    method FindInBuckets(key: K) returns (r: Option<nat>)
      requires Valid()
      ensures r.Some? ==> r.value < |buckets| && Holds(buckets[r.value], key)
      ensures r.None? ==> !InBuckets(buckets, key)
    {
      if buckets == [] {  // the static empty bucket has no neighbours
        return None;
      }
      r := FindInNeighborhood(TheLayout(), buckets, HomeOf(key), key);
    }

    /** `std::find_if` over the overflow list. */
    method FindInOverflow(key: K) returns (j: nat)
      ensures j <= |overflow|
      ensures j < |overflow| ==> overflow[j].key == key
      ensures j == |overflow| ==> !InOverflow(overflow, key)
    {
      j := 0;
      while j < |overflow|
        invariant j <= |overflow|
        invariant forall i :: 0 <= i < j ==> overflow[i].key != key
      {
        if overflow[j].key == key {
          return;
        }
        j := j + 1;
      }
    }

    function End(): (c: Cursor)
      reads this
    {
      Cursor(|buckets|, |overflow|)
    }

    /** The cursor points at a stored value. */
    predicate Dereferencable(c: Cursor)
      reads this
    {
      if c.bucket < |buckets| then buckets[c.bucket].slot.Some? && c.overflow == 0
      else c.bucket == |buckets| && c.overflow < |overflow|
    }

    function EntryAt(c: Cursor): (e: Entry<K, V>)
      requires Dereferencable(c)
      reads this
    {
      if c.bucket < |buckets| then buckets[c.bucket].slot.value else overflow[c.overflow]
    }

    /** The flag of the home decides whether the overflow list has to be searched. */
    lemma FlagDecides(key: K)
      requires Valid() && buckets != []
      ensures InOverflow(overflow, key) ==> buckets[HomeOf(key)].hasOverflow
    {
    }

    predicate HasOverflow(key: K)
      requires Valid()
      reads this
    {
      buckets != [] && buckets[HomeOf(key)].hasOverflow
    }

    method Find(key: K) returns (c: Cursor)
      requires Valid()
      ensures c == End() <==> key !in Contents
      ensures key in Contents ==> Dereferencable(c) && EntryAt(c) == Entry(key, Contents[key])
    {
      var found := FindInBuckets(key);
      if found.Some? {
        return Cursor(found.value, 0);
      }
      if !HasOverflow(key) {
        if buckets != [] {
          FlagDecides(key);
        }
        return End();
      }
      var j := FindInOverflow(key);
      c := Cursor(|buckets|, j);
    }

    method At(key: K) returns (r: Option<V>)
      requires Valid()
      ensures r == if key in Contents then Some(Contents[key]) else None
    {
      var c := Find(key);
      r := if c == End() then None else Some(EntryAt(c).value);
    }

    method Count(key: K) returns (r: nat)
      requires Valid()
      ensures r == if key in Contents then 1 else 0
    {
      var c := Find(key);
      r := if c == End() then 0 else 1;
    }

    // ----- insertion

    /** Neither the load nor a crowded neighbourhood makes the insertion of `key` grow the table. */
    ghost predicate FitsWithoutGrowth(key: K)
      requires config.Valid()
      reads this
    {
      && buckets != [] && size - |overflow| < maxThreshold
      && (!Full(buckets, config.n, HomeOf(key)) || size < minThreshold)
    }

    lemma RoomyFits(key: K)
      requires Valid() && load.Roomy(BucketCount(), |Contents| + 1)
      ensures FitsWithoutGrowth(key)
    {
      SizeIsCardinality();
    }

    /** The table cannot grow as it is. */
    predicate CannotGrow()
      requires config.Valid()
      reads this
    {
      GrowthRefused(config, load, BucketCount(), size)
    }

    /** How an insertion ends: in a bucket, in the overflow list, or after growing. */
    ghost predicate Decided(c: Crowding, out: Outcome, at: Cursor, count: nat)
      reads this
    {
      match c
      case HasRoom => out.Done? && BucketCount() == count && at.bucket < |buckets|
      case Overflowing => out.Done? && BucketCount() == count && at.bucket == |buckets|
      case Growing => out.Done? ==> BucketCount() > count
      case CannotTell => out.LengthError? && BucketCount() == count
    }

    /** Adds an entry whose key is absent: near its home, displacing other values if needed, or in the
        overflow list, or after growing. */
    method InsertValue(e: Entry<K, V>) returns (out: Outcome, at: Cursor)
      requires Valid() && e.key !in Contents
      modifies this
      ensures out.Done? ==> Valid() && Contents == old(Contents)[e.key := e.value]
      ensures out.Done? ==> Dereferencable(at) && EntryAt(at) == e
      ensures out.LengthError? ==> Valid() && Contents == old(Contents)
      ensures out.LengthError? ==> !config.nothrowMove || CannotGrow()
      ensures out.Abandoned? ==> config.nothrowMove
      ensures old(FitsWithoutGrowth(e.key)) ==> out.Done? && BucketCount() == old(BucketCount())
      ensures !out.Done? ==> Cornered(config, load, old(BucketCount()), |old(Contents)|)
      ensures old(size - |overflow| >= maxThreshold && CannotGrow()) ==> out.LengthError?
      ensures old(size - |overflow| >= maxThreshold) && out.Done? ==> BucketCount() > old(BucketCount())
      ensures old(size - |overflow| < maxThreshold) ==>
                Decided(
                  old(CrowdingOf(config, buckets, HomeOf(e.key), size < minThreshold)), out, at, old(BucketCount()))
      ensures load == old(load)
      ensures !out.Abandoned? ==> BucketCount() >= old(BucketCount())
      decreases config.Spare(BucketCount()), 4
    {
      if size - |overflow| >= maxThreshold {
        out := Grow();
        if !out.Done? {
          return out, Cursor(0, 0);
        }
      }
      ghost var grown := BucketCount();
      out, at := InsertUnderThreshold(e);
      if !out.Done? {
        CorneredWider(config, load, grown, |old(Contents)|, old(BucketCount()), |old(Contents)|);
      }
    }

    /** The part of the insertion behind the first load check. */
    method InsertUnderThreshold(e: Entry<K, V>) returns (out: Outcome, at: Cursor)
      requires Valid() && e.key !in Contents && buckets != []
      modifies this
      ensures out.Done? ==> Valid() && Contents == old(Contents)[e.key := e.value]
      ensures out.Done? ==> Dereferencable(at) && EntryAt(at) == e
      ensures out.LengthError? ==> Valid() && Contents == old(Contents)
      ensures out.LengthError? ==> !config.nothrowMove || CannotGrow()
      ensures out.Abandoned? ==> config.nothrowMove
      ensures old(!Full(buckets, config.n, HomeOf(e.key)) || size < minThreshold) ==>
                out.Done? && BucketCount() == old(BucketCount())
      ensures Decided(old(CrowdingOf(config, buckets, HomeOf(e.key), size < minThreshold)), out, at, old(BucketCount()))
      ensures !out.Done? ==> Cornered(config, load, old(BucketCount()), |old(Contents)|)
      ensures load == old(load)
      ensures !out.Abandoned? ==> BucketCount() >= old(BucketCount())
      decreases config.Spare(BucketCount()), 3
    {
      var stored;
      stored, at := TryBuckets(e);
      if stored {
        return Done, at;
      }
      SameChanges(config, old(buckets), buckets, HomeOf(e.key));
      out, at := InsertCrowded(e);
    }

    /** The neighbourhood of the home is full: the value goes to the overflow list, or the table grows. */
    method InsertCrowded(e: Entry<K, V>) returns (out: Outcome, at: Cursor)
      requires Valid() && e.key !in Contents && buckets != [] && Full(buckets, config.n, HomeOf(e.key))
      modifies this
      ensures out.Done? ==> Valid() && Contents == old(Contents)[e.key := e.value]
      ensures out.Done? ==> Dereferencable(at) && EntryAt(at) == e
      ensures out.LengthError? ==> Valid() && Contents == old(Contents)
      ensures out.LengthError? ==> !config.nothrowMove || CannotGrow()
      ensures out.Abandoned? ==> config.nothrowMove
      ensures old(size < minThreshold) ==> out.Done? && BucketCount() == old(BucketCount())
      ensures Decided(old(Crowded(config, buckets, HomeOf(e.key), size < minThreshold)), out, at, old(BucketCount()))
      ensures !out.Done? ==> Cornered(config, load, old(BucketCount()), |old(Contents)|)
      ensures load == old(load)
      ensures !out.Abandoned? ==> BucketCount() >= old(BucketCount())
      decreases config.Spare(BucketCount()), 2
    {
      if size >= minThreshold {
        CrowdedWantsRoom(HomeOf(e.key));
        var changes := WillNeighborhoodChangeOnRehash(HomeOf(e.key));
        if changes.None? {
          StuckHere();
          return LengthError, Cursor(0, 0);
        }
        if changes.value {
          out, at := GrowAndInsert(e);
          return;
        }
      }
      at := InsertInOverflow(e);
      out := Done;
    }

    method GrowAndInsert(e: Entry<K, V>) returns (out: Outcome, at: Cursor)
      requires Valid() && e.key !in Contents && WantsRoom(config, load, BucketCount(), size)
      modifies this
      ensures out.Done? ==> Valid() && Contents == old(Contents)[e.key := e.value]
      ensures out.Done? ==> Dereferencable(at) && EntryAt(at) == e
      ensures out.LengthError? ==> Valid() && Contents == old(Contents)
      ensures out.LengthError? ==> !config.nothrowMove || CannotGrow()
      ensures out.Abandoned? ==> config.nothrowMove
      ensures !out.Done? ==> Cornered(config, load, old(BucketCount()), |old(Contents)|)
      ensures load == old(load)
      ensures out.Done? ==> BucketCount() > old(BucketCount())
      ensures !out.Abandoned? ==> BucketCount() >= old(BucketCount())
      decreases config.Spare(BucketCount()), 1
    {
      at := Cursor(0, 0);
      out := Grow();
      if out.Done? {
        ghost var grown := BucketCount();
        out, at := InsertValue(e);
        if !out.Done? {
          CorneredWider(config, load, grown, |old(Contents)|, old(BucketCount()), |old(Contents)|);
        }
      }
    }

    /** A full neighbourhood holds n elements. */
    lemma CrowdedWantsRoom(home: nat)
      requires Valid() && Full(buckets, config.n, home) && size >= minThreshold
      ensures WantsRoom(config, load, BucketCount(), size)
    {
      FullMeansMany(buckets, config.n, home);
    }

    lemma StuckHere()
      requires Valid() && WantsRoom(config, load, BucketCount(), size) && CannotGrow()
      ensures Cornered(config, load, BucketCount(), |Contents|)
    {
      SizeIsCardinality();
      assert Stuck(config, load, BucketCount(), size, BucketCount(), size);
    }

    method InsertInOverflow(e: Entry<K, V>) returns (at: Cursor)
      requires Valid() && e.key !in Contents && buckets != []
      modifies this`buckets, this`overflow, this`size, this`Contents
      ensures Valid() && Contents == old(Contents)[e.key := e.value] && BucketCount() == old(BucketCount())
      ensures Dereferencable(at) && EntryAt(at) == e && at.bucket == |buckets|
    {
      var home := HomeOf(e.key);
      OverflowKeeps(config, buckets, overflow, size, Contents, home, e);
      buckets := WithFlag(buckets, home, true);
      overflow := overflow + [e];
      size := size + 1;
      Contents := Contents[e.key := e.value];
      at := Cursor(|buckets|, |overflow| - 1);
    }

    /** Probes for an empty bucket and moves it towards the home until it is in reach. When that
        fails, the whole neighbourhood of the home is occupied. */
    method TryBuckets(e: Entry<K, V>) returns (stored: bool, at: Cursor)
      requires Valid() && e.key !in Contents && buckets != []
      modifies this`buckets, this`size, this`Contents
      ensures Valid() && BucketCount() == old(BucketCount())
      ensures stored ==> Contents == old(Contents)[e.key := e.value] && Dereferencable(at) && EntryAt(at) == e
      ensures stored ==> at.bucket < |buckets|
      ensures !stored ==> Contents == old(Contents) && size == old(size) && overflow == old(overflow)
      ensures !old(Full(buckets, config.n, HomeOf(e.key))) ==> stored
      ensures !stored ==> Full(buckets, config.n, HomeOf(e.key)) && Unrelieved(TheLayout(), buckets, HomeOf(e.key))
      ensures stored <==> old(HasPlace(TheLayout(), buckets, HomeOf(e.key)))
      ensures !stored ==> KeepsSlots(old(buckets), buckets, HomeOf(e.key), config.n)
    {
      var bs, x;
      stored, bs, x := InsertNearHome(TheLayout(), buckets, overflow, Contents, config.n, HomeOf(e.key), e);
      ghost var m := if stored then Contents[e.key := e.value] else Contents;
      PlaceKeeps(config, buckets, bs, overflow, size, Contents, m);
      buckets, Contents := bs, m;
      if stored {
        size := size + 1;
      }
      at := Cursor(x, 0);
    }

    /** Whether some value of the neighbourhood would have another home after growing; none when the
        policy cannot grow. The values are read without a check: the neighbourhood has to be full. */
    method WillNeighborhoodChangeOnRehash(home: nat) returns (r: Option<bool>)
      requires Valid() && Full(buckets, config.n, home)
      ensures r.None? <==> config.policy.Next(BucketCount()).None?
      ensures r.Some? ==> (r.value <==> Changes(config, buckets, home))
    {
      var next := config.policy.Next(BucketCount());
      if next.None? {
        return None;
      }
      var x := home;
      while x < |buckets| && x - home < config.n
        invariant home <= x <= home + config.n
        invariant forall y :: home <= y < x ==> !ChangesHome(config, BucketCount(), next.value, buckets[y])
      {
        var hash := config.hash(buckets[x].slot.value.key);
        if BucketFor(BucketCount(), hash) != BucketFor(next.value, hash) {
          return Some(true);
        }
        x := x + 1;
      }
      r := Some(false);
    }

    // ----- growth

    /** The bucket count that `rehash(count)` leads to. */
    function RehashTarget(count: nat): (r: Option<nat>)
      requires config.Valid()
      reads this
    {
      var needed := load.bucketsFor(size);
      config.Settle(if count < needed then needed else count)
    }

    lemma TargetIsCount(count: nat)
      requires Valid() && RehashTarget(count).Some?
      ensures var n := RehashTarget(count).value;
              && config.policy.IsCount(n) && count <= n <= config.MaxBuckets()
              && (Contents != map[] ==> n > 0)
    {
      var needed := load.bucketsFor(size);
      CreateIsLeast(config.policy, if count < needed then needed else count);
      IterationIsExact(buckets, overflow, Contents);
    }

    /** `rehash(next_bucket_count())` */
    method Grow() returns (out: Outcome)
      requires Valid() && WantsRoom(config, load, BucketCount(), size)
      modifies this
      ensures out.Done? ==> Valid() && Contents == old(Contents) && BucketCount() > old(BucketCount())
      ensures out.LengthError? ==> Valid() && Contents == old(Contents) && BucketCount() == old(BucketCount())
      ensures out.Abandoned? ==> config.nothrowMove
      ensures out.LengthError? && config.nothrowMove ==> CannotGrow()
      ensures old(CannotGrow()) ==> out.LengthError?
      ensures var next := config.policy.Next(old(BucketCount()));
              && (out.Done? ==> next.Some? && BucketCount() >= next.value)
              && (next.Some? && old(RehashTarget(next.value)) == next && load.Roomy(next.value, |old(Contents)|) ==>
                    out.Done? && BucketCount() == next.value)
      ensures !out.Done? ==> Cornered(config, load, old(BucketCount()), |old(Contents)|)
      ensures load == old(load)
      decreases config.Spare(BucketCount()), 0
    {
      if CannotGrow() {
        StuckHere();
        return LengthError;
      }
      var next := config.policy.Next(BucketCount()).value;
      NextGrows(config.policy, BucketCount());
      var target := RehashTarget(next).value;
      TargetIsCount(next);
      out := RehashTo(target);
      if !out.Done? {
        CorneredWider(config, load, target, |old(Contents)|, old(BucketCount()), |old(Contents)|);
      }
    }

    /** Rebuilds the table with at least `count` buckets. */
    method RehashTo(count: nat) returns (out: Outcome)
      requires Valid()
      requires config.policy.IsCount(count) && count <= config.MaxBuckets() && (Contents != map[] ==> count > 0)
      modifies this
      ensures out.Done? ==> Valid() && Contents == old(Contents) && BucketCount() >= count
      ensures out.LengthError? ==> Valid() && Contents == old(Contents) && BucketCount() == old(BucketCount())
      ensures out.Abandoned? <==> !out.Done? && config.nothrowMove
      ensures load.Roomy(count, |old(Contents)|) ==> out.Done? && BucketCount() == count
      ensures !out.Done? ==> Cornered(config, load, count, |old(Contents)|)
      ensures load == old(load)
      decreases config.Spare(count), 10
    {
      if config.nothrowMove {
        out := RehashByMove(count);
      } else {
        var target := new HopscotchHash<K, V>(config, load, count);
        out := CopyInto(target);
        if out.Done? {
          SwapIn(target);
        }
      }
    }

    method RehashByMove(count: nat) returns (out: Outcome)
      requires Valid() && config.nothrowMove
      requires config.policy.IsCount(count) && count <= config.MaxBuckets() && (Contents != map[] ==> count > 0)
      modifies this
      ensures out.Done? ==> Valid() && Contents == old(Contents) && BucketCount() >= count
      ensures out.Done? || out.Abandoned?
      ensures load.Roomy(count, |old(Contents)|) ==> out.Done? && BucketCount() == count
      ensures !out.Done? ==> Cornered(config, load, count, |old(Contents)|)
      ensures load == old(load)
      decreases config.Spare(count), 9
    {
      var target, list := BeginMove(count);
      out := MoveInto(target, list);
      if out.Done? {
        SwapIn(target);
      }
    }

    /** The overflow list goes to the target first. */
    method BeginMove(count: nat) returns (target: HopscotchHash<K, V>, ghost list: seq<Entry<K, V>>)
      requires Valid()
      requires config.policy.IsCount(count) && count <= config.MaxBuckets() && (Contents != map[] ==> count > 0)
      modifies this`overflow
      ensures fresh(target) && Draining(target, list, buckets, 0) && target.BucketCount() == count
      ensures Lists(list + Entries(buckets))
    {
      list := overflow;
      StoredEntries();
      target := TargetWithOverflow(count);
      GiveUpOverflow(target, list);
    }

    method GiveUpOverflow(target: HopscotchHash<K, V>, ghost list: seq<Entry<K, V>>)
      requires Draining(target, list, buckets, 0)
      modifies this`overflow
      ensures overflow == [] && Draining(target, list, buckets, 0)
    {
      overflow := [];
    }

    /** A list of what the table holds. */
    ghost predicate Lists(es: seq<Entry<K, V>>)
      reads this
    {
      DistinctKeys(es) && Contents == ToMap(es) && |Contents| == |es|
    }

    lemma StoredEntries()
      requires Valid()
      ensures Lists(overflow + Entries(buckets))
    {
      RepresentsToMap(buckets, overflow, Contents);
      SizeIsCardinality();
    }

    /** A new table that holds what is in the overflow list of this one. */
    method TargetWithOverflow(count: nat) returns (target: HopscotchHash<K, V>)
      requires Valid() && DistinctKeys(overflow + Entries(buckets))
      requires config.policy.IsCount(count) && count <= config.MaxBuckets() && (Contents != map[] ==> count > 0)
      ensures fresh(target) && Draining(target, overflow, buckets, 0) && target.BucketCount() == count
    {
      target := new HopscotchHash<K, V>(config, load, count);
      if overflow != [] {
        PrefixDistinct(overflow, Entries(buckets));
        assert Maps(Contents, overflow[0]);
        target.AdoptOverflow(overflow);
      }
      assert overflow + Entries(buckets[..0]) == overflow;
    }

    method SwapIn(target: HopscotchHash<K, V>)
      requires target.Valid() && target.config == config && target.load == load
      modifies this
      ensures Valid() && Contents == target.Contents && BucketCount() == target.BucketCount() && load == old(load)
    {
      buckets, overflow, size := target.buckets, target.overflow, target.size;
      minThreshold, maxThreshold := target.minThreshold, target.maxThreshold;
      Contents := target.Contents;
    }

    /** Takes over a whole overflow list and flags the homes of its elements. */
    method AdoptOverflow(list: seq<Entry<K, V>>)
      requires Valid() && Contents == map[] && buckets != [] && DistinctKeys(list)
      modifies this`overflow, this`size, this`buckets, this`Contents
      ensures Valid() && Contents == ToMap(list) && BucketCount() == old(BucketCount())
    {
      var bs, count := FlagList(list);
      buckets, overflow, size := bs, list, count;
      Contents := ToMap(list);
    }

    /** The buckets with the flags of the homes of a list, and the element count with it. */
    method FlagList(list: seq<Entry<K, V>>) returns (bs: seq<Bucket<K, V>>, count: nat)
      requires Valid() && Contents == map[] && buckets != [] && DistinctKeys(list)
      ensures |bs| == |buckets| && count == size + |list| && Filled(config, bs, list, count, ToMap(list))
    {
      ReadyToAdopt(list);
      bs := FlagHomes(config.LayoutFor(BucketCount()), buckets, list);
      OverflowIsFilled(config, bs, list);
      count := size + |list|;
    }

    lemma {:induction false} ReadyToAdopt(list: seq<Entry<K, V>>)
      requires Valid() && Contents == map[] && buckets != []
      ensures size == 0 && Wired(TheLayout(), buckets) && Flagged<K, V>(TheLayout(), buckets, [])
      ensures forall b :: 0 <= b < |buckets| ==> buckets[b].slot.None?
      ensures forall j :: 0 <= j < |list| ==> TheLayout().home(list[j].key) < |buckets|
    {
      NothingStored(buckets, overflow);
      SizeIsCardinality();
      forall j | 0 <= j < |list| ensures TheLayout().home(list[j].key) < |buckets| {
        HomeInRange(list[j].key);
      }
    }

    lemma HomeInRange(key: K)
      requires config.Valid() && buckets != [] && |buckets| >= config.n
      ensures TheLayout().home(key) == HomeOf(key) < BucketCount() <= |buckets|
    {
    }

    /** Adds an entry to a table that is being filled. */
    method Absorb(e: Entry<K, V>) returns (out: Outcome)
      requires Valid() && e.key !in Contents
      modifies this
      ensures out.Done? ==> Valid() && Contents == old(Contents)[e.key := e.value]
      ensures out.Done? ==> load == old(load) && BucketCount() >= old(BucketCount())
      ensures out.Abandoned? ==> config.nothrowMove
      ensures old(load.Roomy(BucketCount(), |Contents| + 1)) ==> out.Done? && BucketCount() == old(BucketCount())
      ensures !out.Done? ==> Cornered(config, old(load), old(BucketCount()), |old(Contents)|)
      decreases config.Spare(BucketCount()), 5
    {
      SizeIsCardinality();
      if load.Roomy(BucketCount(), size + 1) {
        RoomyFits(e.key);
      }
      var at;
      out, at := InsertValue(e);
    }

    /** The buckets from x on still hold what they held; the target has the rest. */
    ghost predicate Draining(target: HopscotchHash<K, V>, list: seq<Entry<K, V>>, was: seq<Bucket<K, V>>, x: nat)
      reads this, target
    {
      && config.Valid() && Wired(TheLayout(), buckets) && size >= |Entries(buckets)|
      && x <= |buckets| == |was| && (forall y :: x <= y < |buckets| ==> buckets[y].slot == was[y].slot)
      && target != this && target.config == config && target.load == load && target.Valid()
      && target.Contents == ToMap(list + Entries(was[..x]))
    }

    /** The rehash of values that are moved: each is inserted into the target and then erased here. */
    method MoveInto(target: HopscotchHash<K, V>, ghost list: seq<Entry<K, V>>) returns (out: Outcome)
      requires Draining(target, list, buckets, 0) && DistinctKeys(list + Entries(buckets))
      modifies this`buckets, this`size, target
      ensures out.Done? ==> target.Valid() && target.load == load
      ensures out.Done? ==> target.Contents == ToMap(list + old(Entries(buckets)))
      ensures out.Done? ==> target.BucketCount() >= old(target.BucketCount())
      ensures out.Done? || out.Abandoned?
      ensures load.Roomy(old(target.BucketCount()), |list + old(Entries(buckets))|) ==>
                out.Done? && target.BucketCount() == old(target.BucketCount())
      ensures !out.Done? ==> Cornered(config, load, old(target.BucketCount()), |list + old(Entries(buckets))|)
      decreases config.Spare(target.BucketCount()), 8
    {
      ghost var was, count, total := buckets, target.BucketCount(), |list + Entries(buckets)|;
      ghost var stages, roomy := StagesFrom(list, was), load.Roomy(count, total);
      StagesAreSteps(list, was);
      assert stages[0] == ToMap(list + Entries(was[..0]));
      out := MoveBuckets(target, stages, was, count, total, roomy);
      if !out.Done? {
        return Abandoned;
      }
      assert stages[|was|] == ToMap(list + Entries(was[..|was|])) && was[..|was|] == was;
    }

    method MoveBuckets(
      target: HopscotchHash<K, V>, ghost stages: seq<map<K, V>>, ghost was: seq<Bucket<K, V>>, ghost count: nat,
      ghost total: nat, ghost roomy: bool)
      returns (out: Outcome)
      requires Moving(target, stages, was, 0, count, roomy) && target.BucketCount() == count
      requires Stages(was, stages, total) && (roomy ==> load.Roomy(count, total))
      modifies this`buckets, this`size, target
      ensures out.Done? ==> Moving(target, stages, was, |was|, count, roomy)
      ensures roomy ==> out.Done?
      ensures !out.Done? ==> Cornered(config, load, count, total)
      decreases config.Spare(target.BucketCount()), 7
    {
      var x, n := 0, |buckets|;
      while x < n
        invariant x <= n == |was| && Moving(target, stages, was, x, count, roomy)
      {
        out := MoveBucket(target, stages, was, x, count, total, roomy);
        if !out.Done? {
          return;
        }
        x := x + 1;
      }
      out := Done;
    }

    /** The buckets from x on still hold what they held; the target is at stage x, with at least `count`
        buckets, and exactly that many if they are roomy. */
    ghost predicate Moving(
      target: HopscotchHash<K, V>, stages: seq<map<K, V>>, was: seq<Bucket<K, V>>, x: nat, count: nat, roomy: bool)
      reads this, target
    {
      && config.Valid() && Wired(TheLayout(), buckets) && size >= |Entries(buckets)|
      && x <= |buckets| == |was| && (forall y :: x <= y < |buckets| ==> buckets[y].slot == was[y].slot)
      && target != this && target.config == config && target.load == load && target.Valid()
      && x < |stages| && target.Contents == stages[x]
      && target.BucketCount() >= count && (roomy ==> target.BucketCount() == count)
    }

    method MoveBucket(
      target: HopscotchHash<K, V>, ghost stages: seq<map<K, V>>, ghost was: seq<Bucket<K, V>>, x: nat,
      ghost count: nat, ghost total: nat, ghost roomy: bool)
      returns (out: Outcome)
      requires Moving(target, stages, was, x, count, roomy) && x < |buckets|
      requires Stages(was, stages, total) && (roomy ==> load.Roomy(count, total))
      modifies this`buckets, this`size, target
      ensures out.Done? ==> Moving(target, stages, was, x + 1, count, roomy) && |buckets| == old(|buckets|)
      ensures roomy ==> out.Done?
      ensures !out.Done? ==> Cornered(config, load, count, total)
      decreases config.Spare(target.BucketCount()), 6
    {
      assert Stage(was[x], stages[x], stages[x + 1], total);
      if buckets[x].slot.None? {
        return Done;
      }
      var e := buckets[x].slot.value;
      ghost var above, stored := target.BucketCount(), |target.Contents|;
      out := target.Absorb(e);
      if out.Done? {
        EraseMoved(x);
      } else {
        CorneredWider(config, load, above, stored, count, total);
      }
    }

    method EraseMoved(x: nat)
      requires config.Valid() && Wired(TheLayout(), buckets) && size >= |Entries(buckets)|
      requires x < |buckets| && buckets[x].slot.Some?
      modifies this`buckets, this`size
      ensures Wired(TheLayout(), buckets) && size >= |Entries(buckets)| && |buckets| == old(|buckets|)
      ensures forall y :: x < y < |buckets| ==> buckets[y].slot == old(buckets[y].slot)
    {
      HomeInReach(x);
      var home := HomeOf(buckets[x].slot.value.key);
      RemoveFromEntries(TheLayout(), buckets, x, home);
      EraseFromBucket(x, home);
    }

    /** The rehash of values that are copied: this table stays as it is. */
    method CopyInto(target: HopscotchHash<K, V>) returns (out: Outcome)
      requires Valid() && !config.nothrowMove
      requires target != this && target.Valid() && target.config == config && target.load == load
      requires target.Contents == map[]
      modifies target
      ensures out.Done? ==> target.Valid() && target.load == load && target.Contents == Contents
      ensures out.Done? ==> target.BucketCount() >= old(target.BucketCount())
      ensures out.Done? || out.LengthError?
      ensures load.Roomy(old(target.BucketCount()), |Contents|) ==>
                out.Done? && target.BucketCount() == old(target.BucketCount())
      ensures !out.Done? ==> Cornered(config, load, old(target.BucketCount()), |Contents|)
      decreases config.Spare(target.BucketCount()), 9
    {
      SizeIsCardinality();
      RepresentsToMap(buckets, overflow, Contents);
      PrefixDistinct(Entries(buckets), overflow);
      ghost var from := target.BucketCount();
      out := target.AbsorbBuckets(buckets);
      if !out.Done? {
        CorneredWider(config, load, from, |Entries(buckets)|, from, |Contents|);
        return LengthError;
      }
      ghost var above := target.BucketCount();
      out := target.AbsorbList(overflow, Entries(buckets));
      if !out.Done? {
        CorneredWider(config, load, above, |Entries(buckets) + overflow|, from, |Contents|);
        out := LengthError;
      }
    }

    method AbsorbBuckets(bs: seq<Bucket<K, V>>) returns (out: Outcome)
      requires Valid() && Contents == map[] && DistinctKeys([] + Entries(bs))
      modifies this
      ensures out.Done? ==> Valid() && load == old(load) && Contents == ToMap(Entries(bs))
      ensures out.Done? ==> BucketCount() >= old(BucketCount())
      ensures old(load.Roomy(BucketCount(), |Entries(bs)|)) ==> out.Done? && BucketCount() == old(BucketCount())
      ensures !out.Done? ==> Cornered(config, old(load), old(BucketCount()), |Entries(bs)|)
      decreases config.Spare(BucketCount()), 7
    {
      ghost var count, roomy := BucketCount(), load.Roomy(BucketCount(), |Entries(bs)|);
      var x := 0;
      while x < |bs|
        invariant x <= |bs| && Valid() && load == old(load) && Contents == ToMap([] + Entries(bs[..x]))
        invariant BucketCount() >= count && (roomy ==> BucketCount() == count)
      {
        ghost var above := BucketCount();
        out := AbsorbBucket(bs, x);
        if !out.Done? {
          CorneredWider(config, old(load), above, |Entries(bs)|, count, |Entries(bs)|);
          return;
        }
        x := x + 1;
      }
      AllEntries(bs);
      out := Done;
    }

    method AbsorbBucket(bs: seq<Bucket<K, V>>, x: nat) returns (out: Outcome)
      requires Valid() && x < |bs| && Contents == ToMap([] + Entries(bs[..x])) && DistinctKeys([] + Entries(bs))
      modifies this
      ensures out.Done? ==> Valid() && load == old(load) && Contents == ToMap([] + Entries(bs[..x + 1]))
      ensures out.Done? ==> BucketCount() >= old(BucketCount())
      ensures old(load.Roomy(BucketCount(), |Entries(bs)|)) ==> out.Done? && BucketCount() == old(BucketCount())
      ensures !out.Done? ==> Cornered(config, old(load), old(BucketCount()), |Entries(bs)|)
      decreases config.Spare(BucketCount()), 6
    {
      ExtendEntries([], bs, x);
      if bs[x].slot.None? {
        return Done;
      }
      assert [] + Entries(bs) == Entries(bs);
      out := Absorb(bs[x].slot.value);
      if !out.Done? {
        CorneredWider(config, old(load), old(BucketCount()), |old(Contents)|, old(BucketCount()), |Entries(bs)|);
      }
    }

    method AbsorbList(list: seq<Entry<K, V>>, ghost before: seq<Entry<K, V>>) returns (out: Outcome)
      requires Valid() && Contents == ToMap(before) && DistinctKeys(before + list)
      modifies this
      ensures out.Done? ==> Valid() && load == old(load) && Contents == ToMap(before + list)
      ensures out.Done? ==> BucketCount() >= old(BucketCount())
      ensures old(load.Roomy(BucketCount(), |before + list|)) ==> out.Done? && BucketCount() == old(BucketCount())
      ensures !out.Done? ==> Cornered(config, old(load), old(BucketCount()), |before + list|)
      decreases config.Spare(BucketCount()), 7
    {
      var j := 0;
      ghost var count, roomy := BucketCount(), load.Roomy(BucketCount(), |before + list|);
      assert before + list[..0] == before;
      out := Done;
      while j < |list| && out.Done?
        invariant j <= |list| && (roomy ==> out.Done?)
        invariant !out.Done? ==> Cornered(config, old(load), count, |before + list|)
        invariant out.Done? ==> Valid() && load == old(load) && Contents == ToMap(before + list[..j])
        invariant out.Done? ==> BucketCount() >= count && (roomy ==> BucketCount() == count)
      {
        ghost var above := BucketCount();
        out := AbsorbElement(list, before, j);
        if !out.Done? {
          CorneredWider(config, old(load), above, |before + list|, count, |before + list|);
        }
        j := j + 1;
      }
      assert j == |list| ==> list[..j] == list;
    }

    method AbsorbElement(list: seq<Entry<K, V>>, ghost before: seq<Entry<K, V>>, j: nat) returns (out: Outcome)
      requires Valid() && j < |list| && Contents == ToMap(before + list[..j]) && DistinctKeys(before + list)
      modifies this
      ensures out.Done? ==> Valid() && load == old(load) && Contents == ToMap(before + list[..j + 1])
      ensures out.Done? ==> BucketCount() >= old(BucketCount())
      ensures old(load.Roomy(BucketCount(), |before + list|)) ==> out.Done? && BucketCount() == old(BucketCount())
      ensures !out.Done? ==> Cornered(config, old(load), old(BucketCount()), |before + list|)
      decreases config.Spare(BucketCount()), 6
    {
      ExtendOverflow(before, list, j);
      out := Absorb(list[j]);
      if !out.Done? {
        CorneredWider(config, old(load), old(BucketCount()), |old(Contents)|, old(BucketCount()), |before + list|);
      }
    }

    lemma HomeInReach(x: nat)
      requires config.Valid() && Wired(TheLayout(), buckets) && x < |buckets| && buckets[x].slot.Some?
      ensures var home := HomeOf(buckets[x].slot.value.key);
              && home <= x && x - home < config.n && x - home < |buckets[home].neighbors|
              && Belongs(TheLayout(), buckets[x], home)
    {
      ClaimedOnce(TheLayout(), buckets, x);
    }

    /** Removes the value of bucket x, which belongs to `home`, and its bit. */
    method EraseFromBucket(x: nat, home: nat)
      requires home <= x < |buckets| && x - home < |buckets[home].neighbors| && size > 0
      modifies this`buckets, this`size
      ensures buckets == Remove(old(buckets), x, home) && size == old(size) - 1
    {
      buckets, size := Remove(buckets, x, home), size - 1;
    }

    // ----- public operations

    lemma SizeIsCardinality()
      requires Valid()
      ensures size == |Contents|
    {
      IterationIsExact(buckets, overflow, Contents);
    }

    method Size() returns (r: nat)
      requires Valid()
      ensures r == |Contents|
    {
      SizeIsCardinality();
      r := size;
    }

    /** Storing a key fails only if it is absent, does not fit as things are, and growth is refused on the
        way to enough room. */
    ghost predicate MayFail(key: K)
      requires config.Valid()
      reads this
    {
      key !in Contents && !FitsWithoutGrowth(key) && Cornered(config, load, BucketCount(), |Contents|)
    }

    /** `insert` and `try_emplace`: a key that is present keeps its value. */
    method Insert(e: Entry<K, V>) returns (out: Outcome, at: Cursor, inserted: bool)
      requires Valid()
      modifies this
      ensures out.Done? ==> Valid() && inserted == (e.key !in old(Contents))
      ensures out.Done? ==> Contents == if inserted then old(Contents)[e.key := e.value] else old(Contents)
      ensures out.Done? ==> Dereferencable(at) && EntryAt(at) == Entry(e.key, Contents[e.key])
      ensures out.LengthError? ==> Valid() && Contents == old(Contents)
      ensures out.Abandoned? ==> config.nothrowMove
      ensures !out.Done? ==> old(MayFail(e.key))
      ensures load == old(load)
    {
      at := Find(e.key);
      if at != End() {
        return Done, at, false;
      }
      out, at := InsertValue(e);
      inserted := true;
    }

    /** Overwrites the value that a cursor points at. */
    method Assign(at: Cursor, value: V)
      requires Valid() && Dereferencable(at)
      modifies this`buckets, this`overflow, this`Contents
      ensures Valid() && Contents == old(Contents)[old(EntryAt(at)).key := value]
      ensures Dereferencable(at) && EntryAt(at) == old(EntryAt(at)).(value := value)
    {
      var e := EntryAt(at).(value := value);
      if at.bucket < |buckets| {
        AssignKeeps(config, buckets, overflow, size, Contents, at.bucket, e);
        var bs := WithSlot(buckets, at.bucket, Some(e));
        buckets, Contents := bs, Contents[e.key := value];
      } else {
        AssignOverflowKeeps(config, buckets, overflow, size, Contents, at.overflow, e);
        overflow, Contents := overflow[at.overflow := e], Contents[e.key := value];
      }
    }

    method InsertOrAssign(key: K, value: V) returns (out: Outcome, inserted: bool)
      requires Valid()
      modifies this
      ensures out.Done? ==> inserted == (key !in old(Contents))
      ensures out.Done? ==> Valid() && Contents == old(Contents)[key := value]
      ensures out.LengthError? ==> Valid() && Contents == old(Contents)
      ensures out.Abandoned? ==> config.nothrowMove
      ensures !out.Done? ==> old(MayFail(key))
      ensures load == old(load)
    {
      var at;
      out, at, inserted := Insert(Entry(key, value));
      if out.Done? && !inserted {
        Assign(at, value);
      }
    }

    /** `operator[]`: a key that is absent is added with the default value. */
    method Index(key: K, default: V) returns (out: Outcome, at: Cursor)
      requires Valid()
      modifies this
      ensures out.Done? ==> Valid() && key in Contents && Dereferencable(at) && EntryAt(at) == Entry(key, Contents[key])
      ensures out.Done? ==> Contents == if key in old(Contents) then old(Contents) else old(Contents)[key := default]
      ensures out.LengthError? ==> Valid() && Contents == old(Contents)
      ensures out.Abandoned? ==> config.nothrowMove
      ensures !out.Done? ==> old(MayFail(key))
      ensures load == old(load)
    {
      var inserted;
      out, at, inserted := Insert(Entry(key, default));
    }

    /** The elements that iteration still has to visit. */
    ghost function Pending(c: Cursor): (es: seq<Entry<K, V>>)
      requires c.bucket <= |buckets| && c.overflow <= |overflow|
      reads this
    {
      Entries(buckets[c.bucket..]) + overflow[c.overflow..]
    }

    method Begin() returns (c: Cursor)
      ensures c == End() || Dereferencable(c)
      ensures Pending(c) == Entries(buckets) + overflow
    {
      var x := SkipEmpty(buckets, 0);
      assert buckets[0..] == buckets && overflow[0..] == overflow;
      c := Cursor(x, 0);
    }

    /** `operator++` */
    method Advance(c: Cursor) returns (next: Cursor)
      requires if c.bucket < |buckets| then c.overflow == 0 else c.bucket == |buckets| && c.overflow < |overflow|
      ensures next == End() || Dereferencable(next)
      ensures c.bucket < |buckets| ==> Pending(next) == Entries(buckets[c.bucket + 1..]) + overflow
      ensures c.bucket == |buckets| ==> Pending(next) == Pending(c)[1..]
    {
      if c.bucket == |buckets| {
        return Cursor(c.bucket, c.overflow + 1);
      }
      var x := SkipEmpty(buckets, c.bucket + 1);
      assert overflow[0..] == overflow;
      next := Cursor(x, 0);
    }

    /** From `begin` to `end`: every entry of the map is visited exactly once. */
    method Visit() returns (es: seq<Entry<K, V>>)
      requires Valid()
      ensures DistinctKeys(es) && |es| == |Contents|
      ensures forall e :: e in es ==> Maps(Contents, e)
      ensures forall k :: k in Contents ==> Entry(k, Contents[k]) in es
    {
      IterationIsExact(buckets, overflow, Contents);
      es := Traverse();
    }

    method Traverse() returns (es: seq<Entry<K, V>>)
      ensures es == Entries(buckets) + overflow
    {
      es := [];
      var c := Begin();
      ghost var all := Entries(buckets) + overflow;
      while c != End()
        invariant c == End() || Dereferencable(c)
        invariant es + Pending(c) == all
        decreases |Pending(c)|
      {
        PendingSplit(c);
        FirstToFront(es, Pending(c));
        es := es + [EntryAt(c)];
        c := Advance(c);
      }
      assert Pending(c) == [];
    }

    lemma FirstToFront(es: seq<Entry<K, V>>, pending: seq<Entry<K, V>>)
      requires pending != []
      ensures es + pending == es + [pending[0]] + pending[1..]
    {
    }

    lemma PendingSplit(c: Cursor)
      requires Dereferencable(c)
      ensures Pending(c) != [] && Pending(c)[0] == EntryAt(c)
      ensures c.bucket < |buckets| ==> Pending(c)[1..] == Entries(buckets[c.bucket + 1..]) + overflow
    {
      if c.bucket < |buckets| {
        EntriesFrom(buckets, c.bucket);
      }
    }

    // ----- erasure

    /** Erases an element of the overflow list; the flag of its home is lowered when it was the last
        element with that home. */
    method EraseFromOverflow(p: nat)
      requires Valid() && p < |overflow|
      modifies this`buckets, this`overflow, this`size, this`Contents
      ensures Valid() && Contents == old(Contents) - {old(overflow)[p].key}
      ensures overflow == Without(old(overflow), p) && |buckets| == old(|buckets|)
    {
      var key, rest := overflow[p].key, Without(overflow, p);
      var home := HomeOf(key);
      HomeInRange(key);
      var still := AnyWithHome(rest, home);
      UnoverflowKeeps(config, buckets, overflow, size, Contents, p, home, still);
      Unlist(rest, home, still);
      Contents := Contents - {key};
    }

    /** Replaces the overflow list; the flag of a home is lowered when no element has it any more. */
    method Unlist(rest: seq<Entry<K, V>>, home: nat, still: bool)
      requires home < |buckets| && size > 0 && (still ==> WithFlag(buckets, home, true) == buckets)
      modifies this`buckets, this`overflow, this`size
      ensures overflow == rest && size == old(size) - 1 && buckets == WithFlag(old(buckets), home, still)
    {
      overflow, size := rest, size - 1;
      if !still {
        buckets := WithFlag(buckets, home, false);
      }
    }

    method AnyWithHome(list: seq<Entry<K, V>>, home: nat) returns (r: bool)
      ensures r <==> Overflows(TheLayout(), list, home)
    {
      var j := 0;
      while j < |list|
        invariant j <= |list|
        invariant forall i :: 0 <= i < j ==> TheLayout().home(list[i].key) != home
      {
        if HomeOf(list[j].key) == home {
          assert TheLayout().home(list[j].key) == home;
          return true;
        }
        j := j + 1;
      }
      r := false;
    }

    /** Erases the element that a cursor points at and returns the cursor behind it. */
    method EraseAt(at: Cursor) returns (next: Cursor)
      requires Valid() && Dereferencable(at)
      modifies this`buckets, this`overflow, this`size, this`Contents
      ensures Valid() && Contents == old(Contents) - {old(EntryAt(at)).key}
      ensures next == End() || Dereferencable(next)
      ensures old(Pending(at)) == [old(EntryAt(at))] + Pending(next)
    {
      if at.bucket < |buckets| {
        next := EraseBucketAt(at);
      } else {
        EraseOverflowAt(at);
        next := at;
      }
    }

    method EraseBucketAt(at: Cursor) returns (next: Cursor)
      requires Valid() && Dereferencable(at) && at.bucket < |buckets|
      modifies this`buckets, this`size, this`Contents
      ensures Valid() && Contents == old(Contents) - {old(EntryAt(at)).key}
      ensures next == End() || Dereferencable(next)
      ensures old(Pending(at)) == [old(EntryAt(at))] + Pending(next)
    {
      PendingInBuckets(at);
      EraseBucket(at.bucket);
      next := Advance(at);
    }

    lemma PendingInBuckets(at: Cursor)
      requires Dereferencable(at) && at.bucket < |buckets|
      ensures Pending(at) == [EntryAt(at)] + (Entries(buckets[at.bucket + 1..]) + overflow)
    {
      PendingSplit(at);
      assert Pending(at) == [EntryAt(at)] + Pending(at)[1..];
    }

    method EraseOverflowAt(at: Cursor)
      requires Valid() && Dereferencable(at) && at.bucket == |buckets|
      modifies this`buckets, this`overflow, this`size, this`Contents
      ensures Valid() && Contents == old(Contents) - {old(EntryAt(at)).key}
      ensures at == End() || Dereferencable(at)
      ensures old(Pending(at)) == [old(EntryAt(at))] + Pending(at)
    {
      OverflowSuffix(overflow, at.overflow);
      assert Pending(at) == overflow[at.overflow..];
      EraseFromOverflow(at.overflow);
      assert Pending(at) == overflow[at.overflow..];
    }

    lemma OverflowSuffix(list: seq<Entry<K, V>>, p: nat)
      requires p < |list|
      ensures list[p..] == [list[p]] + Without(list, p)[p..]
    {
    }

    method EraseBucket(x: nat)
      requires Valid() && x < |buckets| && buckets[x].slot.Some?
      modifies this`buckets, this`size, this`Contents
      ensures Valid() && Contents == old(Contents) - {old(buckets)[x].slot.value.key}
      ensures |buckets| == old(|buckets|) && Entries(buckets[x + 1..]) == old(Entries(buckets[x + 1..]))
    {
      var key := buckets[x].slot.value.key;
      HomeInReach(x);
      RemoveKeeps(config, buckets, overflow, size, Contents, x, HomeOf(key));
      EraseFromBucket(x, HomeOf(key));
      Contents := Contents - {key};
    }

    method Erase(key: K) returns (erased: nat)
      requires Valid()
      modifies this`buckets, this`overflow, this`size, this`Contents
      ensures Valid() && Contents == old(Contents) - {key}
      ensures erased == if key in old(Contents) then 1 else 0
    {
      var found := FindInBuckets(key);
      if found.Some? {
        EraseBucket(found.value);
        return 1;
      }
      if HasOverflow(key) {
        var j := FindInOverflow(key);
        if j < |overflow| {
          EraseFromOverflow(j);
          return 1;
        }
      } else if buckets != [] {
        FlagDecides(key);
      }
      assert Contents - {key} == Contents;
      erased := 0;
    }

    method Clear()
      requires Valid()
      modifies this`buckets, this`overflow, this`size, this`Contents
      ensures Valid() && Contents == map[] && BucketCount() == old(BucketCount())
    {
      buckets := seq(|buckets|, _ => EmptyBucket<K, V>(config.n));
      overflow := [];
      size := 0;
      Contents := map[];
      EmptyIsFilled(config, buckets);
    }

    // ----- explicit growth

    /** A rehash fails only if there is no admissible count, or growth is refused while the values are
        stored in the new table. */
    ghost predicate RehashFails(count: nat)
      requires config.Valid()
      reads this
    {
      var target := RehashTarget(count);
      target.None? || Cornered(config, load, target.value, |Contents|)
    }

    method Rehash(count: nat) returns (out: Outcome)
      requires Valid()
      modifies this
      ensures out.Done? ==> Valid() && Contents == old(Contents) && BucketCount() >= count
      ensures out.LengthError? ==> Valid() && Contents == old(Contents)
      ensures out.Abandoned? ==> config.nothrowMove
      ensures old(RehashTarget(count)).None? ==> out.LengthError?
      ensures !out.Done? ==> old(RehashFails(count))
      ensures old(RehashTarget(count)).Some? && load.Roomy(old(RehashTarget(count)).value, |old(Contents)|) ==>
                out.Done? && BucketCount() == old(RehashTarget(count)).value
      ensures load == old(load)
    {
      var target := RehashTarget(count);
      if target.None? {
        return LengthError;
      }
      TargetIsCount(count);
      out := RehashTo(target.value);
    }

    method Reserve(count: nat) returns (out: Outcome)
      requires Valid()
      modifies this
      ensures out.Done? ==> Valid() && Contents == old(Contents) && BucketCount() >= load.bucketsFor(count)
      ensures old(RehashTarget(load.bucketsFor(count))).None? ==> out.LengthError?
      ensures !out.Done? ==> old(RehashFails(load.bucketsFor(count)))
      ensures out.LengthError? ==> Valid() && Contents == old(Contents)
      ensures out.Abandoned? ==> config.nothrowMove
      ensures load == old(load)
    {
      out := Rehash(load.bucketsFor(count));
    }

    method SetMaxLoadFactor(load': Load)
      requires Valid() && load'.Valid()
      modifies this`load, this`minThreshold, this`maxThreshold
      ensures Valid() && load == load'
    {
      load := load';
      minThreshold := load.minThreshold(BucketCount());
      maxThreshold := load.maxThreshold(BucketCount());
    }

    // ----- whole runs

    /** The commands that store values. */
    method Store(c: Command<K, V>) returns (out: Outcome, a: Answer<V>)
      requires Valid() && (c.Insert? || c.InsertOrAssign? || c.Subscript?)
      modifies this
      ensures out.Abandoned? ==> config.nothrowMove
      ensures out.LengthError? ==> Valid() && Contents == old(Contents)
      ensures out.Done? ==> Valid() && (Contents, a) == MapStep(old(Contents), c)
      ensures out.Done? ==> !a.Broken? && !a.Refused?
      ensures !out.Done? ==> old(MayFail(c.key))
      ensures load == old(load)
    {
      var at: Cursor;
      match c {
        case Insert(k, v) =>
          var inserted;
          out, at, inserted := Insert(Entry(k, v));
          a := Changed(inserted);
        case InsertOrAssign(k, v) =>
          var inserted;
          out, inserted := InsertOrAssign(k, v);
          a := Changed(inserted);
        case Subscript(k, d) =>
          out, at := Index(k, d);
          a := if out.Done? then Found(Some(EntryAt(at).value)) else Silent;
      }
    }

    /** What has to be the case for a command to be refused or to break the table. */
    ghost predicate Fails(c: Command<K, V>)
      requires config.Valid()
      reads this
    {
      match c
      case Insert(k, _) => MayFail(k)
      case InsertOrAssign(k, _) => MayFail(k)
      case Subscript(k, _) => MayFail(k)
      case Rehash(n) => RehashFails(n)
      case Reserve(n) => RehashFails(load.bucketsFor(n))
      case _ => false
    }

    method Execute(c: Command<K, V>) returns (a: Answer<V>)
      requires Valid()
      modifies this
      ensures a.Broken? ==> config.nothrowMove
      ensures a.Refused? ==> Valid() && Contents == old(Contents)
      ensures a.Refused? || a.Broken? ==> old(Fails(c))
      ensures load == old(load)
      ensures !a.Broken? && !a.Refused? ==> Valid() && (Contents, a) == MapStep(old(Contents), c)
      ensures !a.Broken? && !a.Refused? ==> (c.Rehash? ==> BucketCount() >= c.count)
      ensures !a.Broken? && !a.Refused? ==> (c.Reserve? ==> BucketCount() >= load.bucketsFor(c.count))
    {
      var out: Outcome := Done;
      match c {
        case Erase(k) =>
          var n := Erase(k);
          a := Changed(n == 1);
        case Clear =>
          Clear();
          a := Silent;
        case Lookup(k) =>
          var r := At(k);
          a := Found(r);
        case Rehash(n) =>
          out := Rehash(n);
          a := Silent;
        case Reserve(n) =>
          out := Reserve(n);
          a := Silent;
        case _ =>
          out, a := Store(c);
      }
      if out.LengthError? {
        a := Refused;
      } else if out.Abandoned? {
        a := Broken;
      }
    }

    lemma FailureIsRefusal(c: Command<K, V>)
      requires Valid() && Fails(c)
      ensures Refusable(config, load, Contents, c)
    {
      SizeIsCardinality();
      if c.Rehash? || c.Reserve? {
        var target := RehashTarget(if c.Rehash? then c.count else load.bucketsFor(c.count));
        if target.Some? {
          CorneredWider(config, load, target.value, |Contents|, 0, |Contents|);
        }
      } else {
        CorneredWider(config, load, BucketCount(), |Contents|, 0, |Contents|);
      }
    }

    /** Execute, with the cause of a failure in terms of the contents. */
    method Perform(c: Command<K, V>) returns (a: Answer<V>)
      requires Valid()
      modifies this
      ensures a.Broken? ==> config.nothrowMove && Refusable(config, load, old(Contents), c)
      ensures !a.Broken? ==> Valid() && StepAgrees(config, load, old(Contents), c, a, Contents)
      ensures load == old(load)
    {
      if Fails(c) {
        FailureIsRefusal(c);
      }
      a := Execute(c);
    }

    /** Every run of the table answers as the plain map does, command by command, up to the first
        abandoned rehash. Commands fail only for a cause, and none fails if the table accommodates the
        run. A table that copies its values is never abandoned. */
    method Run(cs: seq<Command<K, V>>) returns (answers: seq<Answer<V>>, ghost ms: seq<map<K, V>>)
      requires Valid()
      modifies this
      ensures RunAgrees(config, old(load), ms, cs, answers) && ms[0] == old(Contents)
      ensures |answers| < |cs| ==>
                config.nothrowMove && Refusable(config, old(load), ms[|answers|], cs[|answers|])
      ensures |answers| == |cs| ==> Valid() && Contents == ms[|cs|]
      ensures old(Accommodates(config, load, |Contents| + Additions(cs), cs)) ==>
                |answers| == |cs| && NoneRefused(answers)
    {
      ghost var total := |Contents| + Additions(cs);
      answers, ms := RunAll(cs, total, Accommodates(config, load, total, cs));
    }

    method RunAll(cs: seq<Command<K, V>>, ghost total: nat, ghost ample: bool)
      returns (answers: seq<Answer<V>>, ghost ms: seq<map<K, V>>)
      requires Valid()
      requires ample ==> |Contents| + Additions(cs) <= total && Accommodates(config, load, total, cs)
      modifies this
      ensures RunAgrees(config, old(load), ms, cs, answers) && ms[0] == old(Contents)
      ensures |answers| < |cs| ==>
                config.nothrowMove && Refusable(config, old(load), ms[|answers|], cs[|answers|])
      ensures |answers| == |cs| ==> Valid() && Contents == ms[|cs|]
      ensures ample ==> |answers| == |cs| && NoneRefused(answers)
    {
      answers, ms := [], [Contents];
      ghost var m := Contents;
      while |answers| < |cs|
        invariant load == old(load) && Agrees(cs, answers, ms, m, ample)
        decreases |cs| - |answers|
      {
        var a := RunNext(cs, answers, ms, m, total, ample);
        if a.Broken? {
          return;
        }
        answers, ms := answers + [a], ms + [Contents];
      }
    }

    /** A run so far, from the contents m; nothing was refused if there is ample room. */
    ghost predicate Agrees(
      cs: seq<Command<K, V>>, answers: seq<Answer<V>>, ms: seq<map<K, V>>, m: map<K, V>, ample: bool)
      reads this
    {
      && Valid() && RunAgrees(config, load, ms, cs, answers) && ms[0] == m && Contents == ms[|answers|]
      && (ample ==> NoneRefused(answers))
    }

    /** The next command of a run. */
    method RunNext(
      cs: seq<Command<K, V>>, answers: seq<Answer<V>>, ghost ms: seq<map<K, V>>, ghost m: map<K, V>, ghost total: nat,
      ghost ample: bool)
      returns (a: Answer<V>)
      requires Agrees(cs, answers, ms, m, ample) && |answers| < |cs|
      requires ample ==> |m| + Additions(cs) <= total && Accommodates(config, load, total, cs)
      modifies this
      ensures load == old(load)
      ensures a.Broken? ==> config.nothrowMove && Refusable(config, load, ms[|answers|], cs[|answers|]) && !ample
      ensures !a.Broken? ==> Agrees(cs, answers + [a], ms + [Contents], m, ample)
    {
      if ample {
        NextIsGranted(config, load, ms, cs, answers, total);
      }
      a := Perform(cs[|answers|]);
      if !a.Broken? {
        RunStep(config, load, ms, cs, answers, a, Contents, ample);
      }
    }
  }
}
