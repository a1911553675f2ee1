/** The policies that decide how many buckets a hopscotch table has and how it grows. */
module GrowthPolicy {
  import opened Words
  import opened Wrappers

  datatype Policy =
    | PowerOfTwo(growthFactor: nat, width: nat)  // width of std::size_t
    | Prime(primes: seq<nat>)
  {
    /** The static assertion on the growth factor, and the order that the search in the table of
        primes relies on. */
    predicate Valid() {
      if PowerOfTwo? then growthFactor >= 2 && IsPow2(growthFactor) && width > 0
      else primes != [] && primes[0] > 0 && Increasing(primes)
    }

    function MaxCount(): (r: nat)
      requires Valid()
    {
      if PowerOfTwo? then Pow2(width - 1) else primes[|primes| - 1]
    }

    /** The bucket counts that the policy can produce. */
    predicate IsCount(count: nat)
      requires Valid()
    {
      count == 0 || (if PowerOfTwo? then IsPow2(count) && count <= MaxCount() else count in primes)
    }

    /** The constructor: the bucket count it settles on for a requested minimum, if any. */
    function Create(min: nat): (r: Option<nat>)
      requires Valid()
    {
      if PowerOfTwo? then
        if min > MaxCount() then None else Some(if min > 0 then RoundUp(min) else 0)
      else
        var i := LowerBound(primes, min, 0);
        if i == |primes| then None else Some(if min > 0 then primes[i] else 0)
    }

    /** The bucket count to use when the bucket array grows. */
    function Next(count: nat): (r: Option<nat>)
      requires Valid()
    {
      if PowerOfTwo? then
        if Divisor(count) > MaxCount() / growthFactor then None else Some(Divisor(count) * growthFactor)
      else
        var i := LowerBound(primes, count, 0);
        if i + 1 >= |primes| then None else Some(primes[i + 1])
    }
  }

  predicate Increasing(s: seq<nat>) {
    forall i, j :: 0 <= i < j < |s| ==> s[i] < s[j]
  }

  /** A table without buckets answers as if it had one. */
  function Divisor(count: nat): (r: nat)
    ensures r > 0
  {
    if count == 0 then 1 else count
  }

  function BucketFor(count: nat, hash: nat): (r: nat)
    ensures r < Divisor(count)
  {
    hash % Divisor(count)
  }

  /** `std::lower_bound`. */
  function LowerBound(s: seq<nat>, min: nat, from: nat): (i: nat)
    requires from <= |s|
    ensures from <= i <= |s|
    ensures i < |s| ==> s[i] >= min
    ensures forall j :: from <= j < i ==> s[j] < min
    decreases |s| - from
  {
    if from == |s| || s[from] >= min then from else LowerBound(s, min, from + 1)
  }

  function RoundUp(value: nat): (r: nat)
    ensures r >= value && r >= 1
  {
    if value <= 1 then 1 else 2 * RoundUp((value + 1) / 2)
  }

  lemma {:induction false} RoundUpIsLeast(value: nat)
    ensures IsLeastPow2(value, RoundUp(value))
  {
    if value > 1 {
      RoundUpIsLeast((value + 1) / 2);
      forall p: nat | IsPow2(p) && p >= value ensures RoundUp(value) <= p {
        assert IsPow2(p / 2) && p / 2 >= (value + 1) / 2;
      }
    }
  }

  /** A policy settles on its least bucket count that is not below the request, and refuses only a
      request above all its counts; zero stays zero. */
  lemma CreateIsLeast(p: Policy, min: nat)
    requires p.Valid()
    ensures p.Create(min) == None <==> min > p.MaxCount()
    ensures p.IsCount(p.MaxCount()) && forall c: nat :: p.IsCount(c) ==> c <= p.MaxCount()
    ensures p.Create(min).Some? ==>
              var c := p.Create(min).value;
              && p.IsCount(c) && c >= min && (c == 0 <==> min == 0)
              && forall c' :: c' >= min && p.IsCount(c') ==> c <= c'
  {
    if p.PowerOfTwo? {
      Pow2IsPow2(p.width - 1);
      RoundUpIsLeast(min);
    } else {
      var i := LowerBound(p.primes, min, 0);
      forall c' | c' >= min && p.IsCount(c') && i < |p.primes| && min > 0 ensures p.primes[i] <= c' {
        var j :| 0 <= j < |p.primes| && p.primes[j] == c';
        assert j >= i;
      }
    }
  }

  /** The greatest bucket count: the highest power of two of the word, or the last prime. */
  lemma {:induction false} MaxCountIsGreatest(p: Policy)
    requires p.Valid()
    ensures p.IsCount(p.MaxCount()) && forall c: nat :: p.IsCount(c) ==> c <= p.MaxCount()
    ensures p.PowerOfTwo? ==> p.MaxCount() < Pow2(p.width)
    ensures p.PowerOfTwo? ==> forall c: nat :: IsPow2(c) && c < Pow2(p.width) ==> c <= p.MaxCount()
  {
    CreateIsLeast(p, 0);
    if p.PowerOfTwo? {
      forall c: nat | IsPow2(c) && c < Pow2(p.width) ensures c <= p.MaxCount() {
        Pow2BelowWord(c, p.width);
      }
    }
  }

  lemma {:induction false} Pow2BelowWord(c: nat, width: nat)
    requires IsPow2(c) && c < Pow2(width) && width > 0
    ensures c <= Pow2(width - 1)
    decreases width
  {
    if c > 1 && width > 1 {
      Pow2BelowWord(c / 2, width - 1);
    }
  }

  /** The next bucket count is a count of the policy that is strictly larger than the current one: larger by the
      growth factor, or the next prime. There is none only when there is no room to grow by the factor. */
  lemma {:induction false} NextGrows(p: Policy, count: nat)
    requires p.Valid() && p.IsCount(count)
    ensures p.Next(count).Some? ==>
              var n := p.Next(count).value;
              n > count && n > 1 && p.IsCount(n) && p.Create(n) == Some(n)
    ensures p.Next(count).Some? && p.PowerOfTwo? ==>
              p.Next(count).value == (if count == 0 then 1 else count) * p.growthFactor
    ensures p.Next(count).Some? && p.Prime? ==>
              if count == 0 then p.Next(count).value == p.primes[1]
              else forall c: nat :: c in p.primes && c > count ==> p.Next(count).value <= c
    ensures p.PowerOfTwo? ==> (p.Next(count) == None <==> Divisor(count) * p.growthFactor > p.MaxCount())
    ensures p.Prime? ==> (p.Next(count) == None <==> count == p.MaxCount() || |p.primes| == 1)
  {
    if p.PowerOfTwo? {
      QuotientBound(Divisor(count), p.growthFactor, p.MaxCount());
      ProductGrows(Divisor(count), p.growthFactor);
      RoundUpIsLeast(Divisor(count) * p.growthFactor);
    } else {
      NextPrimeGrows(p, count);
    }
  }

  lemma {:induction false} ProductGrows(d: nat, g: nat)
    requires d > 0 && g >= 2 && IsPow2(d) && IsPow2(g)
    ensures IsPow2(d * g) && d * g > d && d * g > 1
  {
    Pow2Product(d, g);
    MulMonotone(1, d, g);
    MulMonotone(2, g, d);
  }

  lemma {:induction false} NextPrimeGrows(p: Policy, count: nat)
    requires p.Valid() && p.IsCount(count) && p.Prime?
    ensures p.Next(count).Some? ==>
              var n := p.Next(count).value;
              && n > count && n > 1 && p.IsCount(n) && p.Create(n) == Some(n)
              && if count == 0 then n == p.primes[1] else forall c: nat :: c in p.primes && c > count ==> n <= c
    ensures p.Next(count) == None <==> count == p.MaxCount() || |p.primes| == 1
  {
    var i := LowerBound(p.primes, count, 0);
    if i + 1 < |p.primes| {
      assert p.primes[i + 1] in p.primes;
      assert LowerBound(p.primes, p.primes[i + 1], 0) == i + 1;
    }
    if count > 0 {
      var j :| 0 <= j < |p.primes| && p.primes[j] == count;
      assert i == j;
    }
  }

  lemma QuotientBound(d: nat, g: nat, max: nat)
    requires g > 0
    ensures d > max / g <==> d * g > max
  {
    var q, r := max / g, max % g;
    assert max == q * g + r;
    if d > q {
      MulMonotone(q + 1, d, g);
    } else {
      MulMonotone(d, q, g);
    }
  }

  /** With a power-of-two count, the mask that the policy keeps selects the bucket. */
  lemma MaskSelectsBucket(hash: seq<bool>, count: nat)
    requires IsPow2(count) && count <= Pow2(|hash|)
    ensures Val(And(hash, Bits(count - 1, |hash|))) == BucketFor(count, Val(hash))
  {
    var k := Exponent(count);
    if k > |hash| {
      LargerPower(|hash|, k);
      assert false;
    }
    MaskIsRemainder(hash, k);
  }

  // ----- the table of primes of a 64-bit platform

  const PRIMES_SMALL: seq<nat> := [1, 5, 17, 29, 37, 53, 67, 79, 97, 131, 193, 257, 389]
  const PRIMES_16: seq<nat> := [521, 769, 1031, 1543, 2053, 3079, 6151, 12289, 24593, 49157]
  const PRIMES_25: seq<nat> := [98317, 196613, 393241, 786433, 1572869, 3145739, 6291469, 12582917, 25165843]
  const PRIMES_32: seq<nat> := [
    50331653, 100663319, 201326611, 402653189, 805306457, 1610612741, 3221225473, 4294967291]
  const PRIMES_43: seq<nat> := [
    6442450939, 12884901893, 25769803751, 51539607551, 103079215111, 206158430209, 412316860441, 824633720831,
    1649267441651, 3298534883309, 6597069766657]

  const PRIMES: seq<nat> := PRIMES_SMALL + PRIMES_16 + PRIMES_25 + PRIMES_32 + PRIMES_43

  lemma IncreasingConcat(s: seq<nat>, t: seq<nat>)
    requires Increasing(s) && Increasing(t)
    requires s != [] && t != [] ==> s[|s| - 1] < t[0]
    ensures Increasing(s + t)
  {
  }

  lemma PrimePolicyIsValid()
    ensures |PRIMES| == 51 && Prime(PRIMES).Valid()
  {
    IncreasingConcat(PRIMES_SMALL, PRIMES_16);
    IncreasingConcat(PRIMES_SMALL + PRIMES_16, PRIMES_25);
    IncreasingConcat(PRIMES_SMALL + PRIMES_16 + PRIMES_25, PRIMES_32);
    IncreasingConcat(PRIMES_SMALL + PRIMES_16 + PRIMES_25 + PRIMES_32, PRIMES_43);
  }
}
