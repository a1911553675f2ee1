/** Machine words as bit sequences (least significant bit first), and the two bit tricks
    that the power-of-two growth policy relies on: bit smearing and masking. */
module Words {
  function Pow2(k: nat): (r: nat)
    ensures r >= 1
  {
    if k == 0 then 1 else 2 * Pow2(k - 1)
  }

  predicate IsPow2(n: nat) {
    if n <= 1 then n == 1 else n % 2 == 0 && IsPow2(n / 2)
  }

  /** The number a bit sequence denotes. */
  function Val(s: seq<bool>): (v: nat)
    ensures v < Pow2(|s|)
  {
    if s == [] then 0 else (if s[0] then 1 else 0) + 2 * Val(s[1..])
  }

  /** The lowest `w` bits of a number. */
  function Bits(v: nat, w: nat): (s: seq<bool>)
    ensures |s| == w
  {
    if w == 0 then [] else [v % 2 == 1] + Bits(v / 2, w - 1)
  }

  function ShiftRight(s: seq<bool>, i: nat): (r: seq<bool>)
    requires i <= |s|
    ensures |r| == |s|
  {
    s[i..] + seq(i, _ => false)
  }

  function Or(s: seq<bool>, t: seq<bool>): (r: seq<bool>)
    requires |s| == |t|
    ensures |r| == |s|
  {
    seq(|s|, j requires 0 <= j < |s| => s[j] || t[j])
  }

  function And(s: seq<bool>, t: seq<bool>): (r: seq<bool>)
    requires |s| == |t|
    ensures |r| == |s|
  {
    seq(|s|, j requires 0 <= j < |s| => s[j] && t[j])
  }

  /** `value + 1` and `value - 1` with the wrap-around of an unsigned word. */
  function Increment(s: seq<bool>): (r: seq<bool>)
    ensures |r| == |s|
  {
    Bits(Val(s) + 1, |s|)
  }

  function Decrement(s: seq<bool>): (r: seq<bool>)
    ensures |r| == |s|
  {
    Bits(Val(s) + Pow2(|s|) - 1, |s|)
  }

  // ----- values and bits are inverse to each other

  lemma {:induction false} ValOfBits(v: nat, w: nat)
    ensures Val(Bits(v, w)) == v % Pow2(w)
  {
    if w != 0 {
      ValOfBits(v / 2, w - 1);
      HalveRemainder(v, Pow2(w - 1));
    }
  }

  lemma HalveRemainder(v: nat, p: nat)
    requires p > 0
    ensures v % (2 * p) == v % 2 + 2 * (v / 2 % p)
  {
    var h := v / 2;
    var q, r := h / p, h % p;
    assert h == q * p + r;
    assert q * (2 * p) == 2 * (q * p);
    DivisionIsUnique(v, 2 * p, q, v % 2 + 2 * r);
  }

  lemma DivisionIsUnique(v: nat, d: nat, q: nat, r: nat)
    requires r < d && v == q * d + r
    ensures v / d == q && v % d == r
  {
    var q', r' := v / d, v % d;
    assert v == q' * d + r';
    if q > q' {
      MulMonotone(q' + 1, q, d);
    } else if q < q' {
      MulMonotone(q + 1, q', d);
    }
  }

  lemma MulMonotone(a: nat, b: nat, d: nat)
    requires a <= b
    ensures a * d <= b * d
  {
    assert b * d == a * d + (b - a) * d;
  }

  lemma {:induction false} BitsOfVal(s: seq<bool>)
    ensures Bits(Val(s), |s|) == s
  {
    if s != [] {
      BitsOfVal(s[1..]);
    }
  }

  lemma {:induction false} ValSplit(s: seq<bool>, k: nat)
    requires k <= |s|
    ensures Val(s) == Val(s[..k]) + Pow2(k) * Val(s[k..])
  {
    if k == 0 {
      assert s[..0] == [] && s[0..] == s;
    } else {
      ValSplit(s[1..], k - 1);
      assert s[..k][1..] == s[1..][..k - 1] && s[1..][k - 1..] == s[k..];
      DoubleProduct(Pow2(k), Pow2(k - 1), Val(s[k..]));
    }
  }

  lemma DoubleProduct(q: nat, p: nat, x: nat)
    requires q == 2 * p
    ensures q * x == 2 * (p * x)
  {
  }

  lemma {:induction false} ValOfZeros(s: seq<bool>)
    requires forall j :: 0 <= j < |s| ==> !s[j]
    ensures Val(s) == 0
  {
    if s != [] {
      ValOfZeros(s[1..]);
    }
  }

  lemma {:induction false} ValOfOnes(s: seq<bool>)
    requires forall j :: 0 <= j < |s| ==> s[j]
    ensures Val(s) == Pow2(|s|) - 1
  {
    if s != [] {
      ValOfOnes(s[1..]);
    }
  }

  lemma {:induction false} ValIsZero(s: seq<bool>)
    requires Val(s) == 0
    ensures forall j :: 0 <= j < |s| ==> !s[j]
  {
    if s != [] {
      ValIsZero(s[1..]);
    }
  }

  // ----- powers of two

  lemma {:induction false} Pow2IsPow2(k: nat)
    ensures IsPow2(Pow2(k))
  {
    if k != 0 {
      Pow2IsPow2(k - 1);
    }
  }

  lemma {:induction false} Exponent(n: nat) returns (k: nat)
    requires IsPow2(n)
    ensures n == Pow2(k)
  {
    if n == 1 {
      k := 0;
    } else {
      k := Exponent(n / 2);
      k := k + 1;
    }
  }

  lemma {:induction false} Pow2Monotone(a: nat, b: nat)
    requires a <= b
    ensures Pow2(a) <= Pow2(b)
  {
    if a < b {
      Pow2Monotone(a, b - 1);
    }
  }

  lemma {:induction false} Pow2Sum(a: nat, b: nat)
    ensures Pow2(a + b) == Pow2(a) * Pow2(b)
  {
    if a != 0 {
      Pow2Sum(a - 1, b);
      DoubleProduct(Pow2(a), Pow2(a - 1), Pow2(b));
    }
  }

  lemma {:induction false} Pow2Product(m: nat, n: nat)
    requires IsPow2(m) && IsPow2(n)
    ensures IsPow2(m * n)
  {
    var a := Exponent(m);
    var b := Exponent(n);
    Pow2Sum(a, b);
    Pow2IsPow2(a + b);
  }

  /** `r` is the least power of two that is not below `value`. */
  ghost predicate IsLeastPow2(value: nat, r: nat) {
    && IsPow2(r)
    && r >= value
    && forall p: nat :: IsPow2(p) && p >= value ==> r <= p
  }

  lemma LeastPow2Between(value: nat, t: nat)
    requires Pow2(t) < value <= Pow2(t + 1)
    ensures IsLeastPow2(value, Pow2(t + 1))
  {
    Pow2IsPow2(t + 1);
    forall p: nat | IsPow2(p) && p >= value ensures Pow2(t + 1) <= p {
      var k := Exponent(p);
      if k <= t {
        Pow2Monotone(k, t);
      }
      Pow2Monotone(t + 1, k);
    }
  }

  // ----- is_power_of_two

  /** The index of the highest set bit. */
  lemma {:induction false} TopBit(s: seq<bool>) returns (t: nat)
    requires Val(s) != 0
    ensures t < |s| && s[t]
    ensures forall j :: t < j < |s| ==> !s[j]
    ensures Pow2(t) <= Val(s) < Pow2(t + 1)
  {
    if Val(s[1..]) == 0 {
      t := 0;
      ValIsZero(s[1..]);
      forall j | 0 < j < |s| ensures !s[j] {
        assert !s[1..][j - 1];
      }
    } else {
      var t' := TopBit(s[1..]);
      t := t' + 1;
      assert s[1..][t'];
      forall j | t < j < |s| ensures !s[j] {
        assert !s[1..][j - 1];
      }
    }
  }

  predicate PowerOfTwoTest(value: seq<bool>) {
    Val(value) != 0 && Val(And(value, Decrement(value))) == 0
  }

  lemma {:induction false} DecrementIsExact(value: seq<bool>)
    requires Val(value) != 0
    ensures Val(Decrement(value)) == Val(value) - 1
  {
    var v, p := Val(value), Pow2(|value|);
    ValOfBits(v + p - 1, |value|);
    DivisionIsUnique(v + p - 1, p, 1, v - 1);
  }

  /** The test `value != 0 && (value & (value - 1)) == 0` accepts exactly the powers of two. */
  lemma {:induction false} PowerOfTwoTestIsExact(value: seq<bool>)
    ensures PowerOfTwoTest(value) <==> IsPow2(Val(value))
  {
    if Val(value) != 0 {
      DecrementIsExact(value);
      var t := TopBit(value);
      if Val(value) == Pow2(t) {
        Pow2IsPow2(t);
        AndOfPowerIsZero(value, Decrement(value), t);
      } else {
        if IsPow2(Val(value)) {
          var k := Exponent(Val(value));
          StrictlyBetweenPowers(Val(value), t, k);
          assert false;
        }
        SetBitWhenLarge(Decrement(value), t);
        SetBitBound(And(value, Decrement(value)), t);
      }
    }
  }

  lemma StrictlyBetweenPowers(v: nat, t: nat, k: nat)
    requires Pow2(t) < v < Pow2(t + 1)
    ensures v != Pow2(k)
  {
    if k <= t {
      Pow2Monotone(k, t);
    } else {
      Pow2Monotone(t + 1, k);
    }
  }

  lemma {:induction false} AndOfPowerIsZero(value: seq<bool>, below: seq<bool>, t: nat)
    requires |below| == |value| && t < |value|
    requires Val(value) == Pow2(t) && Val(below) == Pow2(t) - 1
    ensures Val(And(value, below)) == 0
  {
    var both := And(value, below);
    OnlyBit(value, t);
    forall j | 0 <= j < |both| ensures !both[j] {
      if j >= t && below[j] {
        ClearAbove(below, t, j);
      }
    }
    ValOfZeros(both);
  }

  /** A number below 2^t has no bit at or above t. */
  lemma {:induction false} ClearAbove(s: seq<bool>, t: nat, j: nat)
    requires t <= j < |s| && s[j]
    ensures Val(s) >= Pow2(t)
  {
    SetBitBound(s, j);
    Pow2Monotone(t, j);
  }

  lemma {:induction false} SetBitBound(s: seq<bool>, j: nat)
    requires j < |s| && s[j]
    ensures Val(s) >= Pow2(j)
  {
    if j != 0 {
      assert s[1..][j - 1];
      SetBitBound(s[1..], j - 1);
    }
  }

  lemma {:induction false} OnlyBit(s: seq<bool>, t: nat)
    requires t < |s| && Val(s) == Pow2(t)
    ensures forall j :: 0 <= j < t ==> !s[j]
  {
    if t != 0 {
      OnlyBit(s[1..], t - 1);
      forall j | 0 <= j < t ensures !s[j] {
        if j > 0 {
          assert !s[1..][j - 1];
        }
      }
    }
  }

  lemma SetBitWhenLarge(s: seq<bool>, t: nat)
    requires t < |s| && Pow2(t) <= Val(s) < Pow2(t + 1)
    ensures s[t]
  {
    var top := TopBit(s);
    if top < t {
      Pow2Monotone(top + 1, t);
    } else if top > t {
      Pow2Monotone(t + 1, top);
    }
  }

  lemma {:induction false} ValOfLowOnes(s: seq<bool>, k: nat)
    requires k <= |s| && forall j :: 0 <= j < |s| ==> (s[j] <==> j < k)
    ensures Val(s) == Pow2(k) - 1
  {
    ValSplit(s, k);
    ValOfOnes(s[..k]);
    ValOfZeros(s[k..]);
  }

  // ----- round_up_to_power_of_two

  /** Bit j of the smeared word says whether any of the bits j .. j+i-1 was set. */
  ghost predicate Smeared(was: seq<bool>, now: seq<bool>, i: nat) {
    && |now| == |was|
    && forall j :: 0 <= j < |was| ==> (now[j] <==> exists m :: j <= m < j + i && m < |was| && was[m])
  }

  lemma SmearStep(was: seq<bool>, now: seq<bool>, i: nat)
    requires 0 < i <= |was| && Smeared(was, now, i)
    ensures Smeared(was, Or(now, ShiftRight(now, i)), 2 * i)
  {
    var next := Or(now, ShiftRight(now, i));
    forall j | 0 <= j < |was|
      ensures next[j] <==> exists m :: j <= m < j + 2 * i && m < |was| && was[m]
    {
      assert next[j] <==> now[j] || (j + i < |was| && now[j + i]);
    }
  }

  /** `for (i = 1; i < width; i *= 2) value |= value >> i` sets every bit below the highest one. */
  method Smear(value: seq<bool>) returns (r: seq<bool>)
    requires |value| > 0
    ensures |r| == |value|
    ensures forall j :: 0 <= j < |value| ==> (r[j] <==> exists m :: j <= m < |value| && value[m])
  {
    r := value;
    var i := 1;
    while i < |value|
      invariant 0 < i
      invariant Smeared(value, r, i)
    {
      SmearStep(value, r, i);
      r := Or(r, ShiftRight(r, i));
      i := i * 2;
    }
  }

  /** Smearing the bits of `value - 1` and adding one gives the least power of two that is not
      below `value`, for every value up to the largest power of two of the word. */
  method RoundUpToPowerOfTwo(value: seq<bool>) returns (r: seq<bool>)
    requires |value| > 0 && Val(value) <= Pow2(|value| - 1)
    ensures |r| == |value|
    ensures IsLeastPow2(Val(value), Val(r))
  {
    PowerOfTwoTestIsExact(value);
    if PowerOfTwoTest(value) {
      return value;
    }
    if Val(value) == 0 {
      r := Bits(1, |value|);
      LargerPower(0, |value|);
      ValOfBits(1, |value|);
      return;
    }
    NotPowerOfTwo(value);
    DecrementIsExact(value);
    ghost var t := TopBit(Decrement(value));
    r := Smear(Decrement(value));
    ValOfLowOnes(r, t + 1);
    SmearResult(value, r, t);
    r := Increment(r);
  }

  lemma {:induction false} NotPowerOfTwo(value: seq<bool>)
    requires |value| > 0 && !IsPow2(Val(value)) && 0 < Val(value) <= Pow2(|value| - 1)
    ensures 1 < Val(value) < Pow2(|value| - 1)
  {
    Pow2IsPow2(|value| - 1);
  }

  lemma {:induction false} ExponentsOrdered(a: nat, b: nat)
    ensures Pow2(a) < Pow2(b) ==> a < b
  {
    if a >= b {
      Pow2Monotone(b, a);
    }
  }

  lemma SmearResult(value: seq<bool>, r: seq<bool>, t: nat)
    requires |r| == |value| && t < |value| && Val(r) == Pow2(t + 1) - 1
    requires Pow2(t) < Val(value) <= Pow2(t + 1) && Val(value) < Pow2(|value| - 1)
    ensures IsLeastPow2(Val(value), Val(Increment(r)))
  {
    ExponentsOrdered(t, |value| - 1);
    LargerPower(t + 1, |value|);
    ValOfBits(Pow2(t + 1), |value|);
    LeastPow2Between(Val(value), t);
  }

  // ----- masking

  /** Masking with a power of two minus one is the remainder by that power. */
  lemma MaskIsRemainder(hash: seq<bool>, k: nat)
    requires k <= |hash|
    ensures Val(And(hash, Bits(Pow2(k) - 1, |hash|))) == Val(hash) % Pow2(k)
  {
    var mask := Bits(Pow2(k) - 1, |hash|);
    MaskBits(k, |hash|, mask);
    var r := And(hash, mask);
    ValSplit(r, k);
    ValSplit(hash, k);
    assert r[..k] == hash[..k];
    ValOfZeros(r[k..]);
    SplitRemainder(Val(hash[..k]), Pow2(k), Val(hash[k..]));
  }

  lemma SplitRemainder(low: nat, p: nat, high: nat)
    requires low < p
    ensures (low + p * high) % p == low && low + p * 0 == low
  {
    assert p * high == high * p;
    DivisionIsUnique(low + p * high, p, high, low);
  }

  lemma {:induction false} MaskBits(k: nat, w: nat, mask: seq<bool>)
    requires k <= w && mask == Bits(Pow2(k) - 1, w)
    ensures forall j :: 0 <= j < w ==> (mask[j] <==> j < k)
  {
    if k == 0 {
      ZeroBits(w);
    } else {
      assert (Pow2(k) - 1) / 2 == Pow2(k - 1) - 1;
      MaskBits(k - 1, w - 1, mask[1..]);
      forall j | 0 < j < w ensures mask[j] <==> j < k {
        assert mask[j] == mask[1..][j - 1];
      }
    }
  }

  lemma {:induction false} ZeroBits(w: nat)
    ensures forall j :: 0 <= j < w ==> !Bits(0, w)[j]
  {
    if w != 0 {
      ZeroBits(w - 1);
    }
  }

  /** The truncation of a hash to the `width` bits that a bucket may keep. */
  function Truncate(hash: nat, width: nat): (r: nat) {
    hash % Pow2(width)
  }

  /** A table whose bucket count is a power of two selects the same bucket for a hash and for its
      truncation to `width` bits, for every hash, exactly when it has at most 2^width buckets. */
  lemma {:induction false} StoredHashSelectsSameBucket(count: nat, width: nat)
    requires IsPow2(count)
    ensures (forall h: nat :: Truncate(h, width) % count == h % count) <==> count <= Pow2(width)
  {
    var k := Exponent(count);
    if k <= width {
      Pow2Monotone(k, width);
      Pow2Sum(k, width - k);
      forall h: nat ensures Truncate(h, width) % count == h % count {
        RemainderOfRemainder(h, count, Pow2(width - k));
      }
    } else {
      LargerPower(width, k);
      OwnRemainder(Pow2(width), count);
      assert Truncate(Pow2(width), width) % count == 0;
    }
  }

  /** The hash that a rehash uses for a value: the stored one if the new bucket count allows it. */
  function RehashHash(hash: nat, newCount: nat, width: nat): (r: nat) {
    if newCount <= Pow2(width) then Truncate(hash, width) else hash
  }

  /** With that hash a rehash always finds the bucket in the new table. It finds the bucket in the old
      table, whose bit it clears, exactly when the old count allows the stored hash too, or the new count
      does not: not when a table shrinks to 2^width buckets or less from more. */
  lemma {:induction false} StoredHashOnRehash(oldCount: nat, newCount: nat, width: nat)
    requires IsPow2(oldCount) && IsPow2(newCount)
    ensures forall h: nat :: RehashHash(h, newCount, width) % newCount == h % newCount
    ensures (forall h: nat :: RehashHash(h, newCount, width) % oldCount == h % oldCount)
            <==> oldCount <= Pow2(width) || newCount > Pow2(width)
  {
    StoredHashSelectsSameBucket(newCount, width);
    StoredHashSelectsSameBucket(oldCount, width);
    if newCount <= Pow2(width) {
      assert forall h: nat :: RehashHash(h, newCount, width) == Truncate(h, width);
    } else {
      assert forall h: nat :: RehashHash(h, newCount, width) == h;
    }
  }

  lemma OwnRemainder(p: nat, count: nat)
    requires p > 0 && count > 0
    ensures p % p == 0 && 0 % count == 0
  {
    DivisionIsUnique(p, p, 1, 0);
  }

  lemma {:induction false} LargerPower(s: nat, k: nat)
    requires s < k
    ensures Pow2(s) < Pow2(k) && Pow2(s) % Pow2(k) == Pow2(s)
  {
    Pow2Monotone(s + 1, k);
    SmallRemainder(Pow2(s), Pow2(k));
  }

  lemma SmallRemainder(a: nat, b: nat)
    requires a < b
    ensures a % b == a
  {
  }

  lemma RemainderOfRemainder(h: nat, m: nat, c: nat)
    requires m > 0 && c > 0
    ensures m * c > 0 && h % (m * c) % m == h % m
  {
    MulMonotone(1, m, c);
    var q, r := h / (m * c), h % (m * c);
    NestedQuotient(m, c, q, r / m, r % m);
    DivisionIsUnique(h, m, q * c + r / m, r % m);
  }

  lemma NestedQuotient(m: nat, c: nat, q: nat, q': nat, r': nat)
    ensures q * (m * c) + (q' * m + r') == (q * c + q') * m + r'
  {
    assert q * (m * c) == q * c * m;
    assert (q * c + q') * m == q * c * m + q' * m;
  }
}
