/** forensic/src/entropy.rs, with the exact value in place of its floating-point approximation.

    For n letters whose i-th byte value occurs c_i times, H = log2(n) - log2(W)/n with
    W the product of c_i^c_i. So n and W are the exact entropy, and H > k iff n^n > 2^(k*n) * W. */
module Entropy {
  import opened Machine
  import opened Powers

  datatype Exact = Exact(len: nat, weight: nat) {
    /** H > bits. */
    predicate Exceeds(bits: nat) { Pow(len, len) > Pow(2, bits * len) * weight }

    /** H == 0. */
    predicate IsZero() { Pow(len, len) == weight }
  }

  const HIGH_ENTROPY_THRESHOLD: nat := 6

  function Occurrences(data: Bytes, b: U8): nat { multiset(data)[b] }

  /** Product, total and support of the first `k` histogram slots. */
  function Weight(data: Bytes, k: nat): nat
    requires k <= 256
  {
    if k == 0 then 1 else Weight(data, k - 1) * Pow(Occurrences(data, k - 1), Occurrences(data, k - 1))
  }

  function Total(data: Bytes, k: nat): nat
    requires k <= 256
  {
    if k == 0 then 0 else Total(data, k - 1) + Occurrences(data, k - 1)
  }

  function Support(data: Bytes, k: nat): nat
    requires k <= 256
  {
    if k == 0 then 0 else Support(data, k - 1) + if Occurrences(data, k - 1) > 0 then 1 else 0
  }

  function EntropyOf(data: Bytes): Exact { Exact(|data|, Weight(data, 256)) }

  /** `shannon`: the 256-slot histogram, then one pass over its non-zero slots. */
  method Shannon(data: Bytes) returns (h: Exact)
    ensures h == EntropyOf(data)
  {
    if data == [] {
      EmptyWeight(256);
      return Exact(0, 1);
    }
    var counts := new nat[256](_ => 0);
    for i := 0 to |data|
      invariant forall b: U8 :: counts[b] == Occurrences(data[..i], b)
    {
      counts[data[i]] := counts[data[i]] + 1;
      assert data[..i + 1] == data[..i] + [data[i]];
    }
    assert data[..|data|] == data;
    var weight := 1;
    for k := 0 to 256
      invariant weight == Weight(data, k)
    {
      assert counts[k] == Occurrences(data, k);
      if counts[k] > 0 {
        weight := weight * Pow(counts[k], counts[k]);
      }
    }
    h := Exact(|data|, weight);
  }

  lemma {:induction false} EmptyWeight(k: nat)
    requires k <= 256
    ensures Weight([], k) == 1
  {
    if k > 0 { EmptyWeight(k - 1); }
  }

  predicate IsUniform(data: Bytes) {
    forall i :: 0 <= i < |data| - 1 ==> data[i] == data[i + 1]
  }

  // ----- The histogram -----

  lemma {:induction false} TotalGrows(data: Bytes, b: U8, k: nat)
    requires k <= 256
    ensures Total(data + [b], k) == Total(data, k) + if b < k then 1 else 0
  {
    if k > 0 {
      TotalGrows(data, b, k - 1);
      assert multiset(data + [b]) == multiset(data) + multiset{b};
    }
  }

  lemma {:induction false} EmptyTotal(k: nat)
    requires k <= 256
    ensures Total([], k) == 0
  {
    if k > 0 { EmptyTotal(k - 1); }
  }

  /** Counts sum to the length. */
  lemma {:induction false} HistogramTotal(data: Bytes)
    ensures Total(data, 256) == |data|
  {
    if data == [] {
      EmptyTotal(256);
    } else {
      var init, b := data[..|data| - 1], data[|data| - 1];
      HistogramTotal(init);
      TotalGrows(init, b, 256);
      assert data == init + [b];
    }
  }

  lemma OccurrencesBounded(data: Bytes, b: U8)
    ensures Occurrences(data, b) <= |data|
    ensures Occurrences(data, b) > 0 <==> b in data
  {
    assert multiset{}[b := Occurrences(data, b)] <= multiset(data);
    assert |multiset{}[b := Occurrences(data, b)]| == Occurrences(data, b);
    assert |multiset(data)| == |data|;
    assert |multiset(data) - multiset{}[b := Occurrences(data, b)]| >= 0;
  }

  lemma {:induction false} WeightPositive(data: Bytes, k: nat)
    requires k <= 256
    ensures Weight(data, k) >= 1
  {
    if k > 0 {
      var c := Occurrences(data, k - 1);
      WeightPositive(data, k - 1);
      if c > 0 { PowPositive(c, c); }
      MulLe(1, Weight(data, k - 1), 1, Pow(c, c));
    }
  }

  // ----- The upper bound: entropy is at most the logarithm of the alphabet -----

  /** S^S <= K^S * W over the first k slots, S letters on K symbols: Gibbs' inequality. */
  lemma {:induction false} Gibbs(data: Bytes, k: nat)
    requires k <= 256
    ensures var s, m := Total(data, k), Support(data, k);
            (m == 0 ==> s == 0) && Pow(s, s) <= Pow(m, s) * Weight(data, k)
  {
    if k > 0 {
      Gibbs(data, k - 1);
      var s, m, w, c := Total(data, k - 1), Support(data, k - 1), Weight(data, k - 1), Occurrences(data, k - 1);
      if c == 0 {
        assert w * Pow(0, 0) == w;
      } else {
        AddSymbol(s, c, m);
        if m > 0 { PowPositive(m, s); }
        ChainBound(Pow(s + c, s + c), Pow(m, s), Pow(m + 1, s + c), Pow(s, s), w, Pow(c, c));
      }
    }
  }

  lemma ChainBound(p: nat, k: nat, t: nat, a: nat, w: nat, d: nat)
    requires p * k <= t * (a * d) && a <= k * w && k > 0
    ensures p <= t * (w * d)
  {
    MulLe(a, k * w, d, d);
    MulMonotoneLeft(t, a * d, k * w * d);
    Assoc(k, w, d);
    Pull(t, k, w * d);
    CancelLe(k, p, t * (w * d));
  }

  /** Over an alphabet of at most 2^bits symbols, H <= bits. */
  lemma AlphabetBound(data: Bytes, bits: nat)
    requires Support(data, 256) <= Pow(2, bits)
    ensures !EntropyOf(data).Exceeds(bits)
  {
    var n, w := |data|, Weight(data, 256);
    HistogramTotal(data);
    Gibbs(data, 256);
    PowMonotone(Support(data, 256), Pow(2, bits), n);
    PowPow(2, bits, n);
    MulLe(Pow(Support(data, 256), n), Pow(2, bits * n), w, w);
  }

  lemma {:induction false} SupportAtMost(data: Bytes, k: nat, alphabet: set<U8>)
    requires k <= 256 && forall b: U8 :: b < k && b in data ==> b in alphabet
    ensures Support(data, k) <= |alphabet| && Support(data, k) <= k
    decreases k
  {
    if k > 0 {
      var b: U8 := k - 1;
      OccurrencesBounded(data, b);
      SupportAtMost(data, k - 1, alphabet - {b});
    }
  }

  /** H <= 8 for every byte sequence. */
  lemma EntropyAtMostEight(data: Bytes)
    ensures !EntropyOf(data).Exceeds(8)
  {
    SupportAtMost(data, 256, set b | b in data);
    assert Pow(2, 8) == 256 by {
      assert Pow(2, 4) == 16;
      PowAdd(2, 4, 4);
    }
    AlphabetBound(data, 8);
  }

  /** H <= bits also when there are at most 2^bits bytes at all. */
  lemma ShortDataBound(data: Bytes, bits: nat)
    requires |data| <= Pow(2, bits)
    ensures !EntropyOf(data).Exceeds(bits)
  {
    var n, w := |data|, Weight(data, 256);
    PowMonotone(n, Pow(2, bits), n);
    PowPow(2, bits, n);
    WeightPositive(data, 256);
    MulLe(Pow(2, bits * n), Pow(2, bits * n), 1, w);
  }

  /** A value above k + j bits is above k bits. */
  lemma {:induction false} ExceedsMonotone(h: Exact, k: nat, j: nat)
    requires h.Exceeds(k + j)
    ensures h.Exceeds(k)
  {
    assert (k + j) * h.len == k * h.len + j * h.len;
    PowAdd(2, k * h.len, j * h.len);
    PowPositive(2, j * h.len);
    MulLe(Pow(2, k * h.len), Pow(2, k * h.len), 1, Pow(2, j * h.len));
    MulLe(Pow(2, k * h.len), Pow(2, (k + j) * h.len), h.weight, h.weight);
  }

  // ----- Equally frequent symbols reach the bound -----

  /** Each of `symbols` occurs `m` times and nothing else does. */
  ghost predicate Flat(data: Bytes, symbols: set<U8>, m: nat) {
    forall b: U8 :: Occurrences(data, b) == if b in symbols then m else 0
  }

  lemma {:induction false} FlatSlots(data: Bytes, symbols: set<U8>, m: nat, k: nat)
    requires k <= 256 && m > 0 && Flat(data, symbols, m)
    ensures Weight(data, k) == Pow(Pow(m, m), Support(data, k)) && Total(data, k) == m * Support(data, k)
  {
    hide Pow, Occurrences;
    if k == 0 {
      PowZero(Pow(m, m));
    } else {
      FlatSlots(data, symbols, m, k - 1);
      FlatSlot(data, symbols, m, k - 1);
      PowStep(Pow(m, m), Support(data, k - 1));
      PowZero(0);
    }
  }

  lemma FlatSlot(data: Bytes, symbols: set<U8>, m: nat, b: U8)
    requires Flat(data, symbols, m)
    ensures Occurrences(data, b) == 0 || Occurrences(data, b) == m
  {
  }

  lemma PowZero(b: nat)
    ensures Pow(b, 0) == 1
  {
  }

  lemma PowStep(b: nat, e: nat)
    ensures Pow(b, e + 1) == Pow(b, e) * b
  {
  }

  lemma {:induction false} SupportIs(data: Bytes, k: nat, alphabet: set<U8>)
    requires k <= 256 && (forall b: U8 :: b in alphabet <==> b < k && Occurrences(data, b) > 0)
    ensures Support(data, k) == |alphabet|
    decreases k
  {
    if k > 0 {
      var b: U8 := k - 1;
      SupportIs(data, k - 1, alphabet - {b});
      assert b in alphabet ==> alphabet == alphabet - {b} + {b};
      assert b !in alphabet ==> alphabet == alphabet - {b};
    }
  }

  /** 2^bits equally frequent symbols carry exactly `bits` bits: n^n = 2^(bits n) W. */
  lemma FlatEntropy(data: Bytes, symbols: set<U8>, m: nat, bits: nat)
    requires m > 0 && Flat(data, symbols, m) && |symbols| == Pow(2, bits)
    ensures |data| == m * |symbols| && Pow(|data|, |data|) == Pow(2, bits * |data|) * Weight(data, 256)
    ensures forall j: nat :: EntropyOf(data).Exceeds(j) <==> j < bits
  {
    hide Exact.Exceeds, Flat, Weight, Pow;
    var n, w := |data|, Weight(data, 256);
    FlatSlots(data, symbols, m, 256);
    FlatSupport(data, symbols, m);
    HistogramTotal(data);
    FlatPowers(n, w, m, |symbols|, bits);
    forall j: nat ensures EntropyOf(data).Exceeds(j) <==> j < bits { FlatExceeds(n, w, bits, j); }
  }

  lemma FlatSupport(data: Bytes, symbols: set<U8>, m: nat)
    requires m > 0 && Flat(data, symbols, m)
    ensures Support(data, 256) == |symbols|
  {
    hide Support;
    SupportIs(data, 256, symbols);
  }

  lemma FlatPowers(n: nat, w: nat, m: nat, symbols: nat, bits: nat)
    requires m > 0 && symbols == Pow(2, bits) && n == m * symbols && w == Pow(Pow(m, m), symbols)
    ensures n > 0 && w > 0 && Pow(n, n) == Pow(2, bits * n) * w
  {
    hide Pow;
    PowPositive(2, bits);
    MulMonotoneLeft(m, 1, symbols);
    PowPow(m, m, symbols);
    PowPositive(m, n);
    PowMul(m, symbols, n);
    PowPow(2, bits, n);
  }

  lemma FlatExceeds(n: nat, w: nat, bits: nat, j: nat)
    requires n > 0 && w > 0 && Pow(n, n) == Pow(2, bits * n) * w
    ensures Exact(n, w).Exceeds(j) <==> j < bits
  {
    if j < bits {
      PowerGap(n, j, bits);
      MulLt(Pow(2, j * n), Pow(2, bits * n), w, w);
    } else {
      if bits < j { PowerGap(n, bits, j); }
      MulLe(Pow(2, bits * n), Pow(2, j * n), w, w);
    }
  }

  lemma PowerGap(n: nat, i: nat, j: nat)
    requires n > 0 && i < j
    ensures Pow(2, i * n) < Pow(2, j * n)
  {
    hide Pow;
    MulMonotone(i + 1, j, n);
    PowGrows(i * n, j * n);
  }

  lemma {:induction false} PowGrows(e: nat, f: nat)
    requires e < f
    ensures Pow(2, e) < Pow(2, f)
  {
    PowPositive(2, f - 1);
    if e < f - 1 { PowGrows(e, f - 1); }
  }

  // ----- Zero entropy is uniformity -----

  lemma TwoSymbolsShare(data: Bytes, a: U8, b: U8)
    requires a in data && b in data && a != b
    ensures 0 < Occurrences(data, a) < |data|
  {
    var m := multiset(data) - multiset{b};
    assert m[a] == Occurrences(data, a) && |m| == |data| - 1;
    assert multiset{}[a := m[a]] <= m;
    assert |multiset{}[a := m[a]]| == m[a];
    assert |m - multiset{}[a := m[a]]| >= 0;
  }

  /** W <= n^S over the first k slots. */
  lemma {:induction false} WeightAtMost(data: Bytes, k: nat)
    requires k <= 256 && |data| > 0
    ensures Weight(data, k) <= Pow(|data|, Total(data, k))
  {
    if k > 0 {
      var n, s, c := |data|, Total(data, k - 1), Occurrences(data, k - 1);
      WeightAtMost(data, k - 1);
      OccurrencesBounded(data, k - 1);
      PowAdd(n, s, c);
      PowMonotone(c, n, c);
      MulLe(Weight(data, k - 1), Pow(n, s), Pow(c, c), Pow(n, c));
    }
  }

  /** Strictly, once a slot b holds some but not all letters. */
  lemma {:induction false} WeightBelow(data: Bytes, k: nat, b: U8)
    requires b < k <= 256 && 0 < Occurrences(data, b) < |data|
    ensures Weight(data, k) < Pow(|data|, Total(data, k))
  {
    var n, s, c, w := |data|, Total(data, k - 1), Occurrences(data, k - 1), Weight(data, k - 1);
    OccurrencesBounded(data, k - 1);
    assert w * Pow(c, c) < Pow(n, s) * Pow(n, c) by {
      PowMonotone(c, n, c);
      PowPositive(n, s);
      PowPositive(n, c);
      if b == k - 1 {
        WeightAtMost(data, k - 1);
        PowStrict(c, n, c);
        MulLt(Pow(c, c), Pow(n, c), w, Pow(n, s));
      } else {
        WeightBelow(data, k - 1, b);
        MulLt(w, Pow(n, s), Pow(c, c), Pow(n, c));
      }
    }
    PowAdd(n, s, c);
  }

  lemma {:induction false} UniformIsOneSymbol(data: Bytes, i: nat)
    requires IsUniform(data) && i < |data|
    ensures data[i] == data[0]
  {
    if i > 0 { UniformIsOneSymbol(data, i - 1); assert data[i - 1] == data[i - 1 + 1]; }
  }

  /** H == 0 iff `is_uniform`; and H is never negative. */
  lemma ZeroIffUniform(data: Bytes)
    ensures EntropyOf(data).IsZero() <==> IsUniform(data)
    ensures Weight(data, 256) <= Pow(|data|, |data|)
  {
    HistogramTotal(data);
    if data == [] {
      EmptyWeight(256);
    } else {
      WeightAtMost(data, 256);
      if IsUniform(data) {
        UniformAtMostZero(data);
      } else {
        var i :| 0 <= i < |data| - 1 && data[i] != data[i + 1];
        TwoSymbolsShare(data, data[i], data[i + 1]);
        WeightBelow(data, 256, data[i]);
      }
    }
  }

  lemma UniformAtMostZero(data: Bytes)
    requires data != [] && IsUniform(data)
    ensures !EntropyOf(data).Exceeds(0) && Pow(|data|, |data|) <= Weight(data, 256)
  {
    forall i | 0 <= i < |data| ensures data[i] == data[0] {
      UniformIsOneSymbol(data, i);
    }
    SupportAtMost(data, 256, {data[0]});
    assert Pow(2, 0) == 1;
    AlphabetBound(data, 0);
    assert 0 * |data| == 0;
  }
}
