/** forensic/src/wipe.rs: classification of a region's fill. */
module Wipe {
  import opened Machine
  import opened Powers
  import opened Entropy

  datatype FillPattern = Zeros | Ones | Uniform(value: U8) | Alternating(a: U8, b: U8) | HighEntropy | Mixed {
    predicate IsDeliberateWipe() { Ones? || Uniform? || Alternating? }
  }

  predicate AllEqual(data: Bytes, v: U8) { forall i :: 0 <= i < |data| ==> data[i] == v }

  predicate Alternates(data: Bytes, a: U8, b: U8) {
    a != b && forall i :: 0 <= i < |data| ==> data[i] == if i % 2 == 0 then a else b
  }

  function OneByte(v: U8): FillPattern {
    if v == 0x00 then Zeros else if v == 0xFF then Ones else Uniform(v)
  }

  function Classify(data: Bytes): FillPattern {
    if data == [] then Mixed
    else if AllEqual(data, data[0]) then OneByte(data[0])
    else if |data| >= 2 && Alternates(data, data[0], data[1]) then Alternating(data[0], data[1])
    else if EntropyOf(data).Exceeds(HIGH_ENTROPY_THRESHOLD) then HighEntropy
    else Mixed
  }

  // ----- The tests commute -----

  datatype Test = UniformTest | AlternatingTest | EntropyTest

  /** What one test says of non-empty data on its own. */
  function Says(t: Test, data: Bytes): Option<FillPattern>
    requires data != []
  {
    match t
    case UniformTest => if AllEqual(data, data[0]) then Some(OneByte(data[0])) else None
    case AlternatingTest =>
      if |data| >= 2 && Alternates(data, data[0], data[1]) then Some(Alternating(data[0], data[1])) else None
    case EntropyTest => if EntropyOf(data).Exceeds(HIGH_ENTROPY_THRESHOLD) then Some(HighEntropy) else None
  }

  /** The first test of `order` with something to say, or Mixed. */
  function ClassifyInOrder(order: seq<Test>, data: Bytes): FillPattern
    requires data != []
  {
    if order == [] then Mixed
    else if Says(order[0], data).Some? then Says(order[0], data).value
    else ClassifyInOrder(order[1..], data)
  }

  /** Data on at most two byte values carries at most one bit, so is not of high entropy. */
  lemma TwoSymbolsLowEntropy(data: Bytes, a: U8, b: U8)
    requires forall i :: 0 <= i < |data| ==> data[i] == a || data[i] == b
    ensures !EntropyOf(data).Exceeds(1) && !EntropyOf(data).Exceeds(HIGH_ENTROPY_THRESHOLD)
  {
    SupportAtMost(data, 256, {a, b});
    assert Pow(2, 1) == 2 * Pow(2, 0) == 2;
    AlphabetBound(data, 1);
    if EntropyOf(data).Exceeds(6) { ExceedsMonotone(EntropyOf(data), 1, 5); assert false; }
  }

  /** No two tests speak of the same data, so what any one says is the classification. */
  lemma AtMostOneTestSpeaks(t: Test, u: Test, data: Bytes)
    requires data != [] && Says(t, data).Some? && Says(u, data).Some?
    ensures t == u
  {
    if AllEqual(data, data[0]) {
      TwoSymbolsLowEntropy(data, data[0], data[0]);
      if |data| >= 2 { assert data[1] == data[0]; }
    } else if |data| >= 2 && Alternates(data, data[0], data[1]) {
      TwoSymbolsLowEntropy(data, data[0], data[1]);
    }
  }

  lemma {:induction false} OrderIsIrrelevant(order: seq<Test>, data: Bytes, t: Test)
    requires data != [] && t in order && Says(t, data).Some?
    ensures ClassifyInOrder(order, data) == Says(t, data).value
  {
    if Says(order[0], data).Some? {
      AtMostOneTestSpeaks(t, order[0], data);
    } else {
      assert order == [order[0]] + order[1..];
      OrderIsIrrelevant(order[1..], data, t);
    }
  }

  lemma {:induction false} SilentIsMixed(order: seq<Test>, data: Bytes)
    requires data != [] && forall t :: t in order ==> Says(t, data).None?
    ensures ClassifyInOrder(order, data) == Mixed
  {
    if order != [] { SilentIsMixed(order[1..], data); }
  }

  /** Any order of the three tests gives the answer of the source's order. */
  lemma TestsCommute(order: seq<Test>, data: Bytes)
    requires data != [] && UniformTest in order && AlternatingTest in order && EntropyTest in order
    ensures ClassifyInOrder(order, data) == Classify(data)
  {
    if Says(UniformTest, data).Some? {
      OrderIsIrrelevant(order, data, UniformTest);
    } else if Says(AlternatingTest, data).Some? {
      OrderIsIrrelevant(order, data, AlternatingTest);
    } else if Says(EntropyTest, data).Some? {
      OrderIsIrrelevant(order, data, EntropyTest);
    } else {
      forall t | t in order ensures Says(t, data).None? {
        match t case UniformTest => case AlternatingTest => case EntropyTest =>
      }
      SilentIsMixed(order, data);
    }
  }

  /** Each verdict by a property of the bytes alone; the length guard of the source never decides. */
  lemma ClassifyMeans(data: Bytes)
    ensures Classify(data) == HighEntropy <==> EntropyOf(data).Exceeds(6)
    ensures Classify(data).Zeros? <==> data != [] && AllEqual(data, 0x00)
    ensures Classify(data).Ones? <==> data != [] && AllEqual(data, 0xFF)
    ensures forall v: U8 :: Classify(data) == Uniform(v) <==> data != [] && v != 0x00 && v != 0xFF && AllEqual(data, v)
    ensures forall a, b: U8 :: Classify(data) == Alternating(a, b) <==> |data| >= 2 && Alternates(data, a, b)
    ensures Classify(data).IsDeliberateWipe() <==>
            data != [] && !AllEqual(data, 0x00) &&
            ((exists v: U8 :: AllEqual(data, v)) || exists a, b: U8 :: Alternates(data, a, b))
    ensures data != [] && !AllEqual(data, data[0]) ==> |data| >= 2
  {
    if data == [] {
      EmptyWeight(256);
    } else {
      if AllEqual(data, data[0]) { TwoSymbolsLowEntropy(data, data[0], data[0]); }
      if |data| >= 2 && Alternates(data, data[0], data[1]) { TwoSymbolsLowEntropy(data, data[0], data[1]); }
      assert forall v: U8 :: AllEqual(data, v) ==> v == data[0];
      assert forall a, b: U8 :: |data| >= 2 && Alternates(data, a, b) ==> a == data[0] && b == data[1];
      if |data| == 1 { assert AllEqual(data, data[0]); }
    }
  }
}
