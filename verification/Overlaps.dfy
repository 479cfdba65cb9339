/** `check_overlaps` of forensic/src/analyse.rs: sort by start, compare neighbours. */
module Overlaps {
  import opened Machine
  import opened Sorting
  import opened Findings

  /** A data partition's id and inclusive range. */
  datatype Claim = Claim(id: nat, start: U64, end: U64) {
    predicate NonEmpty() { start <= end }
    predicate Holds(x: int) { start <= x <= end }
  }

  function StartKey(): Claim -> int { (c: Claim) => c.start }

  /** Byte offset of primary entry `index` in the boot sector. */
  function EntryOffset(index: nat): nat { 446 + 16 * index }

  function PairFinding(a: Claim, b: Claim): seq<Anomaly> {
    OnlyIf(b.start <= a.end, OverlappingPartitions(a.id, b.id, a.end, b.start), EntryOffset(if a.id < 3 then a.id else 3))
  }

  /** What the first `n` neighbouring pairs of a list give. */
  function PairFindings(s: seq<Claim>, n: nat): seq<Anomaly>
    requires n == 0 || n < |s|
  {
    if n == 0 then [] else PairFindings(s, n - 1) + PairFinding(s[n - 1], s[n])
  }

  function OverlapFindings(claims: seq<Claim>): seq<Anomaly> {
    SortLength(claims, StartKey());
    PairFindings(SortByKey(claims, StartKey()), if |claims| == 0 then 0 else |claims| - 1)
  }

  method CheckOverlaps(claims: seq<Claim>, findings: Recorder)
    modifies findings
    ensures findings.anomalies == old(findings.anomalies) + OverlapFindings(claims)
  {
    hide SortByKey;
    var sorted := SortByKey(claims, StartKey());
    SortLength(claims, StartKey());
    var n := if |sorted| == 0 then 0 else |sorted| - 1;
    for i := 0 to n
      invariant findings.anomalies == old(findings.anomalies) + PairFindings(sorted, i)
    {
      var a, b := sorted[i], sorted[i + 1];
      if b.start <= a.end {
        findings.Record(OverlappingPartitions(a.id, b.id, a.end, b.start), EntryOffset(if a.id < 3 then a.id else 3));
      }
    }
  }

  // ----- What silence means -----

  /** In a list: no element starts inside one before it. */
  predicate Quiet(s: seq<Claim>) {
    forall i, j :: 0 <= i < j < |s| ==> s[i].end < s[j].start
  }

  lemma {:induction false} PairsQuiet(s: seq<Claim>, n: nat)
    requires n == 0 || n < |s|
    ensures PairFindings(s, n) == [] <==> forall i :: 0 <= i < n ==> s[i].end < s[i + 1].start
  {
    if n > 0 { PairsQuiet(s, n - 1); }
  }

  /** On a sorted list neighbours decide for all pairs. */
  lemma NeighboursDecide(s: seq<Claim>)
    requires SortedBy(s, StartKey())
    ensures Quiet(s) <==> forall i :: 0 <= i < |s| - 1 ==> s[i].end < s[i + 1].start
  {
    if forall i :: 0 <= i < |s| - 1 ==> s[i].end < s[i + 1].start {
      forall i, j | 0 <= i < j < |s| ensures s[i].end < s[j].start {
        assert i + 1 < j ==> StartKey()(s[i + 1]) <= StartKey()(s[j]);
      }
    }
  }

  /** `a` comes no later than `b` by start; what a stable sort makes of two claims in this input order. */
  predicate Clear(a: Claim, b: Claim) {
    if a.start <= b.start then a.end < b.start else b.end < a.start
  }

  /** No claim of the input starts inside another that sorts before it: by start, and by input
      order among equal starts. */
  predicate NoneStartsInside(claims: seq<Claim>) {
    forall i, j :: 0 <= i < j < |claims| ==> Clear(claims[i], claims[j])
  }

  predicate Above(h: Claim, s: seq<Claim>) { forall k :: 0 <= k < |s| ==> h.end < s[k].start }

  predicate AllClear(x: Claim, s: seq<Claim>) { forall k :: 0 <= k < |s| ==> Clear(x, s[k]) }

  lemma QuietCons(x: Claim, s: seq<Claim>)
    ensures Quiet([x] + s) <==> Quiet(s) && Above(x, s)
  {
    var t := [x] + s;
    assert forall k :: 0 <= k < |s| ==> t[k + 1] == s[k];
    if Quiet(t) {
      forall i, j | 0 <= i < j < |s| ensures s[i].end < s[j].start {
        assert t[i + 1].end < t[j + 1].start;
      }
      forall k | 0 <= k < |s| ensures x.end < s[k].start {
        assert t[0].end < t[k + 1].start;
      }
    }
  }

  lemma AllClearCons(x: Claim, h: Claim, s: seq<Claim>)
    ensures AllClear(x, [h] + s) <==> Clear(x, h) && AllClear(x, s)
  {
    var t := [h] + s;
    assert forall k :: 0 <= k < |s| ==> t[k + 1] == s[k];
    if AllClear(x, t) {
      assert Clear(x, t[0]);
      forall k | 0 <= k < |s| ensures Clear(x, s[k]) { assert Clear(x, t[k + 1]); }
    }
  }

  /** Inserting keeps a list quiet iff the newcomer is clear of every member. */
  lemma {:induction false} InsertQuiet(x: Claim, s: seq<Claim>)
    requires SortedBy(s, StartKey())
    ensures Quiet(Insert(x, s, StartKey())) <==> Quiet(s) && AllClear(x, s)
  {
    var key := StartKey();
    if s == [] || key(x) <= key(s[0]) {
      QuietCons(x, s);
      forall k | 0 <= k < |s| ensures x.start <= s[k].start {
        assert k > 0 ==> key(s[0]) <= key(s[k]);
      }
      assert Above(x, s) <==> AllClear(x, s);
    } else {
      var h, tail := s[0], s[1..];
      InsertQuiet(x, tail);
      QuietCons(h, Insert(x, tail, key));
      QuietCons(h, tail);
      AllClearCons(x, h, tail);
      InsertAbove(h, x, tail);
      assert s == [h] + tail;
    }
  }

  lemma {:induction false} InsertAbove(h: Claim, x: Claim, s: seq<Claim>)
    ensures Above(h, Insert(x, s, StartKey())) <==> h.end < x.start && Above(h, s)
  {
    if s == [] || x.start <= s[0].start {
      AboveCons(h, x, s);
    } else {
      InsertAbove(h, x, s[1..]);
      AboveCons(h, s[0], Insert(x, s[1..], StartKey()));
      AboveCons(h, s[0], s[1..]);
      assert s == [s[0]] + s[1..];
    }
  }

  lemma AboveCons(h: Claim, x: Claim, s: seq<Claim>)
    ensures Above(h, [x] + s) <==> h.end < x.start && Above(h, s)
  {
    var t := [x] + s;
    if Above(h, t) {
      assert h.end < t[0].start;
      forall k | 0 <= k < |s| ensures h.end < s[k].start { assert h.end < t[k + 1].start; }
    }
  }

  lemma {:induction false} SortedQuiet(claims: seq<Claim>)
    ensures Quiet(SortByKey(claims, StartKey())) <==> NoneStartsInside(claims)
  {
    var key := StartKey();
    if claims != [] {
      var x, tail := claims[0], claims[1..];
      var t := SortByKey(tail, key);
      SortedQuiet(tail);
      SortFacts(tail, key);
      InsertQuiet(x, t);
      SameMembersClear(x, tail);
      NoneCons(x, tail);
      assert claims == [x] + tail;
    }
  }

  lemma SameMembersClear(x: Claim, s: seq<Claim>)
    ensures AllClear(x, SortByKey(s, StartKey())) <==> AllClear(x, s)
  {
    var t := SortByKey(s, StartKey());
    forall c ensures c in t <==> c in s { SortMember(s, StartKey(), c); }
    if AllClear(x, t) {
      forall k | 0 <= k < |s| ensures Clear(x, s[k]) { assert s[k] in t; }
    }
    if AllClear(x, s) {
      forall k | 0 <= k < |t| ensures Clear(x, t[k]) { assert t[k] in t; }
    }
  }

  lemma NoneCons(x: Claim, s: seq<Claim>)
    ensures NoneStartsInside([x] + s) <==> NoneStartsInside(s) && AllClear(x, s)
  {
    var t := [x] + s;
    assert forall k :: 0 <= k < |s| ==> t[k + 1] == s[k];
    if NoneStartsInside(t) {
      forall i, j | 0 <= i < j < |s| ensures Clear(s[i], s[j]) { assert Clear(t[i + 1], t[j + 1]); }
      forall k | 0 <= k < |s| ensures Clear(x, s[k]) { assert Clear(t[0], t[k + 1]); }
    }
  }

  /** Nothing is recorded exactly when no claim starts inside one that sorts before it. */
  lemma SilentIff(claims: seq<Claim>)
    ensures OverlapFindings(claims) == [] <==> NoneStartsInside(claims)
  {
    hide SortByKey, PairFindings, NoneStartsInside;
    var s := SortByKey(claims, StartKey());
    SortLength(claims, StartKey());
    SortFacts(claims, StartKey());
    PairsQuiet(s, if |s| == 0 then 0 else |s| - 1);
    NeighboursDecide(s);
    SortedQuiet(claims);
  }

  ghost predicate PairwiseDisjoint(claims: seq<Claim>) {
    forall i, j, x :: 0 <= i < j < |claims| ==> !(claims[i].Holds(x) && claims[j].Holds(x))
  }

  /** For non-empty claims that is pairwise disjointness; silence always implies it. */
  lemma SilentMeansDisjoint(claims: seq<Claim>)
    ensures OverlapFindings(claims) == [] ==> PairwiseDisjoint(claims)
    ensures (forall i :: 0 <= i < |claims| ==> claims[i].NonEmpty()) ==>
              (OverlapFindings(claims) == [] <==> PairwiseDisjoint(claims))
  {
    SilentIff(claims);
    if NoneStartsInside(claims) {
      forall i, j, x | 0 <= i < j < |claims| ensures !(claims[i].Holds(x) && claims[j].Holds(x)) {
        assert Clear(claims[i], claims[j]);
      }
    } else {
      var i, j :| 0 <= i < j < |claims| && !Clear(claims[i], claims[j]);
      var a, b := claims[i], claims[j];
      var x := if a.start <= b.start then b.start else a.start;
      assert a.NonEmpty() && b.NonEmpty() ==> a.Holds(x) && b.Holds(x);
    }
  }

  /** The exact false-positive condition: disjoint claims are reported iff an empty one starts inside
      a claim that sorts before it. */
  lemma FalseAlarmIff(claims: seq<Claim>)
    requires PairwiseDisjoint(claims)
    ensures OverlapFindings(claims) != [] <==>
            exists i, j :: 0 <= i < j < |claims| && EmptyInside(claims[i], claims[j])
  {
    SilentIff(claims);
    forall i, j | 0 <= i < j < |claims| ensures !Clear(claims[i], claims[j]) <==> EmptyInside(claims[i], claims[j]) {
      var a, b := claims[i], claims[j];
      var x := if a.start <= b.start then b.start else a.start;
      assert !(a.Holds(x) && b.Holds(x));
    }
  }

  predicate EmptyInside(a: Claim, b: Claim) {
    if a.start <= b.start then !b.NonEmpty() && a.Holds(b.start) else !a.NonEmpty() && b.Holds(a.start)
  }

  // ----- What a finding means -----

  /** Each finding is about two neighbours of the sorted list; the earlier one holds `b_start`. */
  lemma {:induction false} FindingIsPair(s: seq<Claim>, n: nat, f: Anomaly)
    requires (n == 0 || n < |s|) && f in PairFindings(s, n)
    ensures exists i :: 0 <= i < n && f in PairFinding(s[i], s[i + 1])
  {
    if f !in PairFinding(s[n - 1], s[n]) { FindingIsPair(s, n - 1, f); }
  }

  /** A finding names two different claims, tells the truth about both, and the LBA `b_start` is in
      the first, and in the second too unless that is empty. */
  lemma FindingNamesTwo(claims: seq<Claim>, f: Anomaly)
    requires f in OverlapFindings(claims)
    requires forall i, j :: 0 <= i < j < |claims| ==> claims[i].id != claims[j].id
    ensures f.kind.OverlappingPartitions? && f.severity == Critical && f.kind.a != f.kind.b
    ensures f.offset == 446 + 16 * if f.kind.a < 3 then f.kind.a else 3
    ensures exists a, b :: a in claims && b in claims && IsAbout(f.kind, a, b)
  {
    var key := StartKey();
    var s := SortByKey(claims, key);
    SortLength(claims, key);
    SortFacts(claims, key);
    FindingIsPair(s, |claims| - 1, f);
    var i :| 0 <= i < |claims| - 1 && f in PairFinding(s[i], s[i + 1]);
    SortKeepsDistinct(claims, key, (c: Claim) => c.id);
    SortMember(claims, key, s[i]);
    SortMember(claims, key, s[i + 1]);
    assert key(s[i]) <= key(s[i + 1]);
    assert IsAbout(f.kind, s[i], s[i + 1]);
  }

  predicate IsAbout(k: AnomalyKind, a: Claim, b: Claim) {
    && k.OverlappingPartitions? && k.a == a.id && k.b == b.id && k.aEnd == a.end && k.bStart == b.start
    && a.Holds(b.start) && (b.NonEmpty() ==> b.Holds(b.start))
  }

  // ----- Which overlapping pairs are named -----

  /** Some finding is about `a` and `b`, in that order. */
  ghost predicate Names(fs: seq<Anomaly>, a: nat, b: nat) {
    exists f :: f in fs && f.kind.OverlappingPartitions? && f.kind.a == a && f.kind.b == b
  }

  /** Every claim that starts inside an earlier one of the sorted list `s` has a finding with it. */
  ghost predicate NamesEveryOverlap(fs: seq<Anomaly>, s: seq<Claim>) {
    forall i, j :: 0 <= i < j < |s| && s[j].start <= s[i].end ==> Names(fs, s[i].id, s[j].id)
  }

  /** No claim reaches past its neighbour to the start of the one after. */
  predicate NoneReachesTwo(s: seq<Claim>) {
    forall i :: 0 <= i < |s| - 2 ==> s[i].end < s[i + 2].start
  }

  lemma {:induction false} NeighbourNamed(s: seq<Claim>, n: nat, i: nat)
    requires (n == 0 || n < |s|) && i < n && s[i + 1].start <= s[i].end
    ensures Names(PairFindings(s, n), s[i].id, s[i + 1].id)
  {
    hide Names, PairFinding;
    var before, last := PairFindings(s, n - 1), PairFinding(s[n - 1], s[n]);
    if i == n - 1 {
      PairNamed(s[i], s[i + 1]);
    } else {
      NeighbourNamed(s, n - 1, i);
    }
    NamesJoin(before, last, s[i].id, s[i + 1].id);
  }

  lemma PairNamed(a: Claim, b: Claim)
    requires b.start <= a.end
    ensures Names(PairFinding(a, b), a.id, b.id)
  {
    assert PairFinding(a, b)[0] in PairFinding(a, b);
  }

  lemma NamesJoin(fs: seq<Anomaly>, gs: seq<Anomaly>, a: nat, b: nat)
    requires Names(fs, a, b) || Names(gs, a, b)
    ensures Names(fs + gs, a, b)
  {
  }

  /** With distinct ids only neighbours are named. */
  lemma NamedAreNeighbours(s: seq<Claim>, n: nat, i: nat, j: nat)
    requires (n == 0 || n < |s|) && i < j < |s| && Names(PairFindings(s, n), s[i].id, s[j].id)
    requires forall k, l :: 0 <= k < l < |s| ==> s[k].id != s[l].id
    ensures j == i + 1
  {
    hide PairFindings;
    var f :| f in PairFindings(s, n) && f.kind.OverlappingPartitions? && f.kind.a == s[i].id && f.kind.b == s[j].id;
    FindingIsPair(s, n, f);
    var k :| 0 <= k < n && f in PairFinding(s[k], s[k + 1]);
    assert k < i || k == i || i < k;
    assert k + 1 < j || k + 1 == j || j < k + 1;
  }

  lemma FarAreClear(s: seq<Claim>, i: nat, j: nat)
    requires SortedBy(s, StartKey()) && NoneReachesTwo(s) && i + 2 <= j < |s|
    ensures s[i].end < s[j].start
  {
    if i + 2 < j { assert StartKey()(s[i + 2]) <= StartKey()(s[j]); }
  }

  lemma PairsNameAllIff(s: seq<Claim>)
    requires s != [] && SortedBy(s, StartKey())
    requires forall k, l :: 0 <= k < l < |s| ==> s[k].id != s[l].id
    ensures NamesEveryOverlap(PairFindings(s, |s| - 1), s) <==> NoneReachesTwo(s)
  {
    hide PairFindings, Names;
    var fs := PairFindings(s, |s| - 1);
    if NoneReachesTwo(s) {
      forall i, j | 0 <= i < j < |s| && s[j].start <= s[i].end ensures Names(fs, s[i].id, s[j].id) {
        if j > i + 1 { FarAreClear(s, i, j); }
        NeighbourNamed(s, |s| - 1, i);
      }
    }
    if NamesEveryOverlap(fs, s) {
      forall i | 0 <= i < |s| - 2 ensures s[i].end < s[i + 2].start {
        if s[i + 2].start <= s[i].end {
          NamedAreNeighbours(s, |s| - 1, i, i + 2);
        }
      }
    }
  }

  /** Every overlapping pair is named exactly when no claim reaches the second start after its own. */
  lemma EveryOverlapNamedIff(claims: seq<Claim>)
    requires forall i, j :: 0 <= i < j < |claims| ==> claims[i].id != claims[j].id
    ensures var s := SortByKey(claims, StartKey());
            NamesEveryOverlap(OverlapFindings(claims), s) <==> NoneReachesTwo(s)
  {
    hide NamesEveryOverlap, NoneReachesTwo, PairFindings, SortByKey;
    var key := StartKey();
    var s := SortByKey(claims, key);
    SortLength(claims, key);
    SortFacts(claims, key);
    SortKeepsDistinct(claims, key, (c: Claim) => c.id);
    if claims == [] {
      NothingToName(OverlapFindings(claims), s);
    } else {
      PairsNameAllIff(s);
    }
  }

  lemma NothingToName(fs: seq<Anomaly>, s: seq<Claim>)
    requires s == []
    ensures NamesEveryOverlap(fs, s) && NoneReachesTwo(s)
  {
  }

  /** Only neighbours are compared: a long claim's second victim goes unnamed. */
  lemma NeighboursOnly()
    ensures var claims := [Claim(0, 10, 100), Claim(1, 20, 25), Claim(2, 50, 60)];
            && claims[0].Holds(50) && claims[2].Holds(50)
            && OverlapFindings(claims) == [NewAnomaly(OverlappingPartitions(0, 1, 100, 20), 446)]
  {
    var a, b, c := Claim(0, 10, 100), Claim(1, 20, 25), Claim(2, 50, 60);
    var claims, key := [a, b, c], StartKey();
    assert claims[1..] == [b, c] && [b, c][1..] == [c] && [c][1..] == [];
    assert SortByKey([c], key) == [c];
    assert SortByKey([b, c], key) == [b, c];
    assert SortByKey(claims, key) == claims;
    assert PairFindings(claims, 1) == PairFindings(claims, 0) + PairFinding(a, b);
    assert PairFindings(claims, 2) == PairFindings(claims, 1) + PairFinding(b, c);
  }

  /** A zero-count partition inside another is reported although no LBA is shared. */
  lemma FalseAlarm()
    ensures var claims := [Claim(0, 5, 20), Claim(1, 10, 9)];
            PairwiseDisjoint(claims) && OverlapFindings(claims) != []
  {
    var claims := [Claim(0, 5, 20), Claim(1, 10, 9)];
    SilentIff(claims);
    assert !Clear(claims[0], claims[1]);
  }
}
