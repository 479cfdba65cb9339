/** core/src/disk_signature.rs: grouping disks by their non-zero NT signature. */
module DiskSignature {
  import opened Machine
  import opened Sorting

  datatype SignatureCollision = SignatureCollision(signature: U32, members: seq<int>)

  /** `members` lists, ascending, exactly the places of `sig` among the first `n`. */
  ghost predicate AreMembers(members: seq<int>, sigs: seq<U32>, n: nat, sig: U32)
    requires n <= |sigs|
  {
    && (forall k, l :: 0 <= k < l < |members| ==> members[k] < members[l])
    && (forall i :: i in members <==> 0 <= i < n && sigs[i] == sig)
  }

  /** Place `i` is where its signature, not the unset one, first appears. */
  predicate FirstSeen(sigs: seq<U32>, i: int)
    requires 0 <= i < |sigs|
  {
    sigs[i] != 0 && forall j :: 0 <= j < i ==> sigs[j] != sigs[i]
  }

  /** `order` lists the signatures of the first `n` places by first appearance, at `firsts`. */
  ghost predicate IsOrder(order: seq<U32>, firsts: seq<int>, sigs: seq<U32>, n: nat)
    requires n <= |sigs|
  {
    && |order| == |firsts|
    && (forall k :: 0 <= k < |firsts| ==> 0 <= firsts[k] < n && FirstSeen(sigs, firsts[k]) && order[k] == sigs[firsts[k]])
    && (forall k, l :: 0 <= k < l < |firsts| ==> firsts[k] < firsts[l])
    && (forall i :: 0 <= i < n && FirstSeen(sigs, i) ==> i in firsts)
  }

  ghost predicate HasRecord(out: seq<SignatureCollision>, sig: U32) {
    exists k :: 0 <= k < |out| && out[k].signature == sig
  }

  /** Each record has a shared non-zero signature and all its places; records are in the order of
      first appearance. */
  ghost predicate AreRecords(out: seq<SignatureCollision>, sigs: seq<U32>) {
    && (forall k :: 0 <= k < |out| ==>
          && out[k].signature != 0 && |out[k].members| >= 2
          && AreMembers(out[k].members, sigs, |sigs|, out[k].signature))
    && (forall k, l :: 0 <= k < l < |out| ==> out[k].members[0] < out[l].members[0])
  }

  /** And every non-zero signature of two disks has one. */
  ghost predicate AreCollisions(out: seq<SignatureCollision>, sigs: seq<U32>) {
    && AreRecords(out, sigs)
    && forall i, j :: 0 <= i < j < |sigs| && sigs[i] == sigs[j] != 0 ==> HasRecord(out, sigs[i])
  }

  /** Groups hold exactly the signatures in `order`, each with its places. */
  ghost predicate Grouped(groups: map<U32, seq<int>>, order: seq<U32>, sigs: seq<U32>, n: nat)
    requires n <= |sigs|
  {
    && (forall s :: s in groups <==> s in order)
    && (forall s :: s in groups ==> groups[s] != [] && AreMembers(groups[s], sigs, n, s))
  }

  lemma MembersSkip(members: seq<int>, sigs: seq<U32>, n: nat, sig: U32)
    requires n < |sigs| && AreMembers(members, sigs, n, sig) && sigs[n] != sig
    ensures AreMembers(members, sigs, n + 1, sig)
  {
  }

  lemma MembersGrow(members: seq<int>, sigs: seq<U32>, n: nat, sig: U32)
    requires n < |sigs| && AreMembers(members, sigs, n, sig) && sigs[n] == sig
    ensures AreMembers(members + [n], sigs, n + 1, sig)
  {
    assert forall k :: 0 <= k < |members| ==> members[k] in members;
  }

  /** Signatures listed in `order` are those already seen. */
  lemma {:induction false} SeenInOrder(order: seq<U32>, firsts: seq<int>, sigs: seq<U32>, n: nat, i: int)
    requires n <= |sigs| && IsOrder(order, firsts, sigs, n) && 0 <= i < n && sigs[i] != 0
    ensures sigs[i] in order
  {
    if FirstSeen(sigs, i) {
      var k :| 0 <= k < |firsts| && firsts[k] == i;
      assert order[k] == sigs[i];
    } else {
      var j :| 0 <= j < i && sigs[j] == sigs[i];
      SeenInOrder(order, firsts, sigs, n, j);
    }
  }

  lemma OrderStep(order: seq<U32>, firsts: seq<int>, sigs: seq<U32>, n: nat)
    requires n < |sigs| && IsOrder(order, firsts, sigs, n)
    ensures if sigs[n] == 0 || sigs[n] in order then IsOrder(order, firsts, sigs, n + 1)
            else IsOrder(order + [sigs[n]], firsts + [n], sigs, n + 1)
  {
    if sigs[n] in order {
      var k :| 0 <= k < |order| && order[k] == sigs[n];
      assert sigs[firsts[k]] == sigs[n];
    } else if sigs[n] != 0 {
      forall j | 0 <= j < n ensures sigs[j] != sigs[n] {
        if sigs[j] != 0 { SeenInOrder(order, firsts, sigs, n, j); }
      }
      var firsts' := firsts + [n];
      assert firsts'[|firsts|] == n;
      forall i | 0 <= i < n + 1 && FirstSeen(sigs, i) ensures i in firsts' {
        assert i < n ==> i in firsts;
      }
    }
  }

  /** `find_signature_collisions`: the grouping pass, then the draining pass. */
  method FindSignatureCollisions(signatures: seq<U32>) returns (out: seq<SignatureCollision>)
    ensures AreCollisions(out, signatures)
  {
    var order: seq<U32> := [];
    var groups: map<U32, seq<int>> := map[];
    ghost var firsts: seq<int> := [];
    NothingSeen(signatures);
    hide IsOrder, Grouped, AreMembers, AreCollisions;
    for i := 0 to |signatures|
      invariant IsOrder(order, firsts, signatures, i) && Grouped(groups, order, signatures, i)
    {
      var sig := signatures[i];
      OrderStep(order, firsts, signatures, i);
      if sig == 0 {
        GroupSkip(groups, order, firsts, signatures, i);
        continue;
      }
      var entry := if sig in groups then groups[sig] else [];
      EntryMembers(groups, order, firsts, signatures, i);
      GroupAdd(groups, order, entry, signatures, i);
      if entry == [] {
        order := order + [sig];
        firsts := firsts + [i];
      }
      groups := groups[sig := entry + [i]];
    }
    out := Drain(order, groups, firsts, signatures);
  }

  lemma NothingSeen(sigs: seq<U32>)
    ensures IsOrder([], [], sigs, 0) && Grouped(map[], [], sigs, 0)
  {
  }

  lemma GroupSkip(groups: map<U32, seq<int>>, order: seq<U32>, firsts: seq<int>, sigs: seq<U32>, n: nat)
    requires n < |sigs| && IsOrder(order, firsts, sigs, n) && Grouped(groups, order, sigs, n) && sigs[n] == 0
    ensures Grouped(groups, order, sigs, n + 1)
  {
    assert 0 !in order;
    forall s | s in groups ensures AreMembers(groups[s], sigs, n + 1, s) {
      MembersSkip(groups[s], sigs, n, s);
    }
  }

  lemma GroupAdd(groups: map<U32, seq<int>>, order: seq<U32>, entry: seq<int>, sigs: seq<U32>, n: nat)
    requires n < |sigs| && Grouped(groups, order, sigs, n)
    requires entry == (if sigs[n] in groups then groups[sigs[n]] else []) && AreMembers(entry, sigs, n, sigs[n])
    ensures entry == [] <==> sigs[n] !in order
    ensures Grouped(groups[sigs[n] := entry + [n]], if entry == [] then order + [sigs[n]] else order, sigs, n + 1)
  {
    var sig := sigs[n];
    MembersGrow(entry, sigs, n, sig);
    var groups' := groups[sig := entry + [n]];
    forall s | s in groups' ensures groups'[s] != [] && AreMembers(groups'[s], sigs, n + 1, s) {
      if s != sig { MembersSkip(groups[s], sigs, n, s); }
    }
  }

  lemma EntryMembers(groups: map<U32, seq<int>>, order: seq<U32>, firsts: seq<int>, sigs: seq<U32>, n: nat)
    requires n < |sigs| && IsOrder(order, firsts, sigs, n) && Grouped(groups, order, sigs, n) && sigs[n] != 0
    ensures AreMembers(if sigs[n] in groups then groups[sigs[n]] else [], sigs, n, sigs[n])
  {
    if sigs[n] !in groups {
      forall i | 0 <= i < n ensures sigs[i] != sigs[n] {
        if sigs[i] != 0 { SeenInOrder(order, firsts, sigs, n, i); }
      }
    }
  }

  /** The draining pass: take each group out once, keep those of two or more. */
  method Drain(order: seq<U32>, grouped: map<U32, seq<int>>, ghost firsts: seq<int>, ghost sigs: seq<U32>)
    returns (out: seq<SignatureCollision>)
    requires IsOrder(order, firsts, sigs, |sigs|) && Grouped(grouped, order, sigs, |sigs|)
    ensures AreCollisions(out, sigs)
  {
    out := [];
    var groups := grouped;
    assert Drained(out, grouped, order, firsts, sigs, 0);
    assert Remaining(groups, grouped, order, 0);
    for k := 0 to |order|
      invariant Remaining(groups, grouped, order, k)
      invariant Drained(out, grouped, order, firsts, sigs, k)
    {
      var sig := order[k];
      var members := if sig in groups then groups[sig] else [];
      TakeOut(groups, grouped, order, firsts, sigs, k);
      OrderDistinct(order, firsts, sigs, k);
      FirstMember(members, order, firsts, sigs, k);
      DrainStep(out, grouped, order, firsts, sigs, k);
      groups := groups - {sig};
      if |members| >= 2 {
        out := out + [SignatureCollision(sig, members)];
      }
    }
    DrainedAll(out, grouped, order, firsts, sigs);
  }

  /** Taking groups out leaves those still to come untouched. */
  ghost predicate Remaining(groups: map<U32, seq<int>>, grouped: map<U32, seq<int>>, order: seq<U32>, k: nat) {
    forall l :: k <= l < |order| ==>
      order[l] in groups && order[l] in grouped && groups[order[l]] == grouped[order[l]]
  }

  lemma TakeOut(groups: map<U32, seq<int>>, grouped: map<U32, seq<int>>, order: seq<U32>,
                firsts: seq<int>, sigs: seq<U32>, k: nat)
    requires IsOrder(order, firsts, sigs, |sigs|) && k < |order| && Remaining(groups, grouped, order, k)
    ensures order[k] in groups && order[k] in grouped && groups[order[k]] == grouped[order[k]]
    ensures Remaining(groups - {order[k]}, grouped, order, k + 1)
  {
    OrderDistinct(order, firsts, sigs, k);
  }

  lemma AppendRecord(out: seq<SignatureCollision>, r: SignatureCollision, sigs: seq<U32>)
    requires AreRecords(out, sigs) && r.signature != 0 && |r.members| >= 2
    requires AreMembers(r.members, sigs, |sigs|, r.signature)
    requires forall m :: 0 <= m < |out| ==> out[m].members[0] < r.members[0]
    ensures AreRecords(out + [r], sigs)
  {
  }

  /** The first `k` groups are out: each of two or more has its record, before all that follow. */
  ghost predicate Drained(out: seq<SignatureCollision>, grouped: map<U32, seq<int>>, order: seq<U32>,
                          firsts: seq<int>, sigs: seq<U32>, k: nat)
  {
    && k <= |order| == |firsts| && (forall s :: s in order ==> s in grouped)
    && AreRecords(out, sigs)
    && (forall m, l :: 0 <= m < |out| && k <= l < |firsts| ==> out[m].members[0] < firsts[l])
    && (forall l :: 0 <= l < k && |grouped[order[l]]| >= 2 ==> HasRecord(out, order[l]))
  }

  lemma DrainStep(out: seq<SignatureCollision>, grouped: map<U32, seq<int>>, order: seq<U32>,
                  firsts: seq<int>, sigs: seq<U32>, k: nat)
    requires k < |order| && Drained(out, grouped, order, firsts, sigs, k) && order[k] in grouped && order[k] != 0
    requires AreMembers(grouped[order[k]], sigs, |sigs|, order[k])
    requires grouped[order[k]] != [] && grouped[order[k]][0] == firsts[k]
    requires forall l :: k < l < |firsts| ==> firsts[k] < firsts[l]
    ensures var r := SignatureCollision(order[k], grouped[order[k]]);
            Drained(if |r.members| >= 2 then out + [r] else out, grouped, order, firsts, sigs, k + 1)
  {
    var r := SignatureCollision(order[k], grouped[order[k]]);
    if |r.members| >= 2 {
      AppendRecord(out, r, sigs);
      forall l | 0 <= l < k + 1 && |grouped[order[l]]| >= 2 ensures HasRecord(out + [r], order[l]) {
        if l < k { RecordKept(out, r, order[l]); } else { assert (out + [r])[|out|].signature == order[l]; }
      }
    }
  }

  lemma DrainedAll(out: seq<SignatureCollision>, grouped: map<U32, seq<int>>, order: seq<U32>,
                   firsts: seq<int>, sigs: seq<U32>)
    requires IsOrder(order, firsts, sigs, |sigs|) && Grouped(grouped, order, sigs, |sigs|)
    requires Drained(out, grouped, order, firsts, sigs, |order|)
    ensures AreCollisions(out, sigs)
  {
    forall i, j | 0 <= i < j < |sigs| && sigs[i] == sigs[j] != 0
      ensures HasRecord(out, sigs[i])
    {
      SeenInOrder(order, firsts, sigs, |sigs|, i);
      var l :| 0 <= l < |order| && order[l] == sigs[i];
      assert order[l] in order;
      assert i in grouped[order[l]] && j in grouped[order[l]];
      TwoMembers(grouped[order[l]], i, j);
    }
  }

  lemma RecordKept(out: seq<SignatureCollision>, r: SignatureCollision, sig: U32)
    requires HasRecord(out, sig)
    ensures HasRecord(out + [r], sig)
  {
    var k :| 0 <= k < |out| && out[k].signature == sig;
    assert (out + [r])[k].signature == sig;
  }

  lemma TwoMembers(members: seq<int>, i: int, j: int)
    requires i in members && j in members && i != j
    ensures |members| >= 2
  {
  }

  lemma OrderDistinct(order: seq<U32>, firsts: seq<int>, sigs: seq<U32>, k: nat)
    requires IsOrder(order, firsts, sigs, |sigs|) && k < |order|
    ensures order[k] != 0 && forall l :: k < l < |order| ==> order[l] != order[k] && firsts[k] < firsts[l]
  {
    forall l | k < l < |order| ensures order[l] != order[k] && firsts[k] < firsts[l] {
      assert firsts[k] < firsts[l] && FirstSeen(sigs, firsts[l]);
    }
  }

  lemma FirstMember(members: seq<int>, order: seq<U32>, firsts: seq<int>, sigs: seq<U32>, k: nat)
    requires IsOrder(order, firsts, sigs, |sigs|) && k < |order| && members != []
    requires AreMembers(members, sigs, |sigs|, order[k])
    ensures members[0] == firsts[k]
  {
    assert firsts[k] in members && members[0] in members;
    var m :| 0 <= m < |members| && members[m] == firsts[k];
    assert FirstSeen(sigs, firsts[k]) && sigs[members[0]] == sigs[firsts[k]];
  }

  /** The description leaves one answer. */
  lemma CollisionsUnique(a: seq<SignatureCollision>, b: seq<SignatureCollision>, sigs: seq<U32>)
    requires AreCollisions(a, sigs) && AreCollisions(b, sigs)
    ensures a == b
  {
    forall k | 0 <= k < |a| ensures a[k] in b { RecordShared(a, b, sigs, k); }
    forall k | 0 <= k < |b| ensures b[k] in a { RecordShared(b, a, sigs, k); }
    StrictListUnique(a, b, (c: SignatureCollision) => if c.members == [] then 0 else c.members[0]);
  }

  lemma RecordShared(a: seq<SignatureCollision>, b: seq<SignatureCollision>, sigs: seq<U32>, k: nat)
    requires AreCollisions(a, sigs) && AreCollisions(b, sigs) && k < |a|
    ensures a[k] in b
  {
    var m := a[k].members;
    assert m[0] in m && m[1] in m && m[0] < m[1];
    assert HasRecord(b, a[k].signature);
    var l :| 0 <= l < |b| && b[l].signature == a[k].signature;
    SameMembers(m, b[l].members, sigs, a[k].signature);
    assert a[k] == b[l];
  }

  lemma SameMembers(a: seq<int>, b: seq<int>, sigs: seq<U32>, sig: U32)
    requires AreMembers(a, sigs, |sigs|, sig) && AreMembers(b, sigs, |sigs|, sig)
    ensures a == b
  {
    assert forall k :: 0 <= k < |a| ==> a[k] in a;
    assert forall k :: 0 <= k < |b| ==> b[k] in b;
    StrictListUnique(a, b, (i: int) => i);
  }
}
