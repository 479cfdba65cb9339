/** Following one pointer per node from a start: paths, and where a capped walk with a visited set
    must stop. Nothing here depends on what the nodes are. */
module PointerPath {
  import opened Machine

  datatype Graph<!T(!new)> = Graph(start: T, link: T -> bool, next: T -> Option<T>) {

    /** Only links have a successor. */
    function Step(x: T): Option<T> {
      if link(x) then next(x) else None
    }

    /** `p` follows the pointers from the start; it may repeat nodes and have any length. */
    ghost predicate IsPath(p: seq<T>) {
      && (p != [] ==> p[0] == start)
      && forall i :: 0 <= i < |p| - 1 ==> Step(p[i]) == Some(p[i + 1])
    }

    /** The node a path leads to next, if any. */
    ghost function After(p: seq<T>): Option<T> {
      if p == [] then Some(start) else Step(p[|p| - 1])
    }

    /** A run of distinct links. */
    ghost predicate IsChain(p: seq<T>) {
      && IsPath(p)
      && (forall i :: 0 <= i < |p| ==> link(p[i]))
      && (forall i, j :: 0 <= i < j < |p| ==> p[i] != p[j])
    }

    /** A chain that cannot be extended within `cap`: the path ends, repeats, leaves the links, or
        is at the cap. */
    ghost predicate IsCutChain(p: seq<T>, cap: nat) {
      && IsChain(p) && |p| <= cap
      && (|p| == cap || After(p).None? || After(p).value in p || !link(After(p).value))
    }

    lemma ChainExtends(p: seq<T>, x: T)
      requires IsChain(p) && After(p) == Some(x) && x !in p && link(x)
      ensures IsChain(p + [x]) && After(p + [x]) == next(x)
    {
      var q := p + [x];
      forall i | 0 <= i < |q| - 1 ensures Step(q[i]) == Some(q[i + 1]) {
        assert i < |p| - 1 ==> Step(p[i]) == Some(p[i + 1]);
      }
    }

    ghost predicate HasPathOfLength(n: nat) {
      exists p :: IsPath(p) && |p| == n
    }

    /** Pointer following is deterministic. */
    lemma {:induction false} PathsAgree(p: seq<T>, q: seq<T>, i: nat)
      requires IsPath(p) && IsPath(q) && i < |p| && i < |q|
      ensures p[i] == q[i]
    {
      if i > 0 {
        PathsAgree(p, q, i - 1);
        assert Step(p[i - 1]) == Some(p[i]) && Step(q[i - 1]) == Some(q[i]);
      }
    }

    /** There is one way to cut. */
    lemma CutChainUnique(p: seq<T>, q: seq<T>, cap: nat)
      requires IsCutChain(p, cap) && IsCutChain(q, cap)
      ensures p == q
    {
      NotLonger(p, q, cap);
      NotLonger(q, p, cap);
      forall i | 0 <= i < |p| ensures p[i] == q[i] {
        PathsAgree(p, q, i);
      }
    }

    /** A longer path goes where the shorter one leads. */
    lemma LongerFollows(p: seq<T>, q: seq<T>)
      requires IsPath(p) && IsPath(q) && |p| < |q|
      ensures q[..|p|] == p && After(p) == Some(q[|p|])
    {
      forall i | 0 <= i < |p| ensures p[i] == q[i] {
        PathsAgree(p, q, i);
      }
      if p != [] { assert Step(q[|p| - 1]) == Some(q[|p|]); }
    }

    lemma NotLonger(p: seq<T>, q: seq<T>, cap: nat)
      requires IsCutChain(p, cap) && IsChain(q) && |q| <= cap
      ensures |q| <= |p|
    {
      if |p| < |q| {
        LongerFollows(p, q);
        assert false;
      }
    }

    /** Below the cap, no path however long meets a link the cut chain lacks. */
    lemma {:induction false} NothingMissed(p: seq<T>, cap: nat, q: seq<T>, i: nat)
      requires IsCutChain(p, cap) && IsPath(q) && i < |q|
      requires |p| < cap || After(p).None?
      ensures q[i] in p || (After(p) == Some(q[i]) && !link(q[i]))
    {
      if i == 0 {
        if p != [] { assert p[0] in p; }
      } else {
        NothingMissed(p, cap, q, i - 1);
        assert Step(q[i - 1]) == Some(q[i]);
        var j :| 0 <= j < |p| && p[j] == q[i - 1];
        if j < |p| - 1 { assert p[j + 1] in p; }
      }
    }

    /** A cut chain that runs back into itself has paths of every length: it never ends. */
    lemma {:induction false} CycleNeverEnds(p: seq<T>, cap: nat, n: nat)
      requires IsCutChain(p, cap) && After(p).Some? && After(p).value in p
      ensures HasPathOfLength(n)
    {
      var q := EndlessPath(p, n);
    }

    lemma {:induction false} EndlessPath(p: seq<T>, n: nat) returns (q: seq<T>)
      requires IsChain(p) && After(p).Some? && After(p).value in p
      ensures IsPath(q) && |q| == n && (forall x :: x in q ==> x in p)
    {
      if n == 0 {
        q := [];
      } else {
        var r := EndlessPath(p, n - 1);
        if r == [] {
          q := [start];
          assert p[0] in p;
        } else {
          assert r[|r| - 1] in r;
          var j :| 0 <= j < |p| && p[j] == r[|r| - 1];
          var x := if j < |p| - 1 then p[j + 1] else After(p).value;
          assert Step(p[j]) == Some(x) && x in p;
          q := r + [x];
        }
      }
    }

    /** A cut chain that stops for any other reason below the cap bounds every path. */
    lemma OtherStopsEnd(p: seq<T>, cap: nat, q: seq<T>)
      requires IsCutChain(p, cap) && |p| < cap && IsPath(q)
      requires After(p).None? || After(p).value !in p
      ensures |q| <= |p| + 1
    {
      if |q| > |p| + 1 {
        LongerFollows(p, q);
        LongerFollows(q[..|p| + 1], q);
        assert false;
      }
    }
  }
}
