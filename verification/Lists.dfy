/** Lists built piece by piece, as every recording loop builds them. */
module Lists {

  /** f(0) + f(1) + .. + f(n-1). */
  function Concat<T>(n: nat, f: nat -> seq<T>): seq<T> {
    if n == 0 then [] else Concat(n - 1, f) + f(n - 1)
  }

  lemma ConcatNone<T>(f: nat -> seq<T>)
    ensures Concat(0, f) == []
  {
  }

  lemma ConcatStep<T>(start: seq<T>, n: nat, f: nat -> seq<T>)
    ensures start + Concat(n, f) + f(n) == start + Concat(n + 1, f)
  {
    Assoc(start, Concat(n, f), f(n));
  }

  lemma ConcatNext<T>(n: nat, f: nat -> seq<T>)
    ensures Concat(n + 1, f) == Concat(n, f) + f(n)
    ensures f(n) == [] ==> Concat(n + 1, f) == Concat(n, f)
  {
  }

  lemma Assoc<T>(a: seq<T>, b: seq<T>, c: seq<T>)
    ensures a + b + c == a + (b + c)
  {
  }

  /** Membership in a concatenation is membership in a piece. */
  lemma {:induction false} ConcatMember<T>(n: nat, f: nat -> seq<T>, x: T)
    ensures x in Concat(n, f) <==> exists i :: 0 <= i < n && x in f(i)
  {
    if n > 0 { ConcatMember(n - 1, f, x); }
  }
}
