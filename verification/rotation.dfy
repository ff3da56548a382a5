/** The rotation through the pool that commit performs: each commit moves
    to slot (index + 1) mod pool size. */
module Rotation {

  /** The pool slot reached after `k` commits from slot `i` in a pool of `n`,
      each commit moving to (index + 1) % n. */
  function Advance(i: nat, n: nat, k: nat): (r: nat)
    requires i < n
    ensures r < n
  {
    if k == 0 then i else (Advance(i, n, k - 1) + 1) % n
  }

  /** Within one round, k commits land k slots further on, wrapping once. */
  lemma {:induction false} AdvanceWithinRound(i: nat, n: nat, k: nat)
    requires i < n && k <= n
    ensures Advance(i, n, k) == if i + k < n then i + k else i + k - n
  {
    if k > 0 {
      AdvanceWithinRound(i, n, k - 1);
      NextSlot(Advance(i, n, k - 1), n);
    }
  }

  /** One commit moves to the next slot, or back to slot 0 from the last. */
  lemma NextSlot(j: nat, n: nat)
    requires j < n
    ensures (j + 1) % n == if j + 1 < n then j + 1 else 0
  {
  }

  /** Some commit among the next n lands on slot s. */
  ghost predicate Reaches(i: nat, n: nat, s: nat)
    requires i < n
  {
    exists k :: 1 <= k <= n && Advance(i, n, k) == s
  }

  /** n consecutive commits visit every slot of the pool exactly once and
      end where they started. */
  lemma RotationVisitsEverySlot(i: nat, n: nat)
    requires i < n
    ensures forall k1, k2 :: 1 <= k1 < k2 <= n ==> Advance(i, n, k1) != Advance(i, n, k2)
    ensures forall s :: 0 <= s < n ==> Reaches(i, n, s)
    ensures Advance(i, n, n) == i
  {
    forall k | 0 <= k <= n
      ensures Advance(i, n, k) == if i + k < n then i + k else i + k - n
    {
      AdvanceWithinRound(i, n, k);
    }
    forall s | 0 <= s < n
      ensures Reaches(i, n, s)
    {
      var k := if s > i then s - i else s + n - i;
      assert Advance(i, n, k) == s;
    }
  }
}
