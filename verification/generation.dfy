/** The 8-bit generation counter and the wraparound "newer" test that load
    uses to compare counters. */
module Generation {
  import opened Header

  /** How far `to` lies ahead of `from` on the 256-position clock face. */
  function Ahead(from: uint8, to: uint8): uint8 {
    (to - from) % 0x100
  }

  /** Load's test of whether a partition's counter `value` is newer than the
      best counter seen so far. */
  predicate Newer(value: uint8, best: uint8) {
    (value < best && best - value > 128) || (value > best && value - best < 128)
  }

  /** `value` is newer than `best` exactly when it lies 1 to 127 steps ahead. */
  lemma NewerIsAheadByLessThanHalf(value: uint8, best: uint8)
    ensures Newer(value, best) <==> 1 <= Ahead(best, value) <= 127
  {
  }

  /** No counter is newer than itself. */
  lemma NewerIrreflexive(value: uint8)
    ensures !Newer(value, value)
  {
  }

  /** Two counters are never newer than each other. */
  lemma NewerAsymmetric(a: uint8, b: uint8)
    ensures Newer(a, b) ==> !Newer(b, a)
  {
  }

  /** Exactly half-way round, neither counter is newer. */
  lemma HalfwayNeitherNewer(a: uint8, b: uint8)
    requires Ahead(a, b) == 128
    ensures !Newer(a, b) && !Newer(b, a)
  {
  }

  /** Any other pair of distinct counters is ordered one way or the other. */
  lemma NewerConnected(a: uint8, b: uint8)
    requires a != b && Ahead(a, b) != 128
    ensures Newer(a, b) || Newer(b, a)
  {
  }

  /** The counter commit writes is newer than the one it replaces; in
      particular 0 is newer than 255. */
  lemma IncrementIsNewer(value: uint8)
    ensures Newer((value + 1) % 0x100, value)
    ensures !Newer(value, (value + 1) % 0x100)
  {
  }

  /** The test is not transitive: 100 beats 0, 200 beats 100 and 0 beats 200. */
  lemma NewerIsCyclic()
    ensures Newer(100, 0) && Newer(200, 100) && Newer(0, 200)
  {
  }

  /** Inside a half-circle window starting at `base`, the test orders counters
      by how far they lie ahead of `base`. */
  lemma NewerInWindow(base: uint8, x: uint8, y: uint8)
    requires Ahead(base, x) < 128 && Ahead(base, y) < 128
    ensures Newer(x, y) <==> Ahead(base, x) > Ahead(base, y)
  {
    NewerIsAheadByLessThanHalf(x, y);
  }
}
