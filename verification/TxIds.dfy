/** Transaction ids of the memlog store: 64-bit unsigned counters that may roll over. */
module TxIds {

  const MODULUS: int := 0x1_0000_0000_0000_0000
  const HALF: int := 0x8000_0000_0000_0000

  type TxId = n: int | 0 <= n < MODULUS

  // `id + 1` on uint64.
  function Inc(id: TxId): TxId {
    (id + 1) % MODULUS
  }

  // The two's complement reading of a uint64: Go's `int64(x)`.
  function AsInt64(x: TxId): int {
    if x < HALF then x else x - MODULUS
  }

  // int64(a-b) <= 0
  predicate IsTxIDLessEqual(a: TxId, b: TxId) {
    AsInt64((a - b) % MODULUS) <= 0
  }

  // How many increments lead from `id` to `now`.
  function Age(now: TxId, id: TxId): nat {
    (now - id) % MODULUS
  }

  // On unbounded sequence numbers less than 2^63 apart the comparison of their
  // 64-bit images is the true order, across a rollover or not.
  lemma WrapAroundOrder(x: int, y: int)
    requires -HALF < x - y < HALF
    ensures IsTxIDLessEqual(x % MODULUS, y % MODULUS) <==> x <= y
  {
  }

  // Seen from one counter value, older-or-equal is exactly "at least as far behind".
  lemma OrderByAge(now: TxId, a: TxId, b: TxId)
    requires Age(now, a) < HALF && Age(now, b) < HALF
    ensures IsTxIDLessEqual(a, b) <==> Age(now, a) >= Age(now, b)
  {
  }

  lemma AgeOfInc(now: TxId, id: TxId)
    requires Age(now, id) < MODULUS - 1
    ensures Age(Inc(now), id) == Age(now, id) + 1
  {
  }

  lemma AgeOfPrevious(now: TxId, id: TxId)
    requires Age(now, Inc(id)) < MODULUS - 1
    ensures Age(now, id) == Age(now, Inc(id)) + 1
  {
  }

  lemma AgeOfLast(id: TxId)
    ensures Age(Inc(id), id) == 1 && Age(id, id) == 0
  {
  }

  lemma NextIsNewer(id: TxId)
    ensures !IsTxIDLessEqual(Inc(id), id)
  {
  }

  lemma IncThenAdd(id: TxId, n: nat)
    ensures (Inc(id) + n) % MODULUS == (id + (n + 1)) % MODULUS
  {
  }

  lemma AgeInjective(now: TxId, a: TxId, b: TxId)
    requires Age(now, a) == Age(now, b)
    ensures a == b
  {
  }

  // The comparison is total, and antisymmetric except between ids that are
  // exactly 2^63 apart, where it answers true both ways.
  lemma AmbiguousExactlyAtHalf(a: TxId, b: TxId)
    ensures IsTxIDLessEqual(a, b) || IsTxIDLessEqual(b, a)
    ensures IsTxIDLessEqual(a, b) && IsTxIDLessEqual(b, a) <==> a == b || Age(a, b) == HALF
  {
  }
}
