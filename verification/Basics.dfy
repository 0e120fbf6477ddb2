/** Bytes, sizes and the modular arithmetic that the models share. */
module Basics {
  newtype Byte = x: int | 0 <= x < 256

  type Bytes = seq<Byte>

  type Positive = n: int | 0 < n witness 1

  function Max(a: nat, b: nat): nat {
    if a < b then b else a
  }

  lemma NonzeroMultiple(k: int, c: int)
    requires 0 < c && k != 0
    ensures k * c <= -c || c <= k * c
  {
    if k >= 1 {
      assert (k - 1) * c >= 0;
    } else {
      assert (-1 - k) * c >= 0;
    }
  }

  lemma RemainderIsUnique(a: int, q: int, rem: int, c: Positive)
    requires a == q * c + rem && 0 <= rem < c
    ensures a / c == q && a % c == rem
  {
    assert a == (a / c) * c + a % c;
    assert (a / c - q) * c == rem - a % c;
    if a / c != q {
      NonzeroMultiple(a / c - q, c);
      assert false;
    }
  }

  /** Two sequence numbers that share a slot are at least one lap apart. */
  lemma SameSlotIsALapApart(a: nat, b: nat, capacity: Positive)
    requires a % capacity == b % capacity && a < b
    ensures a + capacity <= b
  {
    var k := b / capacity - a / capacity;
    assert k * capacity == b - a;
    assert k != 0;
    NonzeroMultiple(k, capacity);
  }

  lemma OneLapLaterIsTheSameSlot(a: nat, capacity: Positive)
    ensures (a + capacity) % capacity == a % capacity
  {
    var q := a / capacity;
    assert a + capacity == (q + 1) * capacity + a % capacity;
    RemainderIsUnique(a + capacity, q + 1, a % capacity, capacity);
  }
}
