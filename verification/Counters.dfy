/** The free-running counters of the rings: unsigned machine words that wrap, a capacity
    that is a power of two, and slots chosen with a mask. */
module Counters {

  function Pow2(k: nat): (p: nat)
    ensures p > 0
  {
    if k == 0 then 1 else 2 * Pow2(k - 1)
  }

  /** Words of `wordBits` bits and a ring of 2^capacityBits slots, at least two, whose
      capacity is itself less than the number of words. */
  datatype Shape = Shape(wordBits: nat, capacityBits: nat) {
    predicate Valid() {
      1 <= capacityBits < wordBits
    }

    function Words(): nat {
      Pow2(wordBits)
    }

    function Capacity(): nat {
      Pow2(capacityBits)
    }
  }

  // Unsigned subtraction and increment.
  function Minus(c: Shape, a: nat, b: nat): (r: nat)
    ensures r < c.Words()
  {
    (a - b) % c.Words()
  }

  function Plus1(c: Shape, a: nat): (r: nat)
    ensures r < c.Words()
  {
    (a + 1) % c.Words()
  }

  // a & b, bit by bit.
  function BitAnd(a: nat, b: nat): nat {
    if a == 0 || b == 0 then 0 else (if a % 2 == 1 && b % 2 == 1 then 1 else 0) + 2 * BitAnd(a / 2, b / 2)
  }

  // word & kIndexMask
  function MaskedIndex(c: Shape, word: nat): nat {
    BitAnd(word, c.Capacity() - 1)
  }

  // The word and the slot that belong to a count that never wraps.
  function WordOf(c: Shape, index: nat): (word: nat)
    ensures word < c.Words()
  {
    index % c.Words()
  }

  function SlotOf(c: Shape, index: nat): (slot: nat)
    ensures slot < c.Capacity()
  {
    index % c.Capacity()
  }

  // ---- Remainders ----

  lemma MulAtLeast(a: nat, b: nat)
    requires b > 0
    ensures a * b >= a
  {
  }

  // The only multiple of d strictly between -d and d is 0.
  lemma OnlyZeroMultiple(k: int, d: int, n: int)
    requires n == k * d && -d < n < d
    ensures k == 0
  {
    MultipleIsLarge(if k >= 0 then k else -k, d);
    assert (-k) * d == -n;
  }

  lemma MultipleIsLarge(k: nat, d: int)
    requires d > 0
    ensures k > 0 ==> k * d >= d
  {
  }

  lemma DivMod(n: int, d: int)
    requires d > 0
    ensures n == (n / d) * d + n % d
  {
  }

  lemma RemainderIs(n: int, d: nat, q: int, r: nat)
    requires n == q * d + r && r < d
    ensures n % d == r && n / d == q
  {
    var q', r' := n / d, n % d;
    DivMod(n, d);
    assert (q - q') * d == q * d - q' * d;
    OnlyZeroMultiple(q - q', d, r' - r);
  }

  lemma RemainderOfRemainder(n: nat, d: nat, e: nat)
    requires d > 0 && e > 0 && d * e > 0
    ensures n % (d * e) % d == n % d
  {
    var m := d * e;
    var q, r := n / m, n % m;
    DivMod(n, m);
    DivMod(r, d);
    Regroup(q, d, e, r / d);
    RemainderIs(n, d, q * e + r / d, r % d);
  }

  lemma Regroup(q: int, d: int, e: int, s: int)
    ensures q * (d * e) + s * d == (q * e + s) * d
  {
  }

  lemma {:induction false} Pow2Sum(m: nat, n: nat)
    ensures Pow2(m + n) == Pow2(m) * Pow2(n)
    decreases m
  {
    if m > 0 {
      Pow2Sum(m - 1, n);
    }
  }

  lemma WordsAreRings(c: Shape)
    requires c.Valid()
    ensures c.Words() == c.Capacity() * Pow2(c.wordBits - c.capacityBits)
    ensures c.Words() >= 2 * c.Capacity()
    ensures c.Capacity() >= 2
  {
    Pow2Sum(c.capacityBits, c.wordBits - c.capacityBits);
    assert Pow2(c.wordBits - c.capacityBits) == 2 * Pow2(c.wordBits - c.capacityBits - 1);
    var times := Pow2(c.wordBits - c.capacityBits - 1);
    assert c.Capacity() * Pow2(c.wordBits - c.capacityBits) == 2 * (c.Capacity() * times);
    MulAtLeast(c.Capacity(), Pow2(c.wordBits - c.capacityBits - 1));
  }

  /** Masking with capacity - 1 is the remainder by the capacity. */
  lemma {:induction false} MaskIsRemainder(x: nat, k: nat)
    ensures BitAnd(x, Pow2(k) - 1) == x % Pow2(k)
    decreases k
  {
    if k > 0 {
      var half := Pow2(k - 1);
      MaskIsRemainder(x / 2, k - 1);
      AndWithOnes(x, half);
      HalvedRemainder(x, half);
    }
  }

  lemma AndWithOnes(x: nat, half: nat)
    requires half > 0
    ensures BitAnd(x, 2 * half - 1) == x % 2 + 2 * BitAnd(x / 2, half - 1)
  {
    OddHalf(half);
  }

  lemma OddHalf(n: nat)
    requires n > 0
    ensures (2 * n - 1) / 2 == n - 1 && (2 * n - 1) % 2 == 1
  {
  }

  lemma HalvedRemainder(x: nat, half: nat)
    requires half > 0
    ensures x % (2 * half) == 2 * (x / 2 % half) + x % 2
  {
    DivMod(x / 2, half);
    var q, r := x / 2 / half, x / 2 % half;
    Regroup(q, half, 2, 0);
    assert q * (2 * half) == 2 * (q * half);
    RemainderIs(x, 2 * half, q, 2 * r + x % 2);
  }

  // ---- The wrapping counters simulate unbounded ones ----

  lemma MaskedWordIsSlot(c: Shape, index: nat)
    requires c.Valid()
    ensures MaskedIndex(c, WordOf(c, index)) == SlotOf(c, index)
  {
    MaskIsRemainder(WordOf(c, index), c.capacityBits);
    WordsAreRings(c);
    RemainderOfRemainder(index, c.Capacity(), Pow2(c.wordBits - c.capacityBits));
  }

  lemma NextWord(c: Shape, index: nat)
    ensures Plus1(c, WordOf(c, index)) == WordOf(c, index + 1)
  {
    var m, q, r := c.Words(), index / c.Words(), index % c.Words();
    DivMod(index, m);
    if r + 1 < m {
      RemainderIs(index + 1, m, q, r + 1);
      RemainderIs(r + 1, m, 0, r + 1);
    } else {
      assert (q + 1) * m == q * m + m;
      RemainderIs(index + 1, m, q + 1, 0);
      RemainderIs(r + 1, m, 1, 0);
    }
  }

  lemma MinusOfWords(c: Shape, head: nat, tail: nat)
    requires tail <= head < tail + c.Words()
    ensures Minus(c, WordOf(c, head), WordOf(c, tail)) == head - tail
  {
    var m, p, q := c.Words(), head / c.Words(), tail / c.Words();
    DivMod(head, m);
    DivMod(tail, m);
    assert (q - p) * m == q * m - p * m;
    RemainderIs(WordOf(c, head) - WordOf(c, tail), m, q - p, head - tail);
  }

  /** While at most `Capacity` messages are outstanding, the tests of the code on words
      decide exactly what they would decide on counters that never wrap. */
  lemma WordsDecideAlike(c: Shape, head: nat, tail: nat)
    requires c.Valid() && tail <= head <= tail + c.Capacity()
    ensures Minus(c, WordOf(c, head), WordOf(c, tail)) == head - tail
    ensures WordOf(c, head) == WordOf(c, tail) <==> head == tail
    ensures MaskedIndex(c, WordOf(c, head)) == SlotOf(c, head)
    ensures MaskedIndex(c, WordOf(c, tail)) == SlotOf(c, tail)
    ensures Plus1(c, WordOf(c, head)) == WordOf(c, head + 1)
  {
    WordsAreRings(c);
    MinusOfWords(c, head, tail);
    MaskedWordIsSlot(c, head);
    MaskedWordIsSlot(c, tail);
    NextWord(c, head);
    if WordOf(c, head) == WordOf(c, tail) {
      RemainderIs(0, c.Words(), 0, 0);
    }
  }

  /** Fewer than `Capacity` apart, different counts have different slots. */
  lemma SlotsDiffer(c: Shape, low: nat, high: nat)
    requires low < high < low + c.Capacity()
    ensures SlotOf(c, low) != SlotOf(c, high)
  {
    var d, p, q := c.Capacity(), low / c.Capacity(), high / c.Capacity();
    DivMod(low, d);
    DivMod(high, d);
    assert (q - p) * d == q * d - p * d;
    if low % d == high % d {
      OnlyZeroMultiple(q - p, d, high - low);
    }
  }

  lemma SlotRepeats(c: Shape, index: nat)
    ensures SlotOf(c, index + c.Capacity()) == SlotOf(c, index)
  {
    var d, q := c.Capacity(), index / c.Capacity();
    DivMod(index, d);
    assert (q + 1) * d == q * d + d;
    RemainderIs(index + d, d, q + 1, index % d);
  }

  // ---- size() ----

  // SpscRingBuffer::size
  function SpscSize(c: Shape, head: nat, tail: nat): nat {
    if head >= tail then head - tail else (c.Capacity() + head - tail) % c.Words()
  }

  // IpcRingBuffer::size and IpcEnvelopeRingBuffer::size
  function IpcSize(head: nat, tail: nat): nat {
    if head >= tail then head - tail else 0
  }

  /** size() is the number of outstanding messages exactly when the head word is not
      below the tail word. In the window where only the head has wrapped, the ring in
      process memory adds its capacity and those in shared memory answer 0. */
  lemma SizeExactly(c: Shape, head: nat, tail: nat)
    requires c.Valid() && tail <= head <= tail + c.Capacity()
    ensures SpscSize(c, WordOf(c, head), WordOf(c, tail))
         == if WordOf(c, head) >= WordOf(c, tail) then head - tail else (c.Capacity() + head - tail) % c.Words()
    ensures SpscSize(c, WordOf(c, head), WordOf(c, tail)) == head - tail <==> WordOf(c, head) >= WordOf(c, tail)
    ensures IpcSize(WordOf(c, head), WordOf(c, tail)) == head - tail <==> WordOf(c, head) >= WordOf(c, tail)
  {
    WordsAreRings(c);
    MinusOfWords(c, head, tail);
    var m: int, a: int, b: int := c.Words(), WordOf(c, head), WordOf(c, tail);
    if a >= b {
      RemainderIs(a - b, m, 0, a - b);
    } else {
      RemainderIs(a - b, m, -1, a - b + m);
      WrappedSize(m, c.Capacity(), a - b, head - tail);
    }
  }

  /** It does go wrong: one message is outstanding when only the head has wrapped. */
  lemma SizeGoesWrong(c: Shape)
    requires c.Valid()
    ensures var head, tail := c.Words(), c.Words() - 1;
            && SpscSize(c, WordOf(c, head), WordOf(c, tail)) == c.Capacity() + 1
            && IpcSize(WordOf(c, head), WordOf(c, tail)) == 0
  {
    var m := c.Words();
    WordsAreRings(c);
    RemainderIs(m, m, 1, 0);
    RemainderIs(m - 1, m, 0, m - 1);
    RemainderIs(c.Capacity() + 0 - (m - 1), m, -1, c.Capacity() + 1);
  }

  lemma WrappedSize(m: nat, capacity: nat, difference: int, count: nat)
    requires difference == count - m && count <= capacity && capacity >= 2 && 2 * capacity <= m
    ensures (capacity + difference) % m == (capacity + count) % m
    ensures (capacity + count) % m != count
  {
    var y := capacity + count;
    if y < m {
      RemainderIs(y, m, 0, y);
      RemainderIs(capacity + difference, m, -1, y);
    } else {
      RemainderIs(y, m, 1, 0);
      RemainderIs(capacity + difference, m, 0, 0);
    }
  }
}
