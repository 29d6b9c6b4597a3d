/** The endianness normaliser of include/sinew/portable.hpp: message types as layouts,
    what a value means to a host, and what portable_swap does to it. */
module Portable {
  import opened ByteOrder
  import opened Memory

  /** The layout of a field type. `Raw` bytes are those no visitor touches: padding,
      members left out of SINEW_REFLECT, and types portable_swap has no branch for.
      Strings and vectors hold their data, `gap` bytes of padding, the 32-bit size_ and
      `tail` more bytes of padding. A reflected struct is a chain of Fields, in the
      order of its members. */
  datatype Layout =
    | Raw(count: nat)
    | Scalar(width: nat)
    | Text(capacity: nat, gap: nat, tail: nat)
    | Vector(element: Layout, capacity: nat, gap: nat, tail: nat)
    | Fields(first: Layout, rest: Layout)

  // n elements of the given size.
  function Span(n: nat, size: nat): nat {
    if n == 0 then 0 else size + Span(n - 1, size)
  }

  function SizeOf(t: Layout): nat {
    match t
    case Raw(count) => count
    case Scalar(width) => width
    case Text(capacity, gap, tail) => capacity + 1 + gap + 4 + tail
    case Vector(element, capacity, gap, tail) => Span(capacity, SizeOf(element)) + gap + 4 + tail
    case Fields(first, rest) => SizeOf(first) + SizeOf(rest)
  }

  // Where size_ is stored.
  function SizeOffset(t: Layout): nat
    requires t.Text? || t.Vector?
  {
    match t
    case Text(capacity, gap, _) => capacity + 1 + gap
    case Vector(element, capacity, gap, _) => Span(capacity, SizeOf(element)) + gap
  }

  // size_ as a host reads it.
  function StoredSize(h: Endian, t: Layout, b: seq<Byte>): nat
    requires t.Text? || t.Vector?
    requires |b| == SizeOf(t)
  {
    LoadLength(h, b[SizeOffset(t)..SizeOffset(t) + 4])
  }

  // ---- portable_swap ----

  function SwapSize(t: Layout, b: seq<Byte>): (r: seq<Byte>)
    requires t.Text? || t.Vector?
    requires |b| == SizeOf(t)
    ensures |r| == |b|
  {
    var at := SizeOffset(t);
    b[..at] + Reversed(b[at..at + 4]) + b[at + 4..]
  }

  /** The effect of portable_swap, run by host h, on the bytes of a value. The number
      of elements visited is the size_ that h reads before anything is swapped. */
  function Swap(h: Endian, t: Layout, b: seq<Byte>): (r: seq<Byte>)
    requires |b| == SizeOf(t)
    ensures |r| == |b|
    decreases t, 0
  {
    match t
    case Raw(_) => b
    case Scalar(width) => if SwapWidth(width) then Reversed(b) else b
    case Text(_, _, _) => SwapSize(t, b)
    case Vector(element, capacity, _, _) =>
      var count := Min(StoredSize(h, t, b), capacity);
      var span := Span(capacity, SizeOf(element));
      SwapSize(t, SwapElements(h, element, capacity, b[..span], count) + b[span..])
    case Fields(first, rest) =>
      Swap(h, first, b[..SizeOf(first)]) + Swap(h, rest, b[SizeOf(first)..])
  }

  // The first `count` of `capacity` elements swapped.
  function SwapElements(h: Endian, element: Layout, capacity: nat, b: seq<Byte>, count: nat): (r: seq<Byte>)
    requires |b| == Span(capacity, SizeOf(element)) && count <= capacity
    ensures |r| == |b|
    decreases element, 1, count
  {
    if count == 0 then b
    else
      var size := SizeOf(element);
      Swap(h, element, b[..size]) + SwapElements(h, element, capacity - 1, b[size..], count - 1)
  }

  // ---- What the bytes of a value mean to a host ----

  /** A scalar is its little-endian digits, whatever the order of the host. A string or
      vector is its size and the elements below it. */
  datatype Value =
    | Nothing
    | Digits(digits: seq<Byte>)
    | Chars(size: nat, chars: seq<Byte>)
    | Items(size: nat, items: seq<Value>)
    | Record(first: Value, rest: Value)

  function Meaning(h: Endian, t: Layout, b: seq<Byte>): Value
    requires |b| == SizeOf(t)
    decreases t, 0
  {
    match t
    case Raw(_) => Nothing
    case Scalar(_) => Digits(if h == Little then b else Reversed(b))
    case Text(capacity, _, _) =>
      var size := StoredSize(h, t, b);
      Chars(size, b[..Min(size, capacity)])
    case Vector(element, capacity, _, _) =>
      var size := StoredSize(h, t, b);
      Items(size, MeaningOfElements(h, element, capacity, b[..Span(capacity, SizeOf(element))], Min(size, capacity)))
    case Fields(first, rest) =>
      Record(Meaning(h, first, b[..SizeOf(first)]), Meaning(h, rest, b[SizeOf(first)..]))
  }

  function MeaningOfElements(h: Endian, element: Layout, capacity: nat, b: seq<Byte>, count: nat): (r: seq<Value>)
    requires |b| == Span(capacity, SizeOf(element)) && count <= capacity
    ensures |r| == count
    decreases element, 1, count
  {
    if count == 0 then []
    else
      var size := SizeOf(element);
      [Meaning(h, element, b[..size])] + MeaningOfElements(h, element, capacity - 1, b[size..], count - 1)
  }

  // What StaticVector and StaticString keep: no size_ in use exceeds its capacity.
  predicate WellFormed(h: Endian, t: Layout, b: seq<Byte>)
    requires |b| == SizeOf(t)
    decreases t, 0
  {
    match t
    case Raw(_) => true
    case Scalar(_) => true
    case Text(capacity, _, _) => StoredSize(h, t, b) <= capacity
    case Vector(element, capacity, _, _) =>
      && StoredSize(h, t, b) <= capacity
      && WellFormedElements(h, element, capacity, b[..Span(capacity, SizeOf(element))], StoredSize(h, t, b))
    case Fields(first, rest) =>
      WellFormed(h, first, b[..SizeOf(first)]) && WellFormed(h, rest, b[SizeOf(first)..])
  }

  predicate WellFormedElements(h: Endian, element: Layout, capacity: nat, b: seq<Byte>, count: nat)
    requires |b| == Span(capacity, SizeOf(element)) && count <= capacity
    decreases element, 1, count
  {
    count > 0 ==>
      var size := SizeOf(element);
      && WellFormed(h, element, b[..size])
      && WellFormedElements(h, element, capacity - 1, b[size..], count - 1)
  }

  /** The types the library can declare and portable_swap has a branch for: scalars of
      1, 2, 4 or 8 bytes and containers whose capacity is positive and fits size_. */
  predicate Supported(t: Layout) {
    match t
    case Raw(_) => true
    case Scalar(width) => width == 1 || SwapWidth(width)
    case Text(capacity, _, _) => 0 < capacity < LENGTH_LIMIT
    case Vector(element, capacity, _, _) => 0 < capacity < LENGTH_LIMIT && Supported(element)
    case Fields(first, rest) => Supported(first) && Supported(rest)
  }

  // Types that portable_swap leaves alone.
  predicate Inert(t: Layout) {
    match t
    case Raw(_) => true
    case Scalar(width) => !SwapWidth(width)
    case Text(_, _, _) => false
    case Vector(_, _, _, _) => false
    case Fields(first, rest) => Inert(first) && Inert(rest)
  }

  /** Vectors of more than 65535 elements hold only bytes. */
  predicate ShortVectors(t: Layout) {
    match t
    case Raw(_) => true
    case Scalar(_) => true
    case Text(_, _, _) => true
    case Vector(element, capacity, _, _) => (capacity <= 0xFFFF || Inert(element)) && ShortVectors(element)
    case Fields(first, rest) => ShortVectors(first) && ShortVectors(rest)
  }

  // ---- One swap carries a value from one byte order to the other ----

  /** Does a host that reads the bytes in order `reader` visit every element that is in
      use, and needs a visit, when the value was written in order `writer`? */
  predicate VisitsAll(reader: Endian, writer: Endian, t: Layout, b: seq<Byte>)
    requires |b| == SizeOf(t)
    decreases t, 0
  {
    match t
    case Raw(_) => true
    case Scalar(_) => true
    case Text(_, _, _) => true
    case Vector(element, capacity, _, _) =>
      var size := Min(StoredSize(writer, t, b), capacity);
      || Inert(element)
      || (&& size <= StoredSize(reader, t, b)
          && VisitsAllElements(reader, writer, element, capacity, b[..Span(capacity, SizeOf(element))], size))
    case Fields(first, rest) =>
      VisitsAll(reader, writer, first, b[..SizeOf(first)]) && VisitsAll(reader, writer, rest, b[SizeOf(first)..])
  }

  predicate VisitsAllElements(reader: Endian, writer: Endian, element: Layout, capacity: nat, b: seq<Byte>, count: nat)
    requires |b| == Span(capacity, SizeOf(element)) && count <= capacity
    decreases element, 1, count
  {
    count > 0 ==>
      var size := SizeOf(element);
      && VisitsAll(reader, writer, element, b[..size])
      && VisitsAllElements(reader, writer, element, capacity - 1, b[size..], count - 1)
  }

  lemma SwapSizeReads(h: Endian, t: Layout, b: seq<Byte>)
    requires t.Text? || t.Vector?
    requires |b| == SizeOf(t)
    ensures StoredSize(h.Flip(), t, SwapSize(t, b)) == StoredSize(h, t, b)
    ensures SwapSize(t, b)[..SizeOffset(t)] == b[..SizeOffset(t)]
  {
    hide LoadLength;
    var at := SizeOffset(t);
    var stored := b[at..at + 4];
    assert SwapSize(t, b)[at..at + 4] == Reversed(stored);
    LoadLengthFlipped(h, Reversed(stored));
    ReversedTwice(stored);
  }

  /** A value written in order `writer` and swapped once by a host that visits all of
      it means the same in the other order, and is well-formed there. */
  lemma {:induction false} SwapTransfers(h: Endian, writer: Endian, t: Layout, b: seq<Byte>)
    requires |b| == SizeOf(t) && Supported(t)
    requires WellFormed(writer, t, b) && VisitsAll(h, writer, t, b)
    ensures Meaning(writer.Flip(), t, Swap(h, t, b)) == Meaning(writer, t, b)
    ensures WellFormed(writer.Flip(), t, Swap(h, t, b))
    decreases t, 1
  {
    hide StoredSize, SwapSize, Reversed;
    match t
    case Raw(_) =>
    case Scalar(width) =>
      ReversedTwice(b);
      assert width <= 1 ==> Reversed(b) == b;
    case Text(_, _, _) => TextTransfers(writer, t, b);
    case Vector(_, _, _, _) => VectorTransfers(h, writer, t, b);
    case Fields(_, _) => FieldsTransfer(h, writer, t, b);
  }

  lemma {:induction false} FieldsTransfer(h: Endian, writer: Endian, t: Layout, b: seq<Byte>)
    requires t.Fields? && |b| == SizeOf(t) && Supported(t)
    requires WellFormed(writer, t, b) && VisitsAll(h, writer, t, b)
    ensures Meaning(writer.Flip(), t, Swap(h, t, b)) == Meaning(writer, t, b)
    ensures WellFormed(writer.Flip(), t, Swap(h, t, b))
    decreases t, 0
  {
    var at := SizeOf(t.first);
    SwapTransfers(h, writer, t.first, b[..at]);
    SwapTransfers(h, writer, t.rest, b[at..]);
    assert Swap(h, t, b)[..at] == Swap(h, t.first, b[..at]);
    assert Swap(h, t, b)[at..] == Swap(h, t.rest, b[at..]);
  }

  lemma TextTransfers(writer: Endian, t: Layout, b: seq<Byte>)
    requires t.Text? && |b| == SizeOf(t)
    ensures Meaning(writer.Flip(), t, SwapSize(t, b)) == Meaning(writer, t, b)
    ensures StoredSize(writer.Flip(), t, SwapSize(t, b)) == StoredSize(writer, t, b)
  {
    hide StoredSize, SwapSize;
    SwapSizeReads(writer, t, b);
    var kept := Min(StoredSize(writer, t, b), t.capacity);
    assert SwapSize(t, b)[..kept] == SwapSize(t, b)[..SizeOffset(t)][..kept] == b[..SizeOffset(t)][..kept] == b[..kept];
  }

  lemma {:induction false} VectorTransfers(h: Endian, writer: Endian, t: Layout, b: seq<Byte>)
    requires t.Vector? && |b| == SizeOf(t) && Supported(t)
    requires WellFormed(writer, t, b) && VisitsAll(h, writer, t, b)
    ensures Meaning(writer.Flip(), t, Swap(h, t, b)) == Meaning(writer, t, b)
    ensures WellFormed(writer.Flip(), t, Swap(h, t, b))
    decreases t.element, 3
  {
    hide StoredSize, SwapSize;
    var span := Span(t.capacity, SizeOf(t.element));
    var count, size := Min(StoredSize(h, t, b), t.capacity), StoredSize(writer, t, b);
    var elements := SwapElements(h, t.element, t.capacity, b[..span], count);
    var moved := elements + b[span..];
    if Inert(t.element) {
      InertElements(h, writer, t.element, t.capacity, b[..span], count, size);
    } else {
      ElementsTransfer(h, writer, t.element, t.capacity, b[..span], count, size);
    }
    hide SwapElements, MeaningOfElements, WellFormedElements, VisitsAllElements;
    assert moved[SizeOffset(t)..] == b[SizeOffset(t)..];
    SameStoredSize(writer, t, b, moved);
    SwapSizeReads(writer, t, moved);
    assert SwapSize(t, moved)[..span] == SwapSize(t, moved)[..SizeOffset(t)][..span] == moved[..span] == elements;
  }

  lemma {:induction false} InertSwap(h: Endian, writer: Endian, t: Layout, b: seq<Byte>)
    requires |b| == SizeOf(t) && Inert(t) && Supported(t)
    ensures Swap(h, t, b) == b
    ensures Meaning(writer.Flip(), t, b) == Meaning(writer, t, b)
    ensures WellFormed(writer, t, b)
    decreases t
  {
    hide StoredSize, SwapSize, Reversed;
    match t
    case Raw(_) =>
    case Scalar(width) =>
      assert width == 1;
      assert Reversed(b) == b;
    case Fields(first, rest) =>
      InertSwap(h, writer, first, b[..SizeOf(first)]);
      InertSwap(h, writer, rest, b[SizeOf(first)..]);
      assert b == b[..SizeOf(first)] + b[SizeOf(first)..];
  }

  lemma {:induction false} InertElements(h: Endian, writer: Endian, element: Layout, capacity: nat, b: seq<Byte>,
                                         count: nat, size: nat)
    requires |b| == Span(capacity, SizeOf(element)) && size <= capacity && count <= capacity
    requires Inert(element) && Supported(element)
    ensures SwapElements(h, element, capacity, b, count) == b
    ensures MeaningOfElements(writer.Flip(), element, capacity, b, size)
         == MeaningOfElements(writer, element, capacity, b, size)
    ensures WellFormedElements(writer.Flip(), element, capacity, b, size)
    decreases capacity
  {
    hide Swap, Meaning, WellFormed;
    if capacity > 0 {
      var at := SizeOf(element);
      InertSwap(h, writer, element, b[..at]);
      InertSwap(h, writer.Flip(), element, b[..at]);
      InertElements(h, writer, element, capacity - 1, b[at..],
                    if count > 0 then count - 1 else 0, if size > 0 then size - 1 else 0);
    }
  }

  lemma SameStoredSize(h: Endian, t: Layout, b: seq<Byte>, c: seq<Byte>)
    requires t.Text? || t.Vector?
    requires |b| == |c| == SizeOf(t) && b[SizeOffset(t)..] == c[SizeOffset(t)..]
    ensures StoredSize(h, t, b) == StoredSize(h, t, c)
  {
    var at := SizeOffset(t);
    assert b[at..at + 4] == b[at..][..4] == c[at..][..4] == c[at..at + 4];
  }

  lemma {:induction false} ElementsTransfer(h: Endian, writer: Endian, element: Layout, capacity: nat, b: seq<Byte>,
                                            count: nat, size: nat)
    requires |b| == Span(capacity, SizeOf(element)) && size <= count <= capacity && Supported(element)
    requires WellFormedElements(writer, element, capacity, b, size)
    requires VisitsAllElements(h, writer, element, capacity, b, size)
    ensures var r := SwapElements(h, element, capacity, b, count);
            && MeaningOfElements(writer.Flip(), element, capacity, r, size)
               == MeaningOfElements(writer, element, capacity, b, size)
            && WellFormedElements(writer.Flip(), element, capacity, r, size)
    decreases element, 2, count
  {
    hide Swap, Meaning, WellFormed, VisitsAll;
    if size > 0 {
      var at := SizeOf(element);
      SwapTransfers(h, writer, element, b[..at]);
      ElementsTransfer(h, writer, element, capacity - 1, b[at..], count - 1, size - 1);
      var r := SwapElements(h, element, capacity, b, count);
      assert r[..at] == Swap(h, element, b[..at]);
      assert r[at..] == SwapElements(h, element, capacity - 1, b[at..], count - 1);
    }
  }

  // ---- Which values a host visits in full ----

  /** With short vectors, a host visits all of every well-formed value, whichever order
      it was written in: a size_ of the other order reads as more than 65535. */
  lemma {:induction false} ShortVectorsVisited(reader: Endian, writer: Endian, t: Layout, b: seq<Byte>)
    requires |b| == SizeOf(t) && ShortVectors(t) && WellFormed(writer, t, b)
    ensures VisitsAll(reader, writer, t, b)
    decreases t, 0
  {
    hide LoadLength;
    match t
    case Raw(_) =>
    case Scalar(_) =>
    case Text(_, _, _) =>
    case Vector(element, capacity, _, _) =>
      if !Inert(element) {
        ShortLengthReadsLong(writer, b[SizeOffset(t)..SizeOffset(t) + 4]);
        ShortElementsVisited(reader, writer, element, capacity, b[..Span(capacity, SizeOf(element))],
                             StoredSize(writer, t, b));
      }
    case Fields(first, rest) =>
      ShortVectorsVisited(reader, writer, first, b[..SizeOf(first)]);
      ShortVectorsVisited(reader, writer, rest, b[SizeOf(first)..]);
  }

  lemma {:induction false} ShortElementsVisited(reader: Endian, writer: Endian, element: Layout, capacity: nat,
                                                b: seq<Byte>, count: nat)
    requires |b| == Span(capacity, SizeOf(element)) && count <= capacity && ShortVectors(element)
    requires WellFormedElements(writer, element, capacity, b, count)
    ensures VisitsAllElements(reader, writer, element, capacity, b, count)
    decreases element, 1, count
  {
    if count > 0 {
      ShortVectorsVisited(reader, writer, element, b[..SizeOf(element)]);
      ShortElementsVisited(reader, writer, element, capacity - 1, b[SizeOf(element)..], count - 1);
    }
  }

  // ---- Swapping twice ----

  // What the tests of the library expect of portable_swap for one type.
  ghost predicate SwapRestores(h: Endian, t: Layout) {
    forall b: seq<Byte> :: |b| == SizeOf(t) && WellFormed(h, t, b) ==> Restored(h, t, b)
  }

  predicate Restored(h: Endian, t: Layout, b: seq<Byte>)
    requires |b| == SizeOf(t)
  {
    Meaning(h, t, Swap(h, t, Swap(h, t, b))) == Meaning(h, t, b)
  }

  lemma SwapTwice(h: Endian, t: Layout, b: seq<Byte>)
    requires |b| == SizeOf(t) && Supported(t) && ShortVectors(t) && WellFormed(h, t, b)
    ensures Restored(h, t, b)
  {
    hide Swap, Meaning, WellFormed, VisitsAll, Supported, ShortVectors;
    var once := Swap(h, t, b);
    ShortVectorsVisited(h, h, t, b);
    SwapTransfers(h, h, t, b);
    ShortVectorsVisited(h, h.Flip(), t, once);
    SwapTransfers(h, h.Flip(), t, once);
  }
}
