/** Which message types portable_swap restores when it is applied twice: exactly those
    whose vectors of more than 65535 elements hold only bytes. */
module PortableBound {
  import opened ByteOrder
  import opened Memory
  import opened Portable

  // ---- Elements by index ----

  lemma {:induction false} SpanSplit(m: nat, n: nat, size: nat)
    ensures Span(m + n, size) == Span(m, size) + Span(n, size)
    decreases m
  {
    if m > 0 {
      SpanSplit(m - 1, n, size);
    }
  }

  lemma SpanBounds(i: nat, n: nat, size: nat)
    requires i < n
    ensures Span(i, size) + size <= Span(n, size)
  {
    SpanSplit(i, n - i, size);
  }

  function Element(b: seq<Byte>, i: nat, n: nat, size: nat): (r: seq<Byte>)
    requires i < n && |b| == Span(n, size)
    ensures |r| == size
  {
    SpanBounds(i, n, size);
    b[Span(i, size)..Span(i, size) + size]
  }

  lemma ElementOfTail(b: seq<Byte>, i: nat, n: nat, size: nat)
    requires 0 < i < n && |b| == Span(n, size)
    ensures Element(b, i, n, size) == Element(b[size..], i - 1, n - 1, size)
  {
    SpanBounds(i, n, size);
    SpanBounds(i - 1, n - 1, size);
  }

  lemma {:induction false} MeaningOfElement(h: Endian, element: Layout, n: nat, b: seq<Byte>, count: nat, i: nat)
    requires |b| == Span(n, SizeOf(element)) && i < count <= n
    ensures MeaningOfElements(h, element, n, b, count)[i] == Meaning(h, element, Element(b, i, n, SizeOf(element)))
    decreases i
  {
    hide Meaning;
    if i > 0 {
      ElementOfTail(b, i, n, SizeOf(element));
      MeaningOfElement(h, element, n - 1, b[SizeOf(element)..], count - 1, i - 1);
    }
  }

  lemma {:induction false} SwappedElement(h: Endian, element: Layout, n: nat, b: seq<Byte>, count: nat, i: nat)
    requires |b| == Span(n, SizeOf(element)) && i < n && count <= n
    ensures var e := Element(b, i, n, SizeOf(element));
            Element(SwapElements(h, element, n, b, count), i, n, SizeOf(element))
            == if i < count then Swap(h, element, e) else e
    decreases i
  {
    hide Swap;
    var size := SizeOf(element);
    var r := SwapElements(h, element, n, b, count);
    if count > 0 {
      assert r[..size] == Swap(h, element, b[..size]);
      assert r[size..] == SwapElements(h, element, n - 1, b[size..], count - 1);
      if i > 0 {
        ElementOfTail(b, i, n, size);
        ElementOfTail(r, i, n, size);
        SwappedElement(h, element, n - 1, b[size..], count - 1, i - 1);
      }
    }
  }

  predicate ElementWellFormed(h: Endian, element: Layout, n: nat, b: seq<Byte>, i: nat)
    requires |b| == Span(n, SizeOf(element)) && i < n
  {
    WellFormed(h, element, Element(b, i, n, SizeOf(element)))
  }

  lemma {:induction false} AllElementsWellFormed(h: Endian, element: Layout, n: nat, b: seq<Byte>, count: nat)
    requires |b| == Span(n, SizeOf(element)) && count <= n
    requires forall i: nat :: i < count ==> ElementWellFormed(h, element, n, b, i)
    ensures WellFormedElements(h, element, n, b, count)
    decreases count
  {
    hide WellFormed;
    if count > 0 {
      var size := SizeOf(element);
      assert ElementWellFormed(h, element, n, b, 0);
      assert Element(b, 0, n, size) == b[..size];
      var n', rest := n - 1, b[size..];
      forall i: nat | i < count - 1
        ensures ElementWellFormed(h, element, n', rest, i)
      {
        ElementOfTail(b, i + 1, n, size);
        assert ElementWellFormed(h, element, n, b, i + 1);
      }
      AllElementsWellFormed(h, element, n', rest, count - 1);
    }
  }

  // ---- Building values ----

  // n elements, all zero but the one at i.
  function OneElement(n: nat, size: nat, i: nat, e: seq<Byte>): (r: seq<Byte>)
    requires i < n && |e| == size
    ensures |r| == Span(n, size)
  {
    SpanBounds(i, n, size);
    Splice(ZeroBytes(Span(n, size)), Span(i, size), e)
  }

  lemma OneElementAt(n: nat, size: nat, i: nat, e: seq<Byte>, j: nat)
    requires i < n && j < n && |e| == size
    ensures Element(OneElement(n, size, i, e), j, n, size) == if j == i then e else ZeroBytes(size)
  {
    SpanBounds(i, n, size);
    SpanBounds(j, n, size);
    if j < i {
      SpanBounds(j, i, size);
    } else if i < j {
      SpanBounds(i, j, size);
    }
  }

  function Container(h: Endian, t: Layout, data: seq<Byte>, size: nat): (r: seq<Byte>)
    requires (t.Text? && |data| == t.capacity + 1) || (t.Vector? && |data| == Span(t.capacity, SizeOf(t.element)))
    ensures |r| == SizeOf(t)
    ensures r[..|data|] == data
  {
    data + ZeroBytes(t.gap) + StoreLength(h, size) + ZeroBytes(t.tail)
  }

  lemma ContainerSize(h: Endian, t: Layout, data: seq<Byte>, size: nat)
    requires (t.Text? && |data| == t.capacity + 1) || (t.Vector? && |data| == Span(t.capacity, SizeOf(t.element)))
    requires size < LENGTH_LIMIT
    ensures StoredSize(h, t, Container(h, t, data, size)) == size
    ensures StoredSize(h.Flip(), t, Container(h, t, data, size)) == LoadLength(h.Flip(), StoreLength(h, size))
  {
    hide StoreLength, LoadLength;
    var r := Container(h, t, data, size);
    assert r[SizeOffset(t)..SizeOffset(t) + 4] == StoreLength(h, size);
    LoadStoreLength(h, size);
  }

  lemma ZeroLength(h: Endian)
    ensures LoadLength(h, ZeroBytes(4)) == 0
  {
  }

  lemma {:induction false} ZeroWellFormed(h: Endian, t: Layout)
    ensures WellFormed(h, t, ZeroBytes(SizeOf(t)))
    decreases t
  {
    hide LoadLength;
    var b := ZeroBytes(SizeOf(t));
    match t
    case Raw(_) =>
    case Scalar(_) =>
    case Text(_, _, _) =>
      ZeroLength(h);
      assert b[SizeOffset(t)..SizeOffset(t) + 4] == ZeroBytes(4);
    case Vector(_, _, _, _) =>
      ZeroLength(h);
      assert b[SizeOffset(t)..SizeOffset(t) + 4] == ZeroBytes(4);
    case Fields(first, rest) =>
      ZeroWellFormed(h, first);
      ZeroWellFormed(h, rest);
      assert b[..SizeOf(first)] == ZeroBytes(SizeOf(first));
      assert b[SizeOf(first)..] == ZeroBytes(SizeOf(rest));
  }

  // ---- A value that one swap changes ----

  lemma ReadsFlipped(h: Endian, n: nat)
    requires n < LENGTH_LIMIT
    ensures LoadLength(h.Flip(), StoreLength(h, n))
         == n / 0x100_0000 + 256 * (n / 0x1_0000 % 256) + 0x1_0000 * (n / 256 % 256) + 0x100_0000 * (n % 256)
  {
    hide ValueOf, ByteOf;
    var little := StoreLength(Little, n);
    assert n % LENGTH_LIMIT == n;
    assert ValueOf(little[0]) == n % 256 && ValueOf(little[1]) == n / 256 % 256;
    assert ValueOf(little[2]) == n / 0x1_0000 % 256 && ValueOf(little[3]) == n / 0x100_0000;
    assert StoreLength(Big, n) == Reversed(little);
  }

  function Probe(h: Endian, t: Layout): (r: seq<Byte>)
    requires Supported(t) && !Inert(t)
    ensures |r| == SizeOf(t)
    decreases t
  {
    match t
    case Scalar(width) => [Byte(1)] + ZeroBytes(width - 1)
    case Text(capacity, _, _) => Container(h, t, ZeroBytes(capacity + 1), 1)
    case Vector(element, capacity, _, _) => Container(h, t, ZeroBytes(Span(capacity, SizeOf(element))), 1)
    case Fields(first, rest) =>
      if Inert(first) then ZeroBytes(SizeOf(first)) + Probe(h, rest)
      else Probe(h, first) + ZeroBytes(SizeOf(rest))
  }

  // The size_ after one swap, as the same host reads it.
  lemma SwappedSize(h: Endian, t: Layout, b: seq<Byte>)
    requires t.Text? || t.Vector?
    requires |b| == SizeOf(t)
    ensures StoredSize(h, t, Swap(h, t, b)) == StoredSize(h.Flip(), t, b)
  {
    hide StoredSize, SwapSize, SwapElements;
    if t.Text? {
      SwapSizeReads(h.Flip(), t, b);
    } else {
      var span := Span(t.capacity, SizeOf(t.element));
      var moved := SwapElements(h, t.element, t.capacity, b[..span], Min(StoredSize(h, t, b), t.capacity)) + b[span..];
      assert moved[SizeOffset(t)..] == b[SizeOffset(t)..];
      SameStoredSize(h.Flip(), t, b, moved);
      SwapSizeReads(h.Flip(), t, moved);
    }
  }

  // The elements after one swap.
  lemma SwappedElements(h: Endian, t: Layout, b: seq<Byte>)
    requires t.Vector? && |b| == SizeOf(t)
    ensures var span := Span(t.capacity, SizeOf(t.element));
            Swap(h, t, b)[..span]
            == SwapElements(h, t.element, t.capacity, b[..span], Min(StoredSize(h, t, b), t.capacity))
  {
    hide StoredSize, SwapSize, SwapElements;
    var span := Span(t.capacity, SizeOf(t.element));
    var elements := SwapElements(h, t.element, t.capacity, b[..span], Min(StoredSize(h, t, b), t.capacity));
    var moved := elements + b[span..];
    SwapSizeReads(h, t, moved);
    assert Swap(h, t, b)[..span] == Swap(h, t, b)[..SizeOffset(t)][..span] == moved[..SizeOffset(t)][..span];
  }

  /** What portable_swap does to each byte: scalars of 2, 4 and 8 bytes are turned round,
      and so is size_; of a vector exactly the elements below the size_ read before are
      swapped; padding, characters and spare elements stay. */
  lemma SwapExactly(h: Endian, t: Layout, b: seq<Byte>)
    requires |b| == SizeOf(t)
    ensures t.Raw? ==> Swap(h, t, b) == b
    ensures t.Scalar? ==>
              if t.width == 2 || t.width == 4 || t.width == 8
              then forall i :: 0 <= i < |b| ==> Swap(h, t, b)[i] == b[|b| - 1 - i]
              else Swap(h, t, b) == b
    ensures t.Text? ==> TurnedRound(b, Swap(h, t, b), t.capacity + 1 + t.gap)
    ensures t.Vector? ==>
              var span := Span(t.capacity, SizeOf(t.element));
              TurnedRound(b[span..], Swap(h, t, b)[span..], t.gap)
    ensures t.Vector? ==>
              var size, span := SizeOf(t.element), Span(t.capacity, SizeOf(t.element));
              forall i: nat :: i < t.capacity ==>
                var e := Element(b[..span], i, t.capacity, size);
                Element(Swap(h, t, b)[..span], i, t.capacity, size)
                == if i < LoadLength(h, b[span + t.gap..span + t.gap + 4]) then Swap(h, t.element, e) else e
    ensures t.Fields? ==>
              var at := SizeOf(t.first);
              Swap(h, t, b)[..at] == Swap(h, t.first, b[..at]) && Swap(h, t, b)[at..] == Swap(h, t.rest, b[at..])
  {
    hide LoadLength, Element, SwapElements;
    if t.Vector? {
      var span := Span(t.capacity, SizeOf(t.element));
      var count := Min(StoredSize(h, t, b), t.capacity);
      var moved := SwapElements(h, t.element, t.capacity, b[..span], count) + b[span..];
      SwappedElements(h, t, b);
      forall i: nat | i < t.capacity
        ensures Element(Swap(h, t, b)[..span], i, t.capacity, SizeOf(t.element))
             == if i < StoredSize(h, t, b) then Swap(h, t.element, Element(b[..span], i, t.capacity, SizeOf(t.element)))
                else Element(b[..span], i, t.capacity, SizeOf(t.element))
      {
        SwappedElement(h, t.element, t.capacity, b[..span], count, i);
      }
      assert Swap(h, t, b) == SwapSize(t, moved);
      SizeTurnedRound(t, moved);
      BehindElements(moved, Swap(h, t, b), b, span, t.gap);
    } else if t.Text? {
      SizeTurnedRound(t, b);
    }
  }

  // Four bytes at this place are turned round, and the others stay.
  ghost predicate TurnedRound(before: seq<Byte>, after: seq<Byte>, at: nat)
    requires at + 4 <= |before|
  {
    SameOutside(before, after, at, at + 4) && after[at..at + 4] == Reversed(before[at..at + 4])
  }

  lemma SizeTurnedRound(t: Layout, b: seq<Byte>)
    requires (t.Text? || t.Vector?) && |b| == SizeOf(t)
    ensures TurnedRound(b, SwapSize(t, b), SizeOffset(t))
  {
  }

  lemma BehindElements(moved: seq<Byte>, r: seq<Byte>, b: seq<Byte>, span: nat, gap: nat)
    requires |moved| == |b| && span + gap + 4 <= |b| && TurnedRound(moved, r, span + gap) && moved[span..] == b[span..]
    ensures TurnedRound(b[span..], r[span..], gap)
  {
    var before, after := b[span..], r[span..];
    assert before[gap..gap + 4] == moved[span..][gap..gap + 4] == moved[span + gap..span + gap + 4];
    assert after[gap..gap + 4] == r[span + gap..span + gap + 4];
    forall i | 0 <= i < |before| && !(gap <= i < gap + 4)
      ensures after[i] == before[i]
    {
      assert after[i] == r[span + i] == moved[span + i] == moved[span..][i];
    }
  }

  lemma {:induction false} ProbeChanges(h: Endian, t: Layout)
    requires Supported(t) && !Inert(t)
    ensures WellFormed(h, t, Probe(h, t))
    ensures Meaning(h, t, Swap(h, t, Probe(h, t))) != Meaning(h, t, Probe(h, t))
    decreases t
  {
    hide StoredSize, SwapSize, SwapElements, Container, LoadLength, StoreLength;
    var b := Probe(h, t);
    match t
    case Scalar(width) =>
      assert Reversed(b)[0] == Byte(0) && Reversed(b)[width - 1] == Byte(1);
      ReversedTwice(b);
    case Text(capacity, _, _) =>
      ContainerSize(h, t, ZeroBytes(capacity + 1), 1);
      ReadsFlipped(h, 1);
      SwappedSize(h, t, b);
    case Vector(element, capacity, _, _) =>
      var data := ZeroBytes(Span(capacity, SizeOf(element)));
      ContainerSize(h, t, data, 1);
      ReadsFlipped(h, 1);
      SwappedSize(h, t, b);
      SpanBounds(0, capacity, SizeOf(element));
      assert data[..SizeOf(element)] == ZeroBytes(SizeOf(element));
      ZeroWellFormed(h, element);
      assert WellFormedElements(h, element, capacity - 1, data[SizeOf(element)..], 0);
      assert WellFormedElements(h, element, capacity, data, 1);
      assert b[..Span(capacity, SizeOf(element))] == data;
    case Fields(first, rest) =>
      var at := SizeOf(first);
      var r := Swap(h, t, b);
      assert r[..at] == Swap(h, first, b[..at]) && r[at..] == Swap(h, rest, b[at..]);
      ZeroWellFormed(h, first);
      ZeroWellFormed(h, rest);
      if Inert(first) {
        assert b[..at] == ZeroBytes(at) && b[at..] == Probe(h, rest);
        ProbeChanges(h, rest);
      } else {
        assert b[..at] == Probe(h, first) && b[at..] == ZeroBytes(SizeOf(rest));
        ProbeChanges(h, first);
      }
  }

  // ---- A value that two swaps do not restore ----

  function Unrestored(h: Endian, t: Layout): (r: seq<Byte>)
    requires Supported(t) && !ShortVectors(t)
    ensures |r| == SizeOf(t)
    decreases t
  {
    match t
    case Vector(element, capacity, _, _) =>
      var size := SizeOf(element);
      if !ShortVectors(element) then Container(h, t, OneElement(capacity, size, 0, Unrestored(h, element)), 1)
      else Container(h, t, OneElement(capacity, size, 256, Probe(h, element)), 0x1_0000)
    case Fields(first, rest) =>
      if ShortVectors(first) then ZeroBytes(SizeOf(first)) + Unrestored(h, rest)
      else Unrestored(h, first) + ZeroBytes(SizeOf(rest))
  }

  // A vector of zeros with the element e at index i, of which `count` are in use.
  lemma OneElementVector(h: Endian, t: Layout, i: nat, e: seq<Byte>, count: nat)
    requires t.Vector? && i < count <= t.capacity < LENGTH_LIMIT && |e| == SizeOf(t.element)
    requires WellFormed(h, t.element, e)
    ensures var b := Container(h, t, OneElement(t.capacity, SizeOf(t.element), i, e), count);
            && WellFormed(h, t, b)
            && Meaning(h, t, b).Items?
            && |Meaning(h, t, b).items| == count
            && Meaning(h, t, b).items[i] == Meaning(h, t.element, e)
  {
    hide StoredSize, Container, Meaning, WellFormed, OneElement;
    var data := OneElement(t.capacity, SizeOf(t.element), i, e);
    var b := Container(h, t, data, count);
    ContainerSize(h, t, data, count);
    forall j: nat | j < count
      ensures ElementWellFormed(h, t.element, t.capacity, data, j)
    {
      OneElementAt(t.capacity, SizeOf(t.element), i, e, j);
      ZeroWellFormed(h, t.element);
    }
    AllElementsWellFormed(h, t.element, t.capacity, data, count);
    VectorMeaning(h, t, b, i);
    OneElementAt(t.capacity, SizeOf(t.element), i, e, i);
    VectorWellFormed(h, t, b);
  }

  lemma VectorWellFormed(h: Endian, t: Layout, b: seq<Byte>)
    requires t.Vector? && |b| == SizeOf(t) && StoredSize(h, t, b) <= t.capacity
    requires WellFormedElements(h, t.element, t.capacity, b[..Span(t.capacity, SizeOf(t.element))], StoredSize(h, t, b))
    ensures WellFormed(h, t, b)
  {
  }

  lemma VectorMeaning(h: Endian, t: Layout, b: seq<Byte>, i: nat)
    requires t.Vector? && |b| == SizeOf(t) && i < StoredSize(h, t, b) <= t.capacity
    ensures var m := Meaning(h, t, b);
            && m.Items?
            && |m.items| == StoredSize(h, t, b)
            && m.items[i] == Meaning(h, t.element, Element(b[..Span(t.capacity, SizeOf(t.element))], i, t.capacity,
                                                           SizeOf(t.element)))
  {
    hide StoredSize;
    MeaningOfElement(h, t.element, t.capacity, b[..Span(t.capacity, SizeOf(t.element))], StoredSize(h, t, b), i);
  }

  // What two swaps leave of element i of a vector.
  lemma TwiceSwappedElement(h: Endian, t: Layout, b: seq<Byte>, i: nat)
    requires t.Vector? && |b| == SizeOf(t) && i < StoredSize(h, t, b) <= t.capacity
    ensures var twice := Swap(h, t, Swap(h, t, b));
            var span := Span(t.capacity, SizeOf(t.element));
            var once := Swap(h, t.element, Element(b[..span], i, t.capacity, SizeOf(t.element)));
            && StoredSize(h, t, twice) == StoredSize(h, t, b)
            && Element(twice[..span], i, t.capacity, SizeOf(t.element))
               == if i < StoredSize(h.Flip(), t, b) then Swap(h, t.element, once) else once
  {
    hide StoredSize, Swap, SwapElements;
    var r := Swap(h, t, b);
    var span := Span(t.capacity, SizeOf(t.element));
    SwappedSize(h, t, b);
    SwappedSize(h, t, r);
    SwappedSizeFlipped(h, t, b);
    SwappedElements(h, t, b);
    SwappedElements(h, t, r);
    SwappedElement(h, t.element, t.capacity, b[..span], Min(StoredSize(h, t, b), t.capacity), i);
    SwappedElement(h, t.element, t.capacity, r[..span], Min(StoredSize(h, t, r), t.capacity), i);
  }

  lemma SwappedSizeFlipped(h: Endian, t: Layout, b: seq<Byte>)
    requires t.Vector? && |b| == SizeOf(t)
    ensures StoredSize(h.Flip(), t, Swap(h, t, b)) == StoredSize(h, t, b)
  {
    hide StoredSize, SwapSize, SwapElements;
    var span := Span(t.capacity, SizeOf(t.element));
    var moved := SwapElements(h, t.element, t.capacity, b[..span], Min(StoredSize(h, t, b), t.capacity)) + b[span..];
    assert moved[SizeOffset(t)..] == b[SizeOffset(t)..];
    SameStoredSize(h, t, b, moved);
    SwapSizeReads(h, t, moved);
  }

  lemma {:induction false} UnrestoredFails(h: Endian, t: Layout)
    requires Supported(t) && !ShortVectors(t)
    ensures WellFormed(h, t, Unrestored(h, t))
    ensures !Restored(h, t, Unrestored(h, t))
    decreases t
  {
    if t.Fields? {
      UnrestoredFields(h, t);
    } else {
      UnrestoredVector(h, t);
    }
  }

  lemma {:induction false} UnrestoredFields(h: Endian, t: Layout)
    requires t.Fields? && Supported(t) && !ShortVectors(t)
    ensures WellFormed(h, t, Unrestored(h, t))
    ensures !Restored(h, t, Unrestored(h, t))
    decreases t, 0
  {
    var b, at := Unrestored(h, t), SizeOf(t.first);
    var once := Swap(h, t, b);
    var twice := Swap(h, t, once);
    assert once[..at] == Swap(h, t.first, b[..at]) && once[at..] == Swap(h, t.rest, b[at..]);
    assert twice[..at] == Swap(h, t.first, once[..at]) && twice[at..] == Swap(h, t.rest, once[at..]);
    ZeroWellFormed(h, t.first);
    ZeroWellFormed(h, t.rest);
    if ShortVectors(t.first) {
      assert b[..at] == ZeroBytes(at) && b[at..] == Unrestored(h, t.rest);
      UnrestoredFails(h, t.rest);
    } else {
      assert b[..at] == Unrestored(h, t.first) && b[at..] == ZeroBytes(SizeOf(t.rest));
      UnrestoredFails(h, t.first);
    }
  }

  // A vector of which one element, visited once or twice, does not come back.
  lemma OneElementUnrestored(h: Endian, t: Layout, i: nat, e: seq<Byte>, count: nat)
    requires t.Vector? && i < count <= t.capacity < LENGTH_LIMIT && |e| == SizeOf(t.element)
    requires WellFormed(h, t.element, e)
    requires var once := Swap(h, t.element, e);
             var twice := if i < LoadLength(h.Flip(), StoreLength(h, count)) then Swap(h, t.element, once) else once;
             Meaning(h, t.element, twice) != Meaning(h, t.element, e)
    ensures var b := Container(h, t, OneElement(t.capacity, SizeOf(t.element), i, e), count);
            WellFormed(h, t, b) && !Restored(h, t, b)
  {
    hide StoredSize, Container, Swap, Meaning, WellFormed, OneElement, StoreLength, LoadLength, Span, SizeOf, Element;
    var data := OneElement(t.capacity, SizeOf(t.element), i, e);
    var b := Container(h, t, data, count);
    OneElementVector(h, t, i, e, count);
    ContainerSize(h, t, data, count);
    TwiceSwappedElement(h, t, b, i);
    OneElementAt(t.capacity, SizeOf(t.element), i, e, i);
    VectorMeaning(h, t, Swap(h, t, Swap(h, t, b)), i);
  }

  lemma {:induction false} UnrestoredVector(h: Endian, t: Layout)
    requires t.Vector? && Supported(t) && !ShortVectors(t)
    ensures WellFormed(h, t, Unrestored(h, t))
    ensures !Restored(h, t, Unrestored(h, t))
    decreases t, 0
  {
    hide StoredSize, Container, Swap, Meaning, WellFormed, OneElement, StoreLength, LoadLength, Span, SizeOf, Probe;
    if !ShortVectors(t.element) {
      UnrestoredFails(h, t.element);
      ReadsFlipped(h, 1);
      OneElementUnrestored(h, t, 0, Unrestored(h, t.element), 1);
    } else {
      ProbeChanges(h, t.element);
      ReadsFlipped(h, 0x1_0000);
      OneElementUnrestored(h, t, 256, Probe(h, t.element), 0x1_0000);
    }
  }

  /** Swapping twice restores every value of a type exactly when its vectors of more
      than 65535 elements hold only bytes. */
  lemma RestoresExactly(h: Endian, t: Layout)
    requires Supported(t)
    ensures SwapRestores(h, t) <==> ShortVectors(t)
  {
    hide Swap, Meaning, WellFormed, Supported, ShortVectors, Restored;
    if ShortVectors(t) {
      forall b: seq<Byte> | |b| == SizeOf(t) && WellFormed(h, t, b)
        ensures Restored(h, t, b)
      {
        SwapTwice(h, t, b);
      }
    } else {
      UnrestoredFails(h, t);
    }
  }
}
