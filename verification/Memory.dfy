/** Plain memory: overwriting a range of bytes, and the loops that do it. */
module Memory {
  import opened ByteOrder

  datatype Option<+T> = None | Some(value: T)

  function Min(a: nat, b: nat): nat {
    if a <= b then a else b
  }

  function Splice(mem: seq<Byte>, at: nat, bytes: seq<Byte>): (r: seq<Byte>)
    requires at + |bytes| <= |mem|
    ensures |r| == |mem|
    ensures r[at..at + |bytes|] == bytes
    ensures forall i :: 0 <= i < |mem| && !(at <= i < at + |bytes|) ==> r[i] == mem[i]
  {
    mem[..at] + bytes + mem[at + |bytes|..]
  }

  function ZeroBytes(n: nat): (r: seq<Byte>)
    ensures |r| == n
    ensures forall i :: 0 <= i < n ==> r[i] == Byte(0)
  {
    seq(n, _ => Byte(0))
  }

  // memcpy into an array.
  method Write(mem: array<Byte>, at: nat, bytes: seq<Byte>)
    requires at + |bytes| <= mem.Length
    modifies mem
    ensures mem[..] == Splice(old(mem[..]), at, bytes)
  {
    for i := 0 to |bytes|
      invariant forall j :: 0 <= j < i ==> mem[at + j] == bytes[j]
      invariant forall j :: 0 <= j < mem.Length && !(at <= j < at + i) ==> mem[j] == old(mem[j])
    {
      mem[at + i] := bytes[i];
    }
    ghost var r := Splice(old(mem[..]), at, bytes);
    forall j | 0 <= j < mem.Length
      ensures mem[j] == r[j]
    {
      if at <= j < at + |bytes| {
        assert mem[at + (j - at)] == bytes[j - at] == r[at..at + |bytes|][j - at];
      }
    }
  }

  // ---- Reading what was written ----

  lemma SliceOfSlice(mem: seq<Byte>, at: nat, count: nat, i: nat, k: nat)
    requires at + count <= |mem| && i + k <= count
    ensures mem[at..at + count][i..i + k] == mem[at + i..at + i + k]
  {
    var left, right := mem[at..at + count][i..i + k], mem[at + i..at + i + k];
    assert forall j :: 0 <= j < k ==> left[j] == mem[at + i + j] == right[j];
  }

  lemma SpliceInside(mem: seq<Byte>, at: nat, bytes: seq<Byte>, i: nat, k: nat)
    requires at + |bytes| <= |mem| && i + k <= |bytes|
    ensures Splice(mem, at, bytes)[at + i..at + i + k] == bytes[i..i + k]
  {
  }

  lemma SpliceOutside(mem: seq<Byte>, at: nat, bytes: seq<Byte>, from: nat, to: nat)
    requires at + |bytes| <= |mem| && from <= to <= |mem| && (to <= at || at + |bytes| <= from)
    ensures Splice(mem, at, bytes)[from..to] == mem[from..to]
  {
  }

  // Nothing outside a range has changed.
  ghost predicate SameOutside(before: seq<Byte>, after: seq<Byte>, from: nat, to: nat) {
    && |after| == |before|
    && forall i :: 0 <= i < |before| && !(from <= i < to) ==> after[i] == before[i]
  }

  lemma SpliceStaysInside(mem: seq<Byte>, at: nat, bytes: seq<Byte>, from: nat, to: nat)
    requires from <= at && at + |bytes| <= to && at + |bytes| <= |mem|
    ensures SameOutside(mem, Splice(mem, at, bytes), from, to)
  {
  }

  lemma SameOutsideTwice(a: seq<Byte>, b: seq<Byte>, c: seq<Byte>, from: nat, to: nat)
    requires SameOutside(a, b, from, to) && SameOutside(b, c, from, to)
    ensures SameOutside(a, c, from, to)
  {
  }

  // ---- Combining writes ----

  lemma SpliceSame(mem: seq<Byte>, at: nat, count: nat)
    requires at + count <= |mem|
    ensures Splice(mem, at, mem[at..at + count]) == mem
  {
  }

  lemma SpliceOver(mem: seq<Byte>, at: nat, first: seq<Byte>, second: seq<Byte>)
    requires |first| == |second| && at + |first| <= |mem|
    ensures Splice(Splice(mem, at, first), at, second) == Splice(mem, at, second)
  {
  }

  lemma SpliceAppend(mem: seq<Byte>, at: nat, first: seq<Byte>, next: seq<Byte>)
    requires at + |first| + |next| <= |mem|
    ensures Splice(Splice(mem, at, first), at + |first|, next) == Splice(mem, at, first + next)
  {
  }

  lemma SplicePrepend(mem: seq<Byte>, at: nat, earlier: seq<Byte>, bytes: seq<Byte>)
    requires at + |earlier| + |bytes| <= |mem|
    ensures Splice(Splice(mem, at + |earlier|, bytes), at, earlier) == Splice(mem, at, earlier + bytes)
  {
  }

  lemma SpliceInto(mem: seq<Byte>, at: nat, bytes: seq<Byte>, inner: nat, part: seq<Byte>)
    requires at + |bytes| <= |mem| && inner + |part| <= |bytes|
    ensures Splice(Splice(mem, at, bytes), at + inner, part) == Splice(mem, at, Splice(bytes, inner, part))
  {
    var whole := Splice(bytes, inner, part);
    var left, right := Splice(Splice(mem, at, bytes), at + inner, part), Splice(mem, at, whole);
    forall i | 0 <= i < |mem|
      ensures left[i] == right[i]
    {
      if at <= i < at + |bytes| {
        assert right[i] == right[at..at + |whole|][i - at] == whole[i - at];
      }
    }
  }

  lemma SpliceLeft(first: seq<Byte>, rest: seq<Byte>, at: nat, part: seq<Byte>)
    requires at + |part| <= |first|
    ensures Splice(first + rest, at, part) == Splice(first, at, part) + rest
  {
  }

  lemma SpliceRight(first: seq<Byte>, rest: seq<Byte>, at: nat, part: seq<Byte>)
    requires at + |part| <= |rest|
    ensures Splice(first + rest, |first| + at, part) == first + Splice(rest, at, part)
  {
  }
}
