/** The ring of scanlines of src/stb/stb_image_resize.h: a window of consecutive lines in a fixed set
    of buffers, addressed modulo their number. */
module RingBuffer {

  lemma ModSmall(x: nat, n: nat)
    requires 0 < n && x < 2 * n
    ensures x % n == if x < n then x else x - n
  {
    if x < n {
      ModUnique(x, n, 0, x);
    } else {
      ModUnique(x, n, 1, x - n);
    }
  }

  lemma ModUnique(x: nat, n: nat, q: nat, r: nat)
    requires 0 < n && r < n && x == n * q + r
    ensures x % n == r
  {
    var p, s := x / n, x % n;
    assert x == n * p + s;
    QuotientUnique(n, p, s, q, r);
  }

  lemma QuotientUnique(n: nat, p: int, s: nat, q: int, r: nat)
    requires s < n && r < n && n * p + s == n * q + r
    ensures s == r
  {
    var d := p - q;
    assert n * d == n * p - n * q && n * -d == -(n * d);
    if d >= 1 { MulAtLeast(n, d); }
    if d <= -1 { MulAtLeast(n, -d); }
  }

  lemma MulAtLeast(n: nat, d: int)
    requires d >= 1
    ensures n * d >= n
  {}

  class Ring {
    const entries: seq<array<real>>
    const length: nat
    /** The entry of the first line; negative while the ring is empty. */
    var beginIndex: int
    var firstScanline: int
    var lastScanline: int

    ghost predicate Valid()
      reads this
    {
      && |entries| > 0
      && (forall i :: 0 <= i < |entries| ==> entries[i].Length == length)
      && (forall i, j :: 0 <= i < j < |entries| ==> entries[i] != entries[j])
      && (beginIndex >= 0 ==>
            beginIndex < |entries| && firstScanline <= lastScanline && lastScanline - firstScanline < |entries|)
    }

    predicate Empty()
      reads this
    {
      beginIndex < 0
    }

    /** The entry of line `k`. */
    function Slot(k: int): (i: nat)
      requires Valid() && !Empty() && firstScanline <= k < firstScanline + |entries|
      reads this
      ensures i < |entries|
      ensures i == if beginIndex + (k - firstScanline) < |entries| then beginIndex + (k - firstScanline)
                   else beginIndex + (k - firstScanline) - |entries|
    {
      ModSmall(beginIndex + (k - firstScanline), |entries|);
      (beginIndex + (k - firstScanline)) % |entries|
    }

    /** The lines in the ring, pixel by pixel. */
    ghost predicate Holds(g: (int, int) -> real)
      requires Valid()
      reads this, entries
    {
      !Empty() ==> forall k, x ::
        firstScanline <= k <= lastScanline && 0 <= x < length ==> entries[Slot(k)][x] == g(k, x)
    }

    constructor (entries: seq<array<real>>, length: nat)
      requires |entries| > 0
      requires forall i :: 0 <= i < |entries| ==> entries[i].Length == length
      requires forall i, j :: 0 <= i < j < |entries| ==> entries[i] != entries[j]
      ensures this.entries == entries && this.length == length && Valid() && Empty()
    {
      this.entries, this.length := entries, length;
      beginIndex, firstScanline, lastScanline := -1, 0, 0;
    }

    /** Makes room for line `n`, all zero. The entry taken is never the entry of a line in use. */
    method AddEmptyEntry(n: int, ghost g: (int, int) -> real) returns (entry: array<real>)
      requires Valid() && Holds(g)
      requires !Empty() ==> n == lastScanline + 1 && n - firstScanline < |entries|
      modifies this, entries
      ensures Valid() && !Empty() && lastScanline == n
      ensures firstScanline == if old(Empty()) then n else old(firstScanline)
      ensures entry == entries[Slot(n)]
      ensures !old(Empty()) ==> Slot(n) != beginIndex && beginIndex == old(beginIndex)
      ensures forall x :: 0 <= x < length ==> entry[x] == 0.0
      ensures Holds((k, x) => if k == n then 0.0 else g(k, x))
    {
      ghost var wasEmpty, oldLast := Empty(), lastScanline;
      lastScanline := n;
      var ringBufferIndex;
      if beginIndex < 0 {
        ringBufferIndex, beginIndex := 0, 0;
        firstScanline := n;
      } else {
        ModSmall(beginIndex + (lastScanline - firstScanline), |entries|);
        ringBufferIndex := (beginIndex + (lastScanline - firstScanline)) % |entries|;
        assert ringBufferIndex != beginIndex;
      }
      entry := entries[ringBufferIndex];
      Clear(entry);
      forall k, x | firstScanline <= k < n && 0 <= x < length
        ensures entries[Slot(k)][x] == g(k, x)
      {
        assert entries[Slot(k)] != entry;
      }
    }

    /** Drops the first line. */
    method PopFirst(ghost g: (int, int) -> real)
      requires Valid() && Holds(g) && !Empty()
      modifies this
      ensures Valid() && Holds(g)
      ensures if old(firstScanline) == old(lastScanline) then Empty()
              else !Empty() && firstScanline == old(firstScanline) + 1 && lastScanline == old(lastScanline)
    {
      if firstScanline == lastScanline {
        beginIndex := -1;
        firstScanline := 0;
        lastScanline := 0;
      } else {
        ModSmall(beginIndex + 1, |entries|);
        firstScanline := firstScanline + 1;
        beginIndex := (beginIndex + 1) % |entries|;
        forall k, x | firstScanline <= k <= lastScanline && 0 <= x < length
          ensures entries[Slot(k)][x] == g(k, x)
        {
          assert Slot(k) == old(Slot(k));
        }
      }
    }
  }

  method Clear(a: array<real>)
    modifies a
    ensures forall x :: 0 <= x < a.Length ==> a[x] == 0.0
  {
    var i := 0;
    while i < a.Length
      invariant 0 <= i <= a.Length && forall x :: 0 <= x < i ==> a[x] == 0.0
    {
      a[i] := 0.0;
      i := i + 1;
    }
  }
}
