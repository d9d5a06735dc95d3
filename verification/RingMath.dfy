/**
 Offsets of the shared-memory ring (crates/ipc/src/shm.rs). The head and tail
 counters are u32 and run freely; the byte position of an offset is its
 remainder by the buffer size. Two facts decide whether messages survive: the
 position of the offset after a wrap of the counters, and the distance between
 the bytes in flight.
 */
module RingMath {

  import opened Common

  /** Buffer sizes for which a counter wrap keeps bytes in flight apart: it shifts positions by 0 or by 1. */
  predicate Regular(size: nat)
    requires size > 0
  {
    U32 % size == 0 || (U32 + 1) % size == 0
  }

  function Shift(size: nat): (g: nat)
    requires size > 0
    ensures g <= 1
    ensures Regular(size) ==> (U32 + g) % size == 0
  {
    if U32 % size != 0 && (U32 + 1) % size == 0 then 1 else 0
  }

  /** Offset `x`, counted without wrapping, moved by the shift of every wrap before it. */
  function Virtual(size: nat, x: nat): nat
    requires size > 0
  {
    x + Shift(size) * (x / U32)
  }

  /** The position the code computes for the chunk starting at offset x. */
  function Position(size: nat, x: nat): (p: nat)
    requires size > 0
    ensures p < size
  {
    (x % U32) % size
  }

  /** Offsets up to `x` are safe to use: the size is regular, or the counters have not wrapped. */
  predicate Usable(size: nat, x: nat)
    requires size > 0
  {
    Regular(size) || x < U32
  }

  lemma MulAtLeast(k: int, size: nat)
    requires k >= 1
    ensures k * size >= size
  {
  }

  lemma {:induction false} ModUnique(a: int, q: int, size: nat, r: nat)
    requires size > 0 && a == q * size + r && r < size
    ensures a % size == r
  {
    var q', r' := a / size, a % size;
    assert a == q' * size + r';
    var d := q - q';
    assert d * size == r' - r;
    if d >= 1 { MulAtLeast(d, size); }
    if d <= -1 { MulAtLeast(-d, size); }
  }

  lemma {:induction false} ModShift(a: nat, k: nat, size: nat)
    requires size > 0
    ensures (a % size + k) % size == (a + k) % size
  {
    var b := a % size + k;
    var q, r := b / size, b % size;
    assert a + k == (a / size + q) * size + r;
    ModUnique(a + k, a / size + q, size, r);
  }

  lemma {:induction false} ModMultiple(k: nat, m: nat, r: nat, size: nat)
    requires size > 0 && m % size == 0
    ensures (k * m + r) % size == r % size
  {
    var c := m / size;
    assert m == c * size;
    assert k * m == (k * c) * size;
    assert k * m + r == (k * c + r / size) * size + r % size;
    ModUnique(k * m + r, k * c + r / size, size, r % size);
  }

  lemma {:induction false} ModApart(a: nat, b: nat, size: nat)
    requires a < b < a + size
    ensures a % size != b % size
  {
    var d := b / size - a / size;
    assert a == (a / size) * size + a % size && b == (b / size) * size + b % size;
    assert d * size == b - b % size - a + a % size;
    if d >= 1 { MulAtLeast(d, size); }
    if d <= -1 { MulAtLeast(-d, size); assert (-d) * size == -(d * size); }
  }

  lemma {:induction false} VirtualPosition(size: nat, x: nat)
    requires size > 0 && Usable(size, x)
    ensures Virtual(size, x) % size == Position(size, x)
  {
    if Regular(size) {
      var g := Shift(size);
      var q, o := x / U32, x % U32;
      assert Virtual(size, x) == q * (U32 + g) + o;
      ModMultiple(q, U32 + g, o, size);
    }
  }

  /** Virtual offsets grow at least as fast as offsets, and by at most one more over less than a wrap. */
  lemma VirtualStep(size: nat, x: nat, n: nat)
    requires size > 0
    ensures Virtual(size, x) + n <= Virtual(size, x + n)
    ensures n < U32 ==> Virtual(size, x + n) <= Virtual(size, x) + n + 1
  {
    var g := Shift(size);
    assert x / U32 <= (x + n) / U32;
    assert n < U32 ==> (x + n) / U32 <= x / U32 + 1;
    assert g == 0 || g == 1;
  }

  // ---- the bytes of one framed message ----

  /** Virtual address of byte i of the frame at offset x: the four length bytes are one chunk, the data another. */
  function Address(size: nat, x: nat, i: nat): nat
    requires size > 0
  {
    if i < 4 then Virtual(size, x) + i else Virtual(size, x + 4) + (i - 4)
  }

  /** The position k bytes on from `pos`, modulo the buffer size. */
  function Place(size: nat, pos: nat, k: nat): (p: nat)
    requires size > 0
    ensures p < size
  {
    (pos + k) % size
  }

  lemma PlaceStraight(size: nat, pos: nat, k: nat)
    requires pos + k < size
    ensures Place(size, pos, k) == pos + k
  {
    ModUnique(pos + k, 0, size, pos + k);
  }

  lemma PlaceWrapped(size: nat, pos: nat, k: nat)
    requires size > 0 && size <= pos + k < 2 * size
    ensures Place(size, pos, k) == pos + k - size
  {
    ModUnique(pos + k, 1, size, pos + k - size);
  }

  lemma {:induction false} PlacesApart(size: nat, pos: nat, j: nat, k: nat)
    requires j < k < j + size
    ensures Place(size, pos, j) != Place(size, pos, k)
  {
    ModApart(pos + j, pos + k, size);
  }

  /** Where the code puts it. */
  function Slot(size: nat, x: nat, i: nat): (p: nat)
    requires size > 0
    ensures p < size
  {
    if i < 4 then Place(size, Position(size, x), i) else Place(size, Position(size, x + 4), i - 4)
  }

  lemma {:induction false} SlotAddress(size: nat, x: nat, i: nat)
    requires size > 0 && (Regular(size) || x + i < U32)
    ensures Slot(size, x, i) == Address(size, x, i) % size
  {
    if i < 4 {
      VirtualPosition(size, x);
      ModShift(Virtual(size, x), i, size);
    } else {
      VirtualPosition(size, x + 4);
      ModShift(Virtual(size, x + 4), i - 4, size);
    }
  }

  lemma AddressBounds(size: nat, x: nat, i: nat)
    requires size > 0
    ensures Virtual(size, x) + i <= Address(size, x, i) <= Virtual(size, x + i)
  {
    if i >= 4 {
      VirtualStep(size, x, 4);
      VirtualStep(size, x + 4, i - 4);
    }
  }

  /** Distinct bytes in a window of fewer than `size` bytes occupy distinct slots. */
  lemma {:induction false} SlotsApart(size: nat, x: nat, i: nat, y: nat, j: nat)
    requires 0 < size <= U32
    requires x + i < y + j && y + j - x < size - 1
    requires (x == y || x + i < y)
    requires Regular(size) || y + j < U32
    ensures Slot(size, x, i) != Slot(size, y, j)
  {
    SlotAddress(size, x, i);
    SlotAddress(size, y, j);
    AddressBounds(size, x, i);
    AddressBounds(size, y, j);
    VirtualStep(size, x, y + j - x);
    if x == y {
      if i < 4 <= j {
        VirtualStep(size, x, 4);
      }
    } else {
      VirtualStep(size, x + i, y - x - i);
    }
    ModApart(Address(size, x, i), Address(size, y, j), size);
  }
}
