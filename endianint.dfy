/**
 * Endian-correct integers: a 16-, 32- or 64-bit unsigned value kept in a
 * fixed byte order `order`, whatever the byte order `host` of the machine.
 * Storing swaps the bytes when the two orders differ; reading swaps them
 * back with the same operation, which is its own inverse.
 *
 * Mixed-endian machines are not supported, so a byte order is one of two
 * values. The host order, a compile-time fact of the machine, is an
 * explicit parameter here.
 */
module EndianInt {

  /** The order in which the bytes of a word lie in memory. */
  datatype Endian = Little | Big

  // ---------------------------------------------------------------------
  // Memory images: the bytes of a word, lowest address first
  // ---------------------------------------------------------------------

  /** The bytes of `w`, least significant first: its memory image on a little-endian machine. */
  function LeBytes16(w: bv16): (b: seq<bv8>)
    ensures |b| == 2
  {
    [(w & 0xFF) as bv8, ((w >> 8) & 0xFF) as bv8]
  }

  /** The bytes of `w`, most significant first: its memory image on a big-endian machine, the little-endian image backwards. */
  function BeBytes16(w: bv16): (b: seq<bv8>)
    ensures |b| == 2
  {
    var l := LeBytes16(w);
    [l[1], l[0]]
  }

  function LeBytes32(w: bv32): (b: seq<bv8>)
    ensures |b| == 4
  {
    [(w & 0xFF) as bv8, ((w >> 8) & 0xFF) as bv8,
     ((w >> 16) & 0xFF) as bv8, ((w >> 24) & 0xFF) as bv8]
  }

  function BeBytes32(w: bv32): (b: seq<bv8>)
    ensures |b| == 4
  {
    var l := LeBytes32(w);
    [l[3], l[2], l[1], l[0]]
  }

  function LeBytes64(w: bv64): (b: seq<bv8>)
    ensures |b| == 8
  {
    [(w & 0xFF) as bv8, ((w >> 8) & 0xFF) as bv8,
     ((w >> 16) & 0xFF) as bv8, ((w >> 24) & 0xFF) as bv8,
     ((w >> 32) & 0xFF) as bv8, ((w >> 40) & 0xFF) as bv8,
     ((w >> 48) & 0xFF) as bv8, ((w >> 56) & 0xFF) as bv8]
  }

  function BeBytes64(w: bv64): (b: seq<bv8>)
    ensures |b| == 8
  {
    var l := LeBytes64(w);
    [l[7], l[6], l[5], l[4], l[3], l[2], l[1], l[0]]
  }

  /** The memory image of `w` on a machine of byte order `order`. */
  function Bytes16(w: bv16, order: Endian): (b: seq<bv8>)
    ensures |b| == 2
  {
    if order == Little then LeBytes16(w) else BeBytes16(w)
  }

  function Bytes32(w: bv32, order: Endian): (b: seq<bv8>)
    ensures |b| == 4
  {
    if order == Little then LeBytes32(w) else BeBytes32(w)
  }

  function Bytes64(w: bv64, order: Endian): (b: seq<bv8>)
    ensures |b| == 8
  {
    if order == Little then LeBytes64(w) else BeBytes64(w)
  }

  /** Byte `i` of `w`, counting from the least significant byte. */
  function Byte16(w: bv16, i: nat): bv8
    requires i < 2
  {
    LeBytes16(w)[i]
  }

  function Byte32(w: bv32, i: nat): bv8
    requires i < 4
  {
    LeBytes32(w)[i]
  }

  function Byte64(w: bv64, i: nat): bv8
    requires i < 8
  {
    LeBytes64(w)[i]
  }

  /** The word a little-endian machine reads from the memory bytes `b`. */
  function LeWord16(b: seq<bv8>): bv16
    requires |b| == 2
  {
    ((b[1] as bv16) << 8) | (b[0] as bv16)
  }

  function LeWord32(b: seq<bv8>): bv32
    requires |b| == 4
  {
    ((b[3] as bv32) << 24) | ((b[2] as bv32) << 16) | ((b[1] as bv32) << 8) | (b[0] as bv32)
  }

  function LeWord64(b: seq<bv8>): bv64
    requires |b| == 8
  {
    ((b[7] as bv64) << 56) | ((b[6] as bv64) << 48) | ((b[5] as bv64) << 40) | ((b[4] as bv64) << 32) |
    ((b[3] as bv64) << 24) | ((b[2] as bv64) << 16) | ((b[1] as bv64) << 8) | (b[0] as bv64)
  }

  /** The word a big-endian machine reads from the memory bytes `b`. */
  function BeWord16(b: seq<bv8>): bv16
    requires |b| == 2
  {
    ((b[0] as bv16) << 8) | (b[1] as bv16)
  }

  function BeWord32(b: seq<bv8>): bv32
    requires |b| == 4
  {
    ((b[0] as bv32) << 24) | ((b[1] as bv32) << 16) | ((b[2] as bv32) << 8) | (b[3] as bv32)
  }

  function BeWord64(b: seq<bv8>): bv64
    requires |b| == 8
  {
    ((b[0] as bv64) << 56) | ((b[1] as bv64) << 48) | ((b[2] as bv64) << 40) | ((b[3] as bv64) << 32) |
    ((b[4] as bv64) << 24) | ((b[5] as bv64) << 16) | ((b[6] as bv64) << 8) | (b[7] as bv64)
  }

  /** Two byte sequences of one length that agree at every position are equal. */
  lemma SameBytes2(a: seq<bv8>, b: seq<bv8>)
    requires |a| == 2 && |b| == 2
    requires a[0] == b[0] && a[1] == b[1]
    ensures a == b
  {
    forall i | 0 <= i < 2 ensures a[i] == b[i] {
      if i == 0 {} else {}
    }
  }

  lemma SameBytes4(a: seq<bv8>, b: seq<bv8>)
    requires |a| == 4 && |b| == 4
    requires a[0] == b[0] && a[1] == b[1] && a[2] == b[2] && a[3] == b[3]
    ensures a == b
  {
    forall i | 0 <= i < 4 ensures a[i] == b[i] {
      if i == 0 {} else if i == 1 {} else if i == 2 {} else {}
    }
  }

  lemma SameBytes8(a: seq<bv8>, b: seq<bv8>)
    requires |a| == 8 && |b| == 8
    requires a[0] == b[0] && a[1] == b[1] && a[2] == b[2] && a[3] == b[3]
    requires a[4] == b[4] && a[5] == b[5] && a[6] == b[6] && a[7] == b[7]
    ensures a == b
  {
    forall i | 0 <= i < 8 ensures a[i] == b[i] {
      if i == 0 {} else if i == 1 {} else if i == 2 {} else if i == 3 {}
      else if i == 4 {} else if i == 5 {} else if i == 6 {} else {}
    }
  }

  /** Each byte of a word assembled from bytes is the byte it was assembled from. */
  lemma LeWordBytes16(b: seq<bv8>)
    requires |b| == 2
    ensures ((LeWord16(b)) & 0xFF) as bv8 == b[0]
    ensures ((LeWord16(b) >> 8) & 0xFF) as bv8 == b[1]
  {
  }

  lemma BeWordBytes16(b: seq<bv8>)
    requires |b| == 2
    ensures ((BeWord16(b)) & 0xFF) as bv8 == b[1]
    ensures ((BeWord16(b) >> 8) & 0xFF) as bv8 == b[0]
  {
  }

  lemma LeWordBytes32(b: seq<bv8>)
    requires |b| == 4
    ensures ((LeWord32(b)) & 0xFF) as bv8 == b[0]
    ensures ((LeWord32(b) >> 8) & 0xFF) as bv8 == b[1]
    ensures ((LeWord32(b) >> 16) & 0xFF) as bv8 == b[2]
    ensures ((LeWord32(b) >> 24) & 0xFF) as bv8 == b[3]
  {
  }

  lemma BeWordBytes32(b: seq<bv8>)
    requires |b| == 4
    ensures ((BeWord32(b)) & 0xFF) as bv8 == b[3]
    ensures ((BeWord32(b) >> 8) & 0xFF) as bv8 == b[2]
    ensures ((BeWord32(b) >> 16) & 0xFF) as bv8 == b[1]
    ensures ((BeWord32(b) >> 24) & 0xFF) as bv8 == b[0]
  {
  }

  lemma LeWordBytes64(b: seq<bv8>)
    requires |b| == 8
    ensures ((LeWord64(b)) & 0xFF) as bv8 == b[0]
    ensures ((LeWord64(b) >> 8) & 0xFF) as bv8 == b[1]
    ensures ((LeWord64(b) >> 16) & 0xFF) as bv8 == b[2]
    ensures ((LeWord64(b) >> 24) & 0xFF) as bv8 == b[3]
    ensures ((LeWord64(b) >> 32) & 0xFF) as bv8 == b[4]
    ensures ((LeWord64(b) >> 40) & 0xFF) as bv8 == b[5]
    ensures ((LeWord64(b) >> 48) & 0xFF) as bv8 == b[6]
    ensures ((LeWord64(b) >> 56) & 0xFF) as bv8 == b[7]
  {
  }

  lemma BeWordBytes64(b: seq<bv8>)
    requires |b| == 8
    ensures ((BeWord64(b)) & 0xFF) as bv8 == b[7]
    ensures ((BeWord64(b) >> 8) & 0xFF) as bv8 == b[6]
    ensures ((BeWord64(b) >> 16) & 0xFF) as bv8 == b[5]
    ensures ((BeWord64(b) >> 24) & 0xFF) as bv8 == b[4]
    ensures ((BeWord64(b) >> 32) & 0xFF) as bv8 == b[3]
    ensures ((BeWord64(b) >> 40) & 0xFF) as bv8 == b[2]
    ensures ((BeWord64(b) >> 48) & 0xFF) as bv8 == b[1]
    ensures ((BeWord64(b) >> 56) & 0xFF) as bv8 == b[0]
  {
  }

  /** Writing the bytes a word was read from gives those bytes back. */
  lemma BytesOfWord16(b: seq<bv8>)
    requires |b| == 2
    ensures LeBytes16(LeWord16(b)) == b
    ensures BeBytes16(BeWord16(b)) == b
  {
    LeWordBytes16(b);
    BeWordBytes16(b);
    var x, y := LeBytes16(LeWord16(b)), BeBytes16(BeWord16(b));
    assert x[0] == b[0];
    assert x[1] == b[1];
    assert y[0] == b[0];
    assert y[1] == b[1];
    SameBytes2(x, b);
    SameBytes2(y, b);
  }

  lemma BytesOfWord32(b: seq<bv8>)
    requires |b| == 4
    ensures LeBytes32(LeWord32(b)) == b
    ensures BeBytes32(BeWord32(b)) == b
  {
    LeWordBytes32(b);
    BeWordBytes32(b);
    var x, y := LeBytes32(LeWord32(b)), BeBytes32(BeWord32(b));
    assert x[0] == b[0];
    assert x[1] == b[1];
    assert x[2] == b[2];
    assert x[3] == b[3];
    assert y[0] == b[0];
    assert y[1] == b[1];
    assert y[2] == b[2];
    assert y[3] == b[3];
    SameBytes4(x, b);
    SameBytes4(y, b);
  }

  lemma BytesOfWord64(b: seq<bv8>)
    requires |b| == 8
    ensures LeBytes64(LeWord64(b)) == b
    ensures BeBytes64(BeWord64(b)) == b
  {
    LeWordBytes64(b);
    BeWordBytes64(b);
    var x, y := LeBytes64(LeWord64(b)), BeBytes64(BeWord64(b));
    assert x[0] == b[0];
    assert x[1] == b[1];
    assert x[2] == b[2];
    assert x[3] == b[3];
    assert x[4] == b[4];
    assert x[5] == b[5];
    assert x[6] == b[6];
    assert x[7] == b[7];
    assert y[0] == b[0];
    assert y[1] == b[1];
    assert y[2] == b[2];
    assert y[3] == b[3];
    assert y[4] == b[4];
    assert y[5] == b[5];
    assert y[6] == b[6];
    assert y[7] == b[7];
    SameBytes8(x, b);
    SameBytes8(y, b);
  }

  /** The word that a machine of byte order `order` reads from the memory bytes `b`: the word whose image is `b`. */
  function Word16(b: seq<bv8>, order: Endian): (w: bv16)
    requires |b| == 2
    ensures Bytes16(w, order) == b
  {
    BytesOfWord16(b);
    if order == Little then LeWord16(b) else BeWord16(b)
  }

  function Word32(b: seq<bv8>, order: Endian): (w: bv32)
    requires |b| == 4
    ensures Bytes32(w, order) == b
  {
    BytesOfWord32(b);
    if order == Little then LeWord32(b) else BeWord32(b)
  }

  function Word64(b: seq<bv8>, order: Endian): (w: bv64)
    requires |b| == 8
    ensures Bytes64(w, order) == b
  {
    BytesOfWord64(b);
    if order == Little then LeWord64(b) else BeWord64(b)
  }

  /** Words with the same bytes are equal. */
  lemma SameWord16(a: bv16, b: bv16)
    requires (a & 0xFF) as bv8 == (b & 0xFF) as bv8
    requires ((a >> 8) & 0xFF) as bv8 == ((b >> 8) & 0xFF) as bv8
    ensures a == b
  {
  }

  lemma SameWord32(a: bv32, b: bv32)
    requires (a & 0xFF) as bv8 == (b & 0xFF) as bv8
    requires ((a >> 8) & 0xFF) as bv8 == ((b >> 8) & 0xFF) as bv8
    requires ((a >> 16) & 0xFF) as bv8 == ((b >> 16) & 0xFF) as bv8
    requires ((a >> 24) & 0xFF) as bv8 == ((b >> 24) & 0xFF) as bv8
    ensures a == b
  {
  }

  lemma SameWord64(a: bv64, b: bv64)
    requires (a & 0xFF) as bv8 == (b & 0xFF) as bv8
    requires ((a >> 8) & 0xFF) as bv8 == ((b >> 8) & 0xFF) as bv8
    requires ((a >> 16) & 0xFF) as bv8 == ((b >> 16) & 0xFF) as bv8
    requires ((a >> 24) & 0xFF) as bv8 == ((b >> 24) & 0xFF) as bv8
    requires ((a >> 32) & 0xFF) as bv8 == ((b >> 32) & 0xFF) as bv8
    requires ((a >> 40) & 0xFF) as bv8 == ((b >> 40) & 0xFF) as bv8
    requires ((a >> 48) & 0xFF) as bv8 == ((b >> 48) & 0xFF) as bv8
    requires ((a >> 56) & 0xFF) as bv8 == ((b >> 56) & 0xFF) as bv8
    ensures a == b
  {
  }

  /** A memory image determines its word. */
  lemma BytesInjective16(a: bv16, b: bv16, order: Endian)
    requires Bytes16(a, order) == Bytes16(b, order)
    ensures a == b
  {
    if order == Little {
      var x, y := LeBytes16(a), LeBytes16(b);
      assert x[0] == y[0];
      assert x[1] == y[1];
    } else {
      var p, q := BeBytes16(a), BeBytes16(b);
      assert p[0] == q[0];
      assert p[1] == q[1];
    }
    SameWord16(a, b);
  }

  lemma BytesInjective32(a: bv32, b: bv32, order: Endian)
    requires Bytes32(a, order) == Bytes32(b, order)
    ensures a == b
  {
    if order == Little {
      var x, y := LeBytes32(a), LeBytes32(b);
      assert x[0] == y[0];
      assert x[1] == y[1];
      assert x[2] == y[2];
      assert x[3] == y[3];
    } else {
      var p, q := BeBytes32(a), BeBytes32(b);
      assert p[0] == q[0];
      assert p[1] == q[1];
      assert p[2] == q[2];
      assert p[3] == q[3];
    }
    SameWord32(a, b);
  }

  lemma BytesInjective64(a: bv64, b: bv64, order: Endian)
    requires Bytes64(a, order) == Bytes64(b, order)
    ensures a == b
  {
    if order == Little {
      var x, y := LeBytes64(a), LeBytes64(b);
      assert x[0] == y[0];
      assert x[1] == y[1];
      assert x[2] == y[2];
      assert x[3] == y[3];
      assert x[4] == y[4];
      assert x[5] == y[5];
      assert x[6] == y[6];
      assert x[7] == y[7];
    } else {
      var p, q := BeBytes64(a), BeBytes64(b);
      assert p[0] == q[0];
      assert p[1] == q[1];
      assert p[2] == q[2];
      assert p[3] == q[3];
      assert p[4] == q[4];
      assert p[5] == q[5];
      assert p[6] == q[6];
      assert p[7] == q[7];
    }
    SameWord64(a, b);
  }

  // ---------------------------------------------------------------------
  // Byte swaps, the mask-and-shift expressions of to_E
  // ---------------------------------------------------------------------

  /** The byte swap of to_E: byte `k` of the result, counted from the least significant, is byte `N - 1 - k` of `v`. */
  function Swap16(v: bv16): (r: bv16)
    ensures ((r) & 0xFF) as bv8 == ((v >> 8) & 0xFF) as bv8
    ensures ((r >> 8) & 0xFF) as bv8 == ((v) & 0xFF) as bv8
  {
    ((v & 0xFF00) >> 8) | ((v & 0x00FF) << 8)
  }

  function Swap32(v: bv32): (r: bv32)
    ensures ((r) & 0xFF) as bv8 == ((v >> 24) & 0xFF) as bv8
    ensures ((r >> 8) & 0xFF) as bv8 == ((v >> 16) & 0xFF) as bv8
    ensures ((r >> 16) & 0xFF) as bv8 == ((v >> 8) & 0xFF) as bv8
    ensures ((r >> 24) & 0xFF) as bv8 == ((v) & 0xFF) as bv8
  {
    ((v & 0xFF00_0000) >> 24) |
    ((v & 0x00FF_0000) >> 8) |
    ((v & 0x0000_FF00) << 8) |
    ((v & 0x0000_00FF) << 24)
  }

  function Swap64(v: bv64): (r: bv64)
    ensures ((r) & 0xFF) as bv8 == ((v >> 56) & 0xFF) as bv8
    ensures ((r >> 8) & 0xFF) as bv8 == ((v >> 48) & 0xFF) as bv8
    ensures ((r >> 16) & 0xFF) as bv8 == ((v >> 40) & 0xFF) as bv8
    ensures ((r >> 24) & 0xFF) as bv8 == ((v >> 32) & 0xFF) as bv8
    ensures ((r >> 32) & 0xFF) as bv8 == ((v >> 24) & 0xFF) as bv8
    ensures ((r >> 40) & 0xFF) as bv8 == ((v >> 16) & 0xFF) as bv8
    ensures ((r >> 48) & 0xFF) as bv8 == ((v >> 8) & 0xFF) as bv8
    ensures ((r >> 56) & 0xFF) as bv8 == ((v) & 0xFF) as bv8
  {
    ((v & 0xFF00_0000_0000_0000) >> 56) |
    ((v & 0x00FF_0000_0000_0000) >> 40) |
    ((v & 0x0000_FF00_0000_0000) >> 24) |
    ((v & 0x0000_00FF_0000_0000) >> 8) |
    ((v & 0x0000_0000_FF00_0000) << 8) |
    ((v & 0x0000_0000_00FF_0000) << 24) |
    ((v & 0x0000_0000_0000_FF00) << 40) |
    ((v & 0x0000_0000_0000_00FF) << 56)
  }

  /** Swapping twice gives the value back: from_E can reuse to_E. */
  lemma SwapInvolution16(v: bv16)
    ensures Swap16(Swap16(v)) == v
  {
  }

  lemma SwapInvolution32(v: bv32)
    ensures Swap32(Swap32(v)) == v
  {
  }

  lemma SwapInvolution64(v: bv64)
    ensures Swap64(Swap64(v)) == v
  {
  }

  /** The little-endian image of a swapped word is the big-endian image of the word, and the other way round. */
  lemma SwapImage16(v: bv16)
    ensures LeBytes16(Swap16(v)) == BeBytes16(v)
    ensures BeBytes16(Swap16(v)) == LeBytes16(v)
  {
  }

  lemma SwapImage32(v: bv32)
    ensures LeBytes32(Swap32(v)) == BeBytes32(v)
    ensures BeBytes32(Swap32(v)) == LeBytes32(v)
  {
  }

  lemma SwapImage64(v: bv64)
    ensures LeBytes64(Swap64(v)) == BeBytes64(v)
    ensures BeBytes64(Swap64(v)) == LeBytes64(v)
  {
  }

  // ---------------------------------------------------------------------
  // to_E and from_E
  // ---------------------------------------------------------------------

  /**
   * The condition under which to_E swaps: the value is kept big-endian on a
   * little-endian host, or little-endian on a big-endian one. With only two
   * byte orders, that is exactly when the two orders differ.
   */
  function NeedsSwap(order: Endian, host: Endian): (r: bool)
    ensures r <==> order != host
  {
    (order == Big && host == Little) || (order == Little && host == Big)
  }

  /**
   * The word to store for host value `v`: laid out in memory by the host,
   * its bytes are those of `v` in byte order `order`.
   */
  function ToE16(order: Endian, host: Endian, v: bv16): (r: bv16)
    ensures order == host ==> r == v
    ensures Bytes16(r, host) == Bytes16(v, order)
  {
    SwapImage16(v);
    if NeedsSwap(order, host) then Swap16(v) else v
  }

  function ToE32(order: Endian, host: Endian, v: bv32): (r: bv32)
    ensures order == host ==> r == v
    ensures Bytes32(r, host) == Bytes32(v, order)
  {
    SwapImage32(v);
    if NeedsSwap(order, host) then Swap32(v) else v
  }

  function ToE64(order: Endian, host: Endian, v: bv64): (r: bv64)
    ensures order == host ==> r == v
    ensures Bytes64(r, host) == Bytes64(v, order)
  {
    SwapImage64(v);
    if NeedsSwap(order, host) then Swap64(v) else v
  }

  /** The big-endian image is the little-endian image backwards. */
  lemma BeIsReversedLe16(w: bv16)
    ensures forall i :: 0 <= i < 2 ==> BeBytes16(w)[i] == LeBytes16(w)[1 - i]
  {
    var l := LeBytes16(w);
    var x := [l[1], l[0]];
    assert BeBytes16(w) == x;
    forall i | 0 <= i < 2 ensures x[i] == l[1 - i] {
      if i == 0 {} else {}
    }
  }

  lemma BeIsReversedLe32(w: bv32)
    ensures forall i :: 0 <= i < 4 ==> BeBytes32(w)[i] == LeBytes32(w)[3 - i]
  {
    var l := LeBytes32(w);
    var x := [l[3], l[2], l[1], l[0]];
    assert BeBytes32(w) == x;
    forall i | 0 <= i < 4 ensures x[i] == l[3 - i] {
      if i == 0 {} else if i == 1 {} else if i == 2 {} else {}
    }
  }

  lemma BeIsReversedLe64(w: bv64)
    ensures forall i :: 0 <= i < 8 ==> BeBytes64(w)[i] == LeBytes64(w)[7 - i]
  {
    var l := LeBytes64(w);
    var x := [l[7], l[6], l[5], l[4], l[3], l[2], l[1], l[0]];
    assert BeBytes64(w) == x;
    forall i | 0 <= i < 8 ensures x[i] == l[7 - i] {
      if i == 0 {} else if i == 1 {} else if i == 2 {} else if i == 3 {}
      else if i == 4 {} else if i == 5 {} else if i == 6 {} else {}
    }
  }

  /** When the orders differ, byte `i` of the stored word is byte `N - 1 - i` of the host value. */
  lemma ToEReversesBytes16(order: Endian, host: Endian, v: bv16)
    requires order != host
    ensures forall i :: 0 <= i < 2 ==> Byte16(ToE16(order, host, v), i) == Byte16(v, 1 - i)
  {
    var r := ToE16(order, host, v);
    BeIsReversedLe16(r);
    BeIsReversedLe16(v);
    if host == Little {
      assert LeBytes16(r) == BeBytes16(v);
    } else {
      assert BeBytes16(r) == LeBytes16(v);
    }
  }

  lemma ToEReversesBytes32(order: Endian, host: Endian, v: bv32)
    requires order != host
    ensures forall i :: 0 <= i < 4 ==> Byte32(ToE32(order, host, v), i) == Byte32(v, 3 - i)
  {
    var r := ToE32(order, host, v);
    BeIsReversedLe32(r);
    BeIsReversedLe32(v);
    if host == Little {
      assert LeBytes32(r) == BeBytes32(v);
    } else {
      assert BeBytes32(r) == LeBytes32(v);
    }
  }

  lemma ToEReversesBytes64(order: Endian, host: Endian, v: bv64)
    requires order != host
    ensures forall i :: 0 <= i < 8 ==> Byte64(ToE64(order, host, v), i) == Byte64(v, 7 - i)
  {
    var r := ToE64(order, host, v);
    BeIsReversedLe64(r);
    BeIsReversedLe64(v);
    if host == Little {
      assert LeBytes64(r) == BeBytes64(v);
    } else {
      assert BeBytes64(r) == LeBytes64(v);
    }
  }

  /** The host value of a stored word: to_E again, which undoes itself. */
  function FromE16(order: Endian, host: Endian, w: bv16): (r: bv16)
    ensures ToE16(order, host, r) == w
    ensures Bytes16(r, order) == Bytes16(w, host)
  {
    SwapInvolution16(w);
    ToE16(order, host, w)
  }

  function FromE32(order: Endian, host: Endian, w: bv32): (r: bv32)
    ensures ToE32(order, host, r) == w
    ensures Bytes32(r, order) == Bytes32(w, host)
  {
    SwapInvolution32(w);
    ToE32(order, host, w)
  }

  function FromE64(order: Endian, host: Endian, w: bv64): (r: bv64)
    ensures ToE64(order, host, r) == w
    ensures Bytes64(r, order) == Bytes64(w, host)
  {
    SwapInvolution64(w);
    ToE64(order, host, w)
  }

  /** Storing then reading gives the host value back, for every pair of orders. */
  lemma RoundTrip16(order: Endian, host: Endian, v: bv16)
    ensures FromE16(order, host, ToE16(order, host, v)) == v
  {
    if NeedsSwap(order, host) {
      SwapInvolution16(v);
      assert ToE16(order, host, v) == Swap16(v);
    }
  }

  lemma RoundTrip32(order: Endian, host: Endian, v: bv32)
    ensures FromE32(order, host, ToE32(order, host, v)) == v
  {
    if NeedsSwap(order, host) {
      SwapInvolution32(v);
      assert ToE32(order, host, v) == Swap32(v);
    }
  }

  lemma RoundTrip64(order: Endian, host: Endian, v: bv64)
    ensures FromE64(order, host, ToE64(order, host, v)) == v
  {
    if NeedsSwap(order, host) {
      SwapInvolution64(v);
      assert ToE64(order, host, v) == Swap64(v);
    }
  }

  // ---------------------------------------------------------------------
  // The wrapper objects, one per width
  // ---------------------------------------------------------------------

  /** A 16-bit value kept in byte order `order` on a `host` machine. */
  class EndianInt16 {
    const order: Endian
    const host: Endian
    var value: bv16

    /** The default constructor: stores zero, which reads back as zero. */
    constructor Zero(order: Endian, host: Endian)
      ensures this.order == order && this.host == host
      ensures value == 0 && Read() == 0
    {
      this.order := order;
      this.host := host;
      value := 0;
    }

    /** Construction from a host value. */
    constructor (order: Endian, host: Endian, v: bv16)
      ensures this.order == order && this.host == host
      ensures value == ToE16(order, host, v)
      ensures Bytes16(value, host) == Bytes16(v, order)
      ensures Read() == v
    {
      this.order := order;
      this.host := host;
      value := ToE16(order, host, v);
      RoundTrip16(order, host, v);
    }

    /** Assignment of a host value, whatever was stored before. */
    method Assign(v: bv16)
      modifies this
      ensures value == ToE16(order, host, v)
      ensures Bytes16(value, host) == Bytes16(v, order)
      ensures Read() == v
    {
      value := ToE16(order, host, v);
      RoundTrip16(order, host, v);
    }

    /** Conversion to the host value: the value whose `order` image is the stored image. */
    function Read(): (r: bv16)
      reads this
      ensures Bytes16(r, order) == Bytes16(value, host)
    {
      FromE16(order, host, value)
    }
  }

  /** A 32-bit value kept in byte order `order` on a `host` machine. */
  class EndianInt32 {
    const order: Endian
    const host: Endian
    var value: bv32

    /** The default constructor: stores zero, which reads back as zero. */
    constructor Zero(order: Endian, host: Endian)
      ensures this.order == order && this.host == host
      ensures value == 0 && Read() == 0
    {
      this.order := order;
      this.host := host;
      value := 0;
    }

    /** Construction from a host value. */
    constructor (order: Endian, host: Endian, v: bv32)
      ensures this.order == order && this.host == host
      ensures value == ToE32(order, host, v)
      ensures Bytes32(value, host) == Bytes32(v, order)
      ensures Read() == v
    {
      this.order := order;
      this.host := host;
      value := ToE32(order, host, v);
      RoundTrip32(order, host, v);
    }

    /** Assignment of a host value, whatever was stored before. */
    method Assign(v: bv32)
      modifies this
      ensures value == ToE32(order, host, v)
      ensures Bytes32(value, host) == Bytes32(v, order)
      ensures Read() == v
    {
      value := ToE32(order, host, v);
      RoundTrip32(order, host, v);
    }

    /** Conversion to the host value: the value whose `order` image is the stored image. */
    function Read(): (r: bv32)
      reads this
      ensures Bytes32(r, order) == Bytes32(value, host)
    {
      FromE32(order, host, value)
    }
  }

  /** A 64-bit value kept in byte order `order` on a `host` machine. */
  class EndianInt64 {
    const order: Endian
    const host: Endian
    var value: bv64

    /** The default constructor: stores zero, which reads back as zero. */
    constructor Zero(order: Endian, host: Endian)
      ensures this.order == order && this.host == host
      ensures value == 0 && Read() == 0
    {
      this.order := order;
      this.host := host;
      value := 0;
    }

    /** Construction from a host value. */
    constructor (order: Endian, host: Endian, v: bv64)
      ensures this.order == order && this.host == host
      ensures value == ToE64(order, host, v)
      ensures Bytes64(value, host) == Bytes64(v, order)
      ensures Read() == v
    {
      this.order := order;
      this.host := host;
      value := ToE64(order, host, v);
      RoundTrip64(order, host, v);
    }

    /** Assignment of a host value, whatever was stored before. */
    method Assign(v: bv64)
      modifies this
      ensures value == ToE64(order, host, v)
      ensures Bytes64(value, host) == Bytes64(v, order)
      ensures Read() == v
    {
      value := ToE64(order, host, v);
      RoundTrip64(order, host, v);
    }

    /** Conversion to the host value: the value whose `order` image is the stored image. */
    function Read(): (r: bv64)
      reads this
      ensures Bytes64(r, order) == Bytes64(value, host)
    {
      FromE64(order, host, value)
    }
  }
}
