/**
 * The split virtqueue of VIRTIO 1.0 (section 2.4 of the OASIS Virtual I/O
 * Device specification): descriptor flags, the descriptor table, the
 * available and used rings as laid out in memory through little-endian
 * fields, the locations of the two event indices, and the event-index test
 * that decides whether the other side must be notified.
 *
 * A structure is modelled by the host values of its fields; its memory
 * image on a host is the concatenation of the images of its little-endian
 * fields, and reading it back goes through the same fields.
 */
module Virtio {
  import opened EndianInt

  datatype Option<T> = None | Some(value: T)

  // ---------------------------------------------------------------------
  // Flags and feature bits
  // ---------------------------------------------------------------------

  /** The buffer continues in the descriptor named by `next`. */
  const VIRTQ_DESC_F_NEXT: bv16 := 1
  /** The buffer is write-only for the device (otherwise read-only). */
  const VIRTQ_DESC_F_WRITE: bv16 := 2
  /** The buffer holds a table of descriptors. */
  const VIRTQ_DESC_F_INDIRECT: bv16 := 4

  /** Advice from the device in the used ring's flags: no need to notify it of new buffers. */
  const VIRTQ_USED_F_NO_NOTIFY: bv16 := 1
  /** Advice from the driver in the available ring's flags: no need to interrupt it. */
  const VIRTQ_AVAIL_F_NO_INTERRUPT: bv16 := 1

  /** Feature bit numbers. */
  const VIRTIO_F_ANY_LAYOUT: bv16 := 27
  const VIRTIO_F_INDIRECT_DESC: bv16 := 28
  const VIRTIO_F_EVENT_IDX: bv16 := 29

  predicate IsDescFlag(f: bv16)
  {
    f == VIRTQ_DESC_F_NEXT || f == VIRTQ_DESC_F_WRITE || f == VIRTQ_DESC_F_INDIRECT
  }

  /** The test a reader of a flags field makes. */
  predicate HasFlag(flags: bv16, f: bv16)
  {
    flags & f != 0
  }

  /** Each descriptor flag is a single bit, and no two share a bit. */
  lemma DescFlagsAreDistinctBits()
    ensures forall f :: IsDescFlag(f) ==> f != 0 && f & (f - 1) == 0
    ensures VIRTQ_DESC_F_NEXT & VIRTQ_DESC_F_WRITE == 0
    ensures VIRTQ_DESC_F_NEXT & VIRTQ_DESC_F_INDIRECT == 0
    ensures VIRTQ_DESC_F_WRITE & VIRTQ_DESC_F_INDIRECT == 0
  {
  }

  /** Setting one descriptor flag makes its test succeed and leaves the tests for the others unchanged. */
  lemma SetFlagKeepsOthers(flags: bv16, f: bv16, g: bv16)
    requires IsDescFlag(f) && IsDescFlag(g) && f != g
    ensures HasFlag(flags | f, f)
    ensures HasFlag(flags | f, g) == HasFlag(flags, g)
  {
  }

  /** Clearing one descriptor flag makes its test fail and leaves the tests for the others unchanged. */
  lemma ClearFlagKeepsOthers(flags: bv16, f: bv16, g: bv16)
    requires IsDescFlag(f) && IsDescFlag(g) && f != g
    ensures !HasFlag(flags & !f, f)
    ensures HasFlag(flags & !f, g) == HasFlag(flags, g)
  {
    if f == VIRTQ_DESC_F_NEXT {
    } else if f == VIRTQ_DESC_F_WRITE {
    } else {
    }
  }

  // ---------------------------------------------------------------------
  // Slices of concatenated memory
  // ---------------------------------------------------------------------

  /** A slice that lies inside the first part of a concatenation. */
  lemma SliceOfFront<T>(a: seq<T>, b: seq<T>, lo: nat, hi: nat)
    requires lo <= hi <= |a|
    ensures (a + b)[lo..hi] == a[lo..hi]
  {
    assert forall k :: 0 <= k < hi - lo ==> (a + b)[lo..hi][k] == a[lo..hi][k];
  }

  /** A slice that lies inside the second part of a concatenation. */
  lemma SliceOfBack<T>(a: seq<T>, b: seq<T>, lo: nat, hi: nat)
    requires |a| <= lo <= hi <= |a| + |b|
    ensures (a + b)[lo..hi] == b[lo - |a|..hi - |a|]
  {
    assert forall k :: 0 <= k < hi - lo ==> (a + b)[lo..hi][k] == b[lo - |a|..hi - |a|][k];
  }

  /** Equal concatenations of parts of equal lengths have equal parts. */
  lemma SplitEqual<T>(a1: seq<T>, b1: seq<T>, a2: seq<T>, b2: seq<T>)
    requires |a1| == |a2| && a1 + b1 == a2 + b2
    ensures a1 == a2 && b1 == b2
  {
    assert a1 == (a1 + b1)[..|a1|];
    assert b1 == (a1 + b1)[|a1|..];
  }

  /** A sequence is the concatenation of its slices at cut points i <= j <= k. */
  lemma Cut4<T>(b: seq<T>, i: nat, j: nat, k: nat)
    requires i <= j <= k <= |b|
    ensures b == b[0..i] + b[i..j] + b[j..k] + b[k..|b|]
  {
    assert forall n :: 0 <= n < |b| ==> (b[0..i] + b[i..j] + b[j..k] + b[k..|b|])[n] == b[n];
  }

  /** A sequence is the concatenation of its slices before and after i. */
  lemma Cut2<T>(b: seq<T>, i: nat)
    requires i <= |b|
    ensures b == b[0..i] + b[i..|b|]
  {
    assert forall n :: 0 <= n < |b| ==> (b[0..i] + b[i..|b|])[n] == b[n];
  }

  // ---------------------------------------------------------------------
  // Little-endian fields (le16, le32, le64)
  // ---------------------------------------------------------------------

  /** The memory a little-endian field holds on `host` after it is given host value `v`. */
  function Le16Image(v: bv16, host: Endian): (b: seq<bv8>)
    ensures b == LeBytes16(v)
  {
    Bytes16(ToE16(Little, host, v), host)
  }

  function Le32Image(v: bv32, host: Endian): (b: seq<bv8>)
    ensures b == LeBytes32(v)
  {
    Bytes32(ToE32(Little, host, v), host)
  }

  function Le64Image(v: bv64, host: Endian): (b: seq<bv8>)
    ensures b == LeBytes64(v)
  {
    Bytes64(ToE64(Little, host, v), host)
  }

  /** The host value a little-endian field whose memory is `b` reads as on `host`. */
  function Le16Value(b: seq<bv8>, host: Endian): (v: bv16)
    requires |b| == 2
    ensures LeBytes16(v) == b
  {
    FromE16(Little, host, Word16(b, host))
  }

  function Le32Value(b: seq<bv8>, host: Endian): (v: bv32)
    requires |b| == 4
    ensures LeBytes32(v) == b
  {
    FromE32(Little, host, Word32(b, host))
  }

  function Le64Value(b: seq<bv8>, host: Endian): (v: bv64)
    requires |b| == 8
    ensures LeBytes64(v) == b
  {
    FromE64(Little, host, Word64(b, host))
  }

  /** A field written on one host reads back as the same value on any host. */
  lemma Le16RoundTrip(v: bv16, writer: Endian, reader: Endian)
    ensures Le16Value(Le16Image(v, writer), reader) == v
  {
    BytesInjective16(Le16Value(Le16Image(v, writer), reader), v, Little);
  }

  lemma Le32RoundTrip(v: bv32, writer: Endian, reader: Endian)
    ensures Le32Value(Le32Image(v, writer), reader) == v
  {
    BytesInjective32(Le32Value(Le32Image(v, writer), reader), v, Little);
  }

  lemma Le64RoundTrip(v: bv64, writer: Endian, reader: Endian)
    ensures Le64Value(Le64Image(v, writer), reader) == v
  {
    BytesInjective64(Le64Value(Le64Image(v, writer), reader), v, Little);
  }

  /** The le16 field at byte offset `off` of the memory `mem`, read on `host`. */
  function ReadLe16(mem: seq<bv8>, off: nat, host: Endian): bv16
    requires off + 2 <= |mem|
  {
    Le16Value(mem[off..off + 2], host)
  }

  // ---------------------------------------------------------------------
  // Descriptors (struct virtq_desc)
  // ---------------------------------------------------------------------

  /** A descriptor: guest-physical address, length, flags and the index of the next descriptor of a chain. */
  datatype Desc = Desc(addr: bv64, len: bv32, flags: bv16, next: bv16)

  const DESC_SIZE := 16

  /** The 16 bytes of a descriptor: addr at 0, len at 8, flags at 12, next at 14, each little-endian. */
  function DescImage(d: Desc, host: Endian): (b: seq<bv8>)
    ensures |b| == DESC_SIZE
    ensures b == LeBytes64(d.addr) + LeBytes32(d.len) + LeBytes16(d.flags) + LeBytes16(d.next)
  {
    Le64Image(d.addr, host) + Le32Image(d.len, host) + Le16Image(d.flags, host) + Le16Image(d.next, host)
  }

  /** The descriptor that the 16 bytes `b` hold, read on `host`. */
  function LoadDesc(b: seq<bv8>, host: Endian): (d: Desc)
    requires |b| == DESC_SIZE
    ensures DescImage(d, host) == b
  {
    Cut4(b, 8, 12, 14);
    Desc(Le64Value(b[0..8], host), Le32Value(b[8..12], host),
         Le16Value(b[12..14], host), Le16Value(b[14..16], host))
  }

  /** A descriptor written on one host reads back unchanged on any host. */
  lemma DescRoundTrip(d: Desc, writer: Endian, reader: Endian)
    ensures LoadDesc(DescImage(d, writer), reader) == d
  {
    var e := LoadDesc(DescImage(d, writer), reader);
    var a1, l1, f1, n1 := LeBytes64(e.addr), LeBytes32(e.len), LeBytes16(e.flags), LeBytes16(e.next);
    var a2, l2, f2, n2 := LeBytes64(d.addr), LeBytes32(d.len), LeBytes16(d.flags), LeBytes16(d.next);
    assert a1 + l1 + f1 + n1 == a2 + l2 + f2 + n2;
    SplitEqual(a1 + l1 + f1, n1, a2 + l2 + f2, n2);
    SplitEqual(a1 + l1, f1, a2 + l2, f2);
    SplitEqual(a1, l1, a2, l2);
    BytesInjective64(e.addr, d.addr, Little);
    BytesInjective32(e.len, d.len, Little);
    BytesInjective16(e.flags, d.flags, Little);
    BytesInjective16(e.next, d.next, Little);
  }

  /** Each field of a descriptor reads back from its own bytes: addr 0-7, len 8-11, flags 12-13, next 14-15. */
  lemma DescLayout(d: Desc, writer: Endian, reader: Endian)
    ensures Le64Value(DescImage(d, writer)[0..8], reader) == d.addr
    ensures Le32Value(DescImage(d, writer)[8..12], reader) == d.len
    ensures ReadLe16(DescImage(d, writer), 12, reader) == d.flags
    ensures ReadLe16(DescImage(d, writer), 14, reader) == d.next
  {
    DescRoundTrip(d, writer, reader);
  }

  // ---------------------------------------------------------------------
  // Arrays of fixed-size elements
  // ---------------------------------------------------------------------

  /** The memory of a C array: the images of its elements, one after the other. */
  function ArrayImage<T>(s: seq<T>, image: (T, Endian) -> seq<bv8>, host: Endian): seq<bv8>
  {
    if s == [] then [] else image(s[0], host) + ArrayImage(s[1..], image, host)
  }

  /** With elements of `size` bytes, the array takes `size * |s|` bytes. */
  lemma {:induction false} ArrayLength<T>(s: seq<T>, image: (T, Endian) -> seq<bv8>, host: Endian, size: nat)
    requires forall x :: |image(x, host)| == size
    ensures |ArrayImage(s, image, host)| == size * |s|
  {
    if s != [] {
      ArrayLength(s[1..], image, host, size);
      assert size * |s| == size + size * |s[1..]|;
    }
  }

  /** The image of an array is the image of its first `i` elements followed by the image of the rest. */
  lemma {:induction false} ArraySplit<T>(s: seq<T>, image: (T, Endian) -> seq<bv8>, host: Endian, i: nat)
    requires i <= |s|
    ensures ArrayImage(s, image, host) == ArrayImage(s[..i], image, host) + ArrayImage(s[i..], image, host)
  {
    if i == 0 {
      assert s[..0] == [] && s[0..] == s;
    } else {
      ArraySplit(s[1..], image, host, i - 1);
      assert s[..i][1..] == s[1..][..i - 1];
      assert s[1..][i - 1..] == s[i..];
      var x, p, q := image(s[0], host), ArrayImage(s[1..][..i - 1], image, host), ArrayImage(s[i..], image, host);
      assert x + (p + q) == (x + p) + q;
    }
  }

  /** Element `i` of an array of `size`-byte elements occupies bytes `size * i` to `size * i + size`. */
  lemma ArrayElementAt<T>(s: seq<T>, image: (T, Endian) -> seq<bv8>, host: Endian, size: nat, i: nat)
    requires forall x :: |image(x, host)| == size
    requires i < |s|
    ensures |ArrayImage(s, image, host)| == size * |s|
    ensures size * i + size <= size * |s|
    ensures ArrayImage(s, image, host)[size * i..size * i + size] == image(s[i], host)
  {
    ArrayLength(s, image, host, size);
    ArrayLength(s[..i], image, host, size);
    ArraySplit(s, image, host, i);
    var p, d := ArrayImage(s[..i], image, host), ArrayImage(s[i..], image, host);
    assert s[i..][1..] == s[i + 1..];
    var q := ArrayImage(s[i + 1..], image, host);
    assert d == image(s[i], host) + q;
    assert |p| == size * i && |p| + size <= |p| + |d|;
    SliceOfBack(p, d, |p|, |p| + size);
    SliceOfFront(image(s[i], host), q, 0, size);
  }

  // ---------------------------------------------------------------------
  // The available ring (struct virtq_avail)
  // ---------------------------------------------------------------------

  /** Size of the flags and idx fields that start both rings. */
  const RING_HEADER_SIZE := 4

  /**
   * The driver's ring: flags, the index of the next free entry, `num` entries
   * naming descriptor-chain heads and, only with VIRTIO_F_EVENT_IDX, the
   * used_event index.
   */
  datatype Avail = Avail(flags: bv16, idx: bv16, ring: seq<bv16>, usedEvent: Option<bv16>)

  function EventImage(e: Option<bv16>, host: Endian): seq<bv8>
  {
    match e
    case Some(v) => Le16Image(v, host)
    case None => []
  }

  /** The available ring in memory: flags, idx, `ring[0..num]`, then used_event if present. */
  function AvailImage(a: Avail, host: Endian): (m: seq<bv8>)
    ensures |m| == AvailEntryOffset(|a.ring|) + |EventImage(a.usedEvent, host)|
  {
    ArrayLength(a.ring, Le16Image, host, 2);
    Le16Image(a.flags, host) + Le16Image(a.idx, host)
    + ArrayImage(a.ring, Le16Image, host) + EventImage(a.usedEvent, host)
  }

  /** The flags and idx fields that start a ring read back from its image, whatever follows them. */
  lemma RingHeader(flags: bv16, idx: bv16, body: seq<bv8>, tail: seq<bv8>, writer: Endian, reader: Endian)
    ensures 4 <= |Le16Image(flags, writer) + Le16Image(idx, writer) + body + tail|
    ensures ReadLe16(Le16Image(flags, writer) + Le16Image(idx, writer) + body + tail, 0, reader) == flags
    ensures ReadLe16(Le16Image(flags, writer) + Le16Image(idx, writer) + body + tail, 2, reader) == idx
  {
    var f, x := Le16Image(flags, writer), Le16Image(idx, writer);
    SliceOfFront(f + x + body, tail, 0, 2);
    SliceOfFront(f + x, body, 0, 2);
    SliceOfFront(f, x, 0, 2);
    SliceOfFront(f + x + body, tail, 2, 4);
    SliceOfFront(f + x, body, 2, 4);
    SliceOfBack(f, x, 2, 4);
    Le16RoundTrip(flags, writer, reader);
    Le16RoundTrip(idx, writer, reader);
  }

  /** A slice of the body of a ring, seen through the ring's whole image. */
  lemma RingBody(h: seq<bv8>, body: seq<bv8>, tail: seq<bv8>, lo: nat, hi: nat)
    requires |h| == RING_HEADER_SIZE && lo <= hi <= |body|
    ensures (h + body + tail)[RING_HEADER_SIZE + lo..RING_HEADER_SIZE + hi] == body[lo..hi]
  {
    SliceOfFront(h + body, tail, RING_HEADER_SIZE + lo, RING_HEADER_SIZE + hi);
    SliceOfBack(h, body, RING_HEADER_SIZE + lo, RING_HEADER_SIZE + hi);
  }

  /** Byte offset of `ring[i]` in the available ring. */
  function AvailEntryOffset(i: nat): nat
  {
    RING_HEADER_SIZE + 2 * i
  }

  /** The flags and idx fields of the available ring read back from offsets 0 and 2, on any host. */
  lemma AvailHeader(a: Avail, writer: Endian, reader: Endian)
    ensures ReadLe16(AvailImage(a, writer), 0, reader) == a.flags
    ensures ReadLe16(AvailImage(a, writer), 2, reader) == a.idx
  {
    RingHeader(a.flags, a.idx, ArrayImage(a.ring, Le16Image, writer), EventImage(a.usedEvent, writer), writer, reader);
  }

  /** The bytes of `ring[i]` within the available ring's image. */
  lemma AvailEntryBytes(a: Avail, host: Endian, i: nat)
    requires i < |a.ring|
    ensures AvailEntryOffset(i) + 2 <= |AvailImage(a, host)|
    ensures AvailImage(a, host)[AvailEntryOffset(i)..AvailEntryOffset(i) + 2] == Le16Image(a.ring[i], host)
  {
    var h := Le16Image(a.flags, host) + Le16Image(a.idx, host);
    var arr := ArrayImage(a.ring, Le16Image, host);
    ArrayElementAt(a.ring, Le16Image, host, 2, i);
    RingBody(h, arr, EventImage(a.usedEvent, host), 2 * i, 2 * i + 2);
    assert AvailImage(a, host) == h + arr + EventImage(a.usedEvent, host);
  }

  /** Every entry of the available ring reads back from its offset, on any host. */
  lemma AvailLayout(a: Avail, writer: Endian, reader: Endian, i: nat)
    requires i < |a.ring|
    ensures AvailEntryOffset(i) + 2 <= |AvailImage(a, writer)|
    ensures ReadLe16(AvailImage(a, writer), AvailEntryOffset(i), reader) == a.ring[i]
  {
    AvailEntryBytes(a, writer, i);
    Le16RoundTrip(a.ring[i], writer, reader);
  }

  // ---------------------------------------------------------------------
  // The used ring (struct virtq_used, struct virtq_used_elem)
  // ---------------------------------------------------------------------

  /** A completed chain: the index of its head descriptor and the number of bytes the device wrote. */
  datatype UsedElem = UsedElem(id: bv32, len: bv32)

  const USED_ELEM_SIZE := 8

  function UsedElemImage(e: UsedElem, host: Endian): (b: seq<bv8>)
    ensures |b| == USED_ELEM_SIZE
    ensures b == LeBytes32(e.id) + LeBytes32(e.len)
  {
    Le32Image(e.id, host) + Le32Image(e.len, host)
  }

  function LoadUsedElem(b: seq<bv8>, host: Endian): (e: UsedElem)
    requires |b| == USED_ELEM_SIZE
    ensures UsedElemImage(e, host) == b
  {
    Cut2(b, 4);
    UsedElem(Le32Value(b[0..4], host), Le32Value(b[4..8], host))
  }

  lemma UsedElemRoundTrip(e: UsedElem, writer: Endian, reader: Endian)
    ensures LoadUsedElem(UsedElemImage(e, writer), reader) == e
  {
    var f := LoadUsedElem(UsedElemImage(e, writer), reader);
    SplitEqual(LeBytes32(f.id), LeBytes32(f.len), LeBytes32(e.id), LeBytes32(e.len));
    BytesInjective32(f.id, e.id, Little);
    BytesInjective32(f.len, e.len, Little);
  }

  /**
   * The device's ring: flags, the index of the next entry it will fill,
   * `num` used elements and, only with VIRTIO_F_EVENT_IDX, the avail_event
   * index.
   */
  datatype Used = Used(flags: bv16, idx: bv16, ring: seq<UsedElem>, availEvent: Option<bv16>)

  /** The used ring in memory: flags, idx, `ring[0..num]`, then avail_event if present. */
  function UsedImage(u: Used, host: Endian): (m: seq<bv8>)
    ensures |m| == UsedEntryOffset(|u.ring|) + |EventImage(u.availEvent, host)|
  {
    ArrayLength(u.ring, UsedElemImage, host, USED_ELEM_SIZE);
    Le16Image(u.flags, host) + Le16Image(u.idx, host)
    + ArrayImage(u.ring, UsedElemImage, host) + EventImage(u.availEvent, host)
  }

  /** Byte offset of `ring[i]` in the used ring. */
  function UsedEntryOffset(i: nat): nat
  {
    RING_HEADER_SIZE + USED_ELEM_SIZE * i
  }

  /** The flags and idx fields of the used ring read back from offsets 0 and 2, on any host. */
  lemma UsedHeader(u: Used, writer: Endian, reader: Endian)
    ensures ReadLe16(UsedImage(u, writer), 0, reader) == u.flags
    ensures ReadLe16(UsedImage(u, writer), 2, reader) == u.idx
  {
    RingHeader(u.flags, u.idx, ArrayImage(u.ring, UsedElemImage, writer), EventImage(u.availEvent, writer), writer, reader);
  }

  /** The bytes of `ring[i]` within the used ring's image. */
  lemma UsedEntryBytes(u: Used, host: Endian, i: nat)
    requires i < |u.ring|
    ensures UsedEntryOffset(i) + USED_ELEM_SIZE <= |UsedImage(u, host)|
    ensures UsedImage(u, host)[UsedEntryOffset(i)..UsedEntryOffset(i) + USED_ELEM_SIZE] == UsedElemImage(u.ring[i], host)
  {
    var h := Le16Image(u.flags, host) + Le16Image(u.idx, host);
    var arr := ArrayImage(u.ring, UsedElemImage, host);
    ArrayElementAt(u.ring, UsedElemImage, host, USED_ELEM_SIZE, i);
    var lo := USED_ELEM_SIZE * i;
    RingBody(h, arr, EventImage(u.availEvent, host), lo, lo + USED_ELEM_SIZE);
    assert UsedEntryOffset(i) == RING_HEADER_SIZE + lo;
  }

  /** Every element of the used ring reads back from its offset, on any host. */
  lemma UsedLayout(u: Used, writer: Endian, reader: Endian, i: nat)
    requires i < |u.ring|
    ensures UsedEntryOffset(i) + USED_ELEM_SIZE <= |UsedImage(u, writer)|
    ensures LoadUsedElem(UsedImage(u, writer)[UsedEntryOffset(i)..UsedEntryOffset(i) + USED_ELEM_SIZE], reader) == u.ring[i]
  {
    UsedEntryBytes(u, writer, i);
    UsedElemRoundTrip(u.ring[i], writer, reader);
  }

  // ---------------------------------------------------------------------
  // The virtqueue and its event indices (struct virtq)
  // ---------------------------------------------------------------------

  /** A virtqueue of `num` entries: descriptor table, available ring and used ring. */
  datatype Virtq = Virtq(num: nat, desc: seq<Desc>, avail: Avail, used: Used)

  /** Every table and ring has `num` entries. */
  predicate Sized(vq: Virtq)
  {
    |vq.desc| == vq.num && |vq.avail.ring| == vq.num && |vq.used.ring| == vq.num
  }

  /** The descriptor table that `desc` addresses: the descriptors one after the other. */
  function DescTableImage(vq: Virtq, host: Endian): (m: seq<bv8>)
    ensures |m| == DESC_SIZE * |vq.desc|
  {
    ArrayLength(vq.desc, DescImage, host, DESC_SIZE);
    ArrayImage(vq.desc, DescImage, host)
  }

  /** Descriptor `i` occupies bytes `16 * i` to `16 * i + 16` of the table and reads back on any host. */
  lemma DescTableLayout(vq: Virtq, writer: Endian, reader: Endian, i: nat)
    requires Sized(vq) && i < vq.num
    ensures |DescTableImage(vq, writer)| == DESC_SIZE * vq.num
    ensures LoadDesc(DescTableImage(vq, writer)[DESC_SIZE * i..DESC_SIZE * i + DESC_SIZE], reader) == vq.desc[i]
  {
    ArrayElementAt(vq.desc, DescImage, writer, DESC_SIZE, i);
    DescRoundTrip(vq.desc[i], writer, reader);
  }

  /** Where used_event lies in the available ring: just past the last entry, as if it were `ring[num]`. */
  function UsedEventOffset(vq: Virtq): (r: nat)
    ensures r == RING_HEADER_SIZE + 2 * vq.num
  {
    AvailEntryOffset(vq.num)
  }

  /** Where avail_event lies in the used ring: just past the last element, as if it were `ring[num]`. */
  function AvailEventOffset(vq: Virtq): (r: nat)
    ensures r == RING_HEADER_SIZE + USED_ELEM_SIZE * vq.num
  {
    UsedEntryOffset(vq.num)
  }

  /** An le16 placed right after `h` reads back from offset `|h|`, on any host. */
  lemma TrailingLe16(h: seq<bv8>, e: bv16, writer: Endian, reader: Endian)
    ensures |h + Le16Image(e, writer)| == |h| + 2
    ensures ReadLe16(h + Le16Image(e, writer), |h|, reader) == e
  {
    var f := Le16Image(e, writer);
    SliceOfBack(h, f, |h|, |h| + 2);
    assert f[0..2] == f;
    Le16RoundTrip(e, writer, reader);
  }

  /** With VIRTIO_F_EVENT_IDX, the used_event slot holds the driver's used_event, on any host. */
  lemma UsedEventSlot(vq: Virtq, writer: Endian, reader: Endian)
    requires Sized(vq) && vq.avail.usedEvent.Some?
    ensures UsedEventOffset(vq) + 2 == |AvailImage(vq.avail, writer)|
    ensures ReadLe16(AvailImage(vq.avail, writer), UsedEventOffset(vq), reader) == vq.avail.usedEvent.value
  {
    var a := vq.avail;
    ArrayLength(a.ring, Le16Image, writer, 2);
    var h := Le16Image(a.flags, writer) + Le16Image(a.idx, writer) + ArrayImage(a.ring, Le16Image, writer);
    assert AvailImage(a, writer) == h + Le16Image(a.usedEvent.value, writer);
    assert |h| == UsedEventOffset(vq);
    TrailingLe16(h, a.usedEvent.value, writer, reader);
  }

  /** With VIRTIO_F_EVENT_IDX, the avail_event slot holds the device's avail_event, on any host. */
  lemma AvailEventSlot(vq: Virtq, writer: Endian, reader: Endian)
    requires Sized(vq) && vq.used.availEvent.Some?
    ensures AvailEventOffset(vq) + 2 == |UsedImage(vq.used, writer)|
    ensures ReadLe16(UsedImage(vq.used, writer), AvailEventOffset(vq), reader) == vq.used.availEvent.value
  {
    var u := vq.used;
    ArrayLength(u.ring, UsedElemImage, writer, USED_ELEM_SIZE);
    var h := Le16Image(u.flags, writer) + Le16Image(u.idx, writer) + ArrayImage(u.ring, UsedElemImage, writer);
    assert UsedImage(u, writer) == h + Le16Image(u.availEvent.value, writer);
    assert |h| == AvailEventOffset(vq);
    TrailingLe16(h, u.availEvent.value, writer, reader);
  }

  // ---------------------------------------------------------------------
  // Event-index notification suppression (virtq_need_event)
  // ---------------------------------------------------------------------

  const U16_MOD := 0x1_0000

  /** A uint16_t ring index. */
  type u16 = x: int | 0 <= x < U16_MOD

  /** The conversion of an int to uint16_t: reduction modulo 2^16. */
  function Mod16(x: int): u16
  {
    x % U16_MOD
  }

  lemma ModOffset(x: int, c: int)
    ensures Mod16(x + c * U16_MOD) == Mod16(x)
  {
  }

  /** A difference of two indices reduced modulo 2^16. */
  lemma ModSmall(x: int)
    requires -U16_MOD < x < U16_MOD
    ensures Mod16(x) == if x < 0 then x + U16_MOD else x
  {
  }

  /**
   * After moving an index from `oldIdx` to `newIdx`, whether the other side
   * asked to be told once the index passed `eventIdx`. The differences are
   * computed on int, as C promotes uint16_t operands, then cast back to
   * uint16_t.
   */
  function NeedEvent(eventIdx: u16, newIdx: u16, oldIdx: u16): (r: bool)
    ensures r <==> Mod16(eventIdx - oldIdx) < Mod16(newIdx - oldIdx)
  {
    Mod16(newIdx - eventIdx - 1) < Mod16(newIdx - oldIdx)
  }

  /** The indices oldIdx, oldIdx + 1, ..., modulo 2^16, `count` of them. */
  function Published(oldIdx: u16, count: nat): (s: seq<u16>)
    ensures |s| == count
    decreases count
  {
    if count == 0 then [] else [oldIdx] + Published(Mod16(oldIdx + 1), count - 1)
  }

  /** An index is among the first `count` from `oldIdx` exactly when its distance from `oldIdx` is below `count`. */
  lemma {:induction false} PublishedMembers(oldIdx: u16, count: nat, e: u16)
    ensures e in Published(oldIdx, count) <==> Mod16(e - oldIdx) < count
    decreases count
  {
    if count > 0 {
      var next := Mod16(oldIdx + 1);
      PublishedMembers(next, count - 1, e);
      ModSmall(e - oldIdx);
      if oldIdx + 1 < U16_MOD {
        ModSmall(oldIdx + 1);
        ModSmall(e - oldIdx - 1);
      } else {
        ModOffset(oldIdx + 1, -1);
        ModSmall(e);
      }
      assert e != oldIdx ==> Mod16(e - next) == Mod16(e - oldIdx) - 1;
    }
  }

  /**
   * A notification is needed exactly when `eventIdx` is one of the indices
   * moved past: oldIdx up to newIdx - 1, wrapping from 65535 to 0.
   */
  lemma NeedEventIffPassed(eventIdx: u16, newIdx: u16, oldIdx: u16)
    ensures NeedEvent(eventIdx, newIdx, oldIdx) <==> eventIdx in Published(oldIdx, Mod16(newIdx - oldIdx))
  {
    PublishedMembers(oldIdx, Mod16(newIdx - oldIdx), eventIdx);
  }

  /** Nothing moved, nothing to notify. */
  lemma NoMoveNoEvent(eventIdx: u16, idx: u16)
    ensures !NeedEvent(eventIdx, idx, idx)
  {
  }

  /** The distance from `y` to `x` modulo 2^16 is unchanged when both move by `k`. */
  lemma DistanceShift(x: u16, y: u16, k: u16)
    ensures Mod16(Mod16(x + k) - Mod16(y + k)) == Mod16(x - y)
  {
    var cx := if x + k < U16_MOD then 0 else 1;
    var cy := if y + k < U16_MOD then 0 else 1;
    ModOffset(x + k, -cx);
    ModOffset(y + k, -cy);
    assert Mod16(x + k) - Mod16(y + k) == x - y + (cy - cx) * U16_MOD;
    ModOffset(x - y, cy - cx);
  }

  /** Adding the same amount to all three indices, modulo 2^16, does not change the answer. */
  lemma NeedEventShift(eventIdx: u16, newIdx: u16, oldIdx: u16, k: u16)
    ensures NeedEvent(Mod16(eventIdx + k), Mod16(newIdx + k), Mod16(oldIdx + k)) == NeedEvent(eventIdx, newIdx, oldIdx)
  {
    DistanceShift(eventIdx, oldIdx, k);
    DistanceShift(newIdx, oldIdx, k);
  }

  /** Cases without and with wrap-around. */
  lemma NeedEventExamples()
    ensures NeedEvent(5, 6, 4)
    ensures !NeedEvent(6, 6, 4)
    ensures NeedEvent(0xFFFF, 1, 0xFFFE)
    ensures NeedEvent(0, 1, 0xFFFE)
    ensures !NeedEvent(1, 1, 0xFFFE)
    ensures !NeedEvent(0xFFFD, 1, 0xFFFE)
  {
  }
}
