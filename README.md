# Endian-correct integers and the VIRTIO split virtqueue, in Dafny

This project models two headers of the ixypp user-space packet driver.

- `src/endianint.hpp` defines `endianint<E, T>`. It keeps a 16-, 32- or 64-bit unsigned value in a fixed byte order `E`, whatever the byte order of the machine. It stores through `to_E`, which swaps the bytes when `E` differs from the host order. It reads back through `from_E`, which is `to_E` again, since a byte swap undoes itself.
- `src/drivers/virtio.hpp` holds the wire definitions of the VIRTIO 1.0 split virtqueue (section 2.4 of the OASIS Virtual I/O Device specification), built on the little-endian wrappers `le16`, `le32` and `le64`. They are:
  - the descriptor flags and feature bits;
  - the 16-byte descriptor;
  - the available ring;
  - the used element and the used ring;
  - the two helpers that locate the event-index slot at the end of each ring;
  - `virtq_need_event`, the event-index test that decides whether the other side must be notified.

Module `EndianInt` (`endianint.dfy`) models the wrapper:

- Values are `bv16`, `bv32` and `bv64`.
- The host byte order is an explicit `Endian` parameter (`Little` or `Big`). Mixed-endian machines are excluded, as in the source.
- The bytes a word occupies in memory on a given machine are `Bytes16/32/64(w, order)`.
- `ToE*` and `FromE*` are the two static helpers.
- Each template specialisation is a class `EndianInt16/32/64`. Its `value` field is written by two constructors and by `Assign` (`operator=`), and read by `Read` (the conversion operator).

Module `Virtio` (`virtio.dfy`) models each structure by the host values of its fields:

- A structure's memory image on a host is the concatenation of the images of its little-endian fields. Reading it back goes through the same wrappers, possibly on a host of the other byte order.
- A flexible array member becomes a sequence, with a `num`-element ring.
- The optional event index at the end of each ring is an `Option`.
- The two slot helpers become byte offsets computed from `num`.
- `virtq_need_event` is modelled on mathematical integers, reduced modulo 2^16 where the source casts to `uint16_t`. This matches C, where the `uint16_t` operands are promoted to `int` before the subtractions.

The source declares the test as `virtq_need_event(event_idx, new_idx, old_idx)`, and the model keeps that argument order.

## Model

| member | source | states |
|---|---|---|
| EndianInt.ToE16 | src/endianint.hpp:16-23 | the stored word equals the input when the orders agree; on any host its memory bytes are the input's bytes in order E |
| EndianInt.ToE32 | src/endianint.hpp:48-57 | as for 16 bits, with four bytes |
| EndianInt.ToE64 | src/endianint.hpp:82-96 | as for 16 bits, with eight bytes |
| EndianInt.NeedsSwap | src/endianint.hpp:17-18 | the `if constexpr` condition of to_E; with only two byte orders it holds exactly when E differs from the host order |
| EndianInt.Swap16 | src/endianint.hpp:19-20 | the mask-and-shift swap; byte k of the result is byte 1 - k of the input (involution in SwapInvolution16, images in SwapImage16) |
| EndianInt.Swap32 | src/endianint.hpp:51-54 | the four-byte swap; byte k of the result is byte 3 - k of the input (SwapInvolution32, SwapImage32) |
| EndianInt.Swap64 | src/endianint.hpp:86-93 | the eight-byte swap; byte k of the result is byte 7 - k of the input (SwapInvolution64, SwapImage64) |
| EndianInt.SwapImage16 | src/endianint.hpp:19-20 | the swapped word's little-endian bytes are the big-endian bytes of the original, and the reverse |
| EndianInt.SwapImage32 | src/endianint.hpp:51-54 | the same for the four-byte swap |
| EndianInt.SwapImage64 | src/endianint.hpp:86-93 | the same for the eight-byte swap |
| EndianInt.ToEReversesBytes16 | src/endianint.hpp:17-21 | when the orders differ, byte i of the stored word is byte 1 - i of the input |
| EndianInt.ToEReversesBytes32 | src/endianint.hpp:49-55 | when the orders differ, byte i of the stored word is byte 3 - i of the input |
| EndianInt.ToEReversesBytes64 | src/endianint.hpp:83-94 | when the orders differ, byte i of the stored word is byte 7 - i of the input |
| EndianInt.SwapInvolution16 | src/endianint.hpp:25-27 | swapping twice gives the word back, which is why from_E may reuse to_E |
| EndianInt.SwapInvolution32 | src/endianint.hpp:59-61 | the same for 32 bits |
| EndianInt.SwapInvolution64 | src/endianint.hpp:98-100 | the same for 64 bits |
| EndianInt.FromE16 | src/endianint.hpp:25-27 | from_E inverts to_E: storing its result gives the stored word back, and its bytes in order E are the stored word's bytes on the host |
| EndianInt.FromE32 | src/endianint.hpp:59-61 | as for 16 bits |
| EndianInt.FromE64 | src/endianint.hpp:98-100 | as for 16 bits |
| EndianInt.RoundTrip16 | src/endianint.hpp:16-27 | from_E(to_E(v)) == v for all four combinations of E and host order |
| EndianInt.RoundTrip32 | src/endianint.hpp:48-61 | the same for 32 bits |
| EndianInt.RoundTrip64 | src/endianint.hpp:82-100 | the same for 64 bits |
| EndianInt.EndianInt16.Zero | src/endianint.hpp:31 | the default constructor stores 0, which reads back as 0 |
| EndianInt.EndianInt16.constructor | src/endianint.hpp:32 | stores to_E(v); the stored bytes are v's bytes in order E; reading gives v |
| EndianInt.EndianInt16.Assign | src/endianint.hpp:34-37 | whatever was stored before, afterwards value is to_E(v), its bytes are v's bytes in order E, and reading gives v |
| EndianInt.EndianInt16.Read | src/endianint.hpp:39-41 | the result's bytes in order E are the stored word's bytes on the host |
| EndianInt.EndianInt32.Zero | src/endianint.hpp:65 | the default constructor stores 0, which reads back as 0 |
| EndianInt.EndianInt32.constructor | src/endianint.hpp:66 | stores to_E(v); the stored bytes are v's bytes in order E; reading gives v |
| EndianInt.EndianInt32.Assign | src/endianint.hpp:68-71 | whatever was stored before, afterwards value is to_E(v), its bytes are v's bytes in order E, and reading gives v |
| EndianInt.EndianInt32.Read | src/endianint.hpp:73-75 | the result's bytes in order E are the stored word's bytes on the host |
| EndianInt.EndianInt64.Zero | src/endianint.hpp:104 | the default constructor stores 0, which reads back as 0 |
| EndianInt.EndianInt64.constructor | src/endianint.hpp:105 | stores to_E(v); the stored bytes are v's bytes in order E; reading gives v |
| EndianInt.EndianInt64.Assign | src/endianint.hpp:107-110 | whatever was stored before, afterwards value is to_E(v), its bytes are v's bytes in order E, and reading gives v |
| EndianInt.EndianInt64.Read | src/endianint.hpp:112-114 | the result's bytes in order E are the stored word's bytes on the host |
| Virtio.DescFlagsAreDistinctBits | src/drivers/virtio.hpp:14-18 | NEXT, WRITE and INDIRECT are each a single bit, and no two share a bit |
| Virtio.SetFlagKeepsOthers | src/drivers/virtio.hpp:14-18 | setting one descriptor flag makes its test succeed and leaves the tests of the other two unchanged |
| Virtio.ClearFlagKeepsOthers | src/drivers/virtio.hpp:14-18 | clearing one descriptor flag makes its test fail and leaves the tests of the other two unchanged |
| Virtio.Le16Image | src/drivers/virtio.hpp:9 | an le16 holds its value's bytes least significant first, on either host |
| Virtio.Le32Image | src/drivers/virtio.hpp:8 | the same for le32 |
| Virtio.Le64Image | src/drivers/virtio.hpp:7 | the same for le64 |
| Virtio.Le16Value | src/drivers/virtio.hpp:9 | the value an le16 reads as is the one whose little-endian bytes are the field's memory |
| Virtio.Le32Value | src/drivers/virtio.hpp:8 | the same for le32 |
| Virtio.Le64Value | src/drivers/virtio.hpp:7 | the same for le64 |
| Virtio.Le16RoundTrip | src/drivers/virtio.hpp:9 | an le16 written on one host reads back as the same value on any host |
| Virtio.Le32RoundTrip | src/drivers/virtio.hpp:8 | the same for le32 |
| Virtio.Le64RoundTrip | src/drivers/virtio.hpp:7 | the same for le64 |
| Virtio.DescImage | src/drivers/virtio.hpp:38-49 | a descriptor occupies 16 bytes: addr, len, flags and next in that order, each little-endian |
| Virtio.LoadDesc | src/drivers/virtio.hpp:40-49 | the descriptor read from 16 bytes has exactly those bytes as its image |
| Virtio.DescRoundTrip | src/drivers/virtio.hpp:40-49 | a descriptor written on one host reads back unchanged on any host |
| Virtio.DescLayout | src/drivers/virtio.hpp:40-49 | addr reads back from bytes 0-7, len from 8-11, flags from 12-13 and next from 14-15 |
| Virtio.UsedElemImage | src/drivers/virtio.hpp:59-64 | a used element occupies 8 bytes: id then len, each little-endian |
| Virtio.LoadUsedElem | src/drivers/virtio.hpp:59-64 | the element read from 8 bytes has exactly those bytes as its image |
| Virtio.UsedElemRoundTrip | src/drivers/virtio.hpp:59-64 | a used element written on one host reads back unchanged on any host |
| Virtio.AvailImage | src/drivers/virtio.hpp:51-56 | struct virtq_avail in memory: flags, idx, the ring entries, then used_event when present; it takes 4 + 2 * num bytes plus the 2-byte slot when present |
| Virtio.AvailHeader | src/drivers/virtio.hpp:51-53 | for any ring, even an empty one, flags reads back from offset 0 and idx from offset 2, on any host |
| Virtio.AvailLayout | src/drivers/virtio.hpp:54 | ring[i] lies inside the image and reads back from offset 4 + 2 * i, on any host |
| Virtio.UsedImage | src/drivers/virtio.hpp:66-71 | struct virtq_used in memory: flags, idx, the used elements, then avail_event when present; it takes 4 + 8 * num bytes plus the 2-byte slot when present |
| Virtio.UsedHeader | src/drivers/virtio.hpp:66-68 | for any ring, even an empty one, flags reads back from offset 0 and idx from offset 2, on any host |
| Virtio.UsedLayout | src/drivers/virtio.hpp:69 | ring[i] lies inside the image and decodes from bytes 4 + 8 * i to 4 + 8 * i + 8, on any host |
| Virtio.DescTableImage | src/drivers/virtio.hpp:73-79 | the table that `desc` of struct virtq (the datatype `Virtq`) addresses: the descriptors one after the other, 16 bytes each |
| Virtio.DescTableLayout | src/drivers/virtio.hpp:73-79 | the descriptor table takes 16 * num bytes, and descriptor i reads back from bytes 16 * i to 16 * i + 16 |
| Virtio.UsedEventOffset | src/drivers/virtio.hpp:87-91 | virtq_used_event as a byte offset: 4 + 2 * num, where ring[num] would lie; UsedEventSlot shows it is the last two bytes of the avail image |
| Virtio.UsedEventSlot | src/drivers/virtio.hpp:87-91 | with a num-entry ring and used_event present, the slot's two bytes end the available ring's image and read back as the driver's used_event, on any host |
| Virtio.AvailEventOffset | src/drivers/virtio.hpp:93-97 | virtq_avail_event as a byte offset: 4 + 8 * num, where ring[num] would lie; AvailEventSlot shows it is the last two bytes of the used image |
| Virtio.AvailEventSlot | src/drivers/virtio.hpp:93-97 | with a num-element ring and avail_event present, the slot's two bytes end the used ring's image and read back as the device's avail_event, on any host |
| Virtio.NeedEvent | src/drivers/virtio.hpp:81-84 | true exactly when eventIdx is nearer to oldIdx than newIdx is, counting forward modulo 2^16 |
| Virtio.PublishedMembers | src/drivers/virtio.hpp:83 | an index is among the count indices from oldIdx, wrapping at 2^16, exactly when its forward distance from oldIdx is below count |
| Virtio.NeedEventIffPassed | src/drivers/virtio.hpp:81-84 | the test holds exactly when eventIdx is one of oldIdx, oldIdx + 1, ..., newIdx - 1, taken modulo 2^16 |
| Virtio.NoMoveNoEvent | src/drivers/virtio.hpp:83 | when newIdx == oldIdx the test is false |
| Virtio.NeedEventShift | src/drivers/virtio.hpp:83 | adding the same k modulo 2^16 to all three indices does not change the result |
| Virtio.NeedEventExamples | src/drivers/virtio.hpp:81-84 | (event, new, old) = (5, 6, 4) and the wrapping cases (65535, 1, 65534) and (0, 1, 65534) notify; (6, 6, 4), (1, 1, 65534) and (65533, 1, 65534) do not |

## Left out

- `src/driver.hpp` is not part of this model. It is an abstract interface with no behaviour.
- `driver_virtio_t::init` is only declared in the source, so there is nothing to model.
- Adding buffers to a ring, reclaiming used ones, free lists, feature negotiation and packet batching do not appear in these headers and are not modelled.
- The reference that `operator=` returns is not modelled: `Assign` returns nothing, so chained assignments such as `a = b = v` have no counterpart.
- The address fields `desc`, `avail` and `used` of `struct virtq` are replaced by the structures stored at those addresses, and the flexible `ring[]` members by sequences. `UsedEventOffset` and `AvailEventOffset` return byte offsets into a ring's image rather than addresses. Address arithmetic, alignment and aliasing are not modelled.
- Memory shared with the device, memory barriers and notification doorbells are concurrency and I/O, and are left out.
- The host byte order, which the source reads from `std::endian::native` at compile time, is a parameter of every operation.
- The struct images assume the C compiler inserts no padding. That holds here because every field is naturally aligned, and the source's comment gives the descriptor size as 16 bytes.
- The `VIRTQ_USED_F_NO_NOTIFY`, `VIRTQ_AVAIL_F_NO_INTERRUPT` and feature-bit constants are declared with their values only. No code in these headers uses them.
- Virtio.NeedEvent: returns a `bool` where the source returns the `int` 0 or 1 that the comparison yields.
- `unsigned int num` is taken as an unbounded natural number. The ring offsets are at most a few bytes per entry, so they do not overflow for any ring size VIRTIO allows.
