# CAN common layer: filter synthesis and listener registry

This project models, in Dafny, the driver-independent core of a CAN
transceiver library (`CAN_COMMON` and `CANListener` in
`src/can_common.cpp`, with the types of `src/can_common.h`):

- **Acceptance-filter synthesis.** `watchFor()` (promiscuous mode),
  `watchFor(id)`, `watchFor(id, mask)` and `watchForRange(idLo, idHi)` turn an
  intent into an `(id, mask, extended)` filter and hand it to the driver
  (module `Filters`, and the `watchFor` methods of `CanCommon.CanCommon`).
  The range scan is an imperative loop over every identifier of the range.
  Its result is characterised bit by bit: a bit of `id` survives exactly
  when every identifier of the range has it set (`RangeIdBit`). A bit of the
  mask survives exactly when it lies inside the framing width and never
  differs from the lower bound (`RangeMaskBit`). Every identifier of the
  range matches the programmed id under the programmed mask
  (`RangeFilterCovers`). The frame kind is a separate question (see
  Findings).
- **Listener and callback registry.** `CanListener` (module `Listener`) is a
  class whose `callbacksActive` bitfield is updated by its methods.
  `CanCommon` (module `CanCommon`) is a class with a 4-slot listener array,
  a 16-slot per-mailbox callback array and a general callback. Its array
  loops are proved against the specification functions `Attached` and
  `Detached` on the table's contents.
- **Payload and frame types.** `BytesUnion` is the union of `value`,
  `low`/`high`, `s0..s3` and `byte`/`bytes` over 8 bytes, read little-endian
  as the header assumes. `CanFrame` is the `CAN_FRAME` record (module
  `CanTypes`).

Words are modelled as natural numbers below 2^32 (2^64 for `value`). The
bitwise operators `&`, `|`, `^` and `~` (32-bit) are recursive functions in
module `Bits`, and properties of them are stated bit by bit with `Bit(a, k)`.
Function pointers and listener objects are opaque handles: `Handler` is a
code, and listeners are `CanListener` references. The driver's
filter-programming hooks `_setFilter` and `_setFilterSpecific` are a sink.
Every request is appended to `filterRequests`, and the status returned to
the caller is `driver(earlier, request)`, where `earlier` lists the
requests handed over before and `driver` is a function fixed at
construction. The driver may therefore answer the same request
differently as its own state evolves.

### Reading of the source

The source fails to compile at five places. The model follows the evident
intent at each:

- `src/can_common.cpp:22` and `:32` test `mailBox`, but the parameter is
  `mailbox`. The model tests the parameter.
- `src/can_common.cpp:169` tests `mailbox`, but the parameter is `mailBox`.
  The model tests the parameter.
- `src/can_common.cpp:249-253` use `id1`/`id2`. The model reads them as
  `idLo`/`idHi` after the swap of lines 243-247.
- `src/can_common.cpp:189` tests an undeclared `id`. The model reads
  `watchFor()` as promiscuous mode, `setRXFilter(0, 0, false)`.

`watchForRange` ends with `watchFor(id, mask)`, so its extended flag
comes from the ANDed `id`, not from `idHi`. The mask width, by contrast,
is chosen from `idHi`. `Filters.RangeFilterAcrossStandardLimit` shows the
consequence: the range 0x7FF..0x800 yields a standard filter `(0,
0x1FFFF000, false)` even though 0x800 is an extended identifier.

## Model

| member | source | states |
|---|---|---|
| CanTypes.BytesUnion.Value | src/can_common.h:45 | `value` reads the 8 bytes little-endian: its lowest byte is `byte[0]` and its highest is `byte[7]` |
| CanTypes.BytesUnion.Low | src/can_common.h:46-49 | `low` is `value` modulo 2^32 |
| CanTypes.BytesUnion.High | src/can_common.h:46-49 | `high` is `value` shifted right by 32 bits |
| CanTypes.BytesUnion.Short | src/can_common.h:50-55 | `s<k>` is `(value >> 16k) & 0xFFFF` for k in 0..3 |
| CanTypes.BytesUnion.Byte | src/can_common.h:56-57 | `byte[i]` (and its alias `bytes[i]`) is `(value >> 8i) & 0xFF` for i in 0..7 |
| CanTypes.FromValue | src/can_common.h:43-45 | storing `v` into `value` makes `value` read back as `v` |
| CanTypes.ValueRoundTrip | src/can_common.h:43-58 | writing back the `value` read from a union leaves its 8 bytes unchanged |
| CanTypes.ValueFromHalves | src/can_common.h:46-49 | `value == low + 2^32 * high` |
| CanTypes.LittleEndianLayoutExample | src/can_common.h:38-41 | 0x0102030405060708 lies in memory as bytes 8, 7, 6, 5, 4, 3, 2, 1 |
| CanTypes.CanFrame.WellFormed | src/can_common.h:98 | a frame is well formed exactly when its `length` fits in the 8 bytes of its union |
| CanTypes.CanFrame.Payload | src/can_common.h:90-101 | a frame with `length <= 8` carries the first `length` bytes of its union's byte view |
| Filters.Promiscuous | src/can_common.cpp:187-191 | promiscuous mode is a standard filter whose mask matches every identifier |
| Filters.ForId | src/can_common.cpp:197-201 | `watchFor(id)` keeps `id`, is extended exactly when `id > 0x7FF`, and masks the full 11 or 29 identifier bits of that framing |
| Filters.ForIdAdmitsExactly | src/can_common.cpp:194-201 | among identifiers that fit their framing, the single-ID filter admits exactly `id` with the framing chosen from its magnitude |
| Filters.ForIdMask | src/can_common.cpp:207-211 | `watchFor(id, mask)` passes `id` and `mask` through unchanged and is extended exactly when `id > 0x7FF` |
| Filters.ScanIdBit | src/can_common.cpp:223-226 | after visiting `lo .. c-1`, a bit of `id` is set exactly when every visited identifier has it |
| Filters.ScanMaskBit | src/can_common.cpp:228-234 | after visiting `lo .. c-1`, a bit of `mask` is set exactly when it is a width bit and no visited identifier differs from `lo` there |
| Filters.ScanRange | src/can_common.cpp:237-254 | the swap-then-scan loop computes exactly `RangeId` and `RangeMask` of the bounds |
| Filters.RangeIdBit | src/can_common.cpp:219-226 | a bit of the range id is set exactly when every identifier of the range has it set |
| Filters.RangeMaskBit | src/can_common.cpp:228-234 | a bit of the range mask is set exactly when it is below the framing width chosen from `idHi` and every identifier of the range agrees with `idLo` there |
| Filters.RangeId | src/can_common.cpp:249-253 | the range id is at most the lower bound and has no 1-bit that the lower bound lacks (`id & idLo == id`) |
| Filters.RangeMask | src/can_common.cpp:250-253 | the range mask lies within the framing width chosen from `idHi` |
| Filters.RangeFilter | src/can_common.cpp:249-257 | the programmed filter carries the scan's id and mask, and is extended exactly when the ANDed id exceeds 0x7FF |
| Filters.RangeFilterCovers | src/can_common.cpp:213-257 | every identifier between the bounds, both included, matches the programmed id under the programmed mask |
| Filters.RangeAgreesAll | src/can_common.cpp:219-254 | every `c` between the bounds satisfies `(c & mask) == (id & mask)` for the scan's `(id, mask)` |
| Filters.RangeFilterBounds | src/can_common.cpp:249-254 | the mask lies within the width chosen from `idHi`, and the id has no 1-bit that `idLo` lacks |
| Filters.RangeFilterSymmetric | src/can_common.cpp:242-247 | `watchForRange(a, b)` and `watchForRange(b, a)` program the same filter |
| Filters.RangeFilterSingle | src/can_common.cpp:249-257 | a one-identifier range programs the same filter as `watchFor(id)` |
| Filters.RangeFilterAcrossStandardLimit | src/can_common.cpp:257 | the range 0x7FF..0x800 yields the standard filter `(0, 0x1FFFF000, false)`, which also admits identifier 0 outside the range |
| Filters.RangeFilterRefusesExtendedRange | src/can_common.cpp:257 | the range 0xFFF..0x1000 of extended identifiers yields a standard filter, which refuses both bounds as the extended frames they are |
| Filters.IntendedRangeFilterAdmits | src/can_common.cpp:214-257 | with the framing chosen from `idHi`, as the width is, every identifier of a range that does not straddle 0x7FF passes with the frame kind its magnitude calls for |
| Filters.ScanAsWritten | src/can_common.cpp:251-253 | one run of the 32-bit loop, cut off after a number of steps: when it ends, its id and mask are at most the starting id and mask |
| Filters.ScanAsWrittenWithin | src/can_common.cpp:251-253 | when the loop as written ends, its id and mask have no 1-bit beyond the starting ones (`r.id & id == r.id`, `r.mask & mask == r.mask`) |
| Filters.ScanAsWrittenNeverEnds | src/can_common.cpp:251 | with the source's 32-bit loop counter, the scan never ends when `idHi == 0xFFFFFFFF` |
| Filters.ScanAsWrittenAgrees | src/can_common.cpp:251-254 | with the 32-bit counter and `idHi < 0xFFFFFFFF`, the scan ends after `idHi - c + 1` iterations with the modelled `(id, mask)` |
| Listener.SetBitBit | src/can_common.cpp:24 | `m | (1 << k)` sets bit `k` and leaves every other bit unchanged |
| Listener.ClearBitBit | src/can_common.cpp:34 | `m & ~(1 << k)` clears bit `k` and leaves every other bit unchanged |
| Listener.TestBit | src/can_common.cpp:53 | `m & (1 << k)` is non-zero exactly when bit `k` of `m` is set |
| Listener.SetBitIdempotent | src/can_common.cpp:24 | attaching the same handler twice is the same as attaching it once |
| Listener.ClearAfterSet | src/can_common.cpp:20-36 | detach after attach clears the bit, and restores the field when the bit was clear |
| Listener.MailboxAndGeneralIndependent | src/can_common.cpp:15 | mailbox bits and the general bit `numFilters` never affect each other |
| Listener.CanListener.constructor | src/can_common.cpp:6-10 | a new listener has no active callback |
| Listener.CanListener.Initialize | src/can_common.cpp:13-16 | clears every active callback |
| Listener.CanListener.AttachMBHandler | src/can_common.cpp:20-26 | sets bit `mailbox` when `mailbox < numFilters`, otherwise changes nothing |
| Listener.CanListener.DetachMBHandler | src/can_common.cpp:30-36 | clears bit `mailbox` when `mailbox < numFilters`, otherwise changes nothing |
| Listener.CanListener.AttachGeneralHandler | src/can_common.cpp:39-42 | sets bit `numFilters` |
| Listener.CanListener.DetachGeneralHandler | src/can_common.cpp:45-48 | clears bit `numFilters` |
| Listener.CanListener.IsCallbackActive | src/can_common.cpp:51-54 | reads bit `callback` of the field without changing any state |
| CanCommon.FirstIndexOf | src/can_common.cpp:118-119 | the first slot holding a value, or none exactly when no slot holds it |
| CanCommon.Attached | src/can_common.cpp:115-125 | attach succeeds exactly when a slot is free and then stores the listener in the first free slot and nowhere else; a failed attach leaves the table unchanged |
| CanCommon.Detached | src/can_common.cpp:128-136 | detach succeeds exactly when the listener is in some slot and then clears the first slot holding it and nowhere else; a failed detach changes nothing |
| CanCommon.EmptyTable | src/can_common.cpp:86 | the constructor's table has SIZE_LISTENERS free slots |
| CanCommon.AttachTakesOneSlot | src/can_common.cpp:115-125 | an attach succeeds exactly when a slot is free and then takes exactly one, so at most SIZE_LISTENERS listeners are registered |
| CanCommon.DetachFreesOneSlot | src/can_common.cpp:128-136 | a successful detach frees exactly one slot |
| CanCommon.DetachAbsent | src/can_common.cpp:128-136 | detaching an unregistered listener fails and changes nothing, so repeating a detach is harmless |
| CanCommon.DetachUndoesAttach | src/can_common.cpp:115-136 | attaching an unregistered listener to a table with room and then detaching it restores the table |
| CanCommon.CapacityFree | src/can_common.cpp:115-136 | in any full table, detaching any listener it holds succeeds and frees the first slot holding it, and the next attach puts the new listener into exactly that slot |
| CanCommon.CanCommon.constructor | src/can_common.cpp:72-87 | the first `numFilt` callbacks are cleared; there is no general callback, the enable pin is 255, and all listener slots are free |
| CanCommon.CanCommon.AttachObj | src/can_common.cpp:115-125 | the table becomes `Attached(old table, l)`, the result is its success flag, and a stored listener's callbacks are reset |
| CanCommon.CanCommon.DetachObj | src/can_common.cpp:128-136 | the table becomes `Detached(old table, l)`, and the result is its success flag |
| CanCommon.CanCommon.SetGeneralCallback | src/can_common.cpp:142-145 | stores the general callback |
| CanCommon.CanCommon.AttachCanInterruptGeneral | src/can_common.h:178 | the same as `SetGeneralCallback` |
| CanCommon.CanCommon.SetCallback | src/can_common.cpp:151-156 | writes only slot `mailbox` when `mailbox < numFilters`, otherwise changes nothing |
| CanCommon.CanCommon.AttachCanInterrupt | src/can_common.cpp:160-163 | the same as `SetCallback` |
| CanCommon.CanCommon.DetachCanInterrupt | src/can_common.cpp:167-172 | clears only slot `mailbox` when `mailbox < numFilters`, otherwise changes nothing |
| CanCommon.CanCommon.SetRXFilter | src/can_common.cpp:175-178 | hands `(id, mask, extended)` to the driver and returns its status unchanged |
| CanCommon.CanCommon.SetRXFilterSpecific | src/can_common.cpp:181-184 | hands `(mailbox, id, mask, extended)` to the driver and returns its status unchanged |
| CanCommon.CanCommon.WatchForAll | src/can_common.cpp:187-191 | programs the promiscuous filter and returns the driver's status |
| CanCommon.CanCommon.WatchFor | src/can_common.cpp:197-201 | programs `ForId(id)` and returns the driver's status |
| CanCommon.CanCommon.WatchForMask | src/can_common.cpp:207-211 | programs `ForIdMask(id, mask)` and returns the driver's status |
| CanCommon.CanCommon.WatchForRange | src/can_common.cpp:237-258 | programs `RangeFilter(idLo, idHi)` (the scan's id and mask, framed by the id) and returns the driver's status; the source agrees when `idHi < 0xFFFFFFFF` and never returns otherwise |

## Left out

- The pure-virtual driver interface (`init`, `beginAutoSpeed`, `set_baudrate`, `setListenOnlyMode`, `enable`, `disable`, `sendFrame`, `rx_avail`, `available`, `get_rx_buff`/`read`) has no bodies. `_setFilter`/`_setFilterSpecific` appear only as the request sink with a status function.
- `begin` (three overloads) forwards to the driver's `init`, which is not part of this model; the third overload (src/can_common.cpp:102-106) first stores `enPin` into `enablePin`, a store the model does not include, so `enablePin` appears only as a field the constructor sets.
- `getBusSpeed` (src/can_common.cpp:109-112) returns the `busSpeed` field, which the drivers set and the model omits.
- The baud-rate macros of `src/can_common.h:22-33` are constants the model does not use.
- `CANListener::gotFrame` is an empty virtual hook. Frame dispatch to callbacks and listeners lives in drivers that are not part of this model.
- The effect of `setGeneralCallback` on buffering happens in the drivers. The setter itself is a store.
- Interrupt context and concurrent mutation of the tables are not modelled.
- `watchFor(id, mask, ext)` and `CANListener::setNumFilters` are declared but have no definition. The listener's `numFilters` is therefore the constant 8 its constructor sets.
- Listener.CanListener.IsCallbackActive: requires `0 <= callback <= 30`. At 31 and above, or for a negative `callback`, the C++ shift `1 << callback` on `int` is undefined.
- Listener.CanListener: `callbacksActive` is a signed `int` in the source. The model keeps it as its 32-bit pattern. With `numFilters == 8`, only bits 0..8 are ever written.
- CanCommon.CanCommon.constructor: requires `0 <= numFilt <= 16`, because the `memset` clears `numFilt` entries of a 16-entry array. The contract speaks only of the first `numFilt` slots, as the source does. The model gives the remaining slots an initial empty value, where the C++ object leaves them unwritten.
- CanCommon.CanCommon.AttachObj: takes a non-null listener. With a null pointer and a free slot, the source dereferences null (`listener->initialize()`).
- CanCommon.CanCommon.WatchForRange: programs `RangeFilter`, framed by the ANDed id as the code is; the corrected framing is `Filters.IntendedRangeFilter` (see Findings). For `idHi == 0xFFFFFFFF` it returns, where the source never does: it runs the corrected `ScanRange` (Findings, src/can_common.cpp:251), so it records a request and returns a status where the source's loop spins forever.
- Filters.ScanRange: counts with an unbounded integer, so it ends for every pair of bounds. The source's 32-bit counter never ends when `idHi == 0xFFFFFFFF` (see Findings). The as-written loop is `Filters.ScanAsWritten`.
- BytesUnion: only the little-endian layout the header presupposes is modelled. On a big-endian processor the wider views would read the bytes in the other order.
- Function pointers are opaque `Handler` codes and cannot be called.

## Findings

| source | as written | input that shows it | evidently intended | confidence | as-written member | corrected member |
|---|---|---|---|---|---|---|
| src/can_common.cpp:257 | `return watchFor(id, mask)` frames the filter by the ANDed `id`, while line 250 chooses the mask width from `idHi` | `watchForRange(0xFFF, 0x1000)`: the ANDed id is 0, so the filter is standard and neither extended identifier passes | every identifier of the range passes, as line 214 promises, so the framing follows `idHi` | medium (proved about the model; not executed) | Filters.RangeFilterRefusesExtendedRange | Filters.IntendedRangeFilterAdmits |
| src/can_common.cpp:251 | `for (uint32_t c = id1; c <= id2; c++)`, with `id1`/`id2` read as `idLo`/`idHi`: the 32-bit counter wraps from 0xFFFFFFFF to 0, where `c <= idHi` still holds | `watchForRange(x, 0xFFFFFFFF)` for any `x` | the scan stops after visiting `idHi` | high (proved about the model; not executed) | Filters.ScanAsWrittenNeverEnds | Filters.ScanRange |
