/**
 * The driver-independent part of a CAN controller: a table of up to
 * SIZE_LISTENERS listener objects, a table of per-mailbox callbacks plus
 * one general callback, and the `watchFor` family that turns a request
 * into an acceptance filter and hands it to the driver.
 *
 * The driver's filter hooks are not part of this model: every request is
 * appended to `filterRequests`, and the status the hook returns is
 * `driver(earlier, request)`, where `earlier` are the requests the driver
 * received before and `driver` is fixed when the object is made. The
 * driver may thus answer the same request differently as its state evolves.
 */
module CanCommon {
  import opened Wrappers
  import opened CanTypes
  import opened Filters
  import opened Listener

  /** A call of the driver's filter hooks. */
  datatype FilterRequest =
    | AnyMailbox(filter: Filter)                 // _setFilter: the driver picks the mailbox
    | OneMailbox(mailbox: uint8, filter: Filter) // _setFilterSpecific

  /** The listener table is a sequence of slots; null marks a free slot. */
  type ListenerTable = seq<CanListener?>

  /** The index of the first slot holding `x`, if there is one. */
  function FirstIndexOf(t: ListenerTable, x: CanListener?): (r: Option<nat>)
    ensures r.None? <==> x !in t
    ensures r.Some? ==> r.value < |t| && t[r.value] == x
    ensures r.Some? ==> forall j :: 0 <= j < r.value ==> t[j] != x
  {
    if |t| == 0 then None
    else if t[0] == x then Some(0)
    else match FirstIndexOf(t[1..], x)
      case None => None
      case Some(i) => Some(i + 1)
  }

  /** The table after an update, and whether the update took place. */
  datatype TableUpdate = TableUpdate(table: ListenerTable, ok: bool)

  /** `attachObj`: `l` goes into the first free slot; fails when none is free. */
  function Attached(t: ListenerTable, l: CanListener): (r: TableUpdate)
    ensures |r.table| == |t|
    ensures r.ok <==> null in t
    ensures !r.ok ==> r.table == t
    ensures r.ok ==> l in r.table
    ensures r.ok ==> r.table == t[FirstIndexOf(t, null).value := l]
    ensures forall j :: 0 <= j < |t| && t[j] != null ==> r.table[j] == t[j]
  {
    match FirstIndexOf(t, null)
    case None => TableUpdate(t, false)
    case Some(i) => assert t[i := l][i] == l; TableUpdate(t[i := l], true)
  }

  /** `detachObj`: the first slot holding `l` is freed; fails when `l` is in no slot. */
  function Detached(t: ListenerTable, l: CanListener?): (r: TableUpdate)
    ensures |r.table| == |t|
    ensures r.ok <==> l in t
    ensures !r.ok ==> r.table == t
    ensures forall j :: 0 <= j < |t| && t[j] != l ==> r.table[j] == t[j]
    ensures r.ok ==> r.table == t[FirstIndexOf(t, l).value := null]
  {
    match FirstIndexOf(t, l)
    case None => TableUpdate(t, false)
    case Some(i) => TableUpdate(t[i := null], true)
  }

  /** The table a freshly made object starts with. */
  function EmptyTable(): (t: ListenerTable)
    ensures |t| == SIZE_LISTENERS
    ensures forall j :: 0 <= j < |t| ==> t[j] == null
    ensures FreeSlots(t) == SIZE_LISTENERS
  {
    [null, null, null, null]
  }

  /** Detaching a listener that is in no slot changes nothing and fails. */
  lemma DetachAbsent(t: ListenerTable, l: CanListener?)
    requires l !in t
    ensures Detached(t, l) == TableUpdate(t, false)
  {
  }

  /**
   * Attaching a listener that is in no slot and then detaching it again
   * gives the table back: the listener lands in the first free slot,
   * which is also the first slot holding it.
   */
  lemma {:induction false} DetachUndoesAttach(t: ListenerTable, l: CanListener)
    requires l !in t && null in t
    ensures Attached(t, l).ok
    ensures Detached(Attached(t, l).table, l) == TableUpdate(t, true)
  {
    var i := FirstIndexOf(t, null).value;
    var t' := t[i := l];
    assert forall j :: 0 <= j < i ==> t'[j] != l;
    assert FirstIndexOf(t', l) == Some(i) by {
      FirstIndexUnique(t', l, i);
    }
    assert t'[i := null] == t;
  }

  /** When slot `i` is the only first occurrence candidate, `FirstIndexOf` finds it. */
  lemma {:induction false} FirstIndexUnique(t: ListenerTable, x: CanListener?, i: nat)
    requires i < |t| && t[i] == x
    requires forall j :: 0 <= j < i ==> t[j] != x
    ensures FirstIndexOf(t, x) == Some(i)
  {
    if i > 0 {
      FirstIndexUnique(t[1..], x, i - 1);
    }
  }

  /** The number of free slots of a table. */
  function FreeSlots(t: ListenerTable): nat
  {
    multiset(t)[null]
  }

  /**
   * Capacity: an attach succeeds exactly when a slot is free, and a
   * successful attach takes exactly one free slot, so a table of
   * SIZE_LISTENERS slots holds at most SIZE_LISTENERS listeners.
   */
  lemma AttachTakesOneSlot(t: ListenerTable, l: CanListener)
    ensures Attached(t, l).ok <==> FreeSlots(t) > 0
    ensures Attached(t, l).ok ==> FreeSlots(Attached(t, l).table) == FreeSlots(t) - 1
  {
    match FirstIndexOf(t, null)
    case None =>
    case Some(i) =>
      assert multiset(t[i := l]) == multiset(t) - multiset{null} + multiset{l};
  }

  /** A successful detach frees exactly one slot. */
  lemma DetachFreesOneSlot(t: ListenerTable, l: CanListener)
    ensures Detached(t, l).ok ==> FreeSlots(Detached(t, l).table) == FreeSlots(t) + 1
  {
    match FirstIndexOf(t, l)
    case None =>
    case Some(i) =>
      assert multiset(t[i := null]) == multiset(t) - multiset{l} + multiset{null};
  }

  /**
   * In a full table, detaching a listener frees the first slot holding it,
   * and the next attach puts the new listener into exactly that slot.
   */
  lemma CapacityFree(t: ListenerTable, l: CanListener, l5: CanListener)
    requires null !in t && l in t
    ensures Detached(t, l).ok
    ensures Attached(Detached(t, l).table, l5) == TableUpdate(t[FirstIndexOf(t, l).value := l5], true)
  {
    var i := FirstIndexOf(t, l).value;
    var freed := t[i := null];
    assert forall j :: 0 <= j < i ==> freed[j] != null;
    FirstIndexUnique(freed, null, i);
    assert freed[i := l5] == t[i := l5];
  }

  class CanCommon {
    /** Number of mailboxes of the controller. */
    const numFilters: int
    /** Pin that enables the transceiver; 255 stands for none. */
    var enablePin: int
    /** Callback for frames no per-mailbox callback takes. */
    var cbGeneral: Option<Handler>
    /** Per-mailbox callbacks. */
    const cbCANFrame: array<Option<Handler>>
    /** Listener objects; null marks a free slot. */
    const listener: array<CanListener?>
    /** The driver's answer to a filter request, given the requests it received before. */
    const driver: (seq<FilterRequest>, FilterRequest) -> int
    /** Every filter request handed to the driver, oldest first. */
    var filterRequests: seq<FilterRequest>

    /** The shape the constructor establishes and every method keeps. */
    ghost predicate Valid()
    {
      cbCANFrame.Length == CALLBACK_SLOTS &&
      listener.Length == SIZE_LISTENERS &&
      0 <= numFilters <= CALLBACK_SLOTS
    }

    /**
     * The callbacks of the first `numFilt` mailboxes are cleared, there is
     * no general callback, no enable pin and no listener.
     */
    constructor (numFilt: int, driver: (seq<FilterRequest>, FilterRequest) -> int)
      requires 0 <= numFilt <= CALLBACK_SLOTS
      ensures Valid()
      ensures numFilters == numFilt && this.driver == driver
      ensures fresh(cbCANFrame) && fresh(listener)
      ensures forall i :: 0 <= i < numFilt ==> cbCANFrame[i] == None
      ensures cbGeneral == None && enablePin == 255
      ensures listener[..] == EmptyTable()
      ensures filterRequests == []
    {
      numFilters := numFilt;
      this.driver := driver;
      var callbacks := new Option<Handler>[CALLBACK_SLOTS](_ => None);
      assert forall i :: 0 <= i < CALLBACK_SLOTS ==> callbacks[i] == None;
      cbCANFrame := callbacks;
      cbGeneral := None;
      enablePin := 255;
      var table := new CanListener?[SIZE_LISTENERS];
      for i := 0 to SIZE_LISTENERS
        invariant forall j :: 0 <= j < i ==> table[j] == null
        invariant forall j :: 0 <= j < CALLBACK_SLOTS ==> callbacks[j] == None
      {
        table[i] := null;
      }
      listener := table;
      filterRequests := [];
    }

    /**
     * Puts `l` into the first free slot and clears its active callbacks;
     * false when every slot is taken.
     */
    method AttachObj(l: CanListener) returns (ok: bool)
      requires Valid()
      modifies listener, l
      ensures listener[..] == Attached(old(listener[..]), l).table
      ensures ok == Attached(old(listener[..]), l).ok
      ensures ok ==> l.callbacksActive == 0
      ensures !ok ==> unchanged(l)
    {
      for i := 0 to SIZE_LISTENERS
        invariant listener[..] == old(listener[..])
        invariant forall j :: 0 <= j < i ==> listener[j] != null
        invariant unchanged(l)
      {
        if listener[i] == null {
          FirstIndexUnique(listener[..], null, i);
          listener[i] := l;
          l.Initialize();
          return true;
        }
      }
      return false;
    }

    /** Frees the first slot holding `l`; false when no slot holds it. */
    method DetachObj(l: CanListener?) returns (ok: bool)
      requires Valid()
      modifies listener
      ensures listener[..] == Detached(old(listener[..]), l).table
      ensures ok == Detached(old(listener[..]), l).ok
    {
      for i := 0 to SIZE_LISTENERS
        invariant listener[..] == old(listener[..])
        invariant forall j :: 0 <= j < i ==> listener[j] != l
      {
        if listener[i] == l {
          FirstIndexUnique(listener[..], l, i);
          listener[i] := null;
          return true;
        }
      }
      return false;
    }

    /** Sets the general callback. */
    method SetGeneralCallback(cb: Option<Handler>)
      modifies this
      ensures cbGeneral == cb
      ensures enablePin == old(enablePin) && filterRequests == old(filterRequests)
    {
      cbGeneral := cb;
    }

    /** `attachCANInterrupt` with a callback only: the general callback. */
    method AttachCanInterruptGeneral(cb: Option<Handler>)
      modifies this
      ensures cbGeneral == cb
      ensures enablePin == old(enablePin) && filterRequests == old(filterRequests)
    {
      SetGeneralCallback(cb);
    }

    /** Sets the callback of mailbox `mailbox`; a mailbox beyond `numFilters` is ignored. */
    method SetCallback(mailbox: uint8, cb: Option<Handler>)
      requires Valid()
      modifies cbCANFrame
      ensures mailbox < numFilters ==> cbCANFrame[..] == old(cbCANFrame[..])[mailbox := cb]
      ensures mailbox >= numFilters ==> cbCANFrame[..] == old(cbCANFrame[..])
    {
      if mailbox >= numFilters {
        return;
      }
      cbCANFrame[mailbox] := cb;
    }

    /** `attachCANInterrupt` with a mailbox: the same as `SetCallback`. */
    method AttachCanInterrupt(mailbox: uint8, cb: Option<Handler>)
      requires Valid()
      modifies cbCANFrame
      ensures mailbox < numFilters ==> cbCANFrame[..] == old(cbCANFrame[..])[mailbox := cb]
      ensures mailbox >= numFilters ==> cbCANFrame[..] == old(cbCANFrame[..])
    {
      SetCallback(mailbox, cb);
    }

    /** Clears the callback of mailbox `mailbox`; a mailbox beyond `numFilters` is ignored. */
    method DetachCanInterrupt(mailbox: uint8)
      requires Valid()
      modifies cbCANFrame
      ensures mailbox < numFilters ==> cbCANFrame[..] == old(cbCANFrame[..])[mailbox := None]
      ensures mailbox >= numFilters ==> cbCANFrame[..] == old(cbCANFrame[..])
    {
      if mailbox >= numFilters {
        return;
      }
      cbCANFrame[mailbox] := None;
    }

    /** Hands `(id, mask, extended)` to the driver, which picks the mailbox. */
    method SetRXFilter(id: uint32, mask: uint32, extended: bool) returns (status: int)
      modifies this
      ensures filterRequests == old(filterRequests) + [AnyMailbox(Filter(id, mask, extended))]
      ensures status == driver(old(filterRequests), AnyMailbox(Filter(id, mask, extended)))
      ensures cbGeneral == old(cbGeneral) && enablePin == old(enablePin)
    {
      var request := AnyMailbox(Filter(id, mask, extended));
      status := driver(filterRequests, request);
      filterRequests := filterRequests + [request];
    }

    /** Hands `(id, mask, extended)` to the driver for mailbox `mailbox`. */
    method SetRXFilterSpecific(mailbox: uint8, id: uint32, mask: uint32, extended: bool) returns (status: int)
      modifies this
      ensures filterRequests == old(filterRequests) + [OneMailbox(mailbox, Filter(id, mask, extended))]
      ensures status == driver(old(filterRequests), OneMailbox(mailbox, Filter(id, mask, extended)))
      ensures cbGeneral == old(cbGeneral) && enablePin == old(enablePin)
    {
      var request := OneMailbox(mailbox, Filter(id, mask, extended));
      status := driver(filterRequests, request);
      filterRequests := filterRequests + [request];
    }

    /** Promiscuous mode: a standard filter whose mask of 0 lets every identifier through. */
    method WatchForAll() returns (status: int)
      modifies this
      ensures filterRequests == old(filterRequests) + [AnyMailbox(Promiscuous())]
      ensures status == driver(old(filterRequests), AnyMailbox(Promiscuous()))
      ensures cbGeneral == old(cbGeneral) && enablePin == old(enablePin)
    {
      status := SetRXFilter(0, 0, false);
    }

    /** Lets the single identifier `id` through, standard or extended by its value. */
    method WatchFor(id: uint32) returns (status: int)
      modifies this
      ensures filterRequests == old(filterRequests) + [AnyMailbox(ForId(id))]
      ensures status == driver(old(filterRequests), AnyMailbox(ForId(id)))
      ensures cbGeneral == old(cbGeneral) && enablePin == old(enablePin)
    {
      if id <= 0x7FF {
        status := SetRXFilter(id, 0x7FF, false);
      } else {
        status := SetRXFilter(id, 0x1FFF_FFFF, true);
      }
    }

    /** Lets `id` under `mask` through, standard or extended by the value of `id`. */
    method WatchForMask(id: uint32, mask: uint32) returns (status: int)
      modifies this
      ensures filterRequests == old(filterRequests) + [AnyMailbox(ForIdMask(id, mask))]
      ensures status == driver(old(filterRequests), AnyMailbox(ForIdMask(id, mask)))
      ensures cbGeneral == old(cbGeneral) && enablePin == old(enablePin)
    {
      if id <= 0x7FF {
        status := SetRXFilter(id, mask, false);
      } else {
        status := SetRXFilter(id, mask, true);
      }
    }

    /**
     * Lets at least every identifier from `idLo` to `idHi` through (in
     * either order): the scan's id and mask, framed by the id.
     */
    method WatchForRange(idLo: uint32, idHi: uint32) returns (status: int)
      modifies this
      ensures filterRequests == old(filterRequests) + [AnyMailbox(RangeFilter(idLo, idHi))]
      ensures status == driver(old(filterRequests), AnyMailbox(RangeFilter(idLo, idHi)))
      ensures cbGeneral == old(cbGeneral) && enablePin == old(enablePin)
    {
      var id, mask := ScanRange(idLo, idHi);
      status := WatchForMask(id, mask);
    }
  }
}
