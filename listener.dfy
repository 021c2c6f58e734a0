/**
 * Object-oriented listeners: a `CANListener` keeps a bitfield saying which
 * of its callbacks are active. Bits `0 .. numFilters-1` stand for the
 * per-mailbox callbacks and bit `numFilters` for the general callback.
 */
module Listener {
  import opened Bits
  import opened CanTypes

  /** `m | (1 << k)`. */
  function SetBit(m: uint32, k: nat): uint32
    requires k < WORD_BITS
  {
    Pow2Below32(k);
    Or32(m, Pow2(k));
    Or(m, Pow2(k))
  }

  /** `m & ~(1 << k)`. */
  function ClearBit(m: uint32, k: nat): uint32
    requires k < WORD_BITS
  {
    Pow2Below32(k);
    AndAtMost(m, Not32(Pow2(k)));
    And(m, Not32(Pow2(k)))
  }

  /** Setting bit `k` turns that bit on and leaves every other bit as it was. */
  lemma SetBitBit(m: uint32, k: nat, j: nat)
    requires k < WORD_BITS
    ensures Bit(SetBit(m, k), j) == (Bit(m, j) || j == k)
  {
    OrBit(m, Pow2(k), j);
    Pow2Bit(k, j);
  }

  /** Clearing bit `k` turns that bit off and leaves every other bit as it was. */
  lemma ClearBitBit(m: uint32, k: nat, j: nat)
    requires k < WORD_BITS
    ensures Bit(ClearBit(m, k), j) == (Bit(m, j) && j != k)
  {
    Pow2Below32(k);
    AndBit(m, Not32(Pow2(k)), j);
    Not32Bit(Pow2(k), j);
    Pow2Bit(k, j);
    if j >= WORD_BITS {
      HighBitClear32(m, j);
    }
  }

  /** `x & (1 << k)` is non-zero exactly when bit `k` of `x` is set. */
  lemma TestBit(m: uint32, k: nat)
    ensures (And(m, Pow2(k)) != 0) == Bit(m, k)
  {
    AndBit(m, Pow2(k), k);
    Pow2Bit(k, k);
    if !Bit(m, k) {
      forall j: nat
        ensures Bit(And(m, Pow2(k)), j) == Bit(0, j)
      {
        AndBit(m, Pow2(k), j);
        Pow2Bit(k, j);
        ZeroBit(j);
      }
      BitsEqual(And(m, Pow2(k)), 0);
    } else {
      ZeroBit(k);
    }
  }

  /** Setting a bit twice is setting it once. */
  lemma SetBitIdempotent(m: uint32, k: nat)
    requires k < WORD_BITS
    ensures SetBit(SetBit(m, k), k) == SetBit(m, k)
  {
    forall j: nat
      ensures Bit(SetBit(SetBit(m, k), k), j) == Bit(SetBit(m, k), j)
    {
      SetBitBit(SetBit(m, k), k, j);
      SetBitBit(m, k, j);
    }
    BitsEqual(SetBit(SetBit(m, k), k), SetBit(m, k));
  }

  /** Clearing a bit just set gives what clearing it alone gives: detach undoes attach. */
  lemma ClearAfterSet(m: uint32, k: nat)
    requires k < WORD_BITS
    ensures ClearBit(SetBit(m, k), k) == ClearBit(m, k)
    ensures !Bit(m, k) ==> ClearBit(SetBit(m, k), k) == m
  {
    forall j: nat
      ensures Bit(ClearBit(SetBit(m, k), k), j) == Bit(ClearBit(m, k), j)
    {
      ClearBitBit(SetBit(m, k), k, j);
      SetBitBit(m, k, j);
      ClearBitBit(m, k, j);
    }
    BitsEqual(ClearBit(SetBit(m, k), k), ClearBit(m, k));
    if !Bit(m, k) {
      forall j: nat
        ensures Bit(ClearBit(m, k), j) == Bit(m, j)
      {
        ClearBitBit(m, k, j);
      }
      BitsEqual(ClearBit(m, k), m);
    }
  }

  class CanListener {
    /** Bitfield of active callbacks. */
    var callbacksActive: uint32

    /**
     * Mailboxes of this listener; the constructor sets it to 8 and
     * nothing in the core changes it afterwards.
     */
    const numFilters: nat := 8

    /** A fresh listener has no active callback. */
    constructor ()
      ensures callbacksActive == 0
    {
      new;
      Initialize();
    }

    /** All callbacks off. */
    method Initialize()
      modifies this
      ensures callbacksActive == 0
    {
      callbacksActive := 0;
    }

    /** Activates the callback of a mailbox; a mailbox beyond `numFilters` is ignored. */
    method AttachMBHandler(mailbox: uint8)
      modifies this
      ensures mailbox < numFilters ==> callbacksActive == SetBit(old(callbacksActive), mailbox)
      ensures mailbox >= numFilters ==> callbacksActive == old(callbacksActive)
    {
      if mailbox >= numFilters {
        return;
      }
      callbacksActive := SetBit(callbacksActive, mailbox);
    }

    /** Deactivates the callback of a mailbox; a mailbox beyond `numFilters` is ignored. */
    method DetachMBHandler(mailbox: uint8)
      modifies this
      ensures mailbox < numFilters ==> callbacksActive == ClearBit(old(callbacksActive), mailbox)
      ensures mailbox >= numFilters ==> callbacksActive == old(callbacksActive)
    {
      if mailbox >= numFilters {
        return;
      }
      callbacksActive := ClearBit(callbacksActive, mailbox);
    }

    /** Activates the general callback: bit `numFilters`. */
    method AttachGeneralHandler()
      modifies this
      ensures callbacksActive == SetBit(old(callbacksActive), numFilters)
    {
      callbacksActive := SetBit(callbacksActive, numFilters);
    }

    /** Deactivates the general callback. */
    method DetachGeneralHandler()
      modifies this
      ensures callbacksActive == ClearBit(old(callbacksActive), numFilters)
    {
      callbacksActive := ClearBit(callbacksActive, numFilters);
    }

    /** Whether callback `callback` (a mailbox, or `numFilters` for the general one) is active. */
    function IsCallbackActive(callback: int): (active: bool)
      reads this
      requires 0 <= callback <= 30
      ensures active == Bit(callbacksActive, callback)
    {
      TestBit(callbacksActive, callback);
      And(callbacksActive, Pow2(callback)) != 0
    }
  }

  /**
   * The mailbox callbacks and the general callback live in different bits:
   * attaching or detaching a mailbox's callback never changes whether the
   * general callback is active, and the reverse.
   */
  lemma MailboxAndGeneralIndependent(m: uint32, mailbox: nat, numFilters: nat)
    requires mailbox < numFilters < WORD_BITS
    ensures Bit(SetBit(m, mailbox), numFilters) == Bit(m, numFilters)
    ensures Bit(ClearBit(m, mailbox), numFilters) == Bit(m, numFilters)
    ensures Bit(SetBit(m, numFilters), mailbox) == Bit(m, mailbox)
    ensures Bit(ClearBit(m, numFilters), mailbox) == Bit(m, mailbox)
  {
    SetBitBit(m, mailbox, numFilters);
    ClearBitBit(m, mailbox, numFilters);
    SetBitBit(m, numFilters, mailbox);
    ClearBitBit(m, numFilters, mailbox);
  }
}
