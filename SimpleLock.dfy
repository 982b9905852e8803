/**
 * The per-object spin lock of the Galois runtime, read as a sequential
 * state machine.
 *
 * SpinLock is the real lock (`SimpleLock<true>`): one 32-bit word that is 0
 * when the lock is free and 1 when some task holds it.  The atomic
 * fetch-and-or, the `pause` spin and the compiler barriers collapse into
 * single state changes.  NoOpLock is the specialisation used when locking is
 * compiled out (`SimpleLock<false>`).
 */
module SimpleLock {

  class SpinLock {
    /** The lock word: 0 free, 1 held. */
    var word: bv32

    /** The word only ever holds 0 or 1. */
    ghost predicate Valid()
      reads this
    {
      word == 0 || word == 1
    }

    /** Some task holds the lock. */
    predicate IsHeld()
      reads this
    {
      word != 0
    }

    /** A new lock is free. */
    constructor ()
      ensures Valid() && !IsHeld()
      ensures word == 0
    {
      word := 0;
    }

    /**
     * Non-blocking acquire.  A held lock is left alone and the call fails;
     * a free lock is set by or-ing 1 into the word, and the call succeeds
     * exactly when the old word had bit 0 clear.
     */
    method TryLock() returns (acquired: bool)
      requires Valid()
      modifies this
      ensures Valid() && IsHeld()
      ensures acquired <==> !old(IsHeld())
      ensures old(IsHeld()) ==> word == old(word)
    {
      if word != 0 {
        return false;
      }
      var oldval := word;
      word := word | 1;
      acquired := oldval & 1 == 0;
    }

    /**
     * Blocking acquire: retry TryLock until it succeeds.  Run sequentially
     * nobody else can release the lock, so the caller must find it free;
     * the wait on a non-zero word is the concurrent part and is not modelled.
     */
    method Lock()
      requires Valid() && !IsHeld()
      modifies this
      ensures Valid() && IsHeld()
      ensures word == 1
    {
      var acquired := false;
      while !acquired
        invariant Valid()
        invariant acquired <==> IsHeld()
        decreases if acquired then 0 else 1
      {
        acquired := TryLock();
      }
    }

    /** Release: only a held lock may be released, and it becomes free. */
    method Unlock()
      requires Valid() && IsHeld()
      modifies this
      ensures Valid() && !IsHeld()
      ensures word == 0
    {
      word := 0;
    }
  }

  /** The lock used when the runtime compiles synchronisation out. */
  class NoOpLock {
    constructor ()
    {
    }

    /** Does nothing. */
    method Lock()
      ensures unchanged(this)
    {
    }

    /** Does nothing. */
    method Unlock()
      ensures unchanged(this)
    {
    }

    /** Always succeeds. */
    method TryLock() returns (acquired: bool)
      ensures acquired
    {
      acquired := true;
    }
  }
}
