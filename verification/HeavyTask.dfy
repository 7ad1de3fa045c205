/** The counting semaphore shared by every heavy background task. */
module HeavyTask {

  /**
   * A buffered channel used as a semaphore. Only its capacity and its fill
   * level matter: a send takes a slot, a receive gives one back.
   */
  class Limiter {
    const cap: nat
    var len: nat

    ghost predicate Valid()
      reads this
    {
      1 <= cap && len <= cap
    }

    constructor (n: int)
      ensures Valid()
      ensures cap == (if n <= 0 then 1 else n) && len == 0
    {
      cap := if n <= 0 then 1 else n;
      len := 0;
    }

    /** Takes a slot if one is free, without waiting. */
    method TryAcquire() returns (ok: bool)
      requires Valid()
      modifies this
      ensures Valid()
      ensures ok <==> old(len) < cap
      ensures len == if ok then old(len) + 1 else old(len)
    {
      ok := len < cap;
      if ok {
        len := len + 1;
      }
    }

    /**
     * The moment at which a blocked acquire wakes up: a slot is free, or the
     * caller's context is done. With both ready, either branch may be taken.
     */
    method Acquire(done: bool) returns (ok: bool)
      requires Valid()
      requires len < cap || done
      modifies this
      ensures Valid()
      ensures if ok then old(len) < cap else done
      ensures len == if ok then old(len) + 1 else old(len)
    {
      ok := *;
      if len == cap {
        ok := false;
      } else if !done {
        ok := true;
      }
      if ok {
        len := len + 1;
      }
    }

    /** Gives a slot back; on an empty channel nothing happens. */
    method Release()
      requires Valid()
      modifies this
      ensures Valid()
      ensures len == if old(len) > 0 then old(len) - 1 else 0
    {
      if len > 0 {
        len := len - 1;
      }
    }
  }
}
