/**
 * `_keyed_lock`: a registry that hands out one lock per key, creating it on
 * first use and keeping it for the life of the process. A lock is
 * represented by the distinct number it was given when created; waiting on
 * it and releasing it are not modelled.
 */
module Locks {

  class LockRegistry<K(==)> {
    /** `locks`: the lock handed out for each key seen so far */
    var handles: map<K, nat>
    /** the number the next created lock receives */
    var next: nat

    /** Every lock was created by this registry, and no two keys share one. */
    ghost predicate Valid()
      reads this
    {
      && (forall k :: k in handles ==> handles[k] < next)
      && (forall k, k' :: k in handles && k' in handles && k != k' ==> handles[k] != handles[k'])
    }

    /** `_keyed_lock(lock_constructor)`: no key has a lock yet. */
    constructor ()
      ensures Valid() && handles == map[] && next == 0
    {
      handles := map[];
      next := 0;
    }

    /**
     * `get_lock(key)`: the lock already registered for `key`, or a new lock,
     * distinct from every other, registered for it. Other keys keep theirs.
     */
    method GetLock(key: K) returns (lock: nat)
      requires Valid()
      modifies this
      ensures Valid()
      ensures key in handles && lock == handles[key]
      ensures key in old(handles) ==> handles == old(handles) && next == old(next)
      ensures key !in old(handles) ==> handles == old(handles)[key := lock]
      ensures key !in old(handles) ==> forall k :: k in old(handles) ==> old(handles)[k] != lock
    {
      if key !in handles {
        handles := handles[key := next];
        next := next + 1;
      }
      lock := handles[key];
    }
  }

  /**
   * Two requests for the same key, with any request in between, receive the
   * same lock; a request for a different key receives a different lock.
   */
  method SameKeySameLock<K(==)>(registry: LockRegistry<K>, key: K, other: K)
    returns (first: nat, between: nat, second: nat)
    requires registry.Valid()
    modifies registry
    ensures registry.Valid()
    ensures first == second
    ensures other != key ==> between != first
    ensures old(registry.handles).Keys <= registry.handles.Keys
  {
    first := registry.GetLock(key);
    between := registry.GetLock(other);
    second := registry.GetLock(key);
  }
}
