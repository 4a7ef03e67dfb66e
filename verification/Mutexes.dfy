/** Mutex objects: the critical sections of os_mutex_lock and os_mutex_unlock, on the kernel's own data structures. */
module Mutexes {
  import opened Kernel
  import opened Wrappers
  import I = Inheritance
  import S = Scheduler

  class Mutex {
    var locked: bool
    var owner: Tcb?

    constructor ()
      ensures Value() == I.Mutex(false, None)
    {
      locked, owner := false, null;
    }

    ghost function Value(): I.Mutex<Tcb>
      reads this
    {
      if owner == null then I.Mutex(locked, None) else var t: Tcb := owner; I.Mutex(locked, Some(t))
    }

    /** One round of os_mutex_lock by task `self`. */
    method Attempt(k: Kernel, self: Tcb) returns (acquired: bool)
      requires k.Valid() && self in k.model.tasks && (owner != null ==> owner in k.model.tasks)
      modifies this, k`model, k`current, k.ready, k.bitmap, k.model.tasks.Keys
      ensures k.Valid() && acquired == !old(locked)
      ensures (k.model, Value()) == I.TryLock(old(k.model), old(Value()), self)
    {
      acquired := !locked;
      if acquired {
        locked, owner := true, self;
      } else if owner != null && k.MoreUrgent(self, owner) {
        k.RaisePriority(owner, self.priority);
      }
    }

    /** os_mutex_unlock by task `self`, up to the release; refused unless it is the owner. */
    method StartUnlock(k: Kernel, self: Tcb) returns (ok: bool)
      requires k.Valid() && self in k.model.tasks
      modifies k`model, k`current, k.ready, k.bitmap, k.model.tasks.Keys
      ensures k.Valid() && ok == (owner == self)
      ensures k.model == if ok then S.ResetPriority(old(k.model), self) else old(k.model)
    {
      ok := owner == self;
      if ok {
        k.ResetPriority(self);
      }
    }

    method FinishUnlock()
      modifies this
      ensures Value() == I.Mutex(false, None)
    {
      locked, owner := false, null;
    }
  }
}
