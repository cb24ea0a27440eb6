/** The page counters of src/mem/accounting.c, with each call as one step.  The interleavings of the single
    atomic operations are in the module Accounting. */
module Counters {

  class PageCounters {
    var available: nat
    var reserved: nat
    var committed: nat
    var total: nat

    constructor ()
      ensures available == reserved == committed == total == 0
    {
      available, reserved, committed, total := 0, 0, 0, 0;
    }

    predicate Balanced()
      reads this
    {
      available + reserved + committed == total
    }

    /** mem_acct_take_available: all the pages or none. */
    method TakeAvailable(n: nat) returns (ok: bool)
      modifies this`available
      ensures ok == (old(available) >= n)
      ensures available == if ok then old(available) - n else old(available)
    {
      ok := available >= n;
      if ok {
        available := available - n;
      }
    }

    method Reserve(n: nat) returns (ok: bool)
      requires Balanced()
      modifies this`available, this`reserved
      ensures Balanced() && ok == (old(available) >= n)
      ensures reserved == if ok then old(reserved) + n else old(reserved)
    {
      ok := TakeAvailable(n);
      if ok {
        reserved := reserved + n;
      }
    }

    method Unreserve(n: nat)
      requires Balanced() && n <= reserved
      modifies this`available, this`reserved
      ensures Balanced() && reserved == old(reserved) - n
    {
      reserved := reserved - n;
      available := available + n;
    }

    method AddTotal(n: nat)
      requires Balanced()
      modifies this`available, this`total
      ensures Balanced() && total == old(total) + n
    {
      total := total + n;
      available := available + n;
    }

    method AddCommitted(n: nat)
      requires Balanced()
      modifies this`committed, this`total
      ensures Balanced() && total == old(total) + n
    {
      total := total + n;
      committed := committed + n;
    }

    method Commit(n: nat) returns (ok: bool)
      requires Balanced()
      modifies this`available, this`committed
      ensures Balanced() && ok == (old(available) >= n)
      ensures committed == if ok then old(committed) + n else old(committed)
    {
      ok := TakeAvailable(n);
      if ok {
        committed := committed + n;
      }
    }

    method CommitReserved(n: nat)
      requires Balanced() && n <= reserved
      modifies this`reserved, this`committed
      ensures Balanced() && reserved == old(reserved) - n
    {
      reserved := reserved - n;
      committed := committed + n;
    }

    method Uncommit(n: nat)
      requires Balanced() && n <= committed
      modifies this`available, this`committed
      ensures Balanced() && committed == old(committed) - n
    {
      committed := committed - n;
      available := available + n;
    }

    method UncommitToReserved(n: nat)
      requires Balanced() && n <= committed
      modifies this`reserved, this`committed
      ensures Balanced() && committed == old(committed) - n
    {
      committed := committed - n;
      reserved := reserved + n;
    }
  }
}
