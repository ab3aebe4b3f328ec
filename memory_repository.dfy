/** The in-memory store behind both services: an append-only transaction log
    and a single create-once account slot (internal/repository). */
module Repository {
  import opened Domain

  const AccountAlreadyInitializedMessage: string := "account already initialized"
  const AccountNotInitializedMessage: string := "account not initialized"

  /** The state of a `MemoryRepository`, as a value. */
  datatype Store = Store(transactions: seq<Transaction>, account: Account, accountInitialized: bool)

  /** The state of a freshly made repository. */
  const EmptyStore := Store([], ZeroAccount, false)

  /** The logged transactions created strictly after `time`, in log order. */
  function After(log: seq<Transaction>, time: int): (found: seq<Transaction>)
    ensures |found| <= |log|
  {
    if log == [] then []
    else
      var last := log[|log| - 1];
      After(log[..|log| - 1], time) + (if last.createdAt > time then [last] else [])
  }

  /** A transaction is found exactly when it is logged and strictly after `time`. */
  lemma {:induction false} AfterMembership(log: seq<Transaction>, time: int)
    ensures forall t :: t in After(log, time) <==> t in log && t.createdAt > time
  {
    if log != [] {
      var init, last := log[..|log| - 1], log[|log| - 1];
      AfterMembership(init, time);
      assert log == init + [last];
    }
  }

  /** Filtering distributes over concatenation: the result keeps log order. */
  lemma {:induction false} AfterConcat(a: seq<Transaction>, b: seq<Transaction>, time: int)
    ensures After(a + b, time) == After(a, time) + After(b, time)
  {
    if b == [] {
      assert a + b == a;
    } else {
      var init, last := b[..|b| - 1], b[|b| - 1];
      AfterConcat(a, init, time);
      assert (a + b)[..|a + b| - 1] == a + init;
    }
  }

  /** Appending an entry extends the found sequence by that entry exactly when
      it is strictly after `time`. */
  lemma AfterAppend(log: seq<Transaction>, t: Transaction, time: int)
    ensures After(log + [t], time) == After(log, time) + (if t.createdAt > time then [t] else [])
  {
    assert (log + [t])[..|log|] == log;
  }

  /** Nothing is found exactly when no entry is strictly after `time`. */
  lemma AfterEmpty(log: seq<Transaction>, time: int)
    ensures After(log, time) == [] <==> forall i :: 0 <= i < |log| ==> log[i].createdAt <= time
  {
    AfterMembership(log, time);
    if After(log, time) == [] {
      forall i | 0 <= i < |log| ensures log[i].createdAt <= time {
        assert log[i] in log;
      }
    } else {
      assert After(log, time)[0] in After(log, time);
    }
  }

  /** Strictly increasing positions into `log`. */
  predicate IncreasingIndices(idx: seq<int>, log: seq<Transaction>)
  {
    (forall m :: 0 <= m < |idx| ==> 0 <= idx[m] < |log|) &&
    (forall m, n :: 0 <= m < n < |idx| ==> idx[m] < idx[n])
  }

  /** Every group of distinct log entries strictly after `time` is found:
      the result is at least as long as the group. */
  lemma {:induction false} AfterCountsIndices(log: seq<Transaction>, time: int, idx: seq<int>)
    requires IncreasingIndices(idx, log)
    requires forall m :: 0 <= m < |idx| ==> log[idx[m]].createdAt > time
    ensures |After(log, time)| >= |idx|
  {
    if idx != [] {
      assert 0 <= idx[0] < |log|;
      var init, top := log[..|log| - 1], idx[|idx| - 1];
      assert forall m :: 0 <= m < |idx| - 1 ==> idx[m] < top;
      if top == |log| - 1 {
        var rest := idx[..|idx| - 1];
        AfterCountsIndices(init, time, rest);
      } else {
        AfterCountsIndices(init, time, idx);
      }
    }
  }

  /** The repository: fields as in the source, updated in place. */
  class MemoryRepository {
    var transactions: seq<Transaction>
    var account: Account
    var accountInitialized: bool

    /** The whole state as a value. */
    function Model(): Store
      reads this
    {
      Store(transactions, account, accountInitialized)
    }

    /** `NewMemoryRepository`: empty log, no account. */
    constructor ()
      ensures Model() == EmptyStore
    {
      transactions := [];
      account := ZeroAccount;
      accountInitialized := false;
    }

    /** Appends to the log; nothing else changes. */
    method SaveTransaction(transaction: Transaction)
      modifies this
      ensures transactions == old(transactions) + [transaction]
      ensures account == old(account) && accountInitialized == old(accountInitialized)
    {
      transactions := transactions + [transaction];
    }

    /** Scans the whole log for entries strictly after `time`. */
    method FindTransactionsAfter(time: int) returns (found: seq<Transaction>)
      ensures found == After(transactions, time)
    {
      found := [];
      var i := 0;
      while i < |transactions|
        invariant 0 <= i <= |transactions|
        invariant found == After(transactions[..i], time)
      {
        var transaction := transactions[i];
        if transaction.createdAt > time {
          found := found + [transaction];
        }
        assert transactions[..i + 1][..i] == transactions[..i];
        i := i + 1;
      }
      assert transactions[..i] == transactions;
    }

    /** Stores the account if none is stored yet; otherwise the first account
        stays and is returned with an error. */
    method SaveAccount(newAccount: Account) returns (saved: Account, err: Option<string>)
      modifies this
      ensures transactions == old(transactions)
      ensures !old(accountInitialized) ==>
        account == newAccount && accountInitialized && saved == newAccount && err == None
      ensures old(accountInitialized) ==>
        account == old(account) && accountInitialized &&
        saved == old(account) && err == Some(AccountAlreadyInitializedMessage)
    {
      if !accountInitialized {
        account := newAccount;
        accountInitialized := true;
        return account, None;
      }
      return account, Some(AccountAlreadyInitializedMessage);
    }

    /** The stored account, or the zero account and an error when none is stored. */
    method FindAccount() returns (found: Account, err: Option<string>)
      ensures err == None <==> accountInitialized
      ensures accountInitialized ==> found == account
      ensures !accountInitialized ==> found == ZeroAccount && err == Some(AccountNotInitializedMessage)
    {
      if !accountInitialized {
        return ZeroAccount, Some(AccountNotInitializedMessage);
      }
      return account, None;
    }

    /** Overwrites the limit of the account slot, initialized or not. */
    method UpdateAccountLimit(newAvailableLimit: int)
      modifies this
      ensures account == old(account).(availableLimit := newAvailableLimit)
      ensures transactions == old(transactions) && accountInitialized == old(accountInitialized)
    {
      account := account.(availableLimit := newAvailableLimit);
    }
  }
}
