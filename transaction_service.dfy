/** The authorization decision engine (internal/core/service/transaction_service.go):
    the rule checks as pure functions, and the service that runs them against
    the stores and applies an approval. */
module TransactionServices {
  import opened Domain
  import opened Repository
  import opened AccountServices

  /** A past transaction duplicates the incoming one: same amount, same merchant. */
  predicate IsDouble(past: Transaction, transaction: Transaction)
  {
    past.amount == transaction.amount && past.merchant == transaction.merchant
  }

  /** Two transactions are duplicates exactly when they differ at most in their instants. */
  lemma DoubleDiffersOnlyInInstant(past: Transaction, transaction: Transaction)
    ensures IsDouble(past, transaction) <==> past.(createdAt := transaction.createdAt) == transaction
  {
  }

  /** Some entry of the window duplicates the incoming transaction. */
  predicate HasDouble(window: seq<Transaction>, transaction: Transaction)
  {
    exists i :: 0 <= i < |window| && IsDouble(window[i], transaction)
  }

  /** The evaluation order of the three accumulating checks. */
  function Rank(v: Violation): nat
  {
    match v
    case InsufficientLimit => 0
    case HighFrequencySmallInterval => 1
    case DoubleTransaction => 2
    case _ => 3
  }

  /** The violations an active account collects, given the trailing window:
      each of the three checks contributes its code at most once, in order. */
  function Violations(account: Account, transaction: Transaction, window: seq<Transaction>): (vs: seq<Violation>)
    ensures InsufficientLimit in vs <==> transaction.amount > account.availableLimit
    ensures HighFrequencySmallInterval in vs <==> |window| >= 3
    ensures DoubleTransaction in vs <==> HasDouble(window, transaction)
    ensures forall i :: 0 <= i < |vs| ==> Rank(vs[i]) < 3
    ensures forall i, j :: 0 <= i < j < |vs| ==> Rank(vs[i]) < Rank(vs[j])
    ensures |vs| <= 3
  {
    (if account.availableLimit < transaction.amount then [InsufficientLimit] else []) +
    (if |window| >= 3 then [HighFrequencySmallInterval] else []) +
    (if HasDouble(window, transaction) then [DoubleTransaction] else [])
  }

  /** What the engine does with a transaction before touching any store. */
  datatype Outcome =
    | Reject(account: Account, violations: seq<Violation>)
    | Approve(debitedLimit: int)

  /** The decision, from the account lookup's result and the trailing window. */
  function Decide(fetched: Account, err: Option<Violation>, transaction: Transaction, window: seq<Transaction>): (o: Outcome)
    ensures o.Reject? ==> o.violations != []
    ensures o.Approve? ==>
      err == None && fetched.activeCard &&
      o.debitedLimit == fetched.availableLimit - transaction.amount && o.debitedLimit >= 0
  {
    if err.Some? then Reject(ZeroAccount, [err.value])
    else if !fetched.activeCard then Reject(fetched, [CardNotActive])
    else
      var vs := Violations(fetched, transaction, window);
      if vs != [] then Reject(fetched, vs)
      else Approve(fetched.availableLimit - transaction.amount)
  }

  /** A failed lookup short-circuits: the zero account and exactly that error,
      whatever the transaction and the window. */
  lemma DecideLookupFailed(fetched: Account, err: Option<Violation>, transaction: Transaction, window: seq<Transaction>)
    requires err.Some?
    ensures Decide(fetched, err, transaction, window) == Reject(ZeroAccount, [err.value])
  {
  }

  /** An inactive card short-circuits: the fetched account unchanged and exactly
      `CardNotActive`, whatever the amount, the limit and the history. */
  lemma DecideCardNotActive(fetched: Account, transaction: Transaction, window: seq<Transaction>)
    requires !fetched.activeCard
    ensures Decide(fetched, None, transaction, window) == Reject(fetched, [CardNotActive])
  {
  }

  /** With an active card the transaction is approved exactly when none of the
      three checks fires; otherwise the fetched account comes back with them. */
  lemma DecideActiveCard(fetched: Account, transaction: Transaction, window: seq<Transaction>)
    requires fetched.activeCard
    ensures var vs := Violations(fetched, transaction, window);
      Decide(fetched, None, transaction, window) ==
        if vs == [] then Approve(fetched.availableLimit - transaction.amount) else Reject(fetched, vs)
  {
  }

  /** No decision repeats a code; in particular `DoubleTransaction` appears at
      most once however many duplicates the window holds. */
  lemma {:induction false} DecideNoRepeatedCode(fetched: Account, err: Option<Violation>, transaction: Transaction, window: seq<Transaction>)
    requires Decide(fetched, err, transaction, window).Reject?
    ensures var vs := Decide(fetched, err, transaction, window).violations;
      |vs| <= 3 &&
      (forall i, j :: 0 <= i < j < |vs| ==> vs[i] != vs[j]) &&
      multiset(vs)[DoubleTransaction] <= 1
  {
    var vs := Decide(fetched, err, transaction, window).violations;
    if err.None? && fetched.activeCard {
      assert vs == Violations(fetched, transaction, window);
    }
    assert forall i, j :: 0 <= i < j < |vs| ==> Rank(vs[i]) < Rank(vs[j]);
    CountAtMostOne(vs, DoubleTransaction);
  }

  /** A sequence without repeats holds each value at most once. */
  lemma {:induction false} CountAtMostOne(vs: seq<Violation>, v: Violation)
    requires forall i, j :: 0 <= i < j < |vs| ==> vs[i] != vs[j]
    ensures multiset(vs)[v] <= 1
  {
    if vs != [] {
      var rest := vs[1..];
      CountAtMostOne(rest, v);
      assert vs == [vs[0]] + rest;
      if vs[0] == v {
        assert forall k :: 0 <= k < |rest| ==> rest[k] != v by {
          forall k | 0 <= k < |rest| ensures rest[k] != v {
            assert rest[k] == vs[k + 1];
          }
        }
        assert v !in rest;
      }
    }
  }

  class TransactionService {
    const repository: MemoryRepository
    const accountService: AccountService

    /** `NewTransactionService`. */
    constructor (repository: MemoryRepository, accountManager: AccountService)
      ensures this.repository == repository && this.accountService == accountManager
    {
      this.repository := repository;
      this.accountService := accountManager;
    }

    /** Looks the account up, checks the card, then runs the three checks over
        the transactions accepted strictly after `createdAt - 2 minutes`. Only
        an all-clear result logs the transaction and debits the limit. */
    method AuthorizeTransaction(transaction: Transaction) returns (account: Account, errs: seq<Violation>)
      modifies repository, accountService.repository
      ensures
        var store := accountService.repository;
        var initialized := old(store.accountInitialized);
        var fetched := if initialized then old(store.account) else ZeroAccount;
        var err := if initialized then None else Some(AccountNotInitialized);
        var window := After(old(repository.transactions), transaction.createdAt - TwoMinutes);
        match Decide(fetched, err, transaction, window)
        case Reject(rejected, violations) =>
          && account == rejected && errs == violations
          && repository.Model() == old(repository.Model())
          && store.Model() == old(store.Model())
        case Approve(debitedLimit) =>
          && account == store.account && errs == []
          && repository.transactions == old(repository.transactions) + [transaction]
          && store.account == old(store.account).(availableLimit := debitedLimit)
          && store.accountInitialized
          && (repository != store ==>
                repository.account == old(repository.account) &&
                repository.accountInitialized == old(repository.accountInitialized) &&
                store.transactions == old(store.transactions))
    {
      var fetched, err := accountService.GetAccount();
      if err.Some? {
        DecideLookupFailed(fetched, err, transaction, After(repository.transactions, transaction.createdAt - TwoMinutes));
        return ZeroAccount, [err.value];
      }

      if !fetched.activeCard {
        DecideCardNotActive(fetched, transaction, After(repository.transactions, transaction.createdAt - TwoMinutes));
        return fetched, [CardNotActive];
      }

      var violations := [];
      if fetched.availableLimit < transaction.amount {
        violations := violations + [InsufficientLimit];
      }

      var twoMinutesAgo := transaction.createdAt - TwoMinutes;
      var pastTransactions := repository.FindTransactionsAfter(twoMinutesAgo);
      if |pastTransactions| >= 3 {
        violations := violations + [HighFrequencySmallInterval];
      }

      ghost var checked := violations;
      var i := 0;
      while i < |pastTransactions|
        invariant 0 <= i <= |pastTransactions|
        invariant violations == checked
        invariant forall k :: 0 <= k < i ==> !IsDouble(pastTransactions[k], transaction)
      {
        if IsDouble(pastTransactions[i], transaction) {
          violations := violations + [DoubleTransaction];
          break;
        }
        i := i + 1;
      }
      assert HasDouble(pastTransactions, transaction) <==> violations != checked by {
        if violations != checked {
          assert IsDouble(pastTransactions[i], transaction);
        }
      }
      assert violations == Violations(fetched, transaction, pastTransactions);
      DecideActiveCard(fetched, transaction, pastTransactions);

      if |violations| >= 1 {
        return fetched, violations;
      }

      repository.SaveTransaction(transaction);

      var limit := fetched.availableLimit - transaction.amount;
      account := accountService.SetAccountLimit(limit);
      errs := [];
    }
  }
}
