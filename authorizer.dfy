/** The authorizer as cmd/main.go wires it: one repository shared by the
    account service and the transaction service, and a per-line dispatch
    between account creation and authorization. The pure `Step` and `Run`
    describe the whole system as a function of the store; `Authorizer.Process`
    is proved to follow `Step`. */
module Authorizer {
  import opened Domain
  import opened Repository
  import opened AccountServices
  import opened TransactionServices

  /** A decoded input line: both parts are always present, zero when absent. */
  datatype Operation = Operation(transaction: Transaction, account: Account)

  /** A line creates an account exactly when its account part is not the zero
      account: a line whose account is inactive with a zero limit is handled as
      a transaction. */
  predicate IsCreateAccount(op: Operation)
  {
    op.account != ZeroAccount
  }

  /** One output line: an account snapshot and the violations. */
  datatype OperationLog = OperationLog(account: Account, violations: seq<Violation>)

  /** The violation list a `nil`-or-error result prints as. */
  function Errors(err: Option<Violation>): seq<Violation>
  {
    if err.None? then [] else [err.value]
  }

  /** Account creation against the shared store. */
  function CreateAccountStep(s: Store, requested: Account): (Store, OperationLog)
  {
    if s.accountInitialized then (s, OperationLog(ZeroAccount, [AccountAlreadyInitialized]))
    else (s.(account := requested, accountInitialized := true), OperationLog(requested, []))
  }

  /** Authorization against the shared store. */
  function AuthorizeStep(s: Store, transaction: Transaction): (Store, OperationLog)
  {
    var fetched := if s.accountInitialized then s.account else ZeroAccount;
    var err := if s.accountInitialized then None else Some(AccountNotInitialized);
    var outcome := Decide(fetched, err, transaction, After(s.transactions, transaction.createdAt - TwoMinutes));
    if outcome.Reject? then (s, OperationLog(outcome.account, outcome.violations))
    else
      var next := s.(transactions := s.transactions + [transaction],
                     account := s.account.(availableLimit := outcome.debitedLimit));
      (next, OperationLog(next.account, []))
  }

  /** The per-line dispatch of cmd/main.go. */
  function Step(s: Store, op: Operation): (Store, OperationLog)
  {
    if IsCreateAccount(op) then CreateAccountStep(s, op.account)
    else AuthorizeStep(s, op.transaction)
  }

  /** A stream of lines, one output per line, in order. */
  function Run(s: Store, ops: seq<Operation>): (r: (Store, seq<OperationLog>))
    ensures |r.1| == |ops|
    decreases |ops|
  {
    if ops == [] then (s, [])
    else
      var (next, output) := Step(s, ops[0]);
      var (last, outputs) := Run(next, ops[1..]);
      (last, [output] + outputs)
  }

  /** Sum of the amounts of a sequence of transactions. */
  function Spent(log: seq<Transaction>): int
  {
    if log == [] then 0 else log[0].amount + Spent(log[1..])
  }

  // ----- single-step properties -----

  /** A line changes the store exactly when it produces no violation. */
  lemma StepChangesStoreIffClear(s: Store, op: Operation)
    ensures Step(s, op).0 != s <==> Step(s, op).1.violations == []
  {
    if !IsCreateAccount(op) {
      var (next, output) := AuthorizeStep(s, op.transaction);
      if output.violations == [] {
        assert |next.transactions| == |s.transactions| + 1;
      }
    }
  }

  /** Creating an account succeeds exactly when none exists; the first account
      wins, and the log is never touched. */
  lemma CreateFirstWins(s: Store, requested: Account)
    ensures var (next, output) := CreateAccountStep(s, requested);
      && (output.violations == [] <==> !s.accountInitialized)
      && next.accountInitialized && next.transactions == s.transactions
      && (s.accountInitialized ==> next == s && output == OperationLog(ZeroAccount, [AccountAlreadyInitialized]))
      && (!s.accountInitialized ==> next.account == requested && output.account == requested)
  {
  }

  /** An account exists after a line exactly when one existed or the line
      creates it; once it exists its card status never changes; the log only
      grows, by at most one entry at its end. */
  lemma StepFrame(s: Store, op: Operation)
    ensures var next := Step(s, op).0;
      && (next.accountInitialized <==> s.accountInitialized || IsCreateAccount(op))
      && (s.accountInitialized ==> next.account.activeCard == s.account.activeCard)
      && |s.transactions| <= |next.transactions| <= |s.transactions| + 1
      && next.transactions[..|s.transactions|] == s.transactions
  {
    if !IsCreateAccount(op) && AuthorizeStep(s, op.transaction).1.violations == [] {
      ApprovalDebitsExactly(s, op.transaction);
    }
  }

  /** An approved transaction is appended to the log and debits exactly its
      amount: the clamp in `SetAccountLimit` never fires, and the card status
      is kept. */
  lemma ApprovalDebitsExactly(s: Store, transaction: Transaction)
    requires AuthorizeStep(s, transaction).1.violations == []
    ensures var (next, output) := AuthorizeStep(s, transaction);
      && s.accountInitialized && s.account.activeCard
      && transaction.amount <= s.account.availableLimit
      && next.transactions == s.transactions + [transaction]
      && next.account == Account(s.account.activeCard, s.account.availableLimit - transaction.amount)
      && ClampLimit(next.account.availableLimit) == next.account.availableLimit
      && next.accountInitialized
      && output.account == next.account
  {
  }

  /** A rejected transaction changes nothing and returns the account as it was
      (the zero account when none exists). */
  lemma RejectionChangesNothing(s: Store, transaction: Transaction)
    requires AuthorizeStep(s, transaction).1.violations != []
    ensures var (next, output) := AuthorizeStep(s, transaction);
      next == s && output.account == (if s.accountInitialized then s.account else ZeroAccount)
  {
  }

  /** Against a store without an account, every transaction gets the zero
      account and exactly `AccountNotInitialized`. */
  lemma NotInitializedShortCircuits(s: Store, transaction: Transaction)
    requires !s.accountInitialized
    ensures AuthorizeStep(s, transaction) == (s, OperationLog(ZeroAccount, [AccountNotInitialized]))
  {
  }

  /** Against an inactive card, every transaction gets the account unchanged
      and exactly `CardNotActive`, whatever the log holds. */
  lemma InactiveCardShortCircuits(s: Store, transaction: Transaction)
    requires s.accountInitialized && !s.account.activeCard
    ensures AuthorizeStep(s, transaction) == (s, OperationLog(s.account, [CardNotActive]))
  {
  }

  /** An approved transaction is seen by every later window query that starts
      before its instant. */
  lemma ApprovedIsVisibleLater(s: Store, transaction: Transaction, time: int)
    requires AuthorizeStep(s, transaction).1.violations == []
    requires time < transaction.createdAt
    ensures transaction in After(AuthorizeStep(s, transaction).0.transactions, time)
  {
    AfterAppend(s.transactions, transaction, time);
  }

  /** An approved transaction stays visible: after any further lines, every
      window query that starts before its instant still finds it. */
  lemma {:induction false} ApprovedStaysVisible(s: Store, transaction: Transaction, ops: seq<Operation>, time: int)
    requires AuthorizeStep(s, transaction).1.violations == []
    requires time < transaction.createdAt
    ensures transaction in After(Run(AuthorizeStep(s, transaction).0, ops).0.transactions, time)
  {
    var next := AuthorizeStep(s, transaction).0;
    ApprovalDebitsExactly(s, transaction);
    RunKeepsHistory(next, ops);
    var last := Run(next, ops).0;
    var n := |s.transactions|;
    assert next.transactions[n] == transaction;
    assert last.transactions[n] == last.transactions[..n + 1][n] == transaction;
    assert transaction in last.transactions;
    AfterMembership(last.transactions, time);
  }

  /** Three accepted transactions strictly inside the two-minute window of an
      active account's new transaction flag it as high-frequency. */
  lemma {:induction false} HighFrequencyFlagged(s: Store, transaction: Transaction, i: int, j: int, k: int)
    requires s.accountInitialized && s.account.activeCard
    requires 0 <= i < j < k < |s.transactions|
    requires s.transactions[i].createdAt > transaction.createdAt - TwoMinutes
    requires s.transactions[j].createdAt > transaction.createdAt - TwoMinutes
    requires s.transactions[k].createdAt > transaction.createdAt - TwoMinutes
    ensures HighFrequencySmallInterval in AuthorizeStep(s, transaction).1.violations
    ensures AuthorizeStep(s, transaction).0 == s
  {
    var window := After(s.transactions, transaction.createdAt - TwoMinutes);
    WindowHoldsThree(s.transactions, transaction.createdAt - TwoMinutes, i, j, k);
    var vs := Violations(s.account, transaction, window);
    assert HighFrequencySmallInterval in vs;
    ActiveCardStep(s, transaction);
  }

  /** Three distinct log entries strictly after `time` put three entries in
      the window. */
  lemma WindowHoldsThree(log: seq<Transaction>, time: int, i: int, j: int, k: int)
    requires 0 <= i < j < k < |log|
    requires log[i].createdAt > time && log[j].createdAt > time && log[k].createdAt > time
    ensures |After(log, time)| >= 3
  {
    var idx := [i, j, k];
    assert IncreasingIndices(idx, log);
    assert forall m :: 0 <= m < |idx| ==> log[idx[m]].createdAt > time;
    AfterCountsIndices(log, time, idx);
  }

  /** An accepted transaction in the window with the same amount and merchant
      flags an active account's new transaction as a double exactly once,
      however many such duplicates there are. */
  lemma {:induction false} DoubleFlaggedOnce(s: Store, transaction: Transaction, i: int)
    requires s.accountInitialized && s.account.activeCard
    requires 0 <= i < |s.transactions|
    requires s.transactions[i].createdAt > transaction.createdAt - TwoMinutes
    requires IsDouble(s.transactions[i], transaction)
    ensures multiset(AuthorizeStep(s, transaction).1.violations)[DoubleTransaction] == 1
    ensures AuthorizeStep(s, transaction).0 == s
  {
    var window := After(s.transactions, transaction.createdAt - TwoMinutes);
    WindowHoldsDouble(s.transactions, transaction, i);
    var vs := Violations(s.account, transaction, window);
    assert DoubleTransaction in vs;
    ActiveCardStep(s, transaction);
    DecideNoRepeatedCode(s.account, None, transaction, window);
  }

  /** A logged duplicate strictly inside the window is in the window. */
  lemma WindowHoldsDouble(log: seq<Transaction>, transaction: Transaction, i: int)
    requires 0 <= i < |log|
    requires log[i].createdAt > transaction.createdAt - TwoMinutes
    requires IsDouble(log[i], transaction)
    ensures HasDouble(After(log, transaction.createdAt - TwoMinutes), transaction)
  {
    var window := After(log, transaction.createdAt - TwoMinutes);
    AfterMembership(log, transaction.createdAt - TwoMinutes);
    assert log[i] in log;
    var w :| 0 <= w < |window| && window[w] == log[i];
    assert IsDouble(window[w], transaction);
  }

  /** For an active account the step is decided by the three checks alone:
      a check that fires rejects with the account, otherwise the amount is
      debited and the transaction logged. */
  lemma ActiveCardStep(s: Store, transaction: Transaction)
    requires s.accountInitialized && s.account.activeCard
    ensures var window := After(s.transactions, transaction.createdAt - TwoMinutes);
      var vs := Violations(s.account, transaction, window);
      && (vs != [] ==>
            Decide(s.account, None, transaction, window) == Reject(s.account, vs) &&
            AuthorizeStep(s, transaction) == (s, OperationLog(s.account, vs)))
      && (vs == [] ==>
            var debited := s.account.(availableLimit := s.account.availableLimit - transaction.amount);
            AuthorizeStep(s, transaction) ==
              (s.(transactions := s.transactions + [transaction], account := debited), OperationLog(debited, [])))
  {
    var window := After(s.transactions, transaction.createdAt - TwoMinutes);
    if Violations(s.account, transaction, window) == [] {
      ActiveCardApproves(s, transaction, window);
    } else {
      ActiveCardRejects(s, transaction, window);
    }
  }

  /** The approving half of `ActiveCardStep`. */
  lemma ActiveCardApproves(s: Store, transaction: Transaction, window: seq<Transaction>)
    requires s.accountInitialized && s.account.activeCard
    requires window == After(s.transactions, transaction.createdAt - TwoMinutes)
    requires Violations(s.account, transaction, window) == []
    ensures var debited := s.account.(availableLimit := s.account.availableLimit - transaction.amount);
      AuthorizeStep(s, transaction) ==
        (s.(transactions := s.transactions + [transaction], account := debited), OperationLog(debited, []))
  {
    DecideActiveCard(s.account, transaction, window);
  }

  /** The rejecting half of `ActiveCardStep`. */
  lemma ActiveCardRejects(s: Store, transaction: Transaction, window: seq<Transaction>)
    requires s.accountInitialized && s.account.activeCard
    requires window == After(s.transactions, transaction.createdAt - TwoMinutes)
    requires Violations(s.account, transaction, window) != []
    ensures var vs := Violations(s.account, transaction, window);
      && Decide(s.account, None, transaction, window) == Reject(s.account, vs)
      && AuthorizeStep(s, transaction) == (s, OperationLog(s.account, vs))
  {
    var vs := Violations(s.account, transaction, window);
    var o := Decide(s.account, None, transaction, window);
    assert o == Reject(s.account, vs) by {
      DecideActiveCard(s.account, transaction, window);
    }
    RejectedStep(s, transaction, window, o);
  }

  /** A step whose decision is the rejection `o` prints `o` and keeps the store. */
  lemma RejectedStep(s: Store, transaction: Transaction, window: seq<Transaction>, o: Outcome)
    requires s.accountInitialized && o.Reject?
    requires window == After(s.transactions, transaction.createdAt - TwoMinutes)
    requires o == Decide(s.account, None, transaction, window)
    ensures AuthorizeStep(s, transaction) == (s, OperationLog(o.account, o.violations))
  {
  }

  // ----- invariants over a stream of lines -----

  /** What every reachable store satisfies: no account means the empty store,
      and a non-empty log means an active card whose limit is not negative. */
  ghost predicate Consistent(s: Store)
  {
    && (!s.accountInitialized ==> s.account == ZeroAccount && s.transactions == [])
    && (s.transactions != [] ==> s.account.activeCard && s.account.availableLimit >= 0)
  }

  /** A transaction passes the velocity and duplicate checks against the
      entries logged before it. */
  ghost predicate PassedChecks(prior: seq<Transaction>, transaction: Transaction)
  {
    var window := After(prior, transaction.createdAt - TwoMinutes);
    |window| < 3 && !HasDouble(window, transaction)
  }

  /** Every logged transaction passed the checks against the entries before it. */
  ghost predicate AcceptedHistory(log: seq<Transaction>)
  {
    forall k :: 0 <= k < |log| ==> PassedChecks(log[..k], log[k])
  }

  /** An approved transaction passed the velocity and duplicate checks. */
  lemma ApprovalPassedChecks(s: Store, transaction: Transaction)
    requires AuthorizeStep(s, transaction).1.violations == []
    ensures PassedChecks(s.transactions, transaction)
  {
    var window := After(s.transactions, transaction.createdAt - TwoMinutes);
    ActiveCardStep(s, transaction);
    assert Violations(s.account, transaction, window) == [];
  }

  /** Appending an entry that passed both checks keeps the history accepted. */
  lemma HistoryExtends(log: seq<Transaction>, transaction: Transaction)
    requires AcceptedHistory(log)
    requires PassedChecks(log, transaction)
    ensures AcceptedHistory(log + [transaction])
  {
    var extended := log + [transaction];
    forall k | 0 <= k < |extended|
      ensures PassedChecks(extended[..k], extended[k])
    {
      if k < |log| {
        assert extended[..k] == log[..k];
      } else {
        assert extended[..k] == log;
      }
    }
  }

  /** One line of either kind keeps both invariants. */
  lemma StepPreservesInvariants(s: Store, op: Operation)
    requires Consistent(s) && AcceptedHistory(s.transactions)
    ensures Consistent(Step(s, op).0) && AcceptedHistory(Step(s, op).0.transactions)
  {
    if !IsCreateAccount(op) {
      var transaction := op.transaction;
      if AuthorizeStep(s, transaction).1.violations == [] {
        ApprovalDebitsExactly(s, transaction);
        ApprovalPassedChecks(s, transaction);
        HistoryExtends(s.transactions, transaction);
      } else {
        RejectionChangesNothing(s, transaction);
      }
    }
  }

  /** Every store reached from a consistent store keeps both invariants. */
  lemma {:induction false} RunPreservesInvariants(s: Store, ops: seq<Operation>)
    requires Consistent(s) && AcceptedHistory(s.transactions)
    ensures Consistent(Run(s, ops).0) && AcceptedHistory(Run(s, ops).0.transactions)
    decreases |ops|
  {
    if ops != [] {
      StepPreservesInvariants(s, ops[0]);
      RunPreservesInvariants(Step(s, ops[0]).0, ops[1..]);
    }
  }

  /** The fresh store satisfies both invariants. */
  lemma EmptyStoreIsConsistent()
    ensures Consistent(EmptyStore) && AcceptedHistory(EmptyStore.transactions)
  {
  }

  /** Once an account exists, a line either changes nothing or logs its
      transaction and debits its amount. */
  lemma StepKeepsAccount(s: Store, op: Operation)
    requires s.accountInitialized
    ensures var next := Step(s, op).0;
      || next == s
      || next == s.(transactions := s.transactions + [op.transaction],
                    account := s.account.(availableLimit := s.account.availableLimit - op.transaction.amount))
  {
    if !IsCreateAccount(op) {
      if AuthorizeStep(s, op.transaction).1.violations == [] {
        ApprovalDebitsExactly(s, op.transaction);
      } else {
        RejectionChangesNothing(s, op.transaction);
      }
    }
  }

  /** Once an account exists: the log only grows at its end, the card status
      never changes, and the limit drops by exactly the amounts accepted. */
  lemma {:induction false} RunKeepsHistory(s: Store, ops: seq<Operation>)
    requires s.accountInitialized
    ensures var last := Run(s, ops).0;
      && last.accountInitialized
      && |s.transactions| <= |last.transactions|
      && last.transactions[..|s.transactions|] == s.transactions
      && last.account.activeCard == s.account.activeCard
      && last.account.availableLimit == s.account.availableLimit - Spent(last.transactions[|s.transactions|..])
    decreases |ops|
  {
    if ops != [] {
      var next := Step(s, ops[0]).0;
      assert next == s || next == s.(transactions := s.transactions + [ops[0].transaction],
                                     account := s.account.(availableLimit := s.account.availableLimit - ops[0].transaction.amount)) by {
        StepKeepsAccount(s, ops[0]);
      }
      RunKeepsHistory(next, ops[1..]);
      var last := Run(s, ops).0;
      assert last == Run(next, ops[1..]).0;
      var n := |s.transactions|;
      if next != s {
        assert last.transactions[..n + 1][..n] == last.transactions[..n];
        var added := last.transactions[n..];
        assert added[0] == ops[0].transaction;
        assert added[1..] == last.transactions[n + 1..];
      }
    }
  }

  /** A stream split in two runs as its first part followed by its second:
      the store is threaded through and the outputs are concatenated. */
  lemma {:induction false} RunConcat(s: Store, first: seq<Operation>, second: seq<Operation>)
    ensures var (middle, firstOutputs) := Run(s, first);
      Run(s, first + second) == (Run(middle, second).0, firstOutputs + Run(middle, second).1)
    decreases |first|
  {
    if first == [] {
      assert first + second == second;
      assert Run(s, first) == (s, []);
      assert [] + Run(s, second).1 == Run(s, second).1;
    } else {
      var (next, output) := Step(s, first[0]);
      assert (first + second)[0] == first[0];
      assert (first + second)[1..] == first[1..] + second;
      RunConcat(next, first[1..], second);
      var middle := Run(next, first[1..]);
      var rest := Run(middle.0, second);
      assert Run(s, first) == (middle.0, [output] + middle.1);
      assert Run(s, first + second) == (rest.0, [output] + (middle.1 + rest.1));
      assert [output] + (middle.1 + rest.1) == ([output] + middle.1) + rest.1;
    }
  }

  /** A stream whose every line steps from one listed store to the next runs
      to the last of them, printing the listed outputs in order. */
  lemma {:induction false} RunFollowsSteps(ops: seq<Operation>, states: seq<Store>, outputs: seq<OperationLog>)
    requires |states| == |ops| + 1 && |outputs| == |ops|
    requires forall i :: 0 <= i < |ops| ==> Step(states[i], ops[i]) == (states[i + 1], outputs[i])
    ensures Run(states[0], ops) == (states[|ops|], outputs)
    decreases |ops|
  {
    if ops != [] {
      assert Step(states[0], ops[0]) == (states[1], outputs[0]);
      assert forall i :: 0 <= i < |ops[1..]| ==> Step(states[1..][i], ops[1..][i]) == (states[1..][i + 1], outputs[1..][i]) by {
        forall i | 0 <= i < |ops[1..]|
          ensures Step(states[1..][i], ops[1..][i]) == (states[1..][i + 1], outputs[1..][i])
        {
          assert Step(states[i + 1], ops[i + 1]) == (states[i + 2], outputs[i + 1]);
        }
      }
      RunFollowsSteps(ops[1..], states[1..], outputs[1..]);
      assert outputs == [outputs[0]] + outputs[1..];
    }
  }

  // ----- scenarios of cmd/main_test.go -----

  /** An account-creation line. */
  function Create(activeCard: bool, availableLimit: int): Operation
  {
    Operation(Transaction(0, "", 0), Account(activeCard, availableLimit))
  }

  /** A transaction line. */
  function Authorize(amount: int, merchant: string, createdAt: int): Operation
  {
    Operation(Transaction(amount, merchant, createdAt), ZeroAccount)
  }

  /** Creating an account prints it with no violation. */
  lemma ScenarioCreateAccount()
    ensures Run(EmptyStore, [Create(false, 750)]).1 == [OperationLog(Account(false, 750), [])]
  {
  }

  /** Authorizing with no account prints the zero account and `AccountNotInitialized`. */
  lemma ScenarioAccountNotInitialized(amount: int, merchant: string, createdAt: int)
    ensures Run(EmptyStore, [Authorize(amount, merchant, createdAt)]).1 ==
      [OperationLog(ZeroAccount, [AccountNotInitialized])]
  {
  }

  /** Authorizing against an inactive card prints the account and `CardNotActive`. */
  lemma ScenarioCardNotActive(amount: int, merchant: string, createdAt: int)
    ensures Run(EmptyStore, [Create(false, 100), Authorize(amount, merchant, createdAt)]).1 ==
      [OperationLog(Account(false, 100), []), OperationLog(Account(false, 100), [CardNotActive])]
  {
  }

  // The multiple-violations example, with every instant relative to `start`.

  function BurgerKing(start: int): Transaction { Transaction(10, "Burger King", start) }
  function Habbibs(start: int): Transaction { Transaction(20, "Habbib's", start + Minute / 2) }
  function McDonalds(start: int): Transaction { Transaction(5, "McDonald's", start + Minute) }
  function McDonaldsAgain(start: int): Transaction { Transaction(5, "McDonald's", start + Minute + Minute / 2) }
  function Nike(start: int): Transaction { Transaction(150, "Nike", start + Minute + Minute / 2) }
  function Uber(start: int): Transaction { Transaction(190, "Uber", start + Minute + Minute / 2) }
  function UberEats(start: int): Transaction { Transaction(15, "Uber Eats", start + 4 * Minute) }

  /** The store after the three approvals. */
  function ThreeApproved(start: int): Store
  {
    Store([BurgerKing(start), Habbibs(start), McDonalds(start)], Account(true, 65), true)
  }

  /** The first four lines of the example: the account and three purchases. */
  function OpeningLines(start: int): seq<Operation>
  {
    [ Create(true, 100),
      Operation(BurgerKing(start), ZeroAccount),
      Operation(Habbibs(start), ZeroAccount),
      Operation(McDonalds(start), ZeroAccount) ]
  }

  /** The last four lines of the example. */
  function ClosingLines(start: int): seq<Operation>
  {
    [ Operation(McDonaldsAgain(start), ZeroAccount),
      Operation(Nike(start), ZeroAccount),
      Operation(Uber(start), ZeroAccount),
      Operation(UberEats(start), ZeroAccount) ]
  }

  /** The lines of the example. */
  function MultipleViolationsInput(start: int): seq<Operation>
  {
    OpeningLines(start) + ClosingLines(start)
  }

  /** The first purchase is approved and debited from the new account. */
  lemma ScenarioFirstApproval(start: int)
    ensures Step(Store([], Account(true, 100), true), Operation(BurgerKing(start), ZeroAccount)) ==
      (Store([BurgerKing(start)], Account(true, 90), true), OperationLog(Account(true, 90), []))
  {
    var s, t := Store([], Account(true, 100), true), BurgerKing(start);
    ActiveCardStep(s, t);
    assert After([], t.createdAt - TwoMinutes) == [];
    assert Violations(s.account, t, []) == [];
    assert [] + [t] == [t];
  }

  /** The second purchase, half a minute later at another merchant, is approved. */
  lemma ScenarioSecondApproval(start: int)
    ensures Step(Store([BurgerKing(start)], Account(true, 90), true), Operation(Habbibs(start), ZeroAccount)) ==
      (Store([BurgerKing(start), Habbibs(start)], Account(true, 70), true), OperationLog(Account(true, 70), []))
  {
    var b, t := BurgerKing(start), Habbibs(start);
    var s := Store([b], Account(true, 90), true);
    ActiveCardStep(s, t);
    AfterAppend([], b, t.createdAt - TwoMinutes);
    assert [] + [b] == [b];
    var window := [b];
    assert !IsDouble(window[0], t);
    assert Violations(s.account, t, window) == [];
    assert [b] + [t] == [b, t];
  }

  /** The third purchase, a minute after the first, is approved. */
  lemma ScenarioThirdApproval(start: int)
    ensures Step(Store([BurgerKing(start), Habbibs(start)], Account(true, 70), true), Operation(McDonalds(start), ZeroAccount)) ==
      (ThreeApproved(start), OperationLog(Account(true, 65), []))
  {
    var b, h, t := BurgerKing(start), Habbibs(start), McDonalds(start);
    var s := Store([b, h], Account(true, 70), true);
    var time := t.createdAt - TwoMinutes;
    ActiveCardStep(s, t);
    AfterAppend([], b, time);
    AfterAppend([b], h, time);
    assert [] + [b] == [b];
    assert [b] + [h] == [b, h];
    var window := [b, h];
    assert !IsDouble(window[0], t) && !IsDouble(window[1], t);
    assert Violations(s.account, t, window) == [];
    assert [b, h] + [t] == [b, h, t];
  }

  /** Every approved entry is inside the window of an instant less than a
      minute after the last one, and none is inside it two minutes later. */
  lemma ThreeApprovedWindows(start: int, createdAt: int)
    ensures start + Minute <= createdAt < start + 2 * Minute ==>
      After(ThreeApproved(start).transactions, createdAt - TwoMinutes) == ThreeApproved(start).transactions
    ensures createdAt >= start + 3 * Minute ==>
      After(ThreeApproved(start).transactions, createdAt - TwoMinutes) == []
  {
    var b, h, m := BurgerKing(start), Habbibs(start), McDonalds(start);
    var time := createdAt - TwoMinutes;
    AfterAppend([], b, time);
    AfterAppend([b], h, time);
    AfterAppend([b, h], m, time);
    assert [] + [b] == [b];
    assert [b] + [h] == [b, h];
    assert [b, h] + [m] == [b, h, m];
  }

  /** The repeated purchase meets a full window that holds its duplicate. */
  lemma DoubleRejectedViolations(start: int)
    ensures Violations(ThreeApproved(start).account, McDonaldsAgain(start), ThreeApproved(start).transactions) ==
      [HighFrequencySmallInterval, DoubleTransaction]
  {
    var window := ThreeApproved(start).transactions;
    assert IsDouble(window[2], McDonaldsAgain(start));
  }

  /** The repeated purchase is rejected for velocity and duplication; nothing changes. */
  lemma ScenarioDoubleRejected(start: int)
    ensures Step(ThreeApproved(start), Operation(McDonaldsAgain(start), ZeroAccount)) ==
      (ThreeApproved(start), OperationLog(Account(true, 65), [HighFrequencySmallInterval, DoubleTransaction]))
  {
    ThreeApprovedWindows(start, McDonaldsAgain(start).createdAt);
    ActiveCardStep(ThreeApproved(start), McDonaldsAgain(start));
    DoubleRejectedViolations(start);
  }

  /** A transaction over the limit that duplicates nothing approved. */
  lemma ScenarioOverLimitRejected(start: int, transaction: Transaction)
    requires transaction == Nike(start) || transaction == Uber(start)
    ensures Step(ThreeApproved(start), Operation(transaction, ZeroAccount)) ==
      (ThreeApproved(start), OperationLog(Account(true, 65), [InsufficientLimit, HighFrequencySmallInterval]))
  {
    ThreeApprovedWindows(start, transaction.createdAt);
    ActiveCardStep(ThreeApproved(start), transaction);
    var window := ThreeApproved(start).transactions;
    assert forall i :: 0 <= i < |window| ==> window[i].amount < 100;
    assert !HasDouble(window, transaction);
    assert Violations(ThreeApproved(start).account, transaction, window) ==
      [InsufficientLimit, HighFrequencySmallInterval];
  }

  /** Four minutes after the first purchase the window is empty again and a
      small purchase is approved. */
  lemma ScenarioWindowMovesOn(start: int)
    ensures Step(ThreeApproved(start), Operation(UberEats(start), ZeroAccount)) ==
      (ThreeApproved(start).(transactions := ThreeApproved(start).transactions + [UberEats(start)],
                             account := Account(true, 50)),
       OperationLog(Account(true, 50), []))
  {
    ThreeApprovedWindows(start, UberEats(start).createdAt);
    ActiveCardStep(ThreeApproved(start), UberEats(start));
    assert Violations(ThreeApproved(start).account, UberEats(start), []) == [];
  }

  /** The first four lines of the example, from the fresh store: the account
      is created and the three purchases are approved. */
  lemma ScenarioThreeApprovals(start: int)
    ensures Run(EmptyStore, OpeningLines(start)) ==
      (ThreeApproved(start),
       [OperationLog(Account(true, 100), []), OperationLog(Account(true, 90), []),
        OperationLog(Account(true, 70), []), OperationLog(Account(true, 65), [])])
  {
    var ops := OpeningLines(start);
    var states := [EmptyStore, Store([], Account(true, 100), true), Store([BurgerKing(start)], Account(true, 90), true),
                   Store([BurgerKing(start), Habbibs(start)], Account(true, 70), true), ThreeApproved(start)];
    var outputs := [OperationLog(Account(true, 100), []), OperationLog(Account(true, 90), []),
                    OperationLog(Account(true, 70), []), OperationLog(Account(true, 65), [])];
    forall i | 0 <= i < |ops|
      ensures Step(states[i], ops[i]) == (states[i + 1], outputs[i])
    {
      if i == 0 {
      } else if i == 1 {
        ScenarioFirstApproval(start);
      } else if i == 2 {
        ScenarioSecondApproval(start);
      } else {
        ScenarioThirdApproval(start);
      }
    }
    RunFollowsSteps(ops, states, outputs);
  }

  /** The last four lines of the example, from the store after the approvals. */
  lemma ScenarioAfterThreeApprovals(start: int)
    ensures Run(ThreeApproved(start), ClosingLines(start)).1 == [
        OperationLog(Account(true, 65), [HighFrequencySmallInterval, DoubleTransaction]),
        OperationLog(Account(true, 65), [InsufficientLimit, HighFrequencySmallInterval]),
        OperationLog(Account(true, 65), [InsufficientLimit, HighFrequencySmallInterval]),
        OperationLog(Account(true, 50), [])
      ]
  {
    var ops, three := ClosingLines(start), ThreeApproved(start);
    var last := three.(transactions := three.transactions + [UberEats(start)], account := Account(true, 50));
    var states := [three, three, three, three, last];
    var outputs := [OperationLog(Account(true, 65), [HighFrequencySmallInterval, DoubleTransaction]),
                    OperationLog(Account(true, 65), [InsufficientLimit, HighFrequencySmallInterval]),
                    OperationLog(Account(true, 65), [InsufficientLimit, HighFrequencySmallInterval]),
                    OperationLog(Account(true, 50), [])];
    forall i | 0 <= i < |ops|
      ensures Step(states[i], ops[i]) == (states[i + 1], outputs[i])
    {
      if i == 0 {
        ScenarioDoubleRejected(start);
      } else if i == 1 {
        ScenarioOverLimitRejected(start, Nike(start));
      } else if i == 2 {
        ScenarioOverLimitRejected(start, Uber(start));
      } else {
        ScenarioWindowMovesOn(start);
      }
    }
    RunFollowsSteps(ops, states, outputs);
  }

  /** The multiple-violations example, started at any instant: three
      approvals, a velocity-and-duplicate rejection, two limit-and-velocity
      rejections, and an approval once the window has moved on. */
  lemma ScenarioMultipleViolations(start: int)
    ensures Run(EmptyStore, MultipleViolationsInput(start)).1 == [
        OperationLog(Account(true, 100), []),
        OperationLog(Account(true, 90), []),
        OperationLog(Account(true, 70), []),
        OperationLog(Account(true, 65), []),
        OperationLog(Account(true, 65), [HighFrequencySmallInterval, DoubleTransaction]),
        OperationLog(Account(true, 65), [InsufficientLimit, HighFrequencySmallInterval]),
        OperationLog(Account(true, 65), [InsufficientLimit, HighFrequencySmallInterval]),
        OperationLog(Account(true, 50), [])
      ]
  {
    var opening := [OperationLog(Account(true, 100), []), OperationLog(Account(true, 90), []),
                    OperationLog(Account(true, 70), []), OperationLog(Account(true, 65), [])];
    var closing := [OperationLog(Account(true, 65), [HighFrequencySmallInterval, DoubleTransaction]),
                    OperationLog(Account(true, 65), [InsufficientLimit, HighFrequencySmallInterval]),
                    OperationLog(Account(true, 65), [InsufficientLimit, HighFrequencySmallInterval]),
                    OperationLog(Account(true, 50), [])];
    assert Run(EmptyStore, MultipleViolationsInput(start)).1 == opening + closing by {
      var middle := Run(EmptyStore, OpeningLines(start));
      RunConcat(EmptyStore, OpeningLines(start), ClosingLines(start));
      assert middle == (ThreeApproved(start), opening) by {
        ScenarioThreeApprovals(start);
      }
      assert Run(middle.0, ClosingLines(start)).1 == closing by {
        ScenarioAfterThreeApprovals(start);
      }
    }
  }

  // ----- the wired objects -----

  class Authorizer {
    const repository: MemoryRepository
    const accountService: AccountService
    const transactionService: TransactionService

    /** Both services share the one repository. */
    ghost predicate Wired()
    {
      && accountService.repository == repository
      && transactionService.repository == repository
      && transactionService.accountService == accountService
    }

    /** The wiring at the start of `main`. */
    constructor ()
      ensures Wired() && fresh(repository) && repository.Model() == EmptyStore
    {
      var memoryRepository := new MemoryRepository();
      var accounts := new AccountService(memoryRepository);
      var transactions := new TransactionService(memoryRepository, accounts);
      repository := memoryRepository;
      accountService := accounts;
      transactionService := transactions;
    }

    /** Handles one decoded line as `main` does, following `Step`. */
    method Process(op: Operation) returns (output: OperationLog)
      requires Wired()
      modifies repository
      ensures (repository.Model(), output) == Step(old(repository.Model()), op)
    {
      ghost var before := repository.Model();
      if IsCreateAccount(op) {
        assert Step(before, op) == CreateAccountStep(before, op.account);
        var account, err := accountService.CreateAccount(op.account.activeCard, op.account.availableLimit);
        return OperationLog(account, Errors(err));
      }
      assert Step(before, op) == AuthorizeStep(before, op.transaction);
      var account, errs := transactionService.AuthorizeTransaction(op.transaction);
      output := OperationLog(account, errs);
    }
  }
}
