/** The account lifecycle on top of the store: create once, read, and set the
    limit (internal/core/service/account_service.go). */
module AccountServices {
  import opened Domain
  import opened Repository

  /** A negative limit is raised to zero; any other limit is kept. */
  function ClampLimit(limit: int): (clamped: int)
    ensures clamped >= 0
    ensures limit >= 0 ==> clamped == limit
    ensures limit < 0 ==> clamped == 0
  {
    if limit < 0 then 0 else limit
  }

  class AccountService {
    const repository: MemoryRepository

    /** `NewAccountService`. */
    constructor (repository: MemoryRepository)
      ensures this.repository == repository
    {
      this.repository := repository;
    }

    /** Saves a new account. Any store error becomes the zero account with
        `AccountAlreadyInitialized`; the store keeps its first account. */
    method CreateAccount(cardStatus: bool, availableLimit: int) returns (account: Account, err: Option<Violation>)
      modifies repository
      ensures repository.transactions == old(repository.transactions) && repository.accountInitialized
      ensures !old(repository.accountInitialized) ==>
        account == Account(cardStatus, availableLimit) && err == None &&
        repository.account == account
      ensures old(repository.accountInitialized) ==>
        account == ZeroAccount && err == Some(AccountAlreadyInitialized) &&
        repository.account == old(repository.account)
    {
      var saved, storeErr := repository.SaveAccount(Account(cardStatus, availableLimit));
      if storeErr.None? {
        return saved, None;
      }
      return ZeroAccount, Some(AccountAlreadyInitialized);
    }

    /** The stored account; any store error becomes the zero account with
        `AccountNotInitialized`. */
    method GetAccount() returns (account: Account, err: Option<Violation>)
      ensures err == None <==> repository.accountInitialized
      ensures repository.accountInitialized ==> account == repository.account
      ensures !repository.accountInitialized ==> account == ZeroAccount && err == Some(AccountNotInitialized)
    {
      var found, storeErr := repository.FindAccount();
      if storeErr.None? {
        return found, None;
      }
      return ZeroAccount, Some(AccountNotInitialized);
    }

    /** Writes the clamped limit and returns the account read back; a failed
        read-back is ignored and yields the zero account. Never reports an error. */
    method SetAccountLimit(limit: int) returns (account: Account)
      modifies repository
      ensures repository.account == old(repository.account).(availableLimit := ClampLimit(limit))
      ensures repository.transactions == old(repository.transactions)
      ensures repository.accountInitialized == old(repository.accountInitialized)
      ensures account == if repository.accountInitialized then repository.account else ZeroAccount
    {
      var newLimit := limit;
      if newLimit < 0 {
        newLimit := 0;
      }
      repository.UpdateAccountLimit(newLimit);
      var ignoredErr;
      account, ignoredErr := repository.FindAccount();
    }
  }
}
