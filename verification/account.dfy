/**
 * The account record: an account number, a plain-text password and a balance.
 * Balances and amounts are exact integers (think cents) instead of `double`.
 * Every mutator of the record becomes a pure function returning the new record.
 */
module Accounts {

  datatype Account = Account(accountNo: string, password: string, balance: int)

  /** A freshly created record: the constructor's default balance is zero. */
  function Open(id: string, pwd: string): (a: Account)
    ensures a.accountNo == id && a.password == pwd
    ensures a.balance == 0
  {
    Account(id, pwd, 0)
  }

  /** Adds `amount` to the balance without any check; the caller validates it. */
  function Deposit(a: Account, amount: int): (r: Account)
    ensures r.accountNo == a.accountNo && r.password == a.password
    ensures r.balance - a.balance == amount
  {
    a.(balance := a.balance + amount)
  }

  /**
   * All-or-nothing withdrawal: succeeds exactly when `amount` does not exceed
   * the balance. The record itself does not reject non-positive amounts.
   */
  function Withdraw(a: Account, amount: int): (r: (bool, Account))
    ensures r.0 <==> amount <= a.balance
    ensures r.1.accountNo == a.accountNo && r.1.password == a.password
    ensures r.0 ==> r.1.balance == a.balance - amount
    ensures !r.0 ==> r.1 == a
    ensures a.balance >= 0 ==> r.1.balance >= 0
  {
    if amount <= a.balance then (true, a.(balance := a.balance - amount))
    else (false, a)
  }

  /** Overwrites the password without any check; the caller validates it. */
  function SetPassword(a: Account, pwd: string): (r: Account)
    ensures r.password == pwd
    ensures r.accountNo == a.accountNo && r.balance == a.balance
  {
    a.(password := pwd)
  }

  /** Withdrawing what was just deposited succeeds and restores the record. */
  lemma WithdrawUndoesDeposit(a: Account, amount: int)
    requires a.balance >= 0
    ensures Withdraw(Deposit(a, amount), amount) == (true, a)
  {
  }

  /** Restoring the previous password restores the record. */
  lemma SetPasswordUndo(a: Account, pwd: string)
    ensures SetPassword(SetPassword(a, pwd), a.password) == a
  {
  }

  /** Depositing what was just withdrawn restores the record. */
  lemma DepositUndoesWithdraw(a: Account, amount: int)
    requires Withdraw(a, amount).0
    ensures Deposit(Withdraw(a, amount).1, amount) == a
  {
  }
}
