/**
 * Properties relating the repository operations to each other and to the
 * repository invariants: uniqueness and well-formedness are preserved, closing
 * and password changes have the lookup effects they promise, and balances
 * move by exactly the amount deposited or withdrawn.
 */
module RepositoryProperties {
  import opened Accounts
  import opened Validation
  import opened Repository

  // ---------------------------------------------------------------------------
  // Helpers about the repository as a sequence

  /** Account numbers only: two repositories whose numbers agree position by position. */
  ghost predicate SameNumbers(repo: Repo, repo': Repo)
  {
    |repo'| == |repo| && forall k :: 0 <= k < |repo| ==> repo'[k].accountNo == repo[k].accountNo
  }

  lemma SameNumbersUnique(repo: Repo, repo': Repo)
    requires SameNumbers(repo, repo')
    ensures Unique(repo) <==> Unique(repo')
  {
  }

  /** Survivors of a close are pairwise distinct when the records were. */
  lemma {:induction false} KeptUnique(repo: Repo, id: string, pwd: string)
    requires Unique(repo)
    ensures Unique(Kept(repo, id, pwd))
  {
    if |repo| > 0 {
      var tail := repo[1..];
      assert Unique(tail) by {
        forall i, j | 0 <= i < j < |tail|
          ensures tail[i].accountNo != tail[j].accountNo
        {
          assert tail[i] == repo[i + 1] && tail[j] == repo[j + 1];
        }
      }
      KeptUnique(tail, id, pwd);
      var rest := Kept(tail, id, pwd);
      if !Matches(repo[0], id, pwd) {
        var r := [repo[0]] + rest;
        forall j | 0 < j < |r|
          ensures r[0].accountNo != r[j].accountNo
        {
          assert r[j] == rest[j - 1];
          KeptMembers(tail, id, pwd, rest[j - 1]);
          var m :| 0 <= m < |tail| && tail[m] == rest[j - 1];
          assert repo[m + 1] == tail[m];
        }
        assert Kept(repo, id, pwd) == r;
      }
    }
  }

  /** Survivors of a close keep every per-record property of the invariant. */
  lemma KeptWellformed(repo: Repo, id: string, pwd: string)
    requires Wellformed(repo)
    ensures Wellformed(Kept(repo, id, pwd))
  {
    KeptUnique(repo, id, pwd);
    var r := Kept(repo, id, pwd);
    forall k | 0 <= k < |r|
      ensures IsValidAccountNumber(r[k].accountNo) && IsValidPassword(r[k].password)
      ensures r[k].balance >= 0
    {
      KeptMembers(repo, id, pwd, r[k]);
    }
  }

  /** Replacing one record changes the total by the difference of the balances. */
  lemma {:induction false} TotalUpdate(repo: Repo, i: nat, a: Account)
    requires i < |repo|
    ensures Total(repo[i := a]) == Total(repo) - repo[i].balance + a.balance
  {
    if i > 0 {
      TotalUpdate(repo[1..], i - 1, a);
      assert repo[i := a][1..] == repo[1..][i - 1 := a];
    }
  }

  lemma {:induction false} TotalAppend(repo: Repo, a: Account)
    ensures Total(repo + [a]) == Total(repo) + a.balance
  {
    if |repo| > 0 {
      TotalAppend(repo[1..], a);
      assert (repo + [a])[1..] == repo[1..] + [a];
    }
  }

  /** With non-negative balances, removing records never raises the total. */
  lemma {:induction false} TotalKept(repo: Repo, id: string, pwd: string)
    requires forall k :: 0 <= k < |repo| ==> repo[k].balance >= 0
    ensures 0 <= Total(Kept(repo, id, pwd)) <= Total(repo)
  {
    if |repo| > 0 {
      TotalKept(repo[1..], id, pwd);
      var rest := Kept(repo[1..], id, pwd);
      if !Matches(repo[0], id, pwd) {
        assert ([repo[0]] + rest)[1..] == rest;
      } else {
        assert [] + rest == rest;
      }
    }
  }

  // ---------------------------------------------------------------------------
  // Invariant preservation, operation by operation

  lemma AddPreserves(repo: Repo, id: string, pwd: string)
    ensures Unique(repo) ==> Unique(AddAccount(repo, id, pwd).repo)
    ensures Wellformed(repo) ==> Wellformed(AddAccount(repo, id, pwd).repo)
    ensures Total(AddAccount(repo, id, pwd).repo) == Total(repo)
  {
    var r := AddAccount(repo, id, pwd);
    if r.outcome == Created {
      TotalAppend(repo, Account(id, pwd, 0));
      var repo' := r.repo;
      forall k | 0 <= k < |repo|
        ensures repo'[k] == repo[k] && repo[k].accountNo != id
      {
      }
    }
  }

  lemma DepositPreserves(repo: Repo, id: string, amount: int)
    ensures Unique(repo) ==> Unique(DepositAmount(repo, id, amount).repo)
    ensures Wellformed(repo) ==> Wellformed(DepositAmount(repo, id, amount).repo)
    ensures DepositAmount(repo, id, amount).outcome.Deposited? ==>
              Total(DepositAmount(repo, id, amount).repo) == Total(repo) + amount
  {
    var r := DepositAmount(repo, id, amount);
    if r.outcome.Deposited? {
      var i := FindById(repo, id).value;
      assert SameNumbers(repo, r.repo);
      SameNumbersUnique(repo, r.repo);
      assert r.repo == repo[i := r.repo[i]];
      TotalUpdate(repo, i, r.repo[i]);
    }
  }

  lemma WithdrawPreserves(repo: Repo, id: string, pwd: string, amount: int)
    ensures Unique(repo) ==> Unique(WithdrawAmount(repo, id, pwd, amount).repo)
    ensures Wellformed(repo) ==> Wellformed(WithdrawAmount(repo, id, pwd, amount).repo)
    ensures WithdrawAmount(repo, id, pwd, amount).outcome.Withdrawn? ==>
              Total(WithdrawAmount(repo, id, pwd, amount).repo) == Total(repo) - amount
  {
    var r := WithdrawAmount(repo, id, pwd, amount);
    if r.outcome.Withdrawn? {
      var i := FindAccount(repo, id, pwd).value;
      assert SameNumbers(repo, r.repo);
      SameNumbersUnique(repo, r.repo);
      assert r.repo == repo[i := r.repo[i]];
      TotalUpdate(repo, i, r.repo[i]);
    }
  }

  lemma ClosePreserves(repo: Repo, id: string, pwd: string)
    ensures Unique(repo) ==> Unique(CloseAccount(repo, id, pwd).repo)
    ensures Wellformed(repo) ==> Wellformed(CloseAccount(repo, id, pwd).repo)
    ensures Wellformed(repo) ==> Total(CloseAccount(repo, id, pwd).repo) <= Total(repo)
  {
    if Unique(repo) {
      KeptUnique(repo, id, pwd);
    }
    if Wellformed(repo) {
      KeptWellformed(repo, id, pwd);
      TotalKept(repo, id, pwd);
    }
  }

  lemma ModifyPreserves(repo: Repo, id: string, oldPwd: string, newPwd: string)
    ensures Unique(repo) ==> Unique(ModifyAccount(repo, id, oldPwd, newPwd).repo)
    ensures Wellformed(repo) ==> Wellformed(ModifyAccount(repo, id, oldPwd, newPwd).repo)
    ensures Total(ModifyAccount(repo, id, oldPwd, newPwd).repo) == Total(repo)
  {
    var r := ModifyAccount(repo, id, oldPwd, newPwd);
    if r.outcome == PasswordChanged {
      var i := FindAccount(repo, id, oldPwd).value;
      assert SameNumbers(repo, r.repo);
      SameNumbersUnique(repo, r.repo);
      assert r.repo == repo[i := r.repo[i]];
      TotalUpdate(repo, i, r.repo[i]);
    }
  }

  // ---------------------------------------------------------------------------
  // Lookup effects

  /** Under unique numbers, a successful close leaves no record with that number. */
  lemma CloseRemovesAccount(repo: Repo, id: string, pwd: string)
    requires Unique(repo)
    requires CloseAccount(repo, id, pwd).outcome == Closed
    ensures !AccountExists(CloseAccount(repo, id, pwd).repo, id)
  {
    var kept := Kept(repo, id, pwd);
    var i :| 0 <= i < |repo| && Matches(repo[i], id, pwd);
    forall k | 0 <= k < |kept|
      ensures kept[k].accountNo != id
    {
      KeptMembers(repo, id, pwd, kept[k]);
      var m :| 0 <= m < |repo| && repo[m] == kept[k];
      if m < i {
        assert repo[m].accountNo != repo[i].accountNo;
      } else if m > i {
        assert repo[i].accountNo != repo[m].accountNo;
      }
    }
  }

  /** After a password change the new credentials find a record. */
  lemma ModifyThenFindNew(repo: Repo, id: string, oldPwd: string, newPwd: string)
    requires ModifyAccount(repo, id, oldPwd, newPwd).outcome == PasswordChanged
    ensures FindAccount(ModifyAccount(repo, id, oldPwd, newPwd).repo, id, newPwd).Some?
  {
  }

  /**
   * Under unique numbers and a genuinely new password, the old credentials no
   * longer find anything.
   */
  lemma ModifyThenFindOld(repo: Repo, id: string, oldPwd: string, newPwd: string)
    requires Unique(repo)
    requires oldPwd != newPwd
    requires ModifyAccount(repo, id, oldPwd, newPwd).outcome == PasswordChanged
    ensures FindAccount(ModifyAccount(repo, id, oldPwd, newPwd).repo, id, oldPwd).None?
  {
  }

  /** A freshly created account takes a deposit, and its new balance is exactly that deposit. */
  lemma AddThenDeposit(repo: Repo, id: string, pwd: string, amount: int)
    requires AddAccount(repo, id, pwd).outcome == Created
    requires amount > 0
    ensures DepositAmount(AddAccount(repo, id, pwd).repo, id, amount).outcome == Deposited(amount)
  {
  }
}
