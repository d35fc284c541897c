/**
 * The in-memory account repository: an ordered sequence of account records
 * searched by linear scan. Each operation is a pure function from the current
 * sequence to a `Step`: the new sequence plus an outcome tag standing for the
 * message the program prints. The file is rewritten exactly when the outcome
 * `Succeeded()`; persistence itself is not modelled.
 */
module Repository {
  import opened Wrappers
  import opened Accounts
  import opened Validation

  type Repo = seq<Account>

  datatype Outcome =
    | Created
    | InvalidAccountNumber
    | InvalidPassword
    | DuplicateAccount
    | InvalidAmount
    | AccountNotFound
    | Deposited(newBalance: int)
    | Withdrawn(newBalance: int)
    | InsufficientOrNotFound
    | Closed
    | NotFoundOrWrongPassword
    | InvalidNewPassword
    | PasswordChanged
  {
    /** The outcomes after which the program rewrites its backing file. */
    predicate Succeeded()
    {
      Created? || Deposited? || Withdrawn? || Closed? || PasswordChanged?
    }
  }

  datatype Step = Step(repo: Repo, outcome: Outcome)

  /** A record the id + password pair selects. */
  predicate Matches(a: Account, id: string, pwd: string)
    ensures Matches(a, id, pwd) <==> a == Account(id, pwd, a.balance)
  {
    a.accountNo == id && a.password == pwd
  }

  /** All account numbers are pairwise distinct (the primary-key rule). */
  ghost predicate Unique(repo: Repo)
  {
    forall i, j :: 0 <= i < j < |repo| ==> repo[i].accountNo != repo[j].accountNo
  }

  /**
   * The invariant interactive use maintains: unique, well-formed account
   * numbers, valid passwords and non-negative balances. Records read from the
   * file are not checked, so this is preserved, not guaranteed from the start.
   */
  ghost predicate Wellformed(repo: Repo)
  {
    && Unique(repo)
    && forall i :: 0 <= i < |repo| ==>
         IsValidAccountNumber(repo[i].accountNo)
         && IsValidPassword(repo[i].password)
         && repo[i].balance >= 0
  }

  /** `repo'` differs from `repo` at most at index `i`. */
  ghost predicate OnlyChanged(repo: Repo, repo': Repo, i: nat)
  {
    && |repo'| == |repo|
    && i < |repo|
    && forall k :: 0 <= k < |repo| && k != i ==> repo'[k] == repo[k]
  }

  /** Sum of all balances. */
  function Total(repo: Repo): int
  {
    if |repo| == 0 then 0 else repo[0].balance + Total(repo[1..])
  }

  // ---------------------------------------------------------------------------
  // Lookup

  /** Index of the first record with account number `id`, if any. */
  function FindById(repo: Repo, id: string): (r: Option<nat>)
    ensures r.None? <==> forall k :: 0 <= k < |repo| ==> repo[k].accountNo != id
    ensures r.Some? ==> r.value < |repo| && repo[r.value].accountNo == id
    ensures r.Some? ==> forall k :: 0 <= k < r.value ==> repo[k].accountNo != id
  {
    if |repo| == 0 then None
    else if repo[0].accountNo == id then Some(0)
    else match FindById(repo[1..], id)
      case None => None
      case Some(k) => Some(k + 1)
  }

  /** Index of the first record whose number and password both match, if any. */
  function FindAccount(repo: Repo, id: string, pwd: string): (r: Option<nat>)
    ensures r.None? <==> forall k :: 0 <= k < |repo| ==> !Matches(repo[k], id, pwd)
    ensures r.Some? ==> r.value < |repo| && Matches(repo[r.value], id, pwd)
    ensures r.Some? ==> forall k :: 0 <= k < r.value ==> !Matches(repo[k], id, pwd)
  {
    if |repo| == 0 then None
    else if Matches(repo[0], id, pwd) then Some(0)
    else match FindAccount(repo[1..], id, pwd)
      case None => None
      case Some(k) => Some(k + 1)
  }

  /** Whether some record carries account number `id`. */
  function AccountExists(repo: Repo, id: string): (b: bool)
    ensures b <==> exists k :: 0 <= k < |repo| && repo[k].accountNo == id
  {
    FindById(repo, id).Some?
  }

  /** The first record with account number `id` (no password needed), if any. */
  function ViewAccount(repo: Repo, id: string): (r: Option<Account>)
    ensures r.None? <==> !AccountExists(repo, id)
    ensures r.Some? ==> r.value.accountNo == id
    ensures r.Some? ==> exists k :: 0 <= k < |repo| && repo[k] == r.value
                          && forall j :: 0 <= j < k ==> repo[j].accountNo != id
  {
    match FindById(repo, id)
    case None => None
    case Some(i) => Some(repo[i])
  }

  // ---------------------------------------------------------------------------
  // Operations

  /**
   * Creates account `id` with password `pwd` and balance zero, rejecting an
   * invalid number, then an invalid password, then an existing number.
   */
  function AddAccount(repo: Repo, id: string, pwd: string): (r: Step)
    ensures !IsValidAccountNumber(id) ==> r.outcome == InvalidAccountNumber
    ensures IsValidAccountNumber(id) && !IsValidPassword(pwd) ==> r.outcome == InvalidPassword
    ensures (IsValidAccountNumber(id) && IsValidPassword(pwd) && AccountExists(repo, id)) ==>
              r.outcome == DuplicateAccount
    ensures r.outcome == Created <==>
              IsValidAccountNumber(id) && IsValidPassword(pwd) && !AccountExists(repo, id)
    ensures r.outcome != Created ==> r.repo == repo
    ensures r.outcome == Created ==> r.repo == repo + [Account(id, pwd, 0)]
    ensures r.outcome == Created ==> AccountExists(r.repo, id)
    ensures r.outcome.Succeeded() <==> r.outcome == Created
  {
    if !IsValidAccountNumber(id) then Step(repo, InvalidAccountNumber)
    else if !IsValidPassword(pwd) then Step(repo, InvalidPassword)
    else if AccountExists(repo, id) then Step(repo, DuplicateAccount)
    else
      var repo' := repo + [Open(id, pwd)];
      assert repo'[|repo|].accountNo == id;
      Step(repo', Created)
  }

  /**
   * Adds a positive `amount` to the first record numbered `id`; no password
   * is asked for.
   */
  function DepositAmount(repo: Repo, id: string, amount: int): (r: Step)
    ensures amount <= 0 ==> r.outcome == InvalidAmount
    ensures amount > 0 && !AccountExists(repo, id) ==> r.outcome == AccountNotFound
    ensures r.outcome.Deposited? <==> amount > 0 && AccountExists(repo, id)
    ensures !r.outcome.Deposited? ==> r.repo == repo
    ensures r.outcome.Deposited? ==>
              var i := FindById(repo, id).value;
              && OnlyChanged(repo, r.repo, i)
              && r.repo[i].accountNo == repo[i].accountNo == id
              && r.repo[i].password == repo[i].password
              && r.repo[i].balance == repo[i].balance + amount
              && r.outcome.newBalance == r.repo[i].balance
    ensures r.outcome.Succeeded() <==> r.outcome.Deposited?
  {
    if amount <= 0 then Step(repo, InvalidAmount)
    else match FindById(repo, id)
      case None => Step(repo, AccountNotFound)
      case Some(i) =>
        var a := Deposit(repo[i], amount);
        Step(repo[i := a], Deposited(a.balance))
  }

  /**
   * Takes a positive `amount` from the first record matching `id` and `pwd`,
   * provided it holds at least `amount`. A missing match and a short balance
   * give the same outcome.
   */
  function WithdrawAmount(repo: Repo, id: string, pwd: string, amount: int): (r: Step)
    ensures amount <= 0 ==> r.outcome == InvalidAmount
    ensures r.outcome.Withdrawn? <==>
              && amount > 0
              && FindAccount(repo, id, pwd).Some?
              && amount <= repo[FindAccount(repo, id, pwd).value].balance
    ensures amount > 0 && !r.outcome.Withdrawn? ==> r.outcome == InsufficientOrNotFound
    ensures !r.outcome.Withdrawn? ==> r.repo == repo
    ensures r.outcome.Withdrawn? ==>
              var i := FindAccount(repo, id, pwd).value;
              && OnlyChanged(repo, r.repo, i)
              && Matches(r.repo[i], id, pwd)
              && r.repo[i].balance == repo[i].balance - amount
              && r.outcome.newBalance == r.repo[i].balance
    ensures r.outcome.Succeeded() <==> r.outcome.Withdrawn?
  {
    if amount <= 0 then Step(repo, InvalidAmount)
    else match FindAccount(repo, id, pwd)
      case None => Step(repo, InsufficientOrNotFound)
      case Some(i) =>
        var (ok, a) := Withdraw(repo[i], amount);
        if ok then Step(repo[i := a], Withdrawn(a.balance))
        else Step(repo, InsufficientOrNotFound)
  }

  /**
   * The records that survive closing `id` with `pwd`: every record not
   * matching both, in their original order.
   */
  function Kept(repo: Repo, id: string, pwd: string): (r: Repo)
    ensures |r| <= |repo|
    ensures forall k :: 0 <= k < |r| ==> !Matches(r[k], id, pwd)
    ensures |r| == |repo| <==> forall k :: 0 <= k < |repo| ==> !Matches(repo[k], id, pwd)
    ensures |r| == |repo| ==> r == repo
  {
    if |repo| == 0 then []
    else (if Matches(repo[0], id, pwd) then [] else [repo[0]]) + Kept(repo[1..], id, pwd)
  }

  /** A record survives exactly when it was there and does not match. */
  lemma {:induction false} KeptMembers(repo: Repo, id: string, pwd: string, x: Account)
    ensures x in Kept(repo, id, pwd) <==> x in repo && !Matches(x, id, pwd)
  {
    if |repo| > 0 {
      KeptMembers(repo[1..], id, pwd, x);
      assert repo == [repo[0]] + repo[1..];
    }
  }

  /** Filtering distributes over concatenation: surviving records keep their order. */
  lemma {:induction false} KeptAppend(a: Repo, b: Repo, id: string, pwd: string)
    ensures Kept(a + b, id, pwd) == Kept(a, id, pwd) + Kept(b, id, pwd)
  {
    if |a| == 0 {
      assert a + b == b;
    } else {
      assert (a + b)[0] == a[0];
      assert (a + b)[1..] == a[1..] + b;
      KeptAppend(a[1..], b, id, pwd);
    }
  }

  /** One more scanned record extends the survivors by that record or by nothing. */
  lemma KeptSnoc(repo: Repo, i: nat, id: string, pwd: string)
    requires i < |repo|
    ensures Kept(repo[..i + 1], id, pwd)
            == Kept(repo[..i], id, pwd) + (if Matches(repo[i], id, pwd) then [] else [repo[i]])
  {
    assert repo[..i + 1] == repo[..i] + [repo[i]];
    KeptAppend(repo[..i], [repo[i]], id, pwd);
    assert [repo[i]][1..] == [];
  }

  /**
   * The erase-remove idiom: slide every surviving record down over a write
   * cursor, then cut the sequence at the cursor. `removed` is the test that
   * the returned cursor is not the old end.
   */
  method RemoveIf(repo: Repo, id: string, pwd: string) returns (kept: Repo, removed: bool)
    ensures kept == Kept(repo, id, pwd)
    ensures removed <==> exists k :: 0 <= k < |repo| && Matches(repo[k], id, pwd)
  {
    var out := repo;
    var w := 0;
    var i := 0;
    while i < |repo|
      invariant 0 <= w <= i <= |repo|
      invariant |out| == |repo|
      invariant out[..w] == Kept(repo[..i], id, pwd)
      invariant out[i..] == repo[i..]
    {
      KeptSnoc(repo, i, id, pwd);
      if !Matches(repo[i], id, pwd) {
        var out' := out[w := repo[i]];
        assert out'[..w + 1] == out[..w] + [repo[i]];
        assert out'[i + 1..] == out[i + 1..];
        out, w := out', w + 1;
      } else {
        assert out[i + 1..] == out[i..][1..];
      }
      i := i + 1;
    }
    assert repo[..i] == repo;
    kept := out[..w];
    removed := w != |repo|;
  }

  /** Removes every record matching `id` and `pwd`; fails if there is none. */
  function CloseAccount(repo: Repo, id: string, pwd: string): (r: Step)
    ensures r.outcome == Closed <==> exists k :: 0 <= k < |repo| && Matches(repo[k], id, pwd)
    ensures r.outcome != Closed ==> r.outcome == NotFoundOrWrongPassword && r.repo == repo
    ensures r.outcome == Closed ==> r.repo == Kept(repo, id, pwd) && |r.repo| < |repo|
    ensures r.outcome.Succeeded() <==> r.outcome == Closed
  {
    var kept := Kept(repo, id, pwd);
    if |kept| < |repo| then Step(kept, Closed)
    else Step(repo, NotFoundOrWrongPassword)
  }

  /**
   * Replaces the password of the first record matching `id` and `oldPwd`,
   * rejecting a too-short new password before looking the record up.
   */
  function ModifyAccount(repo: Repo, id: string, oldPwd: string, newPwd: string): (r: Step)
    ensures !IsValidPassword(newPwd) ==> r.outcome == InvalidNewPassword
    ensures r.outcome == PasswordChanged <==>
              IsValidPassword(newPwd) && FindAccount(repo, id, oldPwd).Some?
    ensures (IsValidPassword(newPwd) && r.outcome != PasswordChanged) ==>
              r.outcome == NotFoundOrWrongPassword
    ensures r.outcome != PasswordChanged ==> r.repo == repo
    ensures r.outcome == PasswordChanged ==>
              var i := FindAccount(repo, id, oldPwd).value;
              && OnlyChanged(repo, r.repo, i)
              && r.repo[i].accountNo == repo[i].accountNo == id
              && r.repo[i].balance == repo[i].balance
              && r.repo[i].password == newPwd
    ensures r.outcome.Succeeded() <==> r.outcome == PasswordChanged
  {
    if !IsValidPassword(newPwd) then Step(repo, InvalidNewPassword)
    else match FindAccount(repo, id, oldPwd)
      case None => Step(repo, NotFoundOrWrongPassword)
      case Some(i) => Step(repo[i := SetPassword(repo[i], newPwd)], PasswordChanged)
  }
}
