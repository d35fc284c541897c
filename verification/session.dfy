/**
 * A session as a sequence of repository commands applied one after another,
 * the order in which the menu dispatches them. Viewing commands change
 * nothing and are not listed.
 */
module Session {
  import opened Accounts
  import opened Repository
  import opened RepositoryProperties

  datatype Command =
    | Add(id: string, pwd: string)
    | DepositCmd(id: string, amount: int)
    | WithdrawCmd(id: string, pwd: string, amount: int)
    | Close(id: string, pwd: string)
    | Modify(id: string, oldPwd: string, newPwd: string)

  function Apply(repo: Repo, c: Command): Step
  {
    match c
    case Add(id, pwd) => AddAccount(repo, id, pwd)
    case DepositCmd(id, amount) => DepositAmount(repo, id, amount)
    case WithdrawCmd(id, pwd, amount) => WithdrawAmount(repo, id, pwd, amount)
    case Close(id, pwd) => CloseAccount(repo, id, pwd)
    case Modify(id, oldPwd, newPwd) => ModifyAccount(repo, id, oldPwd, newPwd)
  }

  /** The repository after every command has run, rejected ones included. */
  function Run(repo: Repo, cs: seq<Command>): Repo
    decreases |cs|
  {
    if |cs| == 0 then repo else Run(Apply(repo, cs[0]).repo, cs[1..])
  }

  /**
   * A rejected command leaves the repository exactly as it was, and the file
   * is rewritten only after a successful one.
   */
  lemma RejectionChangesNothing(repo: Repo, c: Command)
    ensures !Apply(repo, c).outcome.Succeeded() ==> Apply(repo, c).repo == repo
  {
  }

  /** One command keeps the repository invariant. */
  lemma ApplyPreservesWellformed(repo: Repo, c: Command)
    requires Wellformed(repo)
    ensures Wellformed(Apply(repo, c).repo)
  {
    match c
    case Add(id, pwd) => AddPreserves(repo, id, pwd);
    case DepositCmd(id, amount) => DepositPreserves(repo, id, amount);
    case WithdrawCmd(id, pwd, amount) => WithdrawPreserves(repo, id, pwd, amount);
    case Close(id, pwd) => ClosePreserves(repo, id, pwd);
    case Modify(id, oldPwd, newPwd) => ModifyPreserves(repo, id, oldPwd, newPwd);
  }

  /** Any sequence of commands keeps the repository invariant. */
  lemma {:induction false} RunPreservesWellformed(repo: Repo, cs: seq<Command>)
    requires Wellformed(repo)
    ensures Wellformed(Run(repo, cs))
    decreases |cs|
  {
    if |cs| > 0 {
      ApplyPreservesWellformed(repo, cs[0]);
      RunPreservesWellformed(Apply(repo, cs[0]).repo, cs[1..]);
    }
  }

  /**
   * Create "123456" with "secret1", deposit 100.00, fail to withdraw 150.00,
   * then withdraw 50.00 with the right password, leaving 50.00 (in cents).
   */
  lemma Scenario()
    ensures var s1 := AddAccount([], "123456", "secret1");
            var s2 := DepositAmount(s1.repo, "123456", 10000);
            var s3 := WithdrawAmount(s2.repo, "123456", "secret1", 15000);
            var s4 := WithdrawAmount(s3.repo, "123456", "secret1", 5000);
            && s1.outcome == Created
            && s2.outcome == Deposited(10000)
            && s3.outcome == InsufficientOrNotFound && s3.repo == s2.repo
            && s4.outcome == Withdrawn(5000)
            && s4.repo == [Account("123456", "secret1", 5000)]
  {
  }
}
