# Bank account repository — a Dafny model

This project models the in-memory core of a console bank-account manager
(`main.cpp`). That core has two parts. The first is the `Account` record: an
account number, a plain-text password and a balance, changed by `deposit`,
`withdraw` and `setPassword`. The second is the `Bank` repository: an ordered
vector of such records with input validation, linear-scan lookups and five
mutating operations. Those operations are add, deposit, withdraw, close and
change password.

Modules, one per component:

- `Wrappers` (`wrappers.dfy`): `Option`, which stands in for the nullable `Account*` pointer.
- `Accounts` (`account.dfy`): the record and its three mutators, as pure functions.
- `Validation` (`validation.dfy`): the account-number rule `^[0-9]{6}$` and the password-length rule.
- `Repository` (`repository.dfy`): lookups, the operations and the `remove_if` compaction.
- `RepositoryProperties` (`properties.dfy`): invariant preservation, lookup effects and balance totals.
- `Session` (`session.dfy`): commands applied one after another, with the invariant kept over any run.

The repository is a `seq<Account>`. Each operation returns a `Step`, which is
the new sequence plus an `Outcome` tag that stands for the message the program
prints. The program rewrites its backing file after exactly the outcomes for
which `Outcome.Succeeded()` holds. Balances and amounts are exact integers
(cents), not `double`s.

`Unique` says that no account number occurs twice. `Wellformed` adds three
conditions: valid account numbers, valid passwords and non-negative balances.
Both are invariants that the operations preserve. They are not guaranteed from
the start, because records loaded from the file are never validated.

After a password change, the old password finds nothing only when account
numbers are unique and the new password differs from the old one.
`ModifyThenFindOld` assumes exactly these two conditions.

Strings are sequences of Unicode characters. The program's `std::string` is a
byte string, and `length()` counts bytes, so the password rule is stated on the
UTF-8 encoded length (`Validation.Utf8Length`).

## Model

| member | source | states |
|---|---|---|
| Accounts.Open | main.cpp:21-22 | the record the constructor builds when no balance is given: the given number and password and a zero balance, as used when an account is added |
| Accounts.Deposit | main.cpp:30-33 | deposit changes the balance by exactly the amount, with no check, and keeps number and password |
| Accounts.Withdraw | main.cpp:35-43 | withdraw succeeds iff amount <= balance; on success the balance drops by exactly the amount; on failure the record is unchanged; a non-negative balance stays non-negative |
| Accounts.SetPassword | main.cpp:28 | only the password changes, to exactly the new one |
| Accounts.WithdrawUndoesDeposit | main.cpp:30-43 | from a non-negative balance, withdrawing what was just deposited succeeds and restores the record |
| Accounts.SetPasswordUndo | main.cpp:28 | setting the previous password back restores the record exactly |
| Accounts.DepositUndoesWithdraw | main.cpp:30-43 | depositing what a successful withdrawal took restores the record |
| Validation.Utf8Length | main.cpp:71 | the byte length `length()` reports: at least the number of characters and at most four times it, and equal to it for ASCII text |
| Validation.IsValidAccountNumber | main.cpp:63-67 | the account-number rule: six decimal digits; every accepted number is exactly six bytes long |
| Validation.IsValidPassword | main.cpp:69-72 | the password rule: at least six bytes; any six characters pass, a passing password has at least two characters, and for ASCII text the rule is exactly "at least six characters" |
| Validation.MatchAccountNumber | main.cpp:63-67 | the anchored scan accepts iff the string has length 6 and every character is in '0'..'9' |
| Validation.AccountNumberExamples | main.cpp:63-67 | "123456" is accepted; "12345", "1234567" and "12a456" are rejected |
| Validation.PasswordExamples | main.cpp:69-72 | "abc12" (5 characters) is rejected and "secret1" accepted; three two-byte characters (6 bytes) are accepted and two (4 bytes) are rejected |
| Repository.Matches | main.cpp:143 | the id+password test shared by lookup and close: a record matches iff it is exactly (id, pwd) with some balance |
| Repository.FindById | main.cpp:153-161 | returns the index of the first record with that number, and none iff no record has it |
| Repository.FindAccount | main.cpp:139-149 | returns the index of the first record whose number and password both match, and none iff no record matches |
| Repository.AccountExists | main.cpp:106-111 | true iff some record carries the number |
| Repository.ViewAccount | main.cpp:151-163 | finds a record by number alone: the first such record, and none iff the number is absent |
| Repository.AddAccount | main.cpp:116-137 | rejects an invalid number, then a short password, then an existing number, in that order, and leaves the sequence unchanged; otherwise appends exactly (id, pwd, 0), after which the number exists |
| Repository.DepositAmount | main.cpp:165-184 | a non-positive amount or an absent number changes nothing; otherwise only the first record with that number changes, its balance rising by exactly the amount, and the reported balance is the new one |
| Repository.WithdrawAmount | main.cpp:186-204 | succeeds iff amount > 0, an id+password match exists and the first match holds at least the amount; otherwise nothing changes, and a missing match and a short balance give the same outcome; on success only that record changes, dropping by exactly the amount |
| Repository.Kept | main.cpp:222-226 | no survivor matches the credentials; nothing is lost iff nothing matched, and then the sequence is unchanged |
| Repository.KeptMembers | main.cpp:222-230 | a record survives a close iff it was present and does not match both number and password |
| Repository.KeptAppend | main.cpp:222-230 | removal distributes over concatenation, so survivors keep their original relative order |
| Repository.RemoveIf | main.cpp:222-230 | the write-cursor compaction followed by erase yields exactly the survivors, and the cursor differs from the old end iff some record matched |
| Repository.CloseAccount | main.cpp:220-238 | succeeds iff some record matches number and password; on success the sequence is exactly the survivors and is shorter; otherwise it is unchanged |
| Repository.ModifyAccount | main.cpp:240-259 | a short new password or no id+old-password match changes nothing; otherwise only the first match changes: its password becomes the new one and its number and balance stay |
| RepositoryProperties.KeptUnique | main.cpp:222-230 | removing records keeps account numbers distinct |
| RepositoryProperties.KeptWellformed | main.cpp:222-230 | removing records keeps the whole repository invariant |
| RepositoryProperties.AddPreserves | main.cpp:116-137 | adding keeps uniqueness and the repository invariant and leaves the total balance unchanged |
| RepositoryProperties.DepositPreserves | main.cpp:165-184 | deposit keeps uniqueness and the invariant; a successful deposit raises the total balance by exactly the amount |
| RepositoryProperties.WithdrawPreserves | main.cpp:186-204 | withdrawal keeps uniqueness and the invariant (balances stay non-negative); a successful one lowers the total by exactly the amount |
| RepositoryProperties.ClosePreserves | main.cpp:220-238 | close keeps uniqueness and the invariant and never raises the total balance |
| RepositoryProperties.ModifyPreserves | main.cpp:240-259 | a password change keeps uniqueness and the invariant and leaves the total balance unchanged |
| RepositoryProperties.CloseRemovesAccount | main.cpp:220-238 | with unique numbers, after a successful close the number no longer exists |
| RepositoryProperties.ModifyThenFindNew | main.cpp:240-259 | after a password change, the number with the new password finds a record |
| RepositoryProperties.ModifyThenFindOld | main.cpp:240-259 | with unique numbers and a changed password, the number with the old password finds nothing |
| RepositoryProperties.AddThenDeposit | main.cpp:116-184 | a newly created account accepts a positive deposit, and its reported balance is exactly that deposit |
| Session.RejectionChangesNothing | main.cpp:116-259 | every command whose outcome does not trigger a file rewrite leaves the repository unchanged |
| Session.ApplyPreservesWellformed | main.cpp:116-259 | any single command keeps the repository invariant |
| Session.RunPreservesWellformed | main.cpp:116-259 | any sequence of commands keeps the repository invariant |
| Session.Scenario | main.cpp:116-204 | create 123456/secret1, deposit 100.00, fail to withdraw 150.00 with the balance unchanged, then withdraw 50.00, leaving 50.00 |

## Left out

- Loading and saving (`loadAccounts`, `saveAccounts`, main.cpp:74-104): stream I/O on `accounts.txt`. A save is represented only by `Outcome.Succeeded()`. Because of this, no save/load round trip is stated.
- `toString` (main.cpp:45-48): its text depends on `std::to_string` of a `double`.
- `viewAllAccounts` (main.cpp:206-218): it only prints every record in order. It has no effect on the repository.
- Console messages: they are replaced by the `Outcome` tags. Success messages carry the new balance they print.
- The menu loop, input parsing and `clearInputBuffer` (main.cpp:262-391): interactive glue. `Session.Run` stands in for the sequence of dispatched operations.
- `std::regex`: it is replaced by the character predicate `Validation.IsValidAccountNumber` and the scan `Validation.MatchAccountNumber`.
- IEEE `double` balances and amounts: they are modelled as exact integers. Rounding, NaN and infinities are not modelled.
- Validation.IsValidPassword: the program counts the bytes of whatever `getline` read. The model counts the bytes of the UTF-8 encoding of a character string. A byte string that is not valid UTF-8 cannot be represented, so the rule is not modelled for such input.
