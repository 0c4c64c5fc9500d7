# fairshare in Dafny

fairshare keeps a shared-expenses ledger for a group of users. Each expense has a payer, a cost and a list of debtors. The cost is split evenly over the debtor entries. The status says who must pay how much to whom, after what each pair of users owes the other has been set off.

This project models three parts of `fairshare.py`:

- **The netting engine.** `get_status_dict` builds the gross matrix of what every user owes every other user, then nets each pair so that only one direction is left. `get_status_list` flattens the non-zero entries into `(debtor, creditor, amount)` triples.
  - `Netting` (netting.dfy) models the matrix as a `map<(Name, Name), real>` and the netting pass as a recursion over the ordered pairs, in loop order. An independent closed form, `NetOwed`, is the positive part of the gross difference. The proofs connect the loop to that closed form.
  - `Status` (status.dfy) models the flattening with its exact nested-loop order.
- **The input validators** (validation.dfy, on top of the string helpers in text.dfy):
  - `validate_username` and `validate_expense_title`;
  - `validate_expense_cost`, over a stated decimal grammar;
  - `validate_expense_date`, with the Gregorian calendar and today's date as a parameter.
- **The ledger** (ledger.dfy). The tables are an immutable `Store`:
  - the users;
  - the live expenses, each with its debt rows;
  - the settlements, each with its archived expenses;
  - the id counters that play the role of `AUTOINCREMENT`.

  Every operation returns either an error kind or the new store, so an error leaves the store as it was. `Valid` is the invariant every reachable store keeps, and every operation preserves it. `LedgerStatus` (ledger_status.dfy) runs the status over the stored ledger, as `get_status_list` reads it.

Errors are the datatype `Errors.Error`. It has one case per exception class, and each validator error also records which check fired.

The test module's concrete cases are restated over the model in three modules:

- `Scenarios` covers the status tests.
- `ValidatorCases` covers the validator tests.
- `LedgerCases` covers the user-table tests.

## Model

| member | source | states |
|---|---|---|
| Text.Strip | fairshare.py:347 | the stripped string starts and ends with a non-space character, and it is empty exactly when the input is blank |
| Text.StripIsTrim | fairshare.py:347 | `strip()` removes exactly the surrounding whitespace: the result is the slice of the input between a blank prefix and a blank suffix, and it neither starts nor ends with whitespace |
| Text.StripChecks | fairshare.py:347-350 | a string differs from its strip exactly when it starts or ends with whitespace; a string equal to its strip is blank only when empty |
| Validation.ValidateUsername | fairshare.py:336-358 | accepts exactly the non-empty strings that have no surrounding whitespace, no comma and do not read as an integer, and returns the input unchanged; otherwise it fails with the reason of the first check that fails, in source order |
| Validation.ValidateExpenseTitle | fairshare.py:431-445 | accepts exactly the non-empty strings without surrounding whitespace and returns them unchanged; otherwise fails with surrounding-whitespace or blank |
| Validation.UsernameIsRestrictedTitle | fairshare.py:347-357 | a valid user name is exactly a valid title that has no comma and is not an integer literal |
| Validation.NumeralIsNotUsername | fairshare.py:353-355 | every decimal numeral, with or without a sign, is refused as a number |
| Validation.ValidateExpenseCost | fairshare.py:393-409 | accepts exactly the input that parses to a positive number, and returns that number; unparsable input is NotANumber, and a number that is not positive is NotPositive |
| Validation.CostRoundTrip | fairshare.py:403-409 | a cost written `whole.frac` is read back as the number it denotes and accepted exactly when positive; its negation is always NotPositive |
| Validation.ForeignCharacterIsNotANumber | fairshare.py:403-408 | under the model's cost grammar (see Left out), any cost containing a character that is not a digit, a point, a sign or whitespace is NotANumber |
| Validation.ParseFormatDate | fairshare.py:423 | writing a calendar date as YYYYMMDD and parsing it back gives the date |
| Validation.FormatParseDate | fairshare.py:423 | whatever parses as a date is exactly that date written YYYYMMDD |
| Validation.ValidateExpenseDate | fairshare.py:412-428 | accepts exactly the YYYYMMDD spellings of real dates not after today, and returns the string unchanged; a non-date is NotADate, and a later date is InFuture |
| Netting.Gross | fairshare.py:314-324 | the gross matrix has one entry per ordered pair of users, and each entry is the reference amount `Owed` over all expenses |
| Netting.OwedSingle | fairshare.py:320-324 | one expense adds to its payer's row one share for every occurrence of a debtor in its list, duplicates included, and nothing to any other row |
| Netting.OwedAppend | fairshare.py:320-324 | expenses contribute independently: the amounts for a concatenation of expense lists are the sums |
| Netting.OwedNotPayer | fairshare.py:320-324 | a user who paid none of the expenses is owed nothing |
| Netting.OwedNotDebtor | fairshare.py:320-324 | a user who is a debtor of none of the expenses owes nothing |
| Netting.SharesSumToCost | fairshare.py:320-324 | the shares one expense adds to its payer's row sum to its cost |
| Netting.NetStepIdempotent | fairshare.py:327-332 | the pair step applied a second time to the same pair changes nothing |
| Netting.Netting | fairshare.py:325-333 | after the pass over all ordered pairs, each entry is the positive part of the pair's gross difference. Every entry is non-negative, the diagonal is zero, and at most one direction per pair is non-zero. Each pair keeps its difference. |
| Netting.NettingIdempotent | fairshare.py:325-333 | netting an already netted matrix changes nothing |
| Netting.NettingOfNetted | fairshare.py:325-333 | any matrix of the netted shape is a fixed point of the pass |
| Netting.NettedValue | fairshare.py:327-332 | in a netted matrix each entry is the positive part of the difference between the two directions |
| Netting.StatusDict | fairshare.py:293-333 | get_status_dict has one entry per ordered pair, has the netted shape, and each entry is what the debtor owes the creditor net of the reverse direction (`NetOwed`) |
| Netting.NetOwedOpen | fairshare.py:327-332 | a net amount is non-zero exactly when one side owes more than the other, and it is then the difference |
| Status.RowDebts | fairshare.py:287-289 | the inner loop lists a debt exactly for each later payer with a non-zero entry, in user order |
| Status.Debts | fairshare.py:286-290 | the outer loop lists a debt exactly for each non-zero entry of the remaining cashers, creditor-major and then by debtor |
| Status.StatusList | fairshare.py:283-290 | the list holds a triple exactly for every non-zero matrix entry, and it is ordered creditor-major in user order |
| Status.NettedDebts | fairshare.py:286-290 | over a netted matrix every listed debt is positive, is between two different users, and never has its reverse also listed |
| Status.StatusOf | fairshare.py:272-290 | get_status_list holds `(y, x, a)` exactly when `a = NetOwed(x, y)` is non-zero, and it is ordered |
| Status.StatusOfOwed | fairshare.py:272-290 | a debt is in the status exactly when the debtor owes the creditor more than the reverse, and its amount is the difference |
| Status.StatusOfIs | fairshare.py:286-290 | any ordered list holding exactly the non-zero net amounts is the status list |
| Status.OrderedUnique | fairshare.py:286-290 | two lists in loop order with the same members are equal |
| Status.NoExpensesNoDebts | fairshare.py:283-290 | with no expenses the status list is empty |
| Ledger.Init | fairshare.py:72-139 | the freshly created database satisfies the store invariant |
| Ledger.UserName | fairshare.py:182-196 | succeeds exactly for an id in the table, returns that user's name, and fails with UserNotFound otherwise |
| Ledger.UserId | fairshare.py:165-179 | succeeds exactly for a name in the table, returns that user's id, and fails with UserNotFound otherwise |
| Ledger.GetExpense | fairshare.py:199-225 | succeeds exactly for a live expense id and returns that row; fails with ExpenseNotFound otherwise |
| Ledger.GetDebtors | fairshare.py:254-269 | the debtor list of a live expense, and the empty list for an unknown id |
| Ledger.ValidateUserId | fairshare.py:361-372 | returns the id exactly when the user exists, and UserNotFound otherwise |
| Ledger.ValidateUserIds | fairshare.py:488 | returns the list unchanged exactly when every debtor exists, and UserNotFound otherwise |
| Ledger.ValidateExpenseId | fairshare.py:375-390 | returns the id exactly when the expense exists, and ExpenseNotFound otherwise |
| Ledger.InsertUser | fairshare.py:448-462 | succeeds exactly for a valid name not yet in the table. An invalid name fails with the validator's error, and a taken one with the uniqueness error. The new user gets the next id and can be found both ways. The user counter advances by exactly one, the rest of the store and every other user's name are unchanged, and the invariant is kept. |
| Ledger.AddedUser | fairshare.py:462 | appending a fresh user under the next id makes that id and name resolve to each other and leaves every other lookup alone |
| Ledger.AddUserValid | fairshare.py:462 | appending a fresh, valid user under the next id keeps the store invariant |
| Ledger.Rename | fairshare.py:511-512 | the table after the UPDATE keeps every row's id and position and renames exactly the rows with the old name |
| Ledger.UpdateUser | fairshare.py:497-514 | the new name is validated first; an unknown old name is UserNotFound and a taken new name is the uniqueness error. On success the renamed user keeps its id, only that name changes, the rest of the store is untouched, and the invariant is kept. |
| Ledger.RenameValid | fairshare.py:511-512 | renaming to a valid name nobody else holds keeps the store invariant |
| Ledger.CheckFields | fairshare.py:484-486 | title, cost and date are checked in that order, and the first failing validator's error is returned |
| Ledger.Checked | fairshare.py:484-488 | every argument check passes exactly when the expense is admissible; the first failure is reported, in source order |
| Ledger.InsertExpense | fairshare.py:465-494 | succeeds exactly when every check passes, before anything is written. The new expense gets the next id with the parsed cost and one debt row per debtor entry, duplicates kept. Other expenses are untouched, and the invariant is kept. |
| Ledger.AddedExpense | fairshare.py:489-494 | appending an expense under the next id makes it findable with its debtors and leaves the other expenses alone |
| Ledger.UpdateExpense | fairshare.py:517-548 | an unknown id is ExpenseNotFound; otherwise the same checks as insert run, in order. On success the row with that id is overwritten and its debtor list replaced wholesale; nothing else changes, and the invariant is kept. |
| Ledger.Replace | fairshare.py:543-548 | rewrites exactly the row with the expense's id and keeps every other row and the order |
| Ledger.FindReplace | fairshare.py:543-548 | after the rewrite, looking up the rewritten id gives the new row and every other id gives what it gave before |
| Ledger.ReplaceValid | fairshare.py:543-548 | rewriting one row with a good expense keeps the store invariant |
| Ledger.Archive | fairshare.py:560-580 | the archived copies keep every live expense's cost, title, date, payer and debtors, in order, under fresh consecutive ids |
| Ledger.Settle | fairshare.py:551-582 | adds exactly one settlement with the next settle id and the given timestamp, holding a copy of every live expense under consecutive archive ids from the archive counter. The live tables are left empty. The settle and archive counters advance by one and by the number of archived expenses. Users, earlier settlements and the user and expense counters are unchanged, so expense ids are never reused. The invariant is kept. |
| Ledger.SettleValid | fairshare.py:551-582 | the store after a settle satisfies the invariant |
| LedgerStatus.NamesAreUsers | fairshare.py:142-152 | a name is among the listed user names exactly when a user has it |
| LedgerStatus.Entries | fairshare.py:244-250 | one netting record per live expense, in table order |
| LedgerStatus.EntriesWellFormed | fairshare.py:320-324 | the stored expenses, read by name, are well-formed input for the netting engine |
| LedgerStatus.LiveStatus | fairshare.py:272-290 | the stored ledger's status is undefined exactly when some live expense has no debt rows. Otherwise a debt between two users is listed exactly when its net amount over the live expenses is non-zero, with that amount. Every listed debt is positive and between two different existing users, and the list is in loop order. |
| LedgerStatus.LiveStatusIs | fairshare.py:286-290 | any list in loop order holding exactly the open debts of the stored expenses is the stored ledger's status |
| LedgerStatus.SettleClearsStatus | fairshare.py:581-582 | right after a settle the status is empty |
| Scenarios.FirstStatus | test.py:170-178 | after the first three expenses the status is user2 owes user1 5 |
| Scenarios.SecondStatus | test.py:179-184 | after six expenses the status is user1 owes user2 32.5 |
| Scenarios.AllEightTotals | test.py:202-209 | the gross amounts each way between the three users over all eight expenses |
| Scenarios.ThirdStatus | test.py:185-194 | after eight expenses and a third user, the status is the three expected debts in loop order |
| Scenarios.ThreeUserStatus | fairshare.py:286-290 | among three users where the first owes the second, both owe the third and nothing runs the other way, the status is exactly those three debts in loop order |
| Scenarios.ThreeUserDict | test.py:196-218 | the netted matrix of the eight expenses is the expected one entry by entry, zeros and diagonal included |
| ValidatorCases.UsernameWithSpace | test.py:373-376 | `a a` is a valid user name |
| ValidatorCases.UsernameSurroundedBySpace | test.py:396-400 | ` a` and `a ` are refused for surrounding whitespace |
| ValidatorCases.UsernameEmpty | test.py:384-388 | the empty string is refused as blank |
| ValidatorCases.UsernameWithComma | test.py:390-394 | `aa,bb` is refused for its comma |
| ValidatorCases.NumberUsername | test.py:378-382 | `0` is refused as a number |
| ValidatorCases.NegativeUsername | test.py:378-382 | `-5` is refused as a number |
| ValidatorCases.TitleWithSpace | test.py:442-445 | `Aa Bb` is a valid title |
| ValidatorCases.TitleSurroundedBySpace | test.py:453-457 | ` a a ` is refused for surrounding whitespace |
| ValidatorCases.CostWithCents | test.py:404-407 | `10.22` is accepted as 10.22 |
| ValidatorCases.CostNegative | test.py:409-413 | `-2.0` is refused as not positive |
| ValidatorCases.CostZero | test.py:409-413 | `0.0` is refused as not positive |
| ValidatorCases.CostNotNumbers | test.py:415-419 | `2.0b`, `a-10` and `sin(x)` are refused as not numbers |
| ValidatorCases.LeapDay | test.py:423-426 | 29 February 2012 is accepted |
| ValidatorCases.NoLeapDay | test.py:434-438 | 29 February 2013 is not a date |
| ValidatorCases.ThirtyFirstOfApril | test.py:434-438 | 31 April 2013 is not a date |
| ValidatorCases.FutureDate | test.py:428-432 | 1 January 2113 is refused as in the future |
| ValidatorCases.ShortDate | test.py:434-438 | `0101` is not a date |
| LedgerCases.FirstUser | test.py:83-86 | the first user of a fresh database gets id 1 and is found by name and by id |
| LedgerCases.SameUserTwice | test.py:63-67 | inserting the same name twice violates uniqueness |
| LedgerCases.InsertFirst | test.py:56-61 | inserting user1 into a fresh database gives the users table `(1, user1)` and moves the user counter to 2 |
| LedgerCases.InsertSecond | test.py:56-61 | inserting user2 next gives the users table `(1, user1), (2, user2)` |
| LedgerCases.RenameOfTwo | fairshare.py:497-514 | renaming the second of two users to a fresh valid name keeps its id and leaves the first user alone |
| LedgerCases.RenameSecond | test.py:69-77 | renaming user2 to user3 gives `(1, user1), (2, user3)` |
| LedgerCases.RenameUnknown | test.py:79-81 | renaming a name nobody has is UserNotFound |
| LedgerCases.UnknownExpense | test.py:163-167 | in a fresh database an expense id has no debtors and no expense |

## Left out

- SQLite, cursors, commits and the schema DDL are not modelled. The tables are the `Store` datatype, and `lastrowid` and `AUTOINCREMENT` are the store's counters.
- A failing operation returns an error and no store. A caller keeps its old store, which models "an error writes nothing", because in the source every check runs before the first write.
- The CLI is left out because it is interaction, not ledger logic. That covers `parse_args`, `add_users`, `edit_user`, `list_users`, `add_expense`, `edit_expenses`, `list_expenses`, `status`, `settle`, `confirm`, the `read_*` prompt loops and the `list_settled_expenses` stub.
- Clock access is a parameter:
  - `today` for `validate_expense_date`;
  - `stamp` for the timestamp `settle_expenses` takes from `datetime.now()`.
- Python floats are exact `real`s. Rounding, and float `==` in the netting step, are not modelled. In particular the test's `105 / 2` and `210 / 3` sums come out exact.
- Validation.ValidateExpenseCost: the grammar is an optional sign and an unsigned decimal with at most one point, after an ASCII strip. Python's `float()` also accepts exponents, `inf`, `nan`, underscores and non-ASCII decimal digits. The model refuses those.
- Ledger.InsertExpense and Ledger.UpdateExpense take the cost as its decimal spelling. In the source, callers pass a number (an `int` in the tests, the `float` from `read_expense_cost` in the command line), and `validate_expense_cost` converts it with `float()`. A numeric cost is represented here by its decimal spelling, and `CostRoundTrip` shows that a number written `whole.frac` reads back as its value. The model does not cover the `TypeError` branch for a non-numeric, non-string argument.
- Validation.ValidateUsername: the integer-literal check is an ASCII strip, an optional sign and digits. Underscores and non-ASCII digits, which `int()` accepts, are not modelled.
- Validation.ValidateExpenseDate: only eight ASCII digits parse. `strptime` also takes one-digit months and days when the total length permits. Its `%d` also takes a space before a one-digit day, so "201301 1" is 1 January 2013. Its `\d` also matches non-ASCII decimal digits. The model refuses all of these.
- Text.Strip: whitespace is the ASCII set Python's `str.isspace` recognises. Unicode whitespace is not modelled.
- `get_users_dict` and `get_users_list` are not separate operations. `SELECT u_id, u_name FROM users` has no `ORDER BY`, so the store decides the order in which the status loops visit the users. The model takes the users table's sequence order as that iteration order. Sorting by name (`get_users_list`) is display order only.
- `get_expenses` is not a separate operation. `LedgerStatus.Entries` reads the live expenses in table order. `ORDER BY e_date` only reorders the rows, and the amounts are sums, so the order does not affect them.
- Passing `u_name=True` to `get_expenses` and `get_debtors` is modelled only inside `LedgerStatus`, as `Entry`.
- LedgerStatus.LiveStatus: a live expense with no debt rows makes the source divide by zero, and the model then returns `None` instead of an exception.
- Ledger.Valid: the invariant keeps only the structural part of each validator's promise: names and titles have no surrounding whitespace, names have no comma, and costs are positive. The integer-literal and date checks are not carried into the invariant.
- Ledger.InsertUser: the database's `IntegrityError` for a taken name is the error kind `DuplicateUser`.
- Ledger.Valid: archived expense ids are not proved unique across settlements; they are only proved to lie below the archive counter.
- The insert_expense and update_expense test cases (test.py:220-365) are covered by the general contracts of `InsertExpense` and `UpdateExpense`. They are not restated as concrete cases.
