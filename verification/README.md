# PPE warehouse: a verified model

The program keeps a warehouse of protective equipment in CSV files: items with a stock
quantity, users, issue transactions, returns, and the accounts that may log in. This project
models its stock ledger, the pages computed from it, and its accounts and sessions, and
proves what the program promises about them.

Six things are hard about it, and they are what the proofs are about.

**The ledger is an interleaved protocol** (`Ledger`, `Conservation`, `Integrity`,
`PartialReturns`, `ReturnTotals`). One mutex is held per repository call, but an issue or a return
makes up to five such calls, changing stock before the ledger row exists. A run is any sequence
of single repository calls by any number of calls in flight, any of which may fail. Over all
runs: stock is conserved once open and stranded quantities are counted, it is never negative, and
all references stay intact. The partial-return rule is not a property of all runs: it holds in
every run in which no two returns of one issue overlap between listing the returns and appending
the row, and the exact condition is proved in two forms, one about the check and one about
the state it leaves. Two overlapping returns can break it from every consistent state.

**The machine has 64-bit integers** (`Machine`, `Int64`, `Overflow`). The theorems above are about
exact integers; the classes are proved against the protocol in wrapping arithmetic. The
two are tied together exactly: a run of one is a run of the other if and only if no sum exceeds
64 bits, stock stays non-negative on the machine if and only if every credit finds
room, and conservation holds on the machine in every run up to multiples of 2^64. Without
those conditions the rules fail: from every consistent state in which an issue has a recorded
return, one single undisturbed request over-returns it and, if the item is in stock, drives
the stock below zero; and without a recorded return no single request can.

**The code takes its steps by loops over files** (`Records`, `Repositories`, `StockService`).
The repositories are classes over a list of records, with the loops of the source; each method is
proved equal to one step of the machine's protocol, and each service operation to one uninterrupted
path of it, which is itself a run. Files that do not parse are covered: they read as failing.

**The dashboard is a nest of loops over maps** (`DashboardModel`, `Dashboard`,
`DashboardRows`, `DashboardFacts`, `ReturnForm`, `Dates`, `Ordering`, `Sums`). Its methods keep the maps, nested
maps and sorted key lists of the source; its figures are proved equal to sums over the rows for
every filter, and its totals are tied back to the conservation law, with the exact error when its
three reads fall into different states of a run. The return form is proved to offer exactly what
`ReturnItem` accepts.

**Accounts are updated by unlocked read-modify-write** (`Accounts`, `AuthService`, `AccountFacts`). Identity fields
and uniqueness survive every interleaving. Approval and forced reset do not: they hold in
every later schedule exactly when no stale copy of the account is waiting to be written, and
from every state a schedule leads to such a copy and to the lost update.

**Access depends on a history** (`Sessions`, `Gate`, `GateFacts`). Who is let through is proved to be a function
of the log of logins, logouts, registrations and edits, although the program keeps only a map with
lazy eviction and the current account rows; sessions are traced back to passwords that the stored
hash verified, and a new password to the hash it put there; serving an entry through the classes keeps them equal
to what the log says.

`Users` and `Upload` add the name resolution that feeds the stock service, with the race between its
two calls and the condition under which its own role check agrees with the service's, and the
accounting of an uploaded sheet. `Texts` holds the text functions of the libraries.

## Assumptions

- Reading and writing a file either works or fails and changes nothing (`Disk`). A record whose field
  count differs from the header's, or a malformed number, fails the whole read.
- Fresh IDs, tokens and the clock are arbitrary inputs, and so is what the hasher makes of each
  password in each call. `Add` rejects a duplicate ID.
  Only the session proofs need a monotone clock.
- Conservation needs no starting assumption. Never-negative needs non-negative starting stock.
  The partial-return bound needs distinct issue IDs and returns that name a recorded issue and
  stay within it (`Tracked`, `Safe`). Theorems that mention `Inv` need fully consistent rows.
- The seed rows of the store are proved to satisfy all of these. The CSV files under `data/` satisfy
  `Tracked` and `Safe`, having no returns (`PartialReturns.NoReturnsIsSafe`), but not `Inv`: TX-001 and
  TX-002 name items that items.csv does not have, and their issuer USR-001 has another role.
- Integers are exact in `Ledger`, `Conservation`, `Integrity`, `PartialReturns`, `ReturnForm` and the
  dashboard, and 64-bit in `Machine`, `Int64`, `Overflow`, the classes and the upload's quantity column.
- A string is a sequence of bytes. Trimming, lower-casing, case folding, calendar parsing and
  password verification are abstract functions; `TextLaws` lists the laws used.
- `introduced` is starting stock plus what was already out, plus each quantity stored by `AddItem`.

## Where code and comments disagree

- "Partial returns cannot exceed the issue" (transactions_service.go:130) and "never allow negative
  inventory" (transactions_service.go:56): a return of 9223372036854775807, which the return form
  passes on (transactions_handler.go:212), overflows the sum of the bound check once anything was returned, is recorded, and
  wraps the stock to a negative number (`Overflow.OneCallBreaksBothRules`). It takes no concurrency.
- The same rule also fails when two returns of one issue overlap
  (`PartialReturns.OverlapCanExceedIssue`).
- "ISO-8601 timestamp sorts lexicographically" (transactions_service.go:38): true of the stamps the
  service writes, false between a seeded row and a row written earlier on the same day, because the
  seed uses a space where the service writes a `T` (`Dates.MixedStampOrder`).
- "tolerate malformed/short lines" (csv_items.go:144): the CSV reader takes the field count from the
  header, so a short line among full ones fails the whole read before the skip is reached, and so
  does one malformed number. The skip applies to all lines of a file or to none
  (`Records.ReadsAllOrNothing`).
- "Newest first" (home_handler.go:212): the options are sorted by ID, which is random. The form is
  modelled as any ordering.
- The name lookup accepts a role whatever its case and spacing, the stock service only the exact
  word (`Users.CapitalisedRoleIsRefused`).

## Model

| member | source | states |
|---|---|---|
| Conservation.StockIsConserved | internal/services/transactions_service.go:105-201 | in every run, per item and overall: stock + recorded issues - recorded returns + debits without a row - credits without a row = introduced |
| Conservation.SettledBooksBalance | internal/services/transactions_service.go:105-201 | with nothing half-done or stranded: stock + issued - returned = introduced |
| Conservation.StockNeverNegative | internal/storage/csv_items.go:70-97 | on exact integers no interleaving makes a stock negative, though the service's own stock test reads a stale value; Int64.StockStaysIffRoom says when the machine keeps this |
| Conservation.DebitsNeverExceedSupply | internal/services/transactions_service.go:90-108 | debits of a run exceed starting stock and additions by at most the credits of that run, and not at all without credits |
| Conservation.NextKeepsBalance | internal/services/transactions_service.go:57-202 | any one repository call changes the balance by exactly what `AddItem` stored |
| Conservation.DebitLowersStock | internal/storage/csv_items.go:70-97 | a successful debit lowers exactly the stock it names by exactly its quantity |
| Conservation.CreditRaisesStock | internal/storage/csv_items.go:99-121 | a successful credit raises exactly the stock it names by exactly its quantity |
| Ledger.MovementsAreExact | internal/storage/csv_items.go:70-121 | when a debit or credit succeeds, the error otherwise, and that it changes one quantity and no other field or row |
| Ledger.FailingMovements | internal/storage/csv_items.go:70-121 | a failing disk is told as such unless the movement is refused for itself |
| Machine.FailingReadsAreTold | internal/services/transactions_service.go:71-174 | a failing read is told as such at every one of the six reads |
| Integrity.BooksStayConsistent | internal/services/transactions_service.go:110-197 | in every run, returns point to recorded issues and share item and department, issues name an existing item, warehouse issuer and recipient with the recipient's stored department; rows are only appended |
| Integrity.NextKeepsInv | internal/services/transactions_service.go:57-202 | one repository call of any call in flight keeps that, and what every call has read so far stays true |
| Integrity.LookupsSurvive | internal/storage/repositories.go:13-35 | a user or issue once found is found unchanged ever after, and an item stays in place |
| Integrity.SeedIsConsistent | internal/storage/csv_store.go:51-134 | the seeded rows satisfy the invariant |
| PartialReturns.SeedIsSafe | internal/storage/csv_store.go:98-123 | the seeded rows satisfy the partial-return bound |
| PartialReturns.NoReturnsIsSafe | internal/storage/csv_store.go:98-123 | any rows without returns and with distinct issue IDs satisfy what the bound needs |
| PartialReturns.ReturnsNeverExceedIssue | internal/services/transactions_service.go:170-201 | without overlapping returns of one issue, recorded returns never exceed it, everything else interleaving freely |
| PartialReturns.SequentialNeverOverlaps | internal/services/transactions_service.go:132-202 | one call at a time never overlaps, so the bound holds in sequential runs |
| PartialReturns.BoundCheckExactIffAlone | internal/services/transactions_service.go:170-181 | the check admits nothing too much exactly when no other return of the issue is past its own check, or the issue is fully returned; on rows that need be no more than tracked |
| PartialReturns.BoundSurvivesIffReservationFits | internal/services/transactions_service.go:170-201 | from a state with calls in flight, every way of finishing keeps the bound if and only if recorded plus promised returns fit |
| PartialReturns.OverlapCanExceedIssue | internal/services/transactions_service.go:170-201 | from every consistent state, two overlapping returns can over-return any issue that is still open |
| PartialReturns.DrainWindow | internal/services/transactions_service.go:183-201 | letting all promised returns finish records exactly what was promised |
| ReturnTotals.ReturnsWithinIssues | internal/services/transactions_service.go:170-201 | per item and overall, returned plus promised is at most issued |
| Int64.BoundCheckExactIffNoOverflow | internal/services/transactions_service.go:170-181 | in every consistent safe state the machine's bound check agrees with the exact one if and only if recorded plus requested fits in 64 bits; beyond, it passes |
| Int64.StockStaysIffRoom | internal/storage/csv_items.go:86-116 | in every interleaved machine run, stock stays non-negative throughout if and only if every credit finds room below 2^63 |
| Int64.ConservedUpToTurns | internal/services/transactions_service.go:105-201 | in every interleaved machine run, whatever overflows, the balance is what was introduced up to a multiple of 2^64 |
| Int64.RunsAgreeIffNothingOverflows | internal/services/transactions_service.go:57-202 | the machine run is the exact run step by step if and only if no sum of a bound check or of a stock exceeds 64 bits |
| Overflow.OneReturn | internal/services/transactions_service.go:132-202 | in every consistent safe state the machine accepts exactly the quantities up to the remainder and those that overflow the sum, and adds each to what is recorded |
| Overflow.OverReturnPossibleIff | internal/services/transactions_service.go:170-201 | one undisturbed return can over-return an issue if and only if the issue has a recorded return |
| Overflow.OneCallBreaksBothRules | internal/services/transactions_service.go:175-201 | from every consistent state with a recorded return, a run of one call served alone over-returns the issue and makes the stock negative exactly if there was any |
| Machine.WrapSumIsWrappedSum | internal/services/transactions_service.go:175-178 | summing with wrap-around is wrapping the exact sum |
| Machine.BoundAgreesIff | internal/services/transactions_service.go:175-181 | for 64-bit quantities the wrapped test passes exactly if the sum fits the issue or overflows, and agrees with the exact test exactly if it does not overflow |
| Machine.CreditAgreesIff | internal/storage/csv_items.go:99-121 | a credit that goes through is exact if and only if there is room, and otherwise leaves a negative stock |
| Int64.StockWithinIntroduced | internal/storage/csv_items.go:99-121 | stock, even after every promised credit, never exceeds what was introduced |
| Int64.NothingWraps | internal/storage/csv_items.go:86-116 | sizes that suffice: without overlap or stranded credits, if requests and everything introduced fit, nothing overflows and both runs are equal |
| Records.IntegersRoundTrip | internal/storage/csv_items.go:150-186 | every integer survives decimal printing and parsing, and the parser takes exactly the 64-bit ones |
| Records.DecimalIsPositional | internal/storage/csv_items.go:189 | numbers are written in base ten, without plus sign or leading zero |
| Records.NumbersAreDigits | internal/storage/csv_items.go:150 | a number is an optional sign and digits, at least one, and nothing else |
| Records.FieldsUnderTitles | internal/storage/csv_items.go:182-189 | every field of items, users, issues and returns is written under its own title |
| Records.OldLayouts | internal/storage/csv_users.go:91-101 | which field is which in four-field user records and in item records without dates |
| Records.SkippedAndMalformed | internal/storage/csv_transactions.go:84-92 | exactly which records are too short and which malformed |
| Records.ReadIs | internal/storage/csv_returns.go:66-99 | reading fails exactly when field counts differ or a record is malformed; otherwise, none being short, row i is that of record i + 1 |
| Records.FileRoundTrip | internal/storage/csv_items.go:123-193 | reading a written file gives each row as it becomes by being stored, in order |
| Records.StockCodecsAreFaithful | internal/storage/csv_transactions.go:64-136 | item, user, issue and return records of 64-bit quantities decode to the row that was encoded, with as many fields as the header, and whatever decodes is in range |
| Records.ReturnRoundTrip | internal/storage/csv_returns.go:59-140 | the same for return records |
| Records.WriteThenRead | internal/storage/csv_users.go:67-132 | reading after writing gives back the same rows |
| Records.RewritingPreservesRows | internal/storage/csv_users.go:82-110 | rewriting a readable file, of the old layout say, changes nothing read from it |
| Records.ReadsAllOrNothing | internal/storage/csv_items.go:129-148 | a file that can be read yields a row for every record after the header or for none: short records are never skipped from among full ones |
| Records.StockWidthsDecide | internal/storage/csv_users.go:86-101 | whether a record is skipped depends on its field count only, for all four layouts |
| Repositories.Table.ReadAll | internal/storage/csv_items.go:123-171 | all rows, or failure if the disk fails, field counts differ or a number is malformed or out of range |
| Repositories.Table.WriteAll | internal/storage/csv_items.go:173-193 | the rows are then what is read, or nothing changed |
| Repositories.Table.GetByID | internal/storage/csv_transactions.go:29-43 | the first row with that ID, or none |
| Repositories.Table.Add | internal/storage/csv_returns.go:42-57 | appends exactly that row unless its ID is taken; failure changes nothing |
| Repositories.ItemsRepository.DecreaseQuantityIfEnough | internal/storage/csv_items.go:70-97 | one debit of the machine's protocol, in the order of tests of the code |
| Repositories.ItemsRepository.IncreaseQuantity | internal/storage/csv_items.go:99-121 | one credit of the machine's protocol, in the order of tests of the code |
| Repositories.ListByTransactionID | internal/storage/csv_returns.go:28-40 | exactly the returns of that issue, in file order |
| Repositories.ListingKeepsOrder | internal/storage/csv_returns.go:35-39 | listing keeps file order and lists a row exactly if it is of that issue |
| Repositories.ListedQuantities | internal/services/transactions_service.go:171-178 | filtering and summing equals summing under the filter |
| Repositories.ListedWrapSum | internal/services/transactions_service.go:171-178 | also with wrap-around |
| StockService.TotalQuantity | internal/services/transactions_service.go:175-178 | the loop computes the wrapping sum |
| StockService.TransactionsService.List | internal/services/transactions_service.go:33-41 | the recorded issues, none followed by one of a later stamp |
| StockService.TransactionsService.IssueItem | internal/services/transactions_service.go:57-124 | for every disk the caller is given exactly the row that was recorded, or an error and none was; undisturbed, success exactly under the rules and the row field by field; result and files are those of the machine's protocol path, whether or not the files parse |
| StockService.IssueAnswer | internal/services/transactions_service.go:57-124 | the answer to an undisturbed issue case by case, each error in its case and order, the numbers told with a shortage, the row on success, and what is left of the stock |
| StockService.IssueToldIffRecorded | internal/services/transactions_service.go:106-123 | on any disk success is told exactly when the row is recorded |
| StockService.TransactionsService.ReturnItem | internal/services/transactions_service.go:132-202 | likewise for a return; on the machine it also succeeds when the sum overflows |
| StockService.ReturnAnswer | internal/services/transactions_service.go:132-202 | the answer to an undisturbed return case by case, likewise |
| StockService.ReturnToldIffRecorded | internal/services/transactions_service.go:184-201 | on any disk success is told exactly when the row is recorded |
| StockService.FinishIsARun | internal/services/transactions_service.go:57-202 | in either arithmetic that path is a run in which only this call moves, and it ends |
| StockService.IssueSucceedsIff | internal/services/transactions_service.go:51-124 | without faults an issue succeeds exactly under the documented rules, moves exactly the quantity into one row, and a rejection changes nothing |
| StockService.IssueIsExact | internal/services/transactions_service.go:57-124 | an issue is the same on the machine while no stock is negative |
| StockService.ReturnSucceedsIff | internal/services/transactions_service.go:126-202 | the same for a return, on exact integers |
| StockService.MachineReturnSucceedsIff | internal/services/transactions_service.go:132-202 | on the machine it succeeds under the same rules or when recorded plus requested exceeds 64 bits |
| ReturnForm.BuildReturnIssueOptions | internal/handlers/home_handler.go:174-218 | the options are the issues with remaining quantity from the one-pass map sum, by descending ID |
| ReturnForm.FormAgreesWithService | internal/handlers/home_handler.go:191-217 | an issue is offered with quantity r exactly when r is the largest quantity `ReturnItem` accepts for it |
| ReturnForm.ChoicesDistinct | internal/handlers/home_handler.go:196-210 | no issue is offered twice |
| ReturnForm.AcceptsIff | internal/services/transactions_service.go:170-181 | `ReturnItem` accepts exactly the quantities from 1 to issued minus returned |
| DashboardModel.IndexRows | internal/handlers/dashboard_handler.go:157-164 | the lookup maps, last row per key |
| DashboardModel.ByKeyAgreesWithFind | internal/handlers/dashboard_handler.go:161-164 | for distinct keys the map finds what a repository lookup finds, in whatever order rows are listed |
| DashboardModel.LastRowWins | internal/handlers/dashboard_handler.go:157-164 | with a repeated key the map holds the last row |
| DashboardModel.IssueEventsTotal | internal/handlers/dashboard_handler.go:170-196 | issue events weigh what the filtered issue rows weigh |
| DashboardModel.ReturnEventsTotal | internal/handlers/dashboard_handler.go:198-229 | return events weigh what the filtered return rows weigh |
| DashboardModel.AlertsListFirsts | internal/handlers/dashboard_handler.go:278-309 | an alert list has the first qualifying item of every product key, each key once, none missing |
| Dashboard.CollectEvents | internal/handlers/dashboard_handler.go:166-229 | the filtered events in order, and both totals as their sums |
| Dashboard.Aggregate | internal/handlers/dashboard_handler.go:231-259 | each map tallies its weight of the events by its key; the nested map by department and item |
| Dashboard.Series | internal/handlers/dashboard_handler.go:311-338 | increasing labels, the dates of the events; each entry the weight on its date |
| Dashboard.Matrix | internal/handlers/dashboard_handler.go:340-379 | increasing labels and names; each cell the issued quantity of that department and item |
| Dashboard.StockBlocks | internal/handlers/dashboard_handler.go:277-309 | total stock and both alert lists of the scoped items |
| Dashboard.Recent | internal/handlers/dashboard_handler.go:381-393 | at most ten events, descending, none left out later than one shown |
| Dashboard.Dashboard | internal/handlers/dashboard_handler.go:157-393 | all figures of the page in terms of the given rows |
| DashboardFacts.SeriesAreExact | internal/handlers/dashboard_handler.go:231-338 | over the rows: the labels of both charts are the strictly increasing days of the rows that count, each entry the number or quantity of those on its day; counts sum to the filtered issues and returns, quantities to issued plus returned |
| DashboardRows.IssueCountsIff | internal/handlers/dashboard_handler.go:170-184 | an issue counts exactly when its first ten bytes lie in the window, ends included, and its recipient, the recipient's stored department and its item pass |
| DashboardRows.ReturnCountsIff | internal/handlers/dashboard_handler.go:198-217 | likewise for a return, by who returned it and its issue's item |
| DashboardRows.DepartmentLabelIs | internal/handlers/dashboard_handler.go:242-249 | a recipient's label is the department's name, else its ID, else N/A |
| DashboardRows.SeriesByDay | internal/handlers/dashboard_handler.go:231-338 | labels and entries of the charts over the rows |
| DashboardRows.MatrixLabelsAreRows | internal/handlers/dashboard_handler.go:340-353 | departments and item names of the matrix are those of the issues that count, in strictly increasing order |
| DashboardRows.RecentAreRows | internal/handlers/dashboard_handler.go:381-393 | at most ten entries, latest first, each a row that counts with its own item name, person and stamp |
| DashboardRows.StockIsOfItemsInScope | internal/handlers/dashboard_handler.go:265-285 | total stock is that of the selected item, or of all, or of the items of rows that count under a date or person filter |
| DashboardRows.AlertsAreExact | internal/handlers/dashboard_handler.go:277-309 | low stock is fewer than ten, expiry today to thirty days on, both included; only items in scope, each product once, none missing |
| DashboardFacts.MatrixIsExact | internal/handlers/dashboard_handler.go:234-379 | for every filter: cell = filtered issue quantity, one entry per department, all cells sum to total issued |
| DashboardFacts.TotalsAreFilteredSums | internal/handlers/dashboard_handler.go:166-229 | both totals are sums over the rows that pass the filter |
| DashboardFacts.WindowTotalsAdd | internal/handlers/dashboard_handler.go:426-444 | splitting a date window at a day boundary splits both totals exactly |
| DashboardFacts.WindowIssuesSplit | internal/handlers/dashboard_handler.go:170-196 | and the issue events, none lost or repeated |
| DashboardFacts.WindowReturnsSplit | internal/handlers/dashboard_handler.go:198-229 | and the return events |
| DashboardFacts.MidnightSplits | internal/handlers/dashboard_handler.go:170-229 | cutting between a calendar day and the next splits totals and events of rows stamped in either layout exactly |
| DashboardFacts.TotalsShowLedger | internal/handlers/dashboard_handler.go:157-285 | unfiltered or by item, the three totals are the ledger's sums over the rows read, even if issues were read before returns and items before both |
| DashboardFacts.PageShowsRows | internal/handlers/dashboard_handler.go:157-393 | those totals are part of what the page shows |
| DashboardFacts.PageIsOffBy | internal/handlers/dashboard_handler.go:104-133 | with the three reads in three states of a run, the page is off the conservation law by exactly the open and stranded quantities and what was recorded between the reads |
| DashboardFacts.ShowDashboard | internal/handlers/dashboard_handler.go:104-393 | reading the files one after another and showing them gives the page of the books on file |
| DashboardFacts.DashboardReconciles | internal/handlers/dashboard_handler.go:170-285 | for a page made of one state, after every settled run without overlapping returns, unfiltered or by item: stock + issued - returned = introduced and returned <= issued |
| DashboardFacts.DashboardReconcilesSequentially | internal/handlers/dashboard_handler.go:170-285 | the same for sequential runs |
| Dates.DateKeyMonotone | internal/handlers/dashboard_handler.go:426-431 | a later timestamp never falls on an earlier day |
| Dates.WindowSplits | internal/handlers/dashboard_handler.go:433-444 | a date is in a window exactly when it is in one of its halves, never in both |
| Dates.NoRowBetweenNeighbours | internal/handlers/dashboard_handler.go:426-444 | no row stamped in either layout falls between a calendar day and the next |
| Dates.StampOrder | internal/services/utils.go:24-28 | string order of written stamps is chronological order and the date key is the day |
| Dates.LayoutsAre | internal/services/utils.go:26-28 | both timestamp layouts position by position |
| Dates.DescendingStampsAreLatestFirst | internal/services/transactions_service.go:38-39 | descending order of written stamps is latest first, and conversely |
| Dates.MixedStampOrder | internal/storage/csv_store.go:98-121 | between a seeded and a written row, string order is chronological exactly unless they share a day and the seeded one is no earlier |
| Ordering.SortedKeys | internal/handlers/dashboard_handler.go:330-334 | the strictly increasing listing of the keys, whatever order the map yields |
| Ordering.BytewiseOrder | internal/services/transactions_service.go:39 | strings compare byte by byte: a proper prefix first, else the first difference |
| Accounts.IdentityNeverChanges | internal/services/auth_service.go:98-188 | in every interleaving an account keeps ID, name, normalised email, both role flags and creation time, and IDs and emails stay distinct |
| Accounts.OnlyAdminIsDefault | internal/services/auth_service.go:163-188 | from a file without other admins, every run has at most one admin, the default one |
| Accounts.AddKeepsDistinct | internal/storage/csv_auth_accounts.go:62-83 | adding keeps IDs and normalised emails distinct despite the unlocked pre-check |
| Accounts.UpdateReplaces | internal/storage/csv_auth_accounts.go:85-110 | updating with a copy of an account replaces exactly that account |
| AccountFacts.ClashIsFirst | internal/storage/csv_auth_accounts.go:71-80 | the error of an addition is that of the first account in the way |
| AccountFacts.AppendingIs | internal/storage/csv_auth_accounts.go:62-83 | when an addition succeeds, the row it appends, and the error otherwise |
| AccountFacts.UpdateAnswer | internal/storage/csv_auth_accounts.go:85-110 | the answer to an update of any account, case by case, and every row afterwards |
| Accounts.FlagHoldsIffNoStaleCopy | internal/services/auth_service.go:98-161 | approval or forced reset holds in every later run without an opposing edit if and only if no stale copy waits to be written |
| Accounts.StaleWriteWins | internal/services/auth_service.go:98-109 | a stale copy, once written, replaces whatever was written meanwhile |
| Accounts.LostUpdateIsReachable | internal/services/auth_service.go:98-133 | from every state some schedule completes an edit that takes approval (or forces a reset) and then undoes it by writing back an edit of something else |
| AuthService.AccountsRoundTrip | internal/storage/csv_auth_accounts.go:112-187 | written accounts come back with normalised emails, and writing those again changes nothing |
| AuthService.AccountsReadIffRectangular | internal/storage/csv_auth_accounts.go:112-153 | only field counts can make reading the accounts fail |
| AccountFacts.AccountUnderTitles | internal/storage/csv_auth_accounts.go:155-187 | every field of an account is written under its own title |
| AccountFacts.AccountRecordIs | internal/storage/csv_auth_accounts.go:132-138 | short records are skipped and unrecognised flags are false |
| AuthService.AccountsRepository.GetByEmail | internal/storage/csv_auth_accounts.go:45-60 | the first account whose normalised email matches |
| AuthService.AccountsRepository.Add | internal/storage/csv_auth_accounts.go:62-83 | one protocol addition: first clash in file order, else appended |
| AuthService.AccountsRepository.Update | internal/storage/csv_auth_accounts.go:85-110 | one protocol update: email of another account, missing account, else replaced |
| AuthService.AuthFinishIsARun | internal/services/auth_service.go:98-161 | an uninterrupted operation is a run of the account protocol |
| AuthService.Service.Register | internal/services/auth_service.go:21-64 | the uninterrupted registration, whose rows and answers AccountFacts states |
| AccountFacts.RegistrationIs | internal/services/auth_service.go:21-64 | registration succeeds exactly when the four tests pass, email and ID are free, the password hashes and the disk works; it appends one account, neither approved nor admin, with a hash of the trimmed password |
| AccountFacts.RegistrationRefusal | internal/services/auth_service.go:26-37 | which argument is refused first |
| AuthService.Service.Authenticate | internal/services/auth_service.go:66-88 | the decision, which AccountFacts states over the rows |
| AccountFacts.LoginSucceedsIff | internal/services/auth_service.go:66-88 | login succeeds with an account exactly when both fields are filled in, it is the first of that email, its stored hash verifies the trimmed password, and it is admin or approved |
| AccountFacts.LoginRefusal | internal/services/auth_service.go:70-86 | which refusal in which case |
| AuthService.Service.SetApproval | internal/services/auth_service.go:98-109 | the uninterrupted approval edit, for every disk behaviour and whether or not the file parses |
| AuthService.Service.ResetPasswordByAdmin | internal/services/auth_service.go:111-133 | the uninterrupted reset, for every disk behaviour |
| AccountFacts.EditIs | internal/services/auth_service.go:98-161 | a successful edit changes one account in the fields it is for: approval keeps the hash, a reset or change stores a hash of the new password and sets or clears the forced reset; a failing one changes nothing |
| AccountFacts.EditAnswer | internal/services/auth_service.go:98-161 | the answer to an edit case by case: a change needs a current password the old hash verifies |
| AuthService.Service.ChangePassword | internal/services/auth_service.go:135-161 | the uninterrupted change, after checking the current password |
| AuthService.Service.EnsureDefaultAdmin | internal/services/auth_service.go:163-188 | the uninterrupted addition of the default admin |
| AccountFacts.DefaultAdminIs | internal/services/auth_service.go:163-188 | nothing if its email is taken, else the default admin field by field with a hash of the fixed password |
| Sessions.LookupFollowsHistory | internal/services/session_service.go:40-53 | a lookup answers what the history says: last created for that account, not deleted, not expired |
| Sessions.SessionService.Create | internal/services/session_service.go:28-38 | the new entry and expiry, all others unchanged |
| Sessions.SessionService.GetAccountID | internal/services/session_service.go:40-53 | the account of a live token; an expired token is evicted |
| Sessions.SessionService.Delete | internal/services/session_service.go:55-59 | exactly that token is gone |
| Gate.RequireAuth | internal/handlers/auth_middleware.go:12-54 | the decision over the sessions and accounts, and the eviction it causes |
| Gate.AdmittedIff | internal/handlers/auth_middleware.go:12-54 | in every sequential history, admitted exactly when the history gives the cookie a live session of the account, the account is admin or last approved, and a forced reset allows only the password form |
| GateFacts.SignedInIff | internal/handlers/auth_handler.go:36-114 | a cookie has a live session of an account exactly when its token was last given out for a login with that account's email and a password its stored hash verified, was not logged out since and is not past its lifetime |
| GateFacts.VerdictIs | internal/handlers/auth_middleware.go:15-53 | which page every visitor is shown, from the history: login, login with the cookie dropped, password form or the page under the account's name |
| GateFacts.LastPasswordDecides | internal/services/auth_service.go:111-161 | after a reset or change and until the next, a login succeeds only with a password the new hash verifies, and does with the new password |
| GateFacts.VisitEvicts | internal/services/session_service.go:44-52 | a visit leaves its own session only if still live, and every other as it was |
| Gate.Site.ServeEntry | internal/handlers/auth_handler.go:36-152 | serving an entry through the classes leaves exactly the accounts and sessions of the longer history, and shows a page exactly as decided from it |
| Gate.MarksFollowHistory | internal/services/auth_service.go:98-161 | every flag of every account is what its last successful edit set |
| Gate.ResetAndRevocationHold | internal/services/auth_service.go:98-161 | after a reset only the password form until a change succeeds; after revocation nothing until approved again |
| Gate.FlagsGuardInterleavedRuns | internal/handlers/auth_middleware.go:37-48 | the same in interleaved runs from a state without stale copies |
| Gate.AdminPagesAreForTheDefaultAdmin | internal/handlers/auth_middleware.go:56-85 | whoever passes the admin test is the default admin, in every run |
| Users.ResolutionIsStable | internal/handlers/transactions_handler.go:510-525 | a resolved name resolves to the same ID in every later state |
| Users.ResolveOrCreateResolves | internal/handlers/transactions_handler.go:557-584 | uninterrupted, success leaves the name resolvable to the returned ID and adds at most one user, only for an unknown name |
| Users.ReturnedIdResolvesIff | internal/handlers/transactions_handler.go:562-583 | with other calls between listing and adding, the name resolves to the returned ID if and only if the listing showed it or nobody of that name was added since |
| Users.TwoFirstRequestsAddTwo | internal/handlers/transactions_handler.go:562-583 | two callers that both list before either adds leave two users, and the second with an ID the name does not resolve to |
| Users.ResolvingAgainAddsNobody | internal/handlers/transactions_handler.go:557-584 | calling it again after it returned, whatever ran in between, returns the same ID and adds nobody |
| Users.RolesStayKnown | internal/services/users_service.go:35-43 | roles stay `employee` or `warehouse` in every run whose users come from the users service |
| Users.ResolvedPassesRoleCheckIff | internal/services/transactions_service.go:71-80 | a resolved ID passes the stock service's role check exactly when the stored role is `warehouse` letter for letter |
| Users.ResolvedStaysAccepted | internal/services/transactions_service.go:71-168 | with known roles it passes the checks of issue and return, at once and in every later state |
| Users.CapitalisedRoleIsRefused | internal/handlers/transactions_handler.go:566-572 | a row that resolves and is then refused |
| Users.UsersService.AddUser | internal/services/users_service.go:23-56 | stores the user or answers the error that AdditionIs states |
| Users.AdditionIs | internal/services/users_service.go:23-56 | the answer case by case; on success one row more, each field its own trimmed argument, the role in lower case |
| Users.TryResolveIs | internal/handlers/transactions_handler.go:510-525 | a name resolves to the first user whose trimmed name is the same up to case |
| Users.ResolveOrCreateIs | internal/handlers/transactions_handler.go:557-584 | the answer case by case; a newcomer has the first listed department, the generated employee number and the warehouse role |
| Users.UsersService.TryResolveUserIDByName | internal/handlers/transactions_handler.go:510-525 | the first user of that name |
| Users.UsersService.ResolveOrCreateWarehouseUserByName | internal/handlers/transactions_handler.go:557-584 | result and stored users of the resolution the lemmas speak of |
| Upload.RowsAreAccountedFor | internal/handlers/items_handler.go:157-184 | blank, rejected and added rows add up to the data rows, and the list grows by exactly the added ones in order |
| Upload.StoringOnlyRefuses | internal/handlers/items_handler.go:179-182 | storing never changes a row's verdict except from acceptable to refused |
| Upload.StoringIs | internal/handlers/items_handler.go:179-183 | an acceptable row is appended, or refused because the disk fails or its ID is taken; no other row changes anything |
| Upload.RowVerdictIs | internal/handlers/items_handler.go:161-182 | the verdict on a row from its cells: blank, incomplete, not a number, refused for its quantity or a date, or an item of its own trimmed cells |
| Upload.ComplaintsAreRows | internal/handlers/items_handler.go:171-180 | complaints name the sheet's row numbers, each rejected row once and in order |
| Upload.ItemAdditionIs | internal/services/items_service.go:24-64 | adding an item case by case; dates are compared only when both are given |
| Upload.TitlesIgnoreSpaceAndCase | internal/handlers/items_handler.go:141-145 | spaces around a title and its case do not matter |
| Upload.RowsAreJudgedAlone | internal/handlers/items_handler.go:157-184 | with fresh IDs and a working disk no row's outcome depends on another row |
| Upload.SheetUploadIsARun | internal/handlers/items_handler.go:157-184 | uploading a sheet is a run of the stock protocol, and that run introduces, of each item and overall, exactly the sum of the added rows |
| Upload.FindColumns | internal/handlers/items_handler.go:141-155 | the last column of each title, if none is missing |
| Upload.ItemsService.AddItem | internal/services/items_service.go:24-64 | trimmed fields, each error in order, else appended |
| Upload.ItemsService.UploadExcel | internal/handlers/items_handler.go:107-192 | items stored, row numbers complained about and number added are those of the row verdicts |

## Left out

- Files: creating, truncating, flushing and partial writes of a CSV file, and quoting in
  CSV text. A file is a list of records, replaced whole.
- Web: routing, cookies beyond the token, redirects, HTML, translations, error texts, chart colours,
  exports, and reading sheets from Excel files.
- Hashing, the pepper file, token and ID generation: arbitrary values.
- Unicode behaviour of trimming, lower-casing and folding, and the calendar: abstract functions.
- Departments, their repository and option lists: plain data here.
- History and home tables (`listTransactionsTableRows`, `listTransactionRows`): row by row
  relabelling, then a sort already covered by `Ordering`.
- Employees upload and adding an approved account to the employees: same shape as the item upload and
  the name resolution.
- Repositories.Table.WriteAll: a failing write is taken to leave the file as it was, where the source
  truncates it first; the file system is not modelled.
- Repositories.Table.Add: one class stands for the items, users, transactions and returns
  repositories, which differ only in record layout and error text.
- Dashboard.Series: the two-map loop that gathers the line labels is done on the union of
  the keys.
- StockService.TransactionsService.List: sorts a copy rather than in place, and says nothing of the order
  of equal stamps, as Go's sort does not.
- ReturnForm.FormAgreesWithService: on exact integers; the machine also accepts quantities that overflow
  the sum (Overflow.OneReturn), which the form does not offer.
- Int64.NothingWraps: assumes no failed append of a return, since a stranded credit can lift stock
  above what was introduced.
