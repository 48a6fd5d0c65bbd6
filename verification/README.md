# Campus resource ledger — a Dafny model

This project models the borrowing ledger of a campus resource-lending
system. At the centre is `SystemManager`. It holds three ordered lists:

- the registered students;
- the resources, each with a stock count;
- the borrow transactions.

The manager changes these lists through its add, update, remove, borrow and
return operations. Each operation either succeeds or fails with a typed
error: a validation error, a not-found error or a conflict. Around it sit
small helpers:

- the non-empty and non-negative validators;
- ISO date parsing and day offsets;
- role detection from the e-mail domain;
- the sequential transaction-id generator ("T001", "T002", …).

The model also covers two more pieces:

- the `Resource` value class, a validated stock counter with a guarded
  decrement and dictionary conversion;
- the student side of the login: the student-id generator ("S001", …) and
  the case-insensitive lookup-or-register by e-mail address.

The model is functional. A `Manager` is an immutable record of three
sequences. Each operation is a function returning `Result`: either the new
state (and its value) or the error the program raises. Because every check
runs before any mutation, "on failure nothing changes" holds by
construction. Dates are a proleptic Gregorian `Date` with a day ordinal
like Python's `toordinal`. So adding days and comparing dates become
integer arithmetic.

Files:

- `wrappers.dfy`: Option, Result and the error kinds.
- `text.dfy`: ASCII `strip`, `lower`, digits.
- `numerals.dfy`: `str(n)`, `int(s)`, `zfill`.
- `seqs.dfy`: the first-match scan and the order-preserving filter.
- `calendar.dfy`: dates.
- `checks.dfy`: the module-level validators.
- `roles.dfy`: role detection.
- `sequence_ids.dfy`: "T"/"S" ids.
- `resources.dfy`: the `Resource` class.
- `ledger.dfy`: the manager's operations.
- `ledger_properties.dfy`: invariants and multi-step properties.
- `student_login.dfy`: id generation and e-mail login.

The ledger invariant `WellFormed` combines the following:

- unique student, resource and transaction ids;
- at most one open loan per (student, resource) pair;
- a return date on every returned transaction;
- non-negative stock;
- stripped keys.

It holds for the empty manager. Every operation that changes the ledger
preserves it: adding a student or a resource, updating a quantity,
removing a resource (corrected and as written), borrowing, returning, and
returning by student and resource. The listing operations change nothing.

## Model

| member | source | states |
|---|---|---|
| Checks.RequireNonempty | system_manager.py:60-64 | an all-whitespace value fails with ValidationError; otherwise the stripped value is returned, non-empty and with no surrounding whitespace |
| Checks.RequireNonemptyIdempotent | system_manager.py:60-64 | validating an already validated value returns it unchanged |
| Checks.RequireNonNegative | system_manager.py:67-76 | a negative integer fails with ValidationError, any other is returned as is |
| Checks.ParseDate | system_manager.py:46-51 | a string is accepted exactly when it reads as a date in YYYY-MM-DD form, and the date is then a real calendar date whose ISO text is the string itself; anything else is a ValidationError |
| Checks.IsoPlusDays | system_manager.py:54-57 | a bad start date is a ValidationError; a result beyond year 1..9999 is an OverflowError; otherwise the result is the ISO date whose ordinal is the start's plus the offset |
| Calendar.AddDays | system_manager.py:56 | adding days lands on the date whose ordinal is the sum, or on None exactly when that ordinal is outside year 1..9999 |
| Calendar.LaterIffOrdinal | system_manager.py:399 | one date is later than another exactly when its ordinal is larger |
| Calendar.OrdinalInjective | system_manager.py:399 | two calendar dates with the same ordinal are the same date |
| Calendar.ParseFormat | system_manager.py:46-57 | formatting a calendar date and parsing it gives the date back |
| Calendar.FormatParse | system_manager.py:46-57 | a string that parses is the formatting of the parsed date |
| Calendar.AddDaysExamples | system_manager.py:310-311 | three-day due dates cross month, year and leap-day boundaries correctly |
| Calendar.AddDaysOverflowExample | system_manager.py:56 | the last representable day cannot be advanced |
| Calendar.AddDaysLands | system_manager.py:56 | adding the ordinal distance between two representable dates lands exactly on the second one |
| Roles.DetermineRole | system_manager.py:136-152 | an empty address or one without '@' is a ValidationError; the role is student when the lower-cased domain after the first '@' ends with a student suffix, otherwise staff when it ends with a staff suffix, otherwise a ValidationError |
| Roles.ScanSuffixes | system_manager.py:145-151 | the suffix loop answers true exactly when some suffix ends the domain |
| Roles.StudentDomainsWin | system_manager.py:145-151 | a domain matching both lists is classified as student |
| Roles.NormalFormDomain | system_manager.py:137-143 | the domain is the lower-cased text after the first '@' |
| Roles.SubdomainsMatch | system_manager.py:145-147 | any sub-domain of a student suffix is classified as student, as the suffix test admits |
| Roles.StaffExample | system_manager.py:136-152 | with staff suffix "campus.edu" and no student suffix, "a@campus.edu" is staff |
| Roles.MissingAtExample | system_manager.py:139-140 | an address without '@' is rejected |
| SequenceIds.NextId | system_manager.py:199-211 | the new id is the prefix and its number zero-filled to three digits and no further (exactly four characters, or no leading zero); the number is one more than the largest well-formed id, or 1 when there is none; it is larger than, and so differs from, every existing well-formed id |
| SequenceIds.FirstId | system_manager.py:207-209 | with no well-formed id the first id is the prefix followed by "001" |
| SequenceIds.NextIdConsecutive | system_manager.py:199-211 | appending a generated id and generating again yields the next number |
| SequenceIds.FormatWellFormed | system_manager.py:211 | a zero-filled id is well formed, at least four characters long, padded no further than three digits, and reads back as its number |
| SequenceIds.SeqIdTrimmed | system_manager.py:211 | a generated id has no surrounding whitespace, so the validators keep it unchanged |
| Numerals.ValueZFill | system_manager.py:211 | zero-filling a numeral keeps its value |
| Numerals.ZFillShowValue | system_manager.py:46-57 | reading a digit string and printing its value zero-filled to the string's own width gives the string back, which makes the date text canonical |
| Resources.NewResource | resource.py:2-15 | the constructor succeeds exactly when id, name and type are strings with non-whitespace content and the quantity is an integer >= 0, and then stores the stripped strings; the fields are checked in order and the first offending one decides the error: a non-string id, name or type is an AttributeError, a blank one a ValueError, and a bad quantity a ValueError |
| Resources.StripField | resource.py:3-8 | a field is accepted exactly when it is a non-blank string, and is stored stripped |
| Resources.BorrowOne | resource.py:20-24 | a unit is taken exactly when the resource is available, decrementing by one and never below zero; otherwise the resource is unchanged |
| Resources.AvailabilityTracksStock | resource.py:17-27 | `is_available` agrees with `borrow_one`: a unit can be lent exactly when the resource is available; after lending it stays available exactly when two or more were in stock; after any return it is available |
| Resources.ReturnOne | resource.py:26-27 | the quantity rises by exactly one and nothing else changes |
| Resources.BorrowThenReturn | resource.py:20-27 | a successful borrow followed by a return restores the resource |
| Resources.StockStaysValid | resource.py:9-27 | borrowing and returning keep a valid resource valid |
| Resources.ToDict | resource.py:29-35 | the dictionary has exactly the four keys, with the type under "type" |
| Resources.ToInt | resource.py:43 | an integer converts to itself; a failed conversion is a ValueError |
| Resources.FromDict | resource.py:37-44 | a missing id, name or quantity is a KeyError and a missing type a failure; a success is a valid resource holding the stripped fields and the converted quantity |
| Resources.FromDictToDict | resource.py:29-44 | reading back the dictionary of a valid resource gives the same resource |
| Resources.FromDictIdempotent | resource.py:29-44 | reading, writing and reading again gives the same resource |
| Ledger.FindStudent | system_manager.py:157-162 | a blank id is a ValidationError; otherwise the result is the first student whose id is the stripped input, or None when no student has it |
| Ledger.FindResource | system_manager.py:164-169 | a blank id is a ValidationError; otherwise the result is the first resource with the stripped id, or None when none has it |
| Ledger.FindTransaction | system_manager.py:171-176 | a blank id is a ValidationError; otherwise the result is the first transaction with the stripped id, or None when none has it |
| Ledger.ActiveForResource | system_manager.py:178-183 | a transaction is in the result exactly when it is in the ledger and is an open loan of the resource; the result is empty exactly when none is open |
| Ledger.ActiveForResourceSnoc | system_manager.py:178-183 | the result is in ledger order: a transaction appended to the ledger is appended to the result exactly when it is an open loan of the resource |
| Ledger.ActiveForPair | system_manager.py:185-194 | a transaction is in the result exactly when it is in the ledger and is an open loan of the pair; the result has two or more entries exactly when two distinct transactions are open for it |
| Ledger.ActiveForPairSnoc | system_manager.py:185-194 | the result is in ledger order: a transaction appended to the ledger is appended to the result exactly when it is an open loan of the pair |
| Ledger.NextTransactionId | system_manager.py:199-211 | the new transaction id is "T" with its number zero-filled to three digits and no further; the number is one past the largest well-formed transaction id, or 1 when there is none; the id is not that of any transaction in the ledger |
| Ledger.AddStudent | system_manager.py:216-225 | a blank field is a ValidationError and a taken id a ConflictError; a success appends exactly the stripped student and leaves resources and transactions alone |
| Ledger.AddResource | system_manager.py:230-240 | a blank field or negative quantity is a ValidationError and a taken id a ConflictError; a success appends exactly the new resource and leaves students and transactions alone |
| Ledger.UpdateResourceQuantity | system_manager.py:242-249 | a blank id is a ValidationError; an unknown id is a NotFoundError before the quantity is looked at; a negative quantity is a ValidationError; a success overwrites only that resource's quantity |
| Ledger.RemoveResource | system_manager.py:251-266 | a blank id is a ValidationError, an unknown id a NotFoundError and a resource on loan a ConflictError; a success drops every record with that id, keeps the other resources in order, and leaves students and transactions alone |
| Ledger.RemoveResourceAsWritten | system_manager.py:251-266 | the remove operation with the loan check and the filter applied to the unstripped id |
| Ledger.ListAvailableResources | system_manager.py:274-279 | the result is the order-preserving selection of resources with positive stock |
| Ledger.BorrowResource | system_manager.py:284-332 | blank ids are a ValidationError; an unknown student or resource is a NotFoundError; no stock or an open loan of the pair is a ConflictError; a bad date is a ValidationError; a date whose due date falls off the calendar is an OverflowError; it succeeds exactly when none of these applies, and then the resource loses one unit, one fresh open transaction due after the configured number of days is appended, and nothing else changes |
| Ledger.Lend | system_manager.py:306-327 | with the checks passed, the loan is recorded exactly when the date parses and its due date is on the calendar |
| Ledger.ReturnResource | system_manager.py:334-364 | a blank id is a ValidationError; an unknown transaction is a NotFoundError; a transaction not on loan is a ConflictError; a blank stored resource id is a ValidationError and a vanished resource a NotFoundError; a bad return date is a ValidationError; a success closes exactly that transaction with the return date and gives the resource back one unit |
| Ledger.Restore | system_manager.py:350-364 | with the checks passed, the loan is closed exactly when the return date parses |
| Ledger.ReturnByStudentResource | system_manager.py:366-377 | no open loan of the pair is a NotFoundError and several a ConflictError; otherwise the result is that of returning the single open transaction by its id |
| Ledger.ListTransactions | system_manager.py:382-391 | without a student, the whole ledger; with one, a blank id is a ValidationError and otherwise the result is exactly that student's transactions in ledger order |
| Ledger.IsOverdue | system_manager.py:393-399 | a transaction not on loan is never overdue; one on loan is overdue exactly when the current date is strictly later than its due date; an unparsable date is a ValidationError |
| Ledger.OverdueAmongOk | system_manager.py:409-413 | the scan over the transactions succeeds exactly when the overdue check of every transaction succeeds |
| Ledger.OverdueAmongFilter | system_manager.py:409-413 | a successful scan holds exactly the transactions the check finds overdue, in ledger order |
| Ledger.ChecksSucceed | system_manager.py:393-399 | with a readable current date, every transaction's check succeeds exactly when every open loan has a readable due date; returned ones are never parsed |
| Ledger.ListOverdue | system_manager.py:401-413 | the current date is stripped; a bad one is a ValidationError even with an empty ledger; the listing succeeds exactly when in addition every open loan has a readable due date, and is then exactly the overdue transactions in ledger order |
| LedgerProperties.EmptyWellFormed | system_manager.py:103-111 | the freshly constructed manager satisfies the ledger invariant |
| LedgerProperties.AddStudentKeepsWellFormed | system_manager.py:216-225 | adding a student preserves the ledger invariant |
| LedgerProperties.AddResourceKeepsWellFormed | system_manager.py:230-240 | adding a resource preserves the ledger invariant |
| LedgerProperties.UpdateKeepsWellFormed | system_manager.py:242-249 | updating a quantity preserves the ledger invariant |
| LedgerProperties.RemoveKeepsWellFormed | system_manager.py:251-266 | removing a resource preserves the ledger invariant |
| LedgerProperties.RemoveAsWrittenKeepsWellFormed | system_manager.py:251-266 | the remove operation as written preserves the ledger invariant too, whatever id it filters by |
| LedgerProperties.BorrowKeepsWellFormed | system_manager.py:284-332 | borrowing preserves the ledger invariant, in particular at most one open loan per pair |
| LedgerProperties.ReturnKeepsWellFormed | system_manager.py:334-364 | returning preserves the ledger invariant |
| LedgerProperties.ReturnByPairKeepsWellFormed | system_manager.py:366-377 | returning by student and resource preserves the ledger invariant |
| LedgerProperties.NoTwoLoans | system_manager.py:301-304 | in a well-formed ledger no pair has two open loans |
| LedgerProperties.ReturnByPairNeverConflicts | system_manager.py:366-377 | in a well-formed ledger returning by student and resource never fails with a ConflictError: neither several open loans nor an already returned one |
| LedgerProperties.ReturnTwiceConflicts | system_manager.py:341-342 | returning the same transaction a second time is a ConflictError |
| LedgerProperties.BorrowTwiceConflicts | system_manager.py:301-304 | borrowing the same resource again for the same student while the first loan is open is a ConflictError |
| LedgerProperties.BorrowThenReturnRestoresStock | system_manager.py:284-364 | after a borrow, returning the new transaction with a valid date succeeds, restores the resource list exactly, leaves the students alone, and keeps the loan as a returned record |
| LedgerProperties.FreshLoanOverdueIff | system_manager.py:393-399 | a new loan is overdue exactly on the days strictly after borrow date plus the loan period |
| LedgerProperties.DueDayNotOverdue | system_manager.py:399 | a loan is not overdue on its due date |
| LedgerProperties.ReturnedNeverOverdue | system_manager.py:393-395 | a returned transaction is never overdue |
| LedgerProperties.BorrowAdvancesTransactionId | system_manager.py:313 | a borrow takes the next transaction id and the one after is numbered one higher |
| LedgerProperties.RemovePaddedIdSlipsThrough | system_manager.py:251-266 | with a padded id, the remove operation as written returns the ledger unchanged as a success, where the corrected one reports the open loan |
| LedgerProperties.RemovePaddedIdExample | system_manager.py:251-266 | a concrete ledger where removing " R1" while R1 is on loan succeeds and removes nothing |
| StudentLogin.GenerateStudentId | student_menu.py:110-129 | the new id is "S" with its number zero-filled to three digits and no further, numbered one past the largest well-formed student id or 1, larger than every well-formed id, and not the id of any student |
| StudentLogin.FirstStudentId | student_menu.py:124-129 | with no well-formed student id the first id is "S001" |
| StudentLogin.FindStudentByEmail | student_menu.py:77-81 | the lookup finds the first student whose lower-cased address equals the input, or None when none does |
| StudentLogin.GetOrCreateStudent | student_menu.py:53-107 | a blank address cancels; a known address, compared without case or padding, logs in as the first student having it; otherwise a blank name cancels and a non-blank one registers a student under the generated id |
| StudentLogin.Register | student_menu.py:88-107 | a blank name cancels; otherwise the student is added under the generated id |
| StudentLogin.RegistrationAccepted | student_menu.py:97-106 | the generated id, a non-blank name and a normalised address always pass add_student, so the error branch is never taken |
| StudentLogin.RegistrationAppends | student_menu.py:97-104 | registration appends exactly the new student with the stripped name and the lower-cased address, and touches nothing else |
| StudentLogin.LoginAfterRegistration | student_menu.py:70-86 | logging in again with the same address in any case or padding finds the student just registered |

## Left out

- Persistence: `file_manager.py`, the `save_*` calls and `load_all`/`save_all` (system_manager.py:116-131), including the key-renaming shim, are I/O. In the model a save is a no-op.
- `today_iso`: a clock read. Every date is an explicit argument, so the `None` defaults of `borrow_resource`, `return_resource` and `list_overdue` are not modelled.
- Checks.ParseDate: accepts only the zero-padded ten-character `YYYY-MM-DD` form. `strptime` also accepts unpadded months and days such as "2024-1-5".
- `strip`, `lower` and `isdigit` are modelled for ASCII only. Non-ASCII whitespace, letters and digits are outside the model.
- Checks.RequireNonNegative: takes an integer. The coercion `int(value)` of arbitrary Python values (floats, booleans, strings) is not modelled.
- Resources.ToInt: reads signed ASCII decimal strings only. Underscore separators and non-ASCII digits are not modelled.
- Arguments that are `None` or of a non-string type in the manager's operations are not modelled; strings are typed.
- Records always carry every key. The `t.get(..., "")` defaults for missing keys in stored dictionaries are not modelled. Status is the two values borrowed and returned.
- Ledger.ListResources has no contract. It returns the stored list itself, because a copy of an immutable record is the record.
- `main.py`, `staff_menu.py` and the prompt and print parts of `student_menu.py` are interactive I/O. Only the id generator and the login decision are modelled.
- No global "stock equals initial stock minus open loans" invariant is stated, because `update_resource_quantity` overwrites stock without reconciling it against open loans. Only the per-operation plus-one and minus-one changes are proved.

## Findings

| source | as written | input that shows it | evidently intended | confidence | as-written member | corrected member |
|---|---|---|---|---|---|---|
| system_manager.py:251-266 | `remove_resource` strips the id only for the lookup. The open-loan check and the removing filter use the raw argument. | `remove_resource(" R1")` while R1 is on loan: the lookup finds R1, no loan matches " R1", nothing is filtered out, and the call returns normally. | Use the stripped id throughout: refuse with a conflict while R1 is on loan, and otherwise remove it. | not executed; high that the code behaves so, and the staff menu strips its input first, so the path is latent | Ledger.RemoveResourceAsWritten (shown by LedgerProperties.RemovePaddedIdSlipsThrough and LedgerProperties.RemovePaddedIdExample) | Ledger.RemoveResource |
