# Verified cores of the ERP backend

This project models the stateful cores of the Django ERP in Dafny and proves what every run of them
keeps. Each module follows one part of the source. What the source updates in place is a class here
(tables, instances in memory, the attempt cache, an uploaded file); each method is proved against a
function of the old state, and the theorems are about those functions over whole runs, for all
inputs. Money is integer paise, times are integer seconds, dates are year, month and day.

`dafny verify dfyconfig.toml` checks everything.

| module | what it models |
|---|---|
| `StatusGuards` | the accounting and the billing immutable-status guard, proved for any table, then each document's table; full and partial saves of whole tables |
| `Journal` | journal entries and lines with their guards, line deletion, and the posting service (create, update, post, void, reverse) on top |
| `LedgerPosting` | `post_ledger_entry` as interleaved transactions with row locks, unique references, aborts and rollbacks |
| `StaffAdvances` | `StaffAdvance.save` with its posted-reference guard and partial updates, and the disburse/recover service |
| `TaxInvoices` | `TaxInvoice.save`: status guard, INV-3, INV-4, normalisation, totals, partial updates |
| `PayrollPeriods` | `PayrollPeriod.save` and the closed-date questions asked of the table |
| `DirectSales` | `DirectSale.save`: status guard, branch step, totals and branch checks, partial updates |
| `PasswordReset` | the methods of `PasswordResetRequest` on instances and on the stored row they share |
| `VendorCodes` | `Vendor.save`: assigned codes and the derived active flag |
| `Purge` | the pass loop of the operational-data purge over any graph of CASCADE, PROTECT and SET_NULL references |
| `TextInsertion` | the class scan and bottom-up insertion of the `db_table` patcher |
| `LoginLockout` | the timed attempt counter of the login serializer, for attempts one after another |
| `LoginRaces` | the same counter under workers whose checks, reads and writes interleave |
| `Brochures` | the single PATCH and the bulk update of brochure settings |
| `UploadSecurity` | kind detection, the safe file name, `validate_upload` |
| `Texts`, `Options` | white-space and case normalisation; the `Option` type |

## Where the code does not do what it says

Each of these is a proved statement, with the exact condition under which the code does keep its promise.

- **Billing documents are not immutable.** The billing guard's message says they are
  (`backend/billing/models.py:46-48`), but it accepts any save under the same status, so everything
  else about a posted invoice may be replaced (`StatusGuards.PostedInvoiceCanBeRewritten`).
- **A model class whose header spans several lines is patched inside its header**
  (`TextInsertion.TextLiesBelowHeaderIff`).
- **A frozen accounting row is bounded only in saves that write its status.** The guard judges the
  status in memory. A partial save that leaves the status out can be repeated for ever while a
  transition is left (`StatusGuards.PartialSavesAreUnbounded`, `StatusGuards.FrozenSaveAdvancesIff`).
- **Lines of a posted journal entry are not immutable.** The line guard looks at the parent the
  instance names now, only when the line already has a key, and deletion has no guard. The
  operations that break the books are exactly those `Journal.Careful` excludes
  (`Journal.OperationKeepsBooksIffCareful`). The posting service never needs that care.
- **Reversing a group with a VOID member does not restore the balances.** The reversal ignores the
  members' status and subtracts effects that are no longer there. It restores them exactly when those
  effects cancel out (`Journal.ReversalUndoesIffHiddenCancel`, `Journal.ReversingVoidLeavesResidue`).
- **A closed payroll date can come under an open period.** A partial save of one end of a period can
  span it. If a tearing save has closed a period outside its own month, a plain insert can bring it
  too. Nothing else can (`PayrollPeriods.ClosedDayStaysClosed`, `PayrollPeriods.OpenPeriodOverClosedDay`,
  `PayrollPeriods.StrayClosedPeriod`).
- **A used or locked password reset can become usable again.** A failed attempt saved by an instance
  loaded earlier writes its own PENDING status and count over the row
  (`PasswordReset.UnusableRowRevivesIff`, `PasswordReset.StaleFailureRevivesUsedRow`).
- **The login limit of five failures is one of attempts that do not overlap.** The counter is read and
  written back in two cache operations, so a stale write can lower it and undo a lock. With n workers
  a window takes up to C(n+5, 5) - 1 failures, 20 for two, and no more (`LoginRaces.FailuresPerWindow`,
  `LoginRaces.FailuresPerWindowReached`).
- **INV-4 locks the money fields only for an instance that carries the stored IRN**
  (`TaxInvoices.IrnLockFailsIffIrnDiffers`, `TaxInvoices.StoredIrnIsNotEnough`); the field's help
  text promises it once an IRN is set (`backend/accounting/models.py:3757-3765`).
- **`clean()` checks the instance, partial saves write a mixture.** So stored totals, stored
  recovery, stored period bounds, stored branches and the stored active flag hold exactly when
  `TaxInvoices.Drifts`, `DirectSales.Drifts`, `StaffAdvances.Overruns`, `PayrollPeriods.Tears`,
  `DirectSales.Misplaces` and `VendorCodes.SplitsFlag` do not.
- **Posting an entry of unknown type is a debit without a funds check**, so a request keeps balances
  non-negative exactly when it is `LedgerPosting.Harmless`.

## Model

| member | source | states |
|---|---|---|
| `StatusGuards.BillingIsAccountingWithRepeats` | backend/billing/models.py:33-48 | for any table, billing accepts a status history exactly when accounting accepts what is left without the repeats of frozen statuses |
| `StatusGuards.AccountingIsBillingWithoutRepeats` | backend/accounting/models.py:127-153 | for a table without reflexive rows, accounting accepts exactly the billing-accepted histories that have no frozen repeat |
| `StatusGuards.UnfrozenRowsNeverMatter` | backend/billing/models.py:297-299 | transitions listed out of a status that is not frozen, such as the three DELIVERED ones, never affect a decision of either guard |
| `StatusGuards.FrozenRunDescends` | backend/accounting/models.py:144-153 | in an accepted history a frozen row stays frozen, and each save uses up one rank |
| `StatusGuards.FrozenBoundIsExact` | backend/accounting/models.py:127-153 | the rank is the exact maximum: no accepted history is longer and one of that length exists; under billing it bounds the status changes |
| `StatusGuards.FrozenRowsThatCanBeRewritten` | backend/billing/models.py:41-48 | for any store and frozen row, some sequence of saves changes the row if and only if the guard is billing's or a transition is left |
| `StatusGuards.DocumentTable.SaveDocument` | backend/accounting/models.py:1360-1376 | guard, validation and write of a full or partial save change the table exactly as the specification says, or not at all |
| `StatusGuards.DocumentSaveChanges` | backend/accounting/models.py:140-153 | exactly when a save of a stored row goes through, what its row then holds, and that no other changes |
| `StatusGuards.DocumentInsert` | backend/accounting/models.py:135-137 | a new row needs the checks only and is stored as it is brought |
| `StatusGuards.HistoriesAreAccepted` | backend/accounting/models.py:127-153 | over any sequence of full and partial saves of any rows, every row's history of written statuses is one its guard accepts and ends in its stored status |
| `StatusGuards.FrozenRowIsNearlyFinal` | backend/accounting/models.py:127-153 | a row found frozen stays frozen, and at most rank many later saves write (accounting) or change (billing) its status |
| `StatusGuards.FrozenSaveAdvancesIff` | backend/accounting/models.py:140-149 | an accepted accounting save of a frozen row lowers its rank if and only if it writes the status |
| `StatusGuards.PartialSavesAreUnbounded` | backend/accounting/models.py:140-149 | with a transition left, any number of partial saves that leave the status out rewrite the rest of a frozen row |
| `StatusGuards.FinalRowsNeverChange` | backend/accounting/models.py:127-153 | with no transition left, no sequence of saves, partial ones included, changes anything of the row |
| `StatusGuards.JournalIsRanked` | backend/accounting/models.py:1361-1366 | journals and receipts: at most one more status from POSTED, none from VOID |
| `StatusGuards.VoucherIsRanked` | backend/accounting/models.py:2232-2240 | expense vouchers: at most one more status from APPROVED |
| `StatusGuards.FinalDocumentsAreRanked` | backend/accounting/models.py:2553-2557 | closed payroll periods, decided leave requests, posted movements and settlements: none |
| `StatusGuards.SalarySheetIsRanked` | backend/accounting/models.py:2963-2978 | salary sheets: exactly 3, 2, 1, 0 more from APPROVED, POSTED, PAID_PARTIAL, PAID |
| `StatusGuards.ExpenseClaimIsRanked` | backend/accounting/models.py:3320-3337 | expense claims: the same, and none from REJECTED or CANCELLED |
| `StatusGuards.TaxDocumentIsRanked` | backend/accounting/models.py:3794-3803 | tax invoices and notes: at most 2 from APPROVED, 1 from POSTED |
| `StatusGuards.BillingDocumentIsRanked` | backend/billing/models.py:556-569 | billing invoices and notes: at most 2 status changes from APPROVED, 1 from POSTED |
| `StatusGuards.DirectSaleIsRanked` | backend/billing/models.py:279-301 | direct sales: at most one status change from INVOICED, none from the other frozen statuses |
| `StatusGuards.JournalMoves` | backend/accounting/models.py:1361-1366 | every decision about journals, written out |
| `StatusGuards.VoucherMoves` | backend/accounting/models.py:2232-2240 | every decision about expense vouchers |
| `StatusGuards.FinalMoves` | backend/accounting/models.py:2553-2557 | every decision about payroll periods, leave requests and settlements |
| `StatusGuards.SalarySheetMoves` | backend/accounting/models.py:2963-2978 | every decision about salary sheets |
| `StatusGuards.ExpenseClaimMoves` | backend/accounting/models.py:3320-3337 | every decision about expense claims |
| `StatusGuards.TaxDocumentMoves` | backend/accounting/models.py:3794-3803 | every decision about tax invoices and notes |
| `StatusGuards.BillingDocumentMoves` | backend/billing/models.py:556-569 | every decision about billing invoices, notes and receipts |
| `StatusGuards.DirectSaleMoves` | backend/billing/models.py:279-301 | every decision about direct sales |
| `StatusGuards.SalarySheetSaves` | backend/accounting/models.py:2963-2978 | over any sequence of saves of a salary-sheet table, the number of further saves of an APPROVED, POSTED, PAID_PARTIAL or PAID sheet's status is at most 3, 2, 1, 0 |
| `StatusGuards.InvoicedSaleNeverReopens` | backend/billing/models.py:254-331 | once INVOICED, no sequence of saves brings a sale back to DRAFT, CONFIRMED or DELIVERED, and its status changes at most once more; the other frozen statuses are absorbing |
| `StatusGuards.PostedInvoiceCanBeRewritten` | backend/billing/models.py:33-48 | any body can replace that of any frozen billing document by one save under its status, which changes nothing else; accounting would refuse that save |
| `Journal.EntryGuard` | backend/accounting/models.py:1360-1366 | the journal's table lets DRAFT go anywhere, POSTED only to VOID, VOID nowhere |
| `Journal.JournalStore.SaveEntry` | backend/accounting/models.py:1351-1376 | a full or partial entry save: the guard, the posted_at and void_reason checks, the write |
| `Journal.JournalStore.SaveLine` | backend/accounting/models.py:1440-1458 | a full or partial line save, refused only by the parent the instance names now and the one-positive-side rule of instance and row |
| `Journal.JournalStore.DeleteLine` | backend/accounting/models.py:1382-1410 | deletion of a line is never refused |
| `Journal.JournalStore.ValidatePayload` | backend/accounting/services/journal_posting_service.py:60-94 | accepts exactly the non-empty balanced lists of usable, one-sided lines |
| `Journal.JournalStore.CreateEntry` | backend/accounting/services/journal_posting_service.py:114-143 | a draft with exactly the given lines, or no change |
| `Journal.JournalStore.UpdateDraft` | backend/accounting/services/journal_posting_service.py:147-168 | replaces the lines of a draft only, or no change |
| `Journal.JournalStore.PostEntry` | backend/accounting/services/journal_posting_service.py:172-240 | posts a draft in balance; idempotent on POSTED, refused on VOID; every other entry and every line stays |
| `Journal.JournalStore.VoidPosted` | backend/accounting/services/journal_posting_service.py:244-278 | the entry is VOID after every accepted call, every other entry and every line stays |
| `Journal.JournalStore.ReverseGroup` | backend/accounting/services/journal_posting_service.py:282-353 | books and posts the mirror of every member, all or nothing |
| `Journal.CreateBooksItsLines` | backend/accounting/services/journal_posting_service.py:114-143 | accepted exactly for no lines or bookable ones; the new draft has exactly those lines and other entries keep theirs |
| `Journal.UpdateReplacesLines` | backend/accounting/services/journal_posting_service.py:147-168 | accepted exactly for a draft and bookable lines; the draft then has the new lines and none of the old, other entries keep theirs |
| `Journal.PostPutsEffectOn` | backend/accounting/services/journal_posting_service.py:172-240 | accepted exactly for a draft with bookable lines in an open period; every account rises by exactly the entry's effect |
| `Journal.VoidTakesEffectOff` | backend/accounting/services/journal_posting_service.py:244-278 | accepted exactly with a reason in an open period; the entry is VOID and every account falls by exactly its effect |
| `Journal.EntrySaveStoresStatus` | backend/accounting/models.py:1351-1376 | exactly when a bare entry save goes through, and the status it stores |
| `Journal.LineSaveWritesListedColumns` | backend/accounting/models.py:1440-1458 | a partial line save stores the listed columns over the stored row if the result is one-sided, and touches no other line |
| `Journal.DeleteTakesOneLine` | backend/accounting/models.py:1382-1410 | deleting takes away that line and no other |
| `Journal.SaveEntryExact` | backend/accounting/models.py:1351-1376 | a bare entry save keeps the books exactly when it does not post an unbalanced entry |
| `Journal.SaveLineExact` | backend/accounting/models.py:1440-1458 | a full or partial line save keeps the books and every posted line exactly when it neither adds a line to a posted entry nor moves or changes one of its lines |
| `Journal.DeleteLineExact` | backend/accounting/models.py:1382-1410 | deleting a line keeps the books exactly when its entry is not posted |
| `Journal.OperationKeepsBooksIffCareful` | backend/accounting/services/journal_posting_service.py:60-353 | an accepted operation of any kind leaves consistent, balanced books, VOID final, POSTED never back in DRAFT and posted lines untouched, if and only if it is careful |
| `Journal.RunKeepsBooks` | backend/accounting/models.py:1360-1458 | over every careful run, an entry posted at both ends has the very same lines, hence the same totals |
| `Journal.ServiceRunsAreCareful` | backend/accounting/services/journal_posting_service.py:114-353 | a run of posting-service calls alone needs no care from its callers |
| `Journal.SumIsIndependentOfGrouping` | backend/accounting/services/trial_balance_check_service.py:72-84 | adding up by account and adding up by entry give the same total |
| `Journal.TrialBalanceIsZero` | backend/accounting/services/trial_balance_check_service.py:72-84 | in consistent books the balances of the posted lines, summed over all accounts, are zero |
| `Journal.TrialBalanceIsZeroAfterAnyRun` | backend/accounting/services/trial_balance_check_service.py:72-84 | so after every careful run from empty books |
| `Journal.ReverseEffect` | backend/accounting/services/journal_posting_service.py:316-340 | a reversal takes each member's effect off every account, whatever the member's status |
| `Journal.ReversalUndoesPostedGroup` | backend/accounting/services/journal_posting_service.py:282-353 | reversing distinct posted entries leaves every account as if they had not been posted |
| `Journal.ReversalUndoesIffHiddenCancel` | backend/accounting/services/journal_posting_service.py:282-353 | for a group of different entries that holds if and only if, on every account, the effects of the members not posted cancel out |
| `Journal.ReversalUndoesIffPosted` | backend/accounting/services/journal_posting_service.py:282-353 | for a group of one, if and only if the entry is posted or nets to nothing on each account |
| `Journal.ReversingVoidLeavesResidue` | backend/accounting/services/journal_posting_service.py:316-340 | a concrete voided entry whose reversal leaves its amount on the books, negated |
| `LedgerPosting.Ledger.PostLedgerEntry` | backend/backend_starter_generator.py:300-320 | one call alone succeeds if and only if the account is active and covers a debit, amount and new balance stay under 10^14 paise, and the reference is new; then exactly that balance and that entry change; otherwise nothing, for the reason given |
| `LedgerPosting.SerialRunBalances` | backend/backend_starter_generator.py:309-311 | after posts one by one each balance moved by exactly its own posts and nothing else about an account changed |
| `LedgerPosting.SerialRunEntries` | backend/backend_starter_generator.py:313-320 | the new entries are exactly the posted requests, under references that were free and differ |
| `LedgerPosting.NetIsCreditsMinusDebits` | backend/backend_starter_generator.py:309-310 | for requests of known type the movement is credits minus debits |
| `LedgerPosting.HarmlessIsExact` | backend/backend_starter_generator.py:306-310 | the requests that keep every non-negative balance non-negative are exactly the harmless ones |
| `LedgerPosting.SerialRunNeverOverdraws` | backend/backend_starter_generator.py:306-310 | no run of harmless posts takes a balance below zero |
| `LedgerPosting.StepRefinesSerialPost` | backend/backend_starter_generator.py:300-320 | a step of an interleaved run is invisible in the committed tables, or commits exactly what the post does alone at that moment; an abort is what a post alone would be refused for |
| `LedgerPosting.StepKeepsInv` | backend/backend_starter_generator.py:300-320 | every step keeps: what a lock holder read is still committed, locks have their owners, the log lists each commit once |
| `LedgerPosting.Serialisable` | backend/backend_starter_generator.py:300-320 | under every schedule, with any rollbacks, the committed tables are those of the committed posts run one after another in commit order, each passing its checks at its turn |
| `LedgerPosting.BalancesMatchEntries` | backend/backend_starter_generator.py:300-320 | under every schedule each committed balance is its committed credits minus debits and never negative |
| `LedgerPosting.EntriesAreCommittedPosts` | backend/backend_starter_generator.py:247-247 | the entry table is exactly the committed posts; of transactions with one reference at most one commits |
| `LedgerPosting.NoDeadlock` | backend/backend_starter_generator.py:300-313 | while a transaction is unfinished some transaction can proceed without a rollback |
| `LedgerPosting.EveryRunFinishes` | backend/backend_starter_generator.py:300-320 | every schedule makes at most five effective decisions per transaction |
| `LedgerPosting.NothingLeftMeansFinished` | backend/backend_starter_generator.py:300-320 | a schedule that cannot be continued has finished every transaction, and only such a one |
| `LedgerPosting.PossibleStepsFinishAll` | backend/backend_starter_generator.py:300-320 | from wherever a schedule has come, possible steps without any rollback finish every transaction within that bound |
| `LedgerPosting.PostedIffMayPost` | backend/backend_starter_generator.py:300-320 | the same condition decides a post in the middle of a run |
| `LedgerPosting.EveryCreditCommits` | backend/backend_starter_generator.py:300-320 | credits on active accounts under new, different references that together stay in range have all committed in every finished schedule without rollbacks |
| `StaffAdvances.StaffAdvance.SaveTo` | backend/accounting/models.py:3159-3168 | a full or partial save: the tracking-field exception, the guard, the checks, the merged row, and the instance afterwards |
| `StaffAdvances.SaveIsAcceptedIff` | backend/accounting/models.py:3143-3168 | exactly when a save of a stored advance goes through |
| `StaffAdvances.SaveWritesListedColumns` | backend/accounting/models.py:3159-3168 | column by column what it stores, and that no other advance changes |
| `StaffAdvances.DisbursementIsFrozen` | backend/accounting/models.py:156-175 | once a journal is stored, no sequence of saves of any instances changes anything but recovered amount, status and timestamp |
| `StaffAdvances.RecoveredWithinAmountIffNoOverrun` | backend/accounting/models.py:3143-3150 | stored recovery stays within the stored amount exactly when the partial save does not overrun it |
| `StaffAdvances.RunsStayWithinIffNoOverrun` | backend/accounting/models.py:3139-3168 | over any mix of full and partial saves of old and new rows, every stored advance has 0 <= recovered <= amount at every moment if and only if no save overruns the row it finds; then outstanding plus recovered is the amount |
| `StaffAdvances.AgreementIsEnough` | backend/accounting/models.py:3139-3168 | so over every run of instances that agree with the table on the amount |
| `StaffAdvances.StaleInstanceOverrecovers` | backend/accounting/models.py:3143-3150 | a concrete stale instance that stores more recovered than was advanced |
| `StaffAdvances.CallConserves` | backend/accounting/services/staff_advance_service.py:41-189 | each service call keeps, for each advance, recovery rows, asset balance and status in step |
| `StaffAdvances.ServiceConserves` | backend/accounting/services/staff_advance_service.py:41-189 | over every sequence of calls the recovered amount is the sum of the recovery rows, the asset account carries exactly what is owed, the status says which, and recovered never exceeds the amount |
| `StaffAdvances.PermittedRecoveryIsSaved` | backend/accounting/services/staff_advance_service.py:87-122 | after any sequence of calls, a recovery the service permits is never refused by the model's own checks while the account is active |
| `StaffAdvances.CallTakesEffectIff` | backend/accounting/services/staff_advance_service.py:41-189 | in every state the service reaches, exactly when a request, approval, disbursement or recovery takes effect |
| `StaffAdvances.NothingWithoutApproval` | backend/accounting/services/staff_advance_service.py:55-60 | no advance leaves DRAFT or carries a journal unless an approval of it took effect earlier |
| `StaffAdvances.AdvanceLifecycle` | backend/accounting/services/staff_advance_service.py:41-122 | requested, approved, disbursed and recovered in full, an advance is RECOVERED with nothing owed and nothing on the asset account; what each call stores |
| `StaffAdvances.TotalOutstanding` | backend/accounting/services/staff_advance_service.py:125-139 | the loop adds what each disbursed or partly recovered advance still owes |
| `StaffAdvances.ReportedOutstandingIsOnTheBooks` | backend/accounting/services/staff_advance_service.py:125-139 | that total is what the asset account carries for those advances, after any sequence of calls |
| `TaxInvoices.TaxInvoice.SaveTo` | backend/accounting/models.py:3793-3857 | guard, INV-3 and INV-4 comparisons on the raw instance, normalisation, checks, full or partial write, and the instance afterwards |
| `TaxInvoices.SaveIsAcceptedIff` | backend/accounting/models.py:3780-3857 | exactly when a save of a stored invoice goes through |
| `TaxInvoices.InsertIsAcceptedIff` | backend/accounting/models.py:3780-3857 | and of a new one |
| `TaxInvoices.SaveWritesListedColumns` | backend/accounting/models.py:3843-3857 | column by column what it stores, normalised where the source does, and that no other invoice changes |
| `TaxInvoices.InvoiceRunIsGuardedRun` | backend/accounting/models.py:3793-3803 | to the statuses, a run of invoice saves is a run of guarded saves with the table of tax documents |
| `TaxInvoices.InvoiceStatusesAreBounded` | backend/accounting/models.py:3793-3803 | over any run an invoice takes at most two more statuses from APPROVED, one from POSTED, none from CANCELLED |
| `TaxInvoices.InvoiceLifecycle` | backend/accounting/services/gst_document_posting_service.py:173-247 | approving, posting and cancelling by partial saves of loaded instances are accepted and leave exactly that status and journal |
| `TaxInvoices.LockedSave` | backend/accounting/models.py:3804-3825 | an accepted save of a row outside DRAFT leaves it outside DRAFT with the same twelve fields, although it compares raw values and writes normalised ones |
| `TaxInvoices.NonDraftVersionsAgree` | backend/accounting/models.py:3804-3825 | INV-3: in any run from an empty table, any two versions stored outside DRAFT agree on all twelve locked fields |
| `TaxInvoices.TotalKeptIffNoDrift` | backend/accounting/models.py:3780-3791 | stored totals add up after an accepted save exactly when the money fields left out do not drift; a full save never does |
| `TaxInvoices.StoredTotalsAddUp` | backend/accounting/models.py:3780-3791 | over any run every stored version adds up at every moment if and only if no save drifts at its turn |
| `TaxInvoices.FullSavesNeverDrift` | backend/accounting/models.py:3780-3791 | and no full save does |
| `TaxInvoices.IrnLocksMoney` | backend/accounting/models.py:3826-3842 | INV-4: while every saved instance carries the stored IRN, the five money fields are fixed, in DRAFT too |
| `TaxInvoices.IrnLockFailsIffIrnDiffers` | backend/accounting/models.py:3757-3765 | for a DRAFT row with an IRN, an accepted save changing the money fields exists if and only if it may carry another IRN |
| `TaxInvoices.StoredIrnIsNotEnough` | backend/accounting/models.py:3826-3842 | a concrete partial save that changes the amounts under an IRN that stays stored |
| `PayrollPeriods.PeriodTable.Save` | backend/accounting/models.py:2537-2562 | guard, month checks, both constraints on instance and resulting row, full or partial write |
| `PayrollPeriods.WholeSaveIsAcceptedIff` | backend/accounting/models.py:2523-2562 | exactly when a whole period is accepted |
| `PayrollPeriods.SaveWritesListedColumns` | backend/accounting/models.py:2552-2562 | column by column what a save stores |
| `PayrollPeriods.AtMostIsTheOrderOfDays` | backend/accounting/models.py:2539-2540 | dates are compared by year, month and day |
| `PayrollPeriods.PeriodTable.Close` | backend/accounting/services/workforce_service.py:796-821 | closing changes the status of that row alone, or nothing |
| `PayrollPeriods.SaveKeepsTidyIff` | backend/accounting/models.py:2537-2550 | an accepted save keeps every period inside its own, unique month exactly when it does not tear one apart |
| `PayrollPeriods.PeriodsStayDisjoint` | backend/accounting/models.py:2523-2562 | over every run of full saves, or of saves that tear nothing, all stored date ranges are pairwise disjoint |
| `PayrollPeriods.OverlapFollowsIffTorn` | backend/accounting/models.py:2523-2562 | after an accepted save of tidy periods some accepted insert makes two ranges overlap if and only if the save tore a period |
| `PayrollPeriods.TornPeriodOverlaps` | backend/accounting/models.py:2553-2562 | a concrete partial save of the dates after which two stored periods overlap |
| `PayrollPeriods.RangeIsClosedIffADayIs` | backend/accounting/services/workforce_service.py:77-96 | the overlap question about a range is the closed-day question about some day of it |
| `PayrollPeriods.ClosedRowIsFinal` | backend/accounting/models.py:2553-2557 | no sequence of full or partial saves changes a CLOSED row |
| `PayrollPeriods.SaveKeepsAloneIff` | backend/accounting/models.py:2552-2562 | an accepted save puts another period onto a closed day exactly when it writes one end of the period so that the day lies between the end in memory and the stored one, or writes both ends of an instance that contains the day |
| `PayrollPeriods.ClosedMonthIsNotBrought` | backend/accounting/models.py:2537-2550 | the second is never accepted for a closed period in its own month |
| `PayrollPeriods.PeriodLeavesItsMonthIff` | backend/accounting/models.py:2537-2562 | a stored period leaves its month exactly by a save that tears it |
| `PayrollPeriods.ClosedDayStaysClosed` | backend/accounting/services/workforce_service.py:85-91 | over every run a closed day stays closed by its unchanged period; no other period ever comes to contain it if and only if no accepted save spans or brings it in those ways |
| `PayrollPeriods.ClosedMonthIsOnlySpanned` | backend/accounting/services/workforce_service.py:85-91 | for a closed period in its own month, if and only if none spans it |
| `PayrollPeriods.UntornSavesSpanNothing` | backend/accounting/models.py:2552-2562 | among tidy periods, saves that tear nothing, full ones included, do neither |
| `PayrollPeriods.OpenPeriodOverClosedDay` | backend/accounting/models.py:2552-2562 | a concrete partial save that leaves an OPEN period over a closed day |
| `PayrollPeriods.StrayClosedPeriod` | backend/accounting/models.py:2552-2562 | from the empty table, three accepted saves after which a plainly inserted OPEN period contains a closed day |
| `PayrollPeriods.ClosingIsSafe` | backend/accounting/services/workforce_service.py:796-811 | closing an open period through the service is never refused by the model and tears nothing |
| `VendorCodes.VendorTable.Save` | backend/accounting/models.py:1586-1614 | insert, full and partial save, with the code added to the written fields or written afterwards |
| `VendorCodes.SaveIsAcceptedIff` | backend/accounting/models.py:1604-1611 | exactly when a save is accepted |
| `VendorCodes.SaveWritesListedColumns` | backend/accounting/models.py:1586-1614 | column by column what it stores: the flag only for ACTIVE and ON_HOLD, the code given or assigned |
| `VendorCodes.AssignedCodeReadsBack` | backend/accounting/models.py:1605-1605 | an assigned code determines its day and its row, also past six digits |
| `VendorCodes.EveryVendorIsCoded` | backend/accounting/models.py:1586-1614 | after any run every stored code is non-empty and normalised, and every code that goes back to an assignment is the one assigned to its own row |
| `VendorCodes.ResavingKeepsTheCode` | backend/accounting/models.py:1586-1614 | saving a loaded vendor again, in full or in part, keeps its code, and the code still counts as assigned |
| `VendorCodes.AssignedCodesAreUnique` | backend/accounting/models.py:1604-1614 | two different vendors never share an assigned code, however often either has been saved since |
| `VendorCodes.UnchosenCodesDiffer` | backend/accounting/models.py:1586-1614 | where no client chooses a code, all codes differ after any run |
| `VendorCodes.AssignedCodesOnlyMeetChosenOnes` | backend/accounting/models.py:1604-1614 | the column is not unique, but an assigned code can only meet a code that a client chose |
| `VendorCodes.CodesDifferIffNoCollision` | backend/accounting/models.py:1541-1541 | in general all codes differ at every moment of a run if and only if no save stores a code that another row has at its turn |
| `VendorCodes.FlagKeptIffNotSplit` | backend/accounting/models.py:1606-1611 | a stored active vendor is ACTIVE or ON_HOLD after a save exactly when the save does not write one of flag and status against the other |
| `VendorCodes.FlagsFitIffNeverSplit` | backend/accounting/models.py:1586-1614 | over any run all stored flags fit at every moment if and only if no save does |
| `DirectSales.DirectSale.FillBranch` | backend/billing/models.py:324-329 | a sale without a branch takes its counter's, else its account's, else the primary one; a dangling link leaves it without |
| `DirectSales.DirectSale.CleanSale` | backend/billing/models.py:254-276 | accepts exactly the sales that pass every check |
| `DirectSales.DirectSale.SaveTo` | backend/billing/models.py:254-331 | guard, branch step, checks, full or partial write, and the instance afterwards |
| `DirectSales.WholeSaveIsAcceptedIff` | backend/billing/models.py:254-331 | exactly when a whole sale is accepted |
| `DirectSales.BranchComesFrom` | backend/billing/models.py:324-329 | where the branch of a sale comes from in each case, and that nothing else is filled in |
| `DirectSales.SaveWritesListedColumns` | backend/billing/models.py:302-331 | column by column what a save stores |
| `DirectSales.InvoicedSaleIsNeverReopened` | backend/billing/models.py:278-301 | over any run of these saves, once INVOICED a sale is never DRAFT, CONFIRMED or DELIVERED again and changes status at most once more; the other frozen statuses are absorbing |
| `DirectSales.SaveKeepsBalancedIff` | backend/billing/models.py:254-262 | a save keeps balance = grand total - received >= 0 in the table exactly when the totals it leaves out do not drift; the sign needs no extra condition |
| `DirectSales.StoredSalesBalanceIff` | backend/billing/models.py:254-331 | over any run every stored version is balanced at every moment if and only if no save drifts at its turn |
| `DirectSales.FullSavesStayBalanced` | backend/billing/models.py:254-331 | so over any run of full saves |
| `DirectSales.SettlementIsSafeIff` | backend/billing/services/billing_service.py:73-83 | the settlement's partial save keeps the table balanced exactly when its instance has the stored grand total |
| `DirectSales.AcceptedInstanceFits` | backend/billing/models.py:265-272 | every accepted counter sale has its counter's branch and any branch set on its finance account, the filled branch included |
| `DirectSales.CrossBranchSaleIsRefused` | backend/billing/models.py:265-272 | a sale whose counter and account belong to different branches is never stored |
| `DirectSales.SaveKeepsBranchesIff` | backend/billing/models.py:254-331 | a save keeps all stored sales in those branches exactly when it does not write a branch and a link against each other |
| `DirectSales.StoredBranchesFitIff` | backend/billing/models.py:254-331 | over any run, while counters and accounts keep their branches, they all fit at every moment if and only if no save misplaces one |
| `PasswordReset.ResetRequest.MarkVerified` | backend/accounts/models.py:220-224 | the instance, and the fields written to the row if asked |
| `PasswordReset.ResetRequest.MarkUsed` | backend/accounts/models.py:226-230 | likewise |
| `PasswordReset.ResetRequest.Mark` | backend/accounts/models.py:232-245 | likewise for the three methods that set a status only |
| `PasswordReset.ResetRequest.IncrementFailedAttempt` | backend/accounts/models.py:247-252 | likewise, with the lock at the limit |
| `PasswordReset.MethodsSet` | backend/accounts/models.py:220-252 | the status and time each method sets, and the lock exactly when a failure reaches the limit |
| `PasswordReset.AgreeingSaveIsTheMethod` | backend/accounts/models.py:220-252 | saved by an instance that agrees with the row, a method does to the row what it does in memory |
| `PasswordReset.UnusableInstanceStaysSo` | backend/accounts/models.py:213-252 | over any sequence of its methods an instance once unusable is unusable at every later time |
| `PasswordReset.InstanceFailuresAreBounded` | backend/accounts/models.py:213-252 | and records at most max_attempts - failed_attempt_count failures while usable |
| `PasswordReset.UnusableRowRevivesIff` | backend/accounts/models.py:247-252 | a saved call makes an unusable stored row usable exactly when it is a failure in time of an instance that still holds PENDING and a count under the limit |
| `PasswordReset.AgreementNeverRevives` | backend/accounts/models.py:247-252 | such an instance always disagrees with the row on status or count |
| `PasswordReset.UnusableRowStaysSoIff` | backend/accounts/models.py:213-252 | over any acts of any instances in time order an unusable row stays unusable if and only if none of them revives it at its turn |
| `PasswordReset.AgreementKeepsRowUnusable` | backend/accounts/models.py:213-252 | so while every failure is saved by an instance that agrees with the row |
| `PasswordReset.StaleFailureRevivesUsedRow` | backend/accounts/services/password_reset_service.py:477-512 | a concrete pair of instances with which a USED row becomes PENDING again |
| `PasswordReset.CountRisesIff` | backend/accounts/models.py:247-252 | saving a failure raises the stored count exactly when the instance's count is not behind it |
| `PasswordReset.CountAlwaysRisesIff` | backend/accounts/models.py:247-252 | over any run every saved failure raises it if and only if none is behind |
| `PasswordReset.CountIsExactIff` | backend/accounts/models.py:247-252 | over any run the stored count is the number of saved failures at every moment if and only if each comes from an instance with the stored count |
| `PasswordReset.RowFailuresAreBounded` | backend/accounts/models.py:213-252 | over runs in which none is behind, the row takes at most max_attempts - failed_attempt_count failures while usable |
| `PasswordReset.StaleFailuresAreUnbounded` | backend/accounts/services/password_reset_service.py:477-512 | without that there is no bound: n instances loaded from one row all save a failure and the count rises by one |
| `Purge.Closure` | backend/clear_operational_data.py:102-102 | what a delete gathers contains its seeds and is closed under CASCADE |
| `Purge.ClosureLeast` | backend/clear_operational_data.py:102-102 | and it is the least such set |
| `Purge.DoomedGoesWithTable` | backend/clear_operational_data.py:99-108 | a row that cascades from a table cannot outlive the table |
| `Purge.PurgeIsOrderIndependent` | backend/clear_operational_data.py:94-113 | any two orders of attempts that come to rest leave the same rows |
| `Purge.PurgeSparesTheRest` | backend/clear_operational_data.py:99-108 | a row outside what the selected tables gather at the start survives every run |
| `Purge.EmptyingRanks` | backend/clear_operational_data.py:94-113 | a run that empties the selection yields a ranking of its blocking references |
| `Purge.PurgeEmptiesIffRanked` | backend/clear_operational_data.py:94-113 | at rest the whole selection is empty if and only if the blocking references can be ranked |
| `Purge.PassesClimbRanks` | backend/clear_operational_data.py:94-113 | after n passes every table of rank below n is empty |
| `Purge.PassBound` | backend/clear_operational_data.py:111-113 | with ranks up to r the loop makes at most r + 2 passes |
| `Purge.RankedPurgeEmpties` | backend/clear_operational_data.py:94-113 | with ranks up to r the purge ends with every selected table empty after at most r + 2 passes |
| `Purge.IdlePassIsStuck` | backend/clear_operational_data.py:111-112 | a pass that deletes nothing leaves each selected table empty or blocked |
| `Purge.SelectedIff` | backend/clear_operational_data.py:99-100 | the tables visited are exactly those whose class name is listed, whatever their app |
| `Purge.Database.DeleteAll` | backend/clear_operational_data.py:101-108 | one delete removes the gathered rows and counts them, or fails and changes nothing |
| `Purge.Database.OnePass` | backend/clear_operational_data.py:97-108 | one pass is the run of the selected tables, and its count is exact |
| `Purge.Database.Purge` | backend/clear_operational_data.py:86-115 | the loop ends for every graph; the reported total is rows before minus rows after; it rests; every pass but the last deleted something; with ranks up to r all selected tables are empty after at most r + 2 passes |
| `TextInsertion.Inspect` | backend/fix_db_table.py:13-35 | the scan's flags select exactly the model-like classes none of whose Meta classes names a table |
| `TextInsertion.SelectedIff` | backend/fix_db_table.py:14-35 | which classes are patched, said about their fields, bases and Meta classes |
| `TextInsertion.InspectMeta` | backend/fix_db_table.py:29-33 | finds a db_table assignment if and only if there is one |
| `TextInsertion.Collect` | backend/fix_db_table.py:12-47 | the collected replacements are those of the selected classes in order |
| `TextInsertion.OnePatchPerSelectedClass` | backend/fix_db_table.py:35-47 | each selected class gets exactly one replacement, with its own text and place |
| `TextInsertion.BottomUpIsSimultaneous` | backend/fix_db_table.py:52-57 | inserting in descending order equals placing all texts at once at their original positions |
| `TextInsertion.SortedInsertionIsSimultaneous` | backend/fix_db_table.py:52-57 | so does sorting any replacements first, equal line numbers included |
| `TextInsertion.CollectionOrderIsIrrelevant` | backend/fix_db_table.py:54-57 | with distinct line numbers the order of collection does not matter |
| `TextInsertion.OriginalLinesKeepTheirOrder` | backend/fix_db_table.py:56-57 | each original line moves down by exactly the texts placed at or above it |
| `TextInsertion.TextLiesBelowHeaderIff` | backend/fix_db_table.py:39-47 | the text for a class ends up below its whole header exactly when the header is a single line; otherwise it lands inside |
| `TextInsertion.WeaveIsPatched` | backend/fix_db_table.py:39-57 | the same for the simultaneous placement of the collected texts |
| `TextInsertion.PlaceIsLastMeta` | backend/fix_db_table.py:25-28 | of several Meta classes only the last one counts |
| `TextInsertion.LowerCase` | backend/fix_db_table.py:37-37 | the table name lowers the letters A to Z and changes nothing else |
| `TextInsertion.AddMissingDbTables` | backend/fix_db_table.py:4-60 | with one place per patched class, the result is the original lines in order, directly below the line on which its last Meta (or else the class) begins the text that names its table, and nothing else |
| `LoginLockout.LoginGuard.Check` | backend/accounts/serializers.py:203-213 | an attempt goes on exactly when fewer than five failures are counted |
| `LoginLockout.LoginGuard.NextCount` | backend/accounts/serializers.py:227-227 | one more than the live counter, read again |
| `LoginLockout.LoginGuard.SetCount` | backend/accounts/serializers.py:228-228 | the count written back for another 900 seconds, whatever is stored by then |
| `LoginLockout.LoginGuard.Record` | backend/accounts/serializers.py:226-240 | both, when nothing comes between: a failure counts one up, a pass clears the counter |
| `LoginLockout.LoginGuard.Validate` | backend/accounts/serializers.py:195-240 | an attempt that nothing interrupts: outcome and new cache |
| `LoginLockout.CounterStaysBounded` | backend/accounts/serializers.py:204-229 | for attempts one after another: the counter never exceeds five |
| `LoginLockout.CounterReachesIffRow` | backend/accounts/serializers.py:203-240 | for attempts one after another: the counter reaches c at a time exactly when the history holds c failed checks of the identifier, each less than 900 seconds after the one before and the last less than 900 seconds ago, with no pass since the first |
| `LoginLockout.RefusedIffFiveInARow` | backend/accounts/serializers.py:204-213 | for attempts one after another: an attempt is refused if and only if there are five such failures when it begins |
| `LoginLockout.CounterCoversWindow` | backend/accounts/serializers.py:226-229 | for attempts one after another: inside a window under 900 seconds without a pass the counter holds every failure of the window |
| `LoginLockout.AtMostFiveFailuresPerWindow` | backend/accounts/serializers.py:16-17 | such a window contains at most five failed checks, whatever the cache held before, when attempts do not overlap |
| `LoginRaces.AttemptIsItsSteps` | backend/accounts/serializers.py:203-240 | an attempt whose check, read and write nothing interrupts is the attempt as one operation |
| `LoginRaces.FailuresPerWindow` | backend/accounts/serializers.py:203-240 | however the checks, reads and writes of n workers interleave, from any cache and any attempts under way, less than 900 seconds without a pass record at most C(n+5, 5) - 1 failures of an identifier |
| `LoginRaces.FailuresPerWindowReached` | backend/accounts/serializers.py:203-240 | and from an empty cache and idle workers some run records exactly that many |
| `LoginRaces.WaysAreBinomial` | backend/accounts/serializers.py:16-17 | the bound in closed form: k! times the count is (n+1)(n+2)...(n+k) |
| `LoginRaces.FirstBounds` | backend/accounts/serializers.py:16-17 | 5 for one worker, as the limit says, 20 for two, 55 for three, 125 for four |
| `LoginLockout.CounterRestartsAfterFullWindow` | backend/accounts/serializers.py:226-229 | the window is half open: a concrete failure exactly 900 seconds later is counted afresh |
| `LoginLockout.LockedUntilExpiry` | backend/accounts/serializers.py:204-213 | for attempts one after another: once five are counted every attempt before expiry is refused and none of them moves the expiry |
| `LoginLockout.FifthFailureLocks` | backend/accounts/serializers.py:203-229 | for attempts one after another: after any history from an empty cache, the fifth failure of a row has every later attempt refused that begins within 900 seconds of it |
| `Brochures.DedupeKeepsEachIdOnce` | backend/brochures/serializers.py:98-99 | the deduplicated ids are the same set, each once |
| `Brochures.DedupeKeepsOrder` | backend/brochures/serializers.py:98-99 | in the order of first appearance |
| `Brochures.BrochureStore.ApplyUpdates` | backend/brochures/views.py:258-269 | the field loop stores the row, created hidden when missing, with every listed field replaced |
| `Brochures.BrochureStore.Patch` | backend/brochures/views.py:304-321 | one product's row, or nothing for an unknown product or no updates |
| `Brochures.PatchStoresListedValues` | backend/brochures/views.py:258-269 | column by column what a PATCH stores; a row it creates is off in every catalogue |
| `Brochures.WarningsIff` | backend/brochures/serializers.py:107-121 | exactly when each warning is given |
| `Brochures.BrochureStore.BulkUpdate` | backend/brochures/views.py:333-370 | updates what PATCHing every requested id, repeats included, would; answers with the rows and warnings of the final table; updated plus skipped is the number of different ids |
| `Brochures.PatchesDependOnTheSet` | backend/brochures/views.py:304-321 | PATCHing a list depends only on the set of its ids |
| `Brochures.BulkRefinesPatches` | backend/brochures/views.py:333-370 | bulk equals the PATCHes, is the same for any request with the same ids, is idempotent and spares other rows |
| `Brochures.BulksCommute` | backend/brochures/views.py:333-370 | bulk updates of different products, or of different fields, commute |
| `UploadSecurity.SignaturesAreExclusive` | backend/core/upload_security.py:37-66 | no header has two kinds, so the detected kind is the one whose signature it carries |
| `UploadSecurity.HeaderIsEnough` | backend/core/upload_security.py:104-112 | the first 32 bytes decide the kind of the whole file |
| `UploadSecurity.KnownFiles` | backend/core/upload_security.py:37-43 | files that begin with the known bytes, whatever follows, have that kind and get that extension |
| `UploadSecurity.CollapseRun` | backend/core/upload_security.py:71-71 | a run of unsafe characters becomes one underscore and the safe ones around it stay |
| `UploadSecurity.CollapseSplits` | backend/core/upload_security.py:71-71 | runs are rewritten independently |
| `UploadSecurity.StemDropsLastSuffix` | backend/core/upload_security.py:70-70 | the last suffix goes if something stands before and after its dot, and only then |
| `UploadSecurity.SafeStemIs` | backend/core/upload_security.py:69-72 | of a path with a safe name the directories, the suffix and framing punctuation go, and 60 characters of the rest stay |
| `UploadSecurity.StemIsGood` | backend/core/upload_security.py:69-72 | for every name the stem is 1 to 60 safe characters and starts with a letter or digit |
| `UploadSecurity.TwoPassesReachAFixedPoint` | backend/core/upload_security.py:69-72 | after two applications the name no longer changes |
| `UploadSecurity.OnePassIsEnoughIff` | backend/core/upload_security.py:69-72 | one is enough exactly when the cut at 60 characters left a letter or digit last |
| `UploadSecurity.FixedNames` | backend/core/upload_security.py:69-72 | the names left alone are exactly the good stems that end in a letter or digit |
| `UploadSecurity.AcceptedNameIsSafe` | backend/core/upload_security.py:118-120 | the stored name is a good stem and the extension of the detected kind, all in the safe alphabet |
| `UploadSecurity.ValidateUpload` | backend/core/upload_security.py:75-126 | accepts exactly the files of allowed size whose bytes show an allowed kind; renames if the object permits; rewinds |
| `Texts.NormalisingIsIdempotent` | backend/accounting/models.py:3843-3855 | stripping and upper-casing twice is doing it once |
| `Texts.StripTakesSpace` | backend/accounting/models.py:3843-3855 | stripping takes white space off both ends and nothing else |
| `Texts.UpperCase` | backend/accounting/models.py:3843-3855 | upper case changes the letters a to z and nothing else |

## Left out

- Journal.JournalStore.ReverseGroup: the group's own record, its once-only rule and the per-entry period check are one flag, since the accounts see only the mirrored entries.
- StatusGuards.DocumentTable.SaveDocument: `full_clean` is a Boolean input and the body of a partial save is given as it results, since the guard depends on neither.
- PayrollPeriods.PeriodTable.Save: the period code, its uniqueness and the text fields are one Boolean input.
- Purge.Database.DeleteAll: RESTRICT and generic relations are not modelled, and an exception other than a PROTECT failure does not occur.
- TextInsertion.AddMissingDbTables: parsing is not modelled; the tree and the lines are inputs, and its line numbers are those of the lines.
- VendorCodes.VendorTable.Save: contact and tax fields other than the name are not modelled.
- Texts.NormalisingIsIdempotent: ASCII white space and letters only.
- UploadSecurity.ValidateUpload: a file object whose read or seek raises is not modelled.
- Simultaneous saves of one document row, `queryset.update`, raw SQL and admin deletes: document saves are sequential; only the ledger posting, the login counter and the instances of a password reset are concurrent.
- Whole-row account edits in the starter template: they write outside the row lock, so the balance theorem is about runs of posts.
- DirectSales.DirectSale.SaveTo: the other snapshot fields and foreign keys are one Boolean input, and the branches of counters and accounts are an input of each save.
- PasswordReset.ResetRequest.MarkVerified: resending a code, which moves the expiry, is not one of the class's methods and is not modelled.
- `BillingInvoice.clean`: the checks of a billing invoice other than its status guard.
- `get_or_create_payroll_period`: builds the month bounds from the calendar and calls the modelled save.
- EMI schedules, payment allocation, the lucky draw, number sequences, brochure documents and enquiries, snapshot and seed scripts, and the web client are not part of this model.
