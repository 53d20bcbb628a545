# Loan ledger and payment routing, in Dafny

This project models the loan ledger of the `loan_analysis` repository and proves properties of
that model. The repository has two versions of the ledger.

- `LoanManager` (loan_calc/LoanManager.py) is the iterative version.
- `LoanSolver` (loan_solver/loan_solver.py) is the older recursive version.

Both keep a table of `StudentLoan` records (loan_solver/loan_types.py), keyed by loan name. Both
also keep a frozen copy of each loan as it was when added. They share these operations:

- adding a loan;
- recapitalising (folding unpaid interest into principal);
- accruing interest over an amount of time in a named unit;
- debt-free testing;
- four selectors that name the loan with the most or least unpaid interest or principal;
- sum and fraction reports;
- `pay_loan`.

`pay_loan` pays interest first, then principal. When the money reaching a loan exceeds what it
owes, the loan is deleted and the leftover goes to the loan an excess rule selects. Money that
cannot be placed is handed back.

Money is exact `real` arithmetic. A Python dict is the sequence of its values in insertion order.
Its key is each record's `name`, and distinct names are the representation invariant. So the
stable sort behind a selector is reproduced exactly:

- `[-1]` takes the last loan inserted among those tied for the largest key;
- `[0]` takes the first loan inserted among those tied for the smallest key.

Files:

- `wrappers.dfy`: `Option`, `Result` and `Outcome`.
- `loan_types.dfy`: the `Loan` value and the mutable `StudentLoan` class with `Copy`.
- `loan_table.dfy`: the dict as a sequence. It covers lookup, insertion, deletion and column sums.
- `selection.dfy`: the selectors.
- `ledger_ops.dfy`: what both ledgers do identically:
  - `add_loan`, `recapitalize` and `add_interest`;
  - the "paid interest first" relation between two tables.
- `reports.dfy`: the debt and distribution reports.
- `loan_manager.dfy`: module `LoanCalc`, which is `LoanManager` and its `pay_loan` loop.
- `loan_solver.dfy`: module `LoanSolving`, which is `LoanSolver` and its recursive `pay_loan`.

## How the two `pay_loan`s are modelled

`LoanCalc.Route` and `LoanCalc.RouteAt` are pure functions. They state what `LoanManager.pay_loan`
computes:

- the live table afterwards;
- the money returned;
- what was counted as interest and as principal.

The pass structure of the `while True` loop is followed:

- find the target (the named loan, or the selected one when the name is gone);
- pay its interest, then its principal;
- delete it only on a strict overshoot.

The loop itself is `LoanCalc.PayPasses`, a `while` loop proved equal to `Route`.
`LoanCalc.LoanManager.PayLoan` runs it on the class's fields and keeps the running totals.

`LoanSolving.SolverRoute` and `LoanSolving.SolverRouteAt` do the same for `LoanSolver.pay_loan`,
with these differences:

- a loan is deleted when the money reaches its principal exactly;
- each call adds its whole payment to `total_paid`.

`LoanSolving.LoanSolver.PayLoan` is recursive like the source, and it is proved equal to
`SolverPay`.

Two behaviours of the code are easy to misread, and the model follows the code in both:

- `LoanManager.pay_loan` does not delete a loan paid exactly to zero. The principal test at
  loan_calc/LoanManager.py:158 is `>=`, so the method returns 0 and the loan stays with zero
  interest and zero principal. Its docstring (loan_calc/LoanManager.py:121-123) moves on to the
  next loan only once a loan "is paid off", which happens only on a strict overshoot.
  `LoanCalc.ExactPayoffKeepsLoan` and `LoanCalc.RouteDeletesOnlyOnOvershoot` state this.
- `recapitalize` with only `loan_type` given recapitalises every loan, not only that type. The
  unconditional `else` branch at loan_calc/LoanManager.py:101-103 runs whenever `loan_name` is
  None.

## Model

| member | source | states |
|---|---|---|
| LoanTypes.StudentLoan.constructor | loan_solver/loan_types.py:3-8 | the record holds the five given values exactly, with no validation |
| LoanTypes.StudentLoan.Copy | loan_solver/loan_types.py:13-14 | `copy` returns a freshly allocated record with the same five fields |
| LoanTypes.CopyIsIndependent | loan_solver/loan_types.py:13-14 | after the original's interest and principal are overwritten, the copy still holds the original's old values |
| LoanTable.IndexOf | loan_calc/LoanManager.py:52 | the position found holds the name and no earlier entry does; `|s|` means absent |
| LoanTable.HasAt | loan_calc/LoanManager.py:52 | a stored loan's name is found, at its own position when names are distinct |
| LoanTable.NamesAreKeys | loan_calc/LoanManager.py:52 | a name is among the keys exactly when `name in d` holds |
| LoanTable.IndexOfSameNames | loan_calc/LoanManager.py:148-160 | lookup depends only on the names, so replacing records with same-named ones finds the same place |
| LoanTable.SameNamesKeepIndex | loan_calc/LoanManager.py:148-160 | a table with the same names in the same order finds every name at the same place and keeps keys distinct |
| LoanTable.AppendKeepsIndex | loan_calc/LoanManager.py:61-62 | inserting a new key puts it last, finds its record, and leaves every other key where it was |
| LoanTable.Remove | loan_calc/LoanManager.py:166 | `del` shortens the table by one entry |
| LoanTable.RemoveShifts | loan_calc/LoanManager.py:166 | after `del` the earlier entries keep their places and the later ones move down by one; keys stay distinct |
| LoanTable.Put | loan_calc/LoanManager.py:61-62 | `d[name] = x` makes `name` map to `x` and keeps every other key and value; distinct keys stay distinct |
| LoanTable.RemoveKeepsLookups | loan_calc/LoanManager.py:166 | `del d[name]` removes exactly that key; every other key is kept with its record; keys stay distinct |
| LoanTable.UpdateKeepsLookups | loan_calc/LoanManager.py:148-160 | changing a loan's amounts in place keeps every key and the place of every key |
| LoanTable.TotalUpdate | loan_calc/LoanManager.py:177-178 | replacing one loan changes a column sum by exactly that loan's change |
| LoanTable.TotalRemove | loan_calc/LoanManager.py:177-178 | deleting one loan takes exactly its value out of a column sum |
| LoanTable.TotalConcat | loan_calc/LoanManager.py:177-178 | the column sum of two tables joined is the sum of their column sums |
| LoanTable.TotalPointwise | loan_calc/LoanManager.py:177-178 | tables that agree entry by entry on a column have the same column sum |
| LoanTable.BalanceAtMostDebt | loan_calc/LoanManager.py:163-167 | with no negative amounts, deleting a loan leaves a non-negative debt that is smaller by exactly that loan's balance |
| LoanTable.TotalSplit | loan_calc/LoanManager.py:71-72 | the debt is the principal sum plus the interest sum |
| LoanTable.DebtNonNegative | loan_calc/LoanManager.py:175-180 | with no negative amounts the debt is not negative |
| Selection.PickIndex | loan_calc/LoanManager.py:195-217 | the stable-sort choice: the last loan tied for the largest key, or the first tied for the smallest |
| Selection.ChosenIsUnique | loan_calc/LoanManager.py:195-217 | the tie-break leaves exactly one possible answer |
| Selection.Select | loan_calc/LoanManager.py:195-217 | None exactly when the table is empty; otherwise a live name at the chosen position |
| LedgerOps.Register | loan_calc/LoanManager.py:49-62 | type checked before name; only the live table is searched; on success the loan is appended and its snapshot replaces or joins the snapshot table; nothing changes on error |
| LedgerOps.KeepsTermsThrough | loan_calc/LoanManager.py:61-62 | live loans drawn from a table that matches the snapshots in name, rate and type also match them |
| LedgerOps.PointwiseKeepsTerms | loan_calc/LoanManager.py:92-112 | changing loans one by one without touching name, rate or type keeps them matching the snapshots |
| LedgerOps.PaidInterestFirstAfterUpdate | loan_calc/LoanManager.py:148-160 | paying one loan within the interest-first rule pays interest first overall |
| LedgerOps.PaidInterestFirstAfterRemove | loan_calc/LoanManager.py:166 | interest first relative to the table after a deletion is interest first relative to the table before |
| LedgerOps.NothingPaidIsInterestFirst | loan_calc/LoanManager.py:137-140 | a table left unchanged satisfies the interest-first relation |
| LedgerOps.RecapitalizeLoans | loan_calc/LoanManager.py:92-103 | with a name, only that loan is folded; without one, every loan is, whatever the type; each balance and the debt are unchanged; folded loans have zero interest |
| LedgerOps.Lower | loan_calc/LoanManager.py:106 | `lower()` leaves no ASCII capital, keeps the length and every other character, and returns a string without capitals unchanged |
| LedgerOps.LowerIsIdempotent | loan_calc/LoanManager.py:106 | lowercasing twice is lowercasing once |
| LedgerOps.ToYearsIgnoresCase | loan_calc/LoanManager.py:106-108 | for every unit name, the lower-cased name gives the same conversion or the same error |
| LedgerOps.ToYears | loan_calc/LoanManager.py:16-23 | an unknown unit, after lowercasing, is an error; otherwise the result times the unit's divisor is the amount |
| LedgerOps.TimeUnitFacts | loan_calc/LoanManager.py:16-23 | 12 months, 365 days and 8760 hours are one year; 60 seconds are one minute; case is ignored; `'years'` is unknown |
| LedgerOps.AccrueLoans | loan_calc/LoanManager.py:111-112 | each loan's interest is overwritten with the growth of its principal; nothing else changes |
| LedgerOps.AccrualReplacesInterest | loan_calc/LoanManager.py:111-112 | accrual does not depend on the interest already owed, and accruing twice is accruing once |
| LedgerOps.AccrualAfterRecap | loan_calc/LoanManager.py:111-112 | after recapitalisation, accrual grows the whole former balance from zero interest |
| Reports.TotalDebt | loan_calc/LoanManager.py:175-180 | principal plus interest is the debt; each is non-negative when the loans are |
| Reports.ColumnsNonNegative | loan_calc/LoanManager.py:177-178 | with no negative amounts both column sums are non-negative |
| Reports.Shares | loan_calc/LoanManager.py:186 | empty table: empty map; otherwise an error exactly when the total is zero; the keys are the live names |
| Reports.ShareOfEach | loan_calc/LoanManager.py:186 | each loan's entry is its value over the total |
| Reports.ShareSumScales | loan_calc/LoanManager.py:186 | the shares sum to the column sum over the total |
| Reports.SharesSumToOne | loan_calc/LoanManager.py:182-193 | the fractions of a non-empty table with a non-zero total sum to one |
| Reports.FractionsOfTotal | loan_calc/LoanManager.py:182-193 | any map holding each loan's fraction of the column total sums to one |
| Reports.BalanceDistributionSumsToOne | loan_calc/LoanManager.py:182-187 | an empty table gives the empty map; a non-empty one fails exactly on zero debt, and otherwise its fractions sum to one |
| Reports.InterestDistributionSumsToOne | loan_calc/LoanManager.py:189-193 | an empty table gives the empty map; a non-empty one fails exactly on a zero rate sum, and otherwise its fractions sum to one |
| LoanCalc.Target | loan_calc/LoanManager.py:137-146 | the loan to pay is in the table: the named one, or the one the rule selects |
| LoanCalc.RouteConservesMoney | loan_calc/LoanManager.py:132-167 | money returned plus interest paid plus principal paid is the payment |
| LoanCalc.RouteAtConservesMoney | loan_calc/LoanManager.py:148-167 | the same, from a given target |
| LoanCalc.RouteDebtFalls | loan_calc/LoanManager.py:132-167 | the live debt falls by exactly the payment less the money returned |
| LoanCalc.RouteAtDebtFalls | loan_calc/LoanManager.py:148-167 | the same, from a given target |
| LoanCalc.RouteReturnsExcess | loan_calc/LoanManager.py:137-146 | with a known rule and no negative amounts, the money returned is what exceeds the whole debt |
| LoanCalc.RouteAtReturnsExcess | loan_calc/LoanManager.py:148-167 | the same, from a given target |
| LoanCalc.RouteReturnsOnlyWhenDebtFree | loan_calc/LoanManager.py:142-145 | with a known rule, money comes back only when no loan is left |
| LoanCalc.RouteAtReturnsOnlyWhenDebtFree | loan_calc/LoanManager.py:148-167 | the same, from a given target |
| LoanCalc.RouteBounds | loan_calc/LoanManager.py:132-167 | for a non-negative payment: nothing negative is returned; with no negative amounts, at most the payment is returned and both paid counts are non-negative |
| LoanCalc.RouteAtBounds | loan_calc/LoanManager.py:148-167 | the same, from a given target |
| LoanCalc.RouteWithNowhereToPay | loan_calc/LoanManager.py:137-145 | an absent name with an unknown rule, or an empty table, returns the whole payment and changes nothing |
| LoanCalc.RouteKeepsNames | loan_calc/LoanManager.py:132-167 | no name appears that was not there, and names stay distinct |
| LoanCalc.RouteAtKeepsNames | loan_calc/LoanManager.py:148-167 | the same, from a given target |
| LoanCalc.RouteDeletesOnlyOnOvershoot | loan_calc/LoanManager.py:148-166 | the named loan is deleted exactly when the money exceeds its interest plus principal; an exact payoff leaves it with zero interest and zero principal |
| LoanCalc.RoutePaysInterestFirst | loan_calc/LoanManager.py:148-166 | every surviving loan keeps its terms, and its principal falls only once its interest is zero; at most one surviving loan changes |
| LoanCalc.RouteAtPaysInterestFirst | loan_calc/LoanManager.py:148-166 | the same, from a given target |
| LoanCalc.RouteKeepsLedger | loan_calc/LoanManager.py:132-167 | a payment keeps names distinct, keeps each live loan matching its snapshot, and conserves money |
| LoanCalc.RouteToSelected | loan_calc/LoanManager.py:137-146 | an absent name routes the payment exactly as the selected loan's name would |
| LoanCalc.RouteStepInterest | loan_calc/LoanManager.py:148-151 | money within the interest only lowers the interest and is all counted as interest |
| LoanCalc.RouteStepPrincipal | loan_calc/LoanManager.py:153-161 | money past the interest but within the principal clears the interest and lowers the principal |
| LoanCalc.RouteStepDelete | loan_calc/LoanManager.py:153-167 | money beyond interest plus principal deletes the loan and continues with the rest |
| LoanCalc.FindLoan | loan_calc/LoanManager.py:137-146 | finds the named loan or the selected one; with no rule or no loan, returns the whole payment |
| LoanCalc.PayFound | loan_calc/LoanManager.py:148-167 | one pass on a found loan: it finishes the payment, or it deletes the loan and continues with less money and a shorter table |
| LoanCalc.PayPasses | loan_calc/LoanManager.py:132-169 | the `while True` loop computes exactly what `Route` specifies |
| LoanCalc.ExactPayoffKeepsLoan | loan_calc/LoanManager.py:153-161 | paying exactly interest plus principal keeps the loan, with nothing owed |
| LoanCalc.ExcessToLowestPrincipal | loan_calc/LoanManager.py:124-129 | overpaying a loan sends the excess to the loan with the smallest principal under `lowest_principal` |
| LoanCalc.RestToLowestPrincipal | loan_calc/LoanManager.py:146-161 | the excess is paid into the smallest principal |
| LoanCalc.ExcessToLargestBalance | loan_calc/LoanManager.py:124-129 | under `largest_balance` the excess goes to the loan with the largest principal |
| LoanCalc.RestToLargestBalance | loan_calc/LoanManager.py:146-161 | the excess is paid into the largest principal |
| LoanCalc.ExcessBeyondAllDebt | loan_calc/LoanManager.py:142-145 | money left after every loan is paid off is returned |
| LoanCalc.ExcessWithoutRule | loan_calc/LoanManager.py:137-140 | with the default rule `'null'`, the overshoot is returned at once |
| LoanCalc.LoanManager.constructor | loan_calc/LoanManager.py:7-13 | empty tables and zero totals |
| LoanCalc.LoanManager.AddLoan | loan_calc/LoanManager.py:32-62 | succeeds exactly when the type is supported and the name is not live (so a paid-off name can be added again); an unsupported type fails before a duplicate name; on success the loan is appended and its snapshot put; on failure nothing changes; the totals are unchanged |
| LoanCalc.LoanManager.GetInitialBalance | loan_calc/LoanManager.py:64-66 | the snapshot principal sum, non-negative when the snapshots are |
| LoanCalc.LoanManager.GetInitialInterest | loan_calc/LoanManager.py:68-69 | the snapshot interest sum, non-negative when the snapshots are |
| LoanCalc.LoanManager.GetInitialDebt | loan_calc/LoanManager.py:71-72 | the snapshot debt |
| LoanCalc.LoanManager.Recapitalize | loan_calc/LoanManager.py:74-103 | as `RecapitalizeLoans`, on the live table; snapshots and totals unchanged; the ledger invariant is kept |
| LoanCalc.LoanManager.AddInterest | loan_calc/LoanManager.py:105-112 | an unknown unit fails and changes nothing; otherwise every loan is accrued; snapshots and totals unchanged |
| LoanCalc.LoanManager.DebtFree | loan_calc/LoanManager.py:114-118 | true exactly when no selector has a loan to name; then nothing is owed |
| LoanCalc.LoanManager.PayLoan | loan_calc/LoanManager.py:120-169 | the table, returned money and paid counts are `Route`'s; the total paid grows by the money absorbed; the snapshots and the invariant are kept |
| LoanCalc.LoanManager.GetTotalDebt | loan_calc/LoanManager.py:175-180 | principal plus interest is the live debt |
| LoanCalc.LoanManager.GetBalanceDistribution | loan_calc/LoanManager.py:182-187 | an empty table gives the empty map; a non-empty one fails exactly on zero debt; the keys are the live names |
| LoanCalc.LoanManager.GetInterestDistribution | loan_calc/LoanManager.py:189-193 | an empty table gives the empty map; a non-empty one fails exactly on a zero rate sum; the keys are the live names |
| LoanCalc.LoanManager.LargestInterestRate | loan_calc/LoanManager.py:195-199 | None exactly when empty; otherwise the last loan tied for the most unpaid interest |
| LoanCalc.LoanManager.SmallestInterestRate | loan_calc/LoanManager.py:201-205 | None exactly when empty; otherwise the first loan tied for the least unpaid interest |
| LoanCalc.LoanManager.LargestBalance | loan_calc/LoanManager.py:207-211 | None exactly when empty; otherwise the last loan tied for the largest principal |
| LoanCalc.LoanManager.SmallestBalance | loan_calc/LoanManager.py:213-217 | None exactly when empty; otherwise the first loan tied for the smallest principal |
| LoanCalc.LoanManager.GetTotalPaid | loan_calc/LoanManager.py:219-226 | the total paid is the interest paid plus the principal paid |
| LoanCalc.LoanManager.CheckPayments | loan_calc/LoanManager.py:228-231 | a zero total divides by zero; a mismatch fails only when the counts differ; with the ledger invariant it passes exactly when something was paid |
| LoanSolving.RuleNamesDiffer | loan_solver/loan_solver.py:121-126 | `largest_principal` is accepted here but not by `LoanManager`, and `largest_balance` the other way round; the other three names agree |
| LoanSolving.SolverPay | loan_solver/loan_solver.py:128-132 | an absent name returns the payment unchanged, whatever the rule; an unknown rule is an error, and the only one |
| LoanSolving.SolverDebtFalls | loan_solver/loan_solver.py:137-160 | the live debt falls by exactly the payment less the money returned |
| LoanSolving.SolverAtDebtFalls | loan_solver/loan_solver.py:138-160 | the same, from a given loan |
| LoanSolving.SolverReturnsExcess | loan_solver/loan_solver.py:145-160 | with no negative amounts, the money returned is what exceeds the whole debt |
| LoanSolving.SolverAtReturnsExcess | loan_solver/loan_solver.py:138-160 | the same, from a given loan |
| LoanSolving.SolverCountsEveryPass | loan_solver/loan_solver.py:137-160 | the total-paid increase is at least the payment, and so at least the money absorbed, because line 152 subtracts nothing |
| LoanSolving.SolverAtCountsEveryPass | loan_solver/loan_solver.py:137-160 | the same, from a given loan |
| LoanSolving.SolverKeepsNames | loan_solver/loan_solver.py:138-160 | no name appears that was not there, and names stay distinct |
| LoanSolving.SolverAtKeepsNames | loan_solver/loan_solver.py:138-160 | the same, from a given loan |
| LoanSolving.SolverPaysInterestFirst | loan_solver/loan_solver.py:138-151 | every surviving loan keeps its terms, and its principal falls only once its interest is zero; at most one surviving loan changes |
| LoanSolving.SolverAtPaysInterestFirst | loan_solver/loan_solver.py:138-160 | the same, from a given loan |
| LoanSolving.SolverDeletesOnPayoff | loan_solver/loan_solver.py:145-151 | the named loan is deleted exactly when the money exceeds its interest and the rest reaches its principal |
| LoanSolving.ForwardedMoneyCountedTwice | loan_solver/loan_solver.py:137-160 | two loans of 100 and a payment of 150: the total paid grows by 200 |
| LoanSolving.SecondLoanTakesFifty | loan_solver/loan_solver.py:145-147 | the forwarded 50 only lowers the second loan's principal |
| LoanSolving.ExactPayoffDeletesLoan | loan_solver/loan_solver.py:148-157 | paying exactly interest plus principal deletes the loan |
| LoanSolving.SolverStepDelete | loan_solver/loan_solver.py:148-160 | a deletion with loans left continues on the selected loan and adds its own payment to the count |
| LoanSolving.SolverStepLast | loan_solver/loan_solver.py:148-157 | deleting the last loan returns the leftover |
| LoanSolving.PayNamed | loan_solver/loan_solver.py:138-151 | one call's own changes: it finishes the payment, or it deletes the loan and leaves what the recursion receives |
| LoanSolving.PassKeepsLedger | loan_solver/loan_solver.py:138-151 | one call's own changes keep names distinct and each live loan matching its snapshot |
| LoanSolving.LoanSolver.constructor | loan_solver/loan_solver.py:6-10 | empty tables and zero total |
| LoanSolving.LoanSolver.AddLoan | loan_solver/loan_solver.py:30-59 | succeeds exactly when the type is supported and the name is not live (so a paid-off name can be added again); an unsupported type fails before a duplicate name; on success the loan is appended and its snapshot put; on failure nothing changes; the total is unchanged |
| LoanSolving.LoanSolver.GetInitialPrincipal | loan_solver/loan_solver.py:61-63 | the snapshot principal sum, non-negative when the snapshots are |
| LoanSolving.LoanSolver.GetInitialInterest | loan_solver/loan_solver.py:65-66 | the snapshot interest sum, non-negative when the snapshots are |
| LoanSolving.LoanSolver.GetInitialDebt | loan_solver/loan_solver.py:68-69 | the snapshot debt |
| LoanSolving.LoanSolver.Recapitalize | loan_solver/loan_solver.py:71-100 | as `RecapitalizeLoans`, on the live table; snapshots and total unchanged |
| LoanSolving.LoanSolver.AddInterest | loan_solver/loan_solver.py:102-109 | an unknown unit fails and changes nothing; otherwise every loan is accrued |
| LoanSolving.LoanSolver.DebtFree | loan_solver/loan_solver.py:111-115 | true exactly when no selector has a loan to name; then nothing is owed |
| LoanSolving.LoanSolver.PayLoan | loan_solver/loan_solver.py:118-160 | an error changes nothing; otherwise the table and returned money are `SolverRoute`'s, and the total paid grows by every call's payment |
| LoanSolving.LoanSolver.GetTotalDebt | loan_solver/loan_solver.py:166-171 | principal plus interest is the live debt |
| LoanSolving.LoanSolver.GetBalanceDistribution | loan_solver/loan_solver.py:173-178 | an empty table gives the empty map; a non-empty one fails exactly on zero debt; the keys are the live names |
| LoanSolving.LoanSolver.GetInterestDistribution | loan_solver/loan_solver.py:180-184 | an empty table gives the empty map; a non-empty one fails exactly on a zero rate sum; the keys are the live names |
| LoanSolving.LoanSolver.LargestInterestRate | loan_solver/loan_solver.py:186-190 | None exactly when empty; otherwise the last loan tied for the most unpaid interest |
| LoanSolving.LoanSolver.SmallestInterestRate | loan_solver/loan_solver.py:192-196 | None exactly when empty; otherwise the first loan tied for the least unpaid interest |
| LoanSolving.LoanSolver.LargestPrincipal | loan_solver/loan_solver.py:198-202 | None exactly when empty; otherwise the last loan tied for the largest principal |
| LoanSolving.LoanSolver.SmallestPrincipal | loan_solver/loan_solver.py:204-208 | None exactly when empty; otherwise the first loan tied for the smallest principal |

## Left out

- `np.exp` is a parameter, `exp: real -> real`, of `AddInterest`. Continuous compounding is not
  evaluated, so accrual is proved only in terms of that function.
- Floating point is not modelled; amounts are exact reals. The 1% tolerance of `check_payments`
  is evaluated exactly.
- Exceptions are error values (`LedgerError`), not raised exceptions:
  - both `add_interest` versions would raise `AttributeError`, not `ValueError`, while building
    their message (loan_calc/LoanManager.py:108, loan_solver/loan_solver.py:105); this is
    modelled simply as an error;
  - the divisions by zero in the reports and in `check_payments` become `DivisionByZero`.
- Message texts, `print_loan_state` and `StudentLoan.__repr__` are console output.
- Default arguments are not modelled; callers pass every argument.
- `str.lower()` is modelled on ASCII letters only.
- The ledgers store `Loan` values, not shared `StudentLoan` objects. `Register` allocates a
  `StudentLoan` and its `copy`, and `CopyIsIndependent` states the independence the snapshot
  relies on. Aliasing between a caller's object and the table is not modelled.
- The `debt_free()` checks in `LoanSolver.pay_loan` (loan_solver/loan_solver.py:135, 158) are
  omitted. They cannot succeed: the named or selected loan is in the table, so it is not empty.
- `LoanManager`'s `payment_loop` counter (loan_calc/LoanManager.py:131-135) is never read, so
  it is omitted. The two lines after its `while True` loop (loan_calc/LoanManager.py:168-169)
  cannot run.
- `get_interest_paid` and `get_principal_paid` are the fields `interestPaid` and `principalPaid`,
  read through `GetInterestPaid` and `GetPrincipalPaid`.
- pay_loans.py, the simulation driver, is not part of this model.
- loan_calc/loan_types.py is not part of this model. `LoanManager` is taken to use the same record
  as loan_solver/loan_types.py.
- loan_solver/loan_solver.py uses `np` without importing it. The model treats `exp` as given.
- LoanCalc.RouteReturnsExcess: this is stated only for a known rule and no negative amounts. With
  an unknown rule the money comes back as soon as the target is deleted; `ExcessWithoutRule`
  shows that case.
- LoanSolving.SolverReturnsExcess: this is stated only for a named loan in the table and no
  negative amounts. An absent name returns the whole payment (`SolverPay`).
