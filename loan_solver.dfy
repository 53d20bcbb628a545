/** `LoanSolver`, the recursive ledger: the same tables, recapitalisation and accrual as
    `LoanManager`, with its own `pay_loan`. That `pay_loan` deletes a loan paid exactly to zero,
    raises on an unknown excess rule, and adds every pass's payment to `total_paid` without ever
    taking the forwarded money back out. */
module LoanSolving {
  import opened Wrappers
  import opened LoanTypes
  import opened LoanTable
  import opened Selection
  import opened LedgerOps
  import opened Reports
  import LoanCalc

  /** `excess_name` of `pay_loan`: the four rule names this ledger accepts. */
  function SolverRule(excess: string): Option<Selector>
  {
    match excess
    case "largest_interest" => Some(LargestInterest)
    case "lowest_interest" => Some(SmallestInterest)
    case "largest_principal" => Some(LargestPrincipal)
    case "lowest_principal" => Some(SmallestPrincipal)
    case _ => None
  }

  /** The two ledgers name the principal-ordered rules differently: each rejects the other's name
      for the largest principal, and they agree on the other three. */
  lemma RuleNamesDiffer()
    ensures SolverRule("largest_principal") == Some(LargestPrincipal)
    ensures LoanCalc.ExcessRule("largest_principal") == None
    ensures LoanCalc.ExcessRule("largest_balance") == Some(LargestPrincipal)
    ensures SolverRule("largest_balance") == None
    ensures forall rule :: rule in {"largest_interest", "lowest_interest", "lowest_principal"} ==>
      SolverRule(rule) == LoanCalc.ExcessRule(rule) != None
  {
  }

  /** The result of a `pay_loan` call: the live table afterwards, the money handed back, and how much
      the call (with its recursive calls) added to `total_paid`. */
  datatype Settlement = Settlement(loans: seq<Loan>, returned: real, counted: real)

  /** A call on a name: an absent name hands the payment back untouched. */
  function SolverRoute(loans: seq<Loan>, name: string, payment: real, sel: Selector): Settlement
    decreases |loans|, 1
  {
    if !Has(loans, name) then Settlement(loans, payment, 0.0)
    else SolverRouteAt(loans, IndexOf(loans, name), payment, sel)
  }

  /** A call on the loan at `i`: the whole payment is counted; interest first, then principal; a
      loan whose principal the rest reaches or exceeds is deleted and the leftover goes to the
      selected loan, or back to the caller when none is left. */
  function SolverRouteAt(loans: seq<Loan>, i: nat, payment: real, sel: Selector): Settlement
    requires i < |loans|
    decreases |loans|, 0
  {
    var l := loans[i];
    if payment <= l.interest then
      Settlement(loans[i := l.(interest := l.interest - payment)], 0.0, payment)
    else
      var rest := payment - l.interest;
      if rest < l.principal then
        Settlement(loans[i := l.(interest := 0.0, principal := l.principal - rest)], 0.0, payment)
      else
        var left := rest - l.principal;
        var remaining := Remove(loans, i);
        if remaining == [] then Settlement(remaining, left, payment)
        else
          var next := SolverRoute(remaining, Select(remaining, sel).value, left, sel);
          Settlement(next.loans, next.returned, payment + next.counted)
  }

  /** `pay_loan` as called: an absent name returns the payment before the rule is looked at; an
      unknown rule is an error; otherwise the payment is routed. */
  function SolverPay(loans: seq<Loan>, name: string, payment: real, excess: string): (r: Result<Settlement, LedgerError>)
    ensures r.Err? <==> Has(loans, name) && SolverRule(excess).None?
    ensures r.Err? ==> r.error == UnknownExcessRule
    ensures !Has(loans, name) ==> r == Ok(Settlement(loans, payment, 0.0))
    ensures r.Ok? && Has(loans, name) ==> r.value == SolverRoute(loans, name, payment, SolverRule(excess).value)
  {
    if !Has(loans, name) then Ok(Settlement(loans, payment, 0.0))
    else if SolverRule(excess).None? then Err(UnknownExcessRule)
    else Ok(SolverRoute(loans, name, payment, SolverRule(excess).value))
  }

  /** The debt falls by exactly the money not handed back. */
  lemma {:induction false} SolverDebtFalls(loans: seq<Loan>, name: string, payment: real, sel: Selector)
    ensures var r := SolverRoute(loans, name, payment, sel);
      Debt(r.loans) == Debt(loans) - (payment - r.returned)
    decreases |loans|, 1
  {
    if Has(loans, name) {
      SolverAtDebtFalls(loans, IndexOf(loans, name), payment, sel);
    }
  }

  lemma {:induction false} SolverAtDebtFalls(loans: seq<Loan>, i: nat, payment: real, sel: Selector)
    requires i < |loans|
    ensures var r := SolverRouteAt(loans, i, payment, sel);
      Debt(r.loans) == Debt(loans) - (payment - r.returned)
    decreases |loans|, 0
  {
    var l := loans[i];
    if payment <= l.interest {
      var x := l.(interest := l.interest - payment);
      assert SolverRouteAt(loans, i, payment, sel) == Settlement(loans[i := x], 0.0, payment);
      TotalUpdate(loans, i, x, BalanceOf);
    } else if payment - l.interest < l.principal {
      var x := l.(interest := 0.0, principal := l.principal - (payment - l.interest));
      assert SolverRouteAt(loans, i, payment, sel) == Settlement(loans[i := x], 0.0, payment);
      TotalUpdate(loans, i, x, BalanceOf);
    } else {
      var left := payment - l.interest - l.principal;
      var remaining := Remove(loans, i);
      TotalRemove(loans, i, BalanceOf);
      if remaining != [] {
        var next := SolverRoute(remaining, Select(remaining, sel).value, left, sel);
        assert SolverRouteAt(loans, i, payment, sel).loans == next.loans;
        assert SolverRouteAt(loans, i, payment, sel).returned == next.returned;
        SolverDebtFalls(remaining, Select(remaining, sel).value, left, sel);
      }
    }
  }

  /** With no negative amounts, the money handed back is what exceeds the whole debt. */
  lemma {:induction false} SolverReturnsExcess(loans: seq<Loan>, name: string, payment: real, sel: Selector)
    requires Has(loans, name) && NonNegative(loans) && payment >= 0.0
    ensures SolverRoute(loans, name, payment, sel).returned ==
      if payment <= Debt(loans) then 0.0 else payment - Debt(loans)
    decreases |loans|, 1
  {
    SolverAtReturnsExcess(loans, IndexOf(loans, name), payment, sel);
  }

  lemma {:induction false} SolverAtReturnsExcess(loans: seq<Loan>, i: nat, payment: real, sel: Selector)
    requires i < |loans| && NonNegative(loans) && payment >= 0.0
    ensures SolverRouteAt(loans, i, payment, sel).returned ==
      if payment <= Debt(loans) then 0.0 else payment - Debt(loans)
    decreases |loans|, 0
  {
    var l := loans[i];
    BalanceAtMostDebt(loans, i);
    if payment - l.interest >= l.principal && payment > l.interest {
      var left := payment - l.interest - l.principal;
      var remaining := Remove(loans, i);
      if remaining != [] {
        var name' := Select(remaining, sel).value;
        assert SolverRouteAt(loans, i, payment, sel).returned == SolverRoute(remaining, name', left, sel).returned;
        SolverReturnsExcess(remaining, name', left, sel);
      }
    }
  }

  /** Every pass counts its whole payment, and a forwarded leftover is counted again by the pass it
      is forwarded to: what a call adds to `total_paid` is at least its payment, and so at least the
      money absorbed. */
  lemma {:induction false} SolverCountsEveryPass(loans: seq<Loan>, name: string, payment: real, sel: Selector)
    requires Has(loans, name)
    ensures var r := SolverRoute(loans, name, payment, sel);
      r.returned >= 0.0 && r.counted >= payment && r.counted >= payment - r.returned
    decreases |loans|, 1
  {
    SolverAtCountsEveryPass(loans, IndexOf(loans, name), payment, sel);
  }

  lemma {:induction false} SolverAtCountsEveryPass(loans: seq<Loan>, i: nat, payment: real, sel: Selector)
    requires i < |loans|
    ensures var r := SolverRouteAt(loans, i, payment, sel);
      r.returned >= 0.0 && r.counted >= payment && r.counted >= payment - r.returned
    decreases |loans|, 0
  {
    var l := loans[i];
    if payment - l.interest >= l.principal && payment > l.interest {
      var left := payment - l.interest - l.principal;
      var remaining := Remove(loans, i);
      if remaining != [] {
        var name' := Select(remaining, sel).value;
        var next := SolverRoute(remaining, name', left, sel);
        assert SolverRouteAt(loans, i, payment, sel) == Settlement(next.loans, next.returned, payment + next.counted);
        SolverCountsEveryPass(remaining, name', left, sel);
      }
    }
  }

  /** No name appears that was not there, and names stay distinct. */
  lemma {:induction false} SolverKeepsNames(loans: seq<Loan>, name: string, payment: real, sel: Selector)
    requires DistinctNames(loans)
    ensures var r := SolverRoute(loans, name, payment, sel);
      && DistinctNames(r.loans)
      && forall n :: Has(r.loans, n) ==> Has(loans, n)
    decreases |loans|, 1
  {
    if Has(loans, name) {
      SolverAtKeepsNames(loans, IndexOf(loans, name), payment, sel);
    }
  }

  lemma {:induction false} SolverAtKeepsNames(loans: seq<Loan>, i: nat, payment: real, sel: Selector)
    requires i < |loans| && DistinctNames(loans)
    ensures var r := SolverRouteAt(loans, i, payment, sel);
      && DistinctNames(r.loans)
      && forall n :: Has(r.loans, n) ==> Has(loans, n)
    decreases |loans|, 0
  {
    var l := loans[i];
    if payment <= l.interest {
      var x := l.(interest := l.interest - payment);
      assert SolverRouteAt(loans, i, payment, sel).loans == loans[i := x];
      UpdateKeepsLookups(loans, i, x);
    } else if payment - l.interest < l.principal {
      var x := l.(interest := 0.0, principal := l.principal - (payment - l.interest));
      assert SolverRouteAt(loans, i, payment, sel).loans == loans[i := x];
      UpdateKeepsLookups(loans, i, x);
    } else {
      var remaining := Remove(loans, i);
      RemoveKeepsLookups(loans, i);
      if remaining != [] {
        var name' := Select(remaining, sel).value;
        var left := payment - l.interest - l.principal;
        assert SolverRouteAt(loans, i, payment, sel).loans == SolverRoute(remaining, name', left, sel).loans;
        SolverKeepsNames(remaining, name', left, sel);
      }
    }
  }

  /** Interest is paid before principal, and at most one surviving loan changes. */
  lemma {:induction false} SolverPaysInterestFirst(loans: seq<Loan>, name: string, payment: real, sel: Selector)
    requires DistinctNames(loans)
    ensures PaidInterestFirst(loans, SolverRoute(loans, name, payment, sel).loans)
    decreases |loans|, 1
  {
    if Has(loans, name) {
      SolverAtPaysInterestFirst(loans, IndexOf(loans, name), payment, sel);
    } else {
      NothingPaidIsInterestFirst(loans);
    }
  }

  lemma {:induction false} SolverAtPaysInterestFirst(loans: seq<Loan>, i: nat, payment: real, sel: Selector)
    requires i < |loans| && DistinctNames(loans)
    ensures PaidInterestFirst(loans, SolverRouteAt(loans, i, payment, sel).loans)
    decreases |loans|, 0
  {
    var l := loans[i];
    if payment <= l.interest {
      var x := l.(interest := l.interest - payment);
      assert SolverRouteAt(loans, i, payment, sel).loans == loans[i := x];
      PaidInterestFirstAfterUpdate(loans, i, x);
    } else if payment - l.interest < l.principal {
      var x := l.(interest := 0.0, principal := l.principal - (payment - l.interest));
      assert SolverRouteAt(loans, i, payment, sel).loans == loans[i := x];
      PaidInterestFirstAfterUpdate(loans, i, x);
    } else {
      var remaining := Remove(loans, i);
      RemoveShifts(loans, i);
      if remaining != [] {
        var name' := Select(remaining, sel).value;
        var after := SolverRoute(remaining, name', payment - l.interest - l.principal, sel).loans;
        assert SolverRouteAt(loans, i, payment, sel).loans == after;
        SolverPaysInterestFirst(remaining, name', payment - l.interest - l.principal, sel);
        PaidInterestFirstAfterRemove(loans, i, after);
      } else {
        assert SolverRouteAt(loans, i, payment, sel).loans == [];
      }
    }
  }

  /** The named loan is deleted exactly when the money reaching it exceeds its unpaid interest and
      then reaches its principal: unlike `LoanManager`, a loan paid exactly to zero goes. */
  lemma SolverDeletesOnPayoff(loans: seq<Loan>, name: string, payment: real, sel: Selector)
    requires DistinctNames(loans) && Has(loans, name)
    ensures var l := Get(loans, name);
      !Has(SolverRoute(loans, name, payment, sel).loans, name) <==>
        payment > l.interest && payment - l.interest >= l.principal
  {
    var i := IndexOf(loans, name);
    var l := loans[i];
    var r := SolverRoute(loans, name, payment, sel);
    assert r == SolverRouteAt(loans, i, payment, sel);
    if payment <= l.interest {
      var x := l.(interest := l.interest - payment);
      assert r.loans == loans[i := x];
      UpdateKeepsLookups(loans, i, x);
    } else if payment - l.interest < l.principal {
      var x := l.(interest := 0.0, principal := l.principal - (payment - l.interest));
      assert r.loans == loans[i := x];
      UpdateKeepsLookups(loans, i, x);
    } else {
      var remaining := Remove(loans, i);
      RemoveKeepsLookups(loans, i);
      if remaining != [] {
        var name' := Select(remaining, sel).value;
        var left := payment - l.interest - l.principal;
        assert r.loans == SolverRoute(remaining, name', left, sel).loans;
        SolverKeepsNames(remaining, name', left, sel);
      }
    }
  }

  /** Two loans of 100 and a payment of 150 on the first: 150 is absorbed, yet the total paid grows
      by 200, since the 50 forwarded to the second loan is counted by both passes. */
  lemma ForwardedMoneyCountedTwice()
    ensures var a := Loan("a", 0.05, "StudentLoan", 0.0, 100.0);
      var b := Loan("b", 0.03, "StudentLoan", 0.0, 100.0);
      SolverPay([a, b], "a", 150.0, "largest_interest") ==
        Ok(Settlement([b.(principal := 50.0)], 0.0, 200.0))
  {
    var a := Loan("a", 0.05, "StudentLoan", 0.0, 100.0);
    var b := Loan("b", 0.03, "StudentLoan", 0.0, 100.0);
    assert SolverRule("largest_interest") == Some(LargestInterest);
    assert IndexOf([a, b], "a") == 0;
    assert Remove([a, b], 0) == [b];
    assert Select([b], LargestInterest) == Some("b");
    SecondLoanTakesFifty(b);
    SolverStepDelete([a, b], "a", 150.0, LargestInterest, 0, a, [b], 50.0, "b", SolverRoute([b], "b", 50.0, LargestInterest));
  }

  /** The second pass of `ForwardedMoneyCountedTwice`. */
  lemma SecondLoanTakesFifty(b: Loan)
    requires b == Loan("b", 0.03, "StudentLoan", 0.0, 100.0)
    ensures SolverRoute([b], "b", 50.0, LargestInterest) == Settlement([b.(principal := 50.0)], 0.0, 50.0)
  {
    assert IndexOf([b], "b") == 0;
  }

  /** A payment of exactly the balance deletes the loan, whatever the rule. */
  lemma ExactPayoffDeletesLoan(sel: Selector)
    ensures var a := Loan("a", 0.05, "StudentLoan", 10.0, 1000.0);
      SolverRoute([a], "a", 1010.0, sel) == Settlement([], 0.0, 1010.0)
  {
    var a := Loan("a", 0.05, "StudentLoan", 10.0, 1000.0);
    assert IndexOf([a], "a") == 0;
    assert Remove([a], 0) == [];
  }

  /** A call that pays off and deletes its loan while others remain continues on the selected loan
      with the leftover, having counted its own payment. */
  lemma SolverStepDelete(loans: seq<Loan>, name: string, payment: real, sel: Selector, i: nat, l: Loan,
                         rest: seq<Loan>, left: real, target: string, next: Settlement)
    requires Has(loans, name) && i == IndexOf(loans, name) && l == loans[i]
    requires payment > l.interest && payment - l.interest >= l.principal
    requires rest == Remove(loans, i) && left == payment - l.interest - l.principal
    requires Select(rest, sel) == Some(target) && next == SolverRoute(rest, target, left, sel)
    ensures SolverRoute(loans, name, payment, sel) == Settlement(next.loans, next.returned, payment + next.counted)
  {
  }

  /** A call that pays off and deletes the last loan hands the leftover back. */
  lemma SolverStepLast(loans: seq<Loan>, name: string, payment: real, sel: Selector, i: nat, l: Loan)
    requires Has(loans, name) && i == IndexOf(loans, name) && l == loans[i]
    requires payment > l.interest && payment - l.interest >= l.principal && Remove(loans, i) == []
    ensures SolverRoute(loans, name, payment, sel) == Settlement([], payment - l.interest - l.principal, payment)
  {
  }

  /** The body of one `pay_loan` call on a name in the table: interest first, then principal, and
      the loan is deleted once its principal is reached, leaving `left` for the selected loan. */
  method PayNamed(loans: seq<Loan>, name: string, payment: real, sel: Selector)
    returns (deleted: bool, live: seq<Loan>, left: real)
    requires Has(loans, name)
    ensures !deleted ==> SolverRoute(loans, name, payment, sel) == Settlement(live, 0.0, payment)
    ensures deleted ==> |live| < |loans|
    ensures deleted && live == [] ==> SolverRoute(loans, name, payment, sel) == Settlement([], left, payment)
    ensures deleted && live != [] ==>
      var next := SolverRoute(live, Select(live, sel).value, left, sel);
      SolverRoute(loans, name, payment, sel) == Settlement(next.loans, next.returned, payment + next.counted)
    ensures deleted ==> live == Remove(loans, IndexOf(loans, name))
  {
    var i := IndexOf(loans, name);
    var l := loans[i];
    if payment <= l.interest {
      var x := l.(interest := l.interest - payment);
      assert SolverRoute(loans, name, payment, sel) == Settlement(loans[i := x], 0.0, payment);
      return false, loans[i := x], 0.0;
    }
    var amount := payment - l.interest;
    var cleared := l.(interest := 0.0);
    if amount < l.principal {
      var x := cleared.(principal := l.principal - amount);
      assert SolverRoute(loans, name, payment, sel) == Settlement(loans[i := x], 0.0, payment);
      return false, loans[i := x], 0.0;
    }
    left := amount - l.principal;
    live := Remove(loans[i := cleared.(principal := 0.0)], i);
    assert live == Remove(loans, i) by {
      var t := loans[i := cleared.(principal := 0.0)];
      assert t[..i] == loans[..i] && t[i + 1..] == loans[i + 1..];
    }
    if live == [] {
      SolverStepLast(loans, name, payment, sel, i, l);
    } else {
      SolverStepDelete(loans, name, payment, sel, i, l, live, left, Select(live, sel).value,
                       SolverRoute(live, Select(live, sel).value, left, sel));
    }
    deleted := true;
  }

  /** One call's own changes keep the ledger's invariant: names stay distinct and every live loan
      keeps the terms it was added with. */
  lemma PassKeepsLedger(loans: seq<Loan>, initial: seq<Loan>, name: string, payment: real, sel: Selector,
                        deleted: bool, live: seq<Loan>)
    requires Has(loans, name) && DistinctNames(loans) && KeepsTerms(loans, initial)
    requires !deleted ==> live == SolverRoute(loans, name, payment, sel).loans
    requires deleted ==> live == Remove(loans, IndexOf(loans, name))
    ensures DistinctNames(live) && KeepsTerms(live, initial)
  {
    if deleted {
      RemoveKeepsLookups(loans, IndexOf(loans, name));
    } else {
      SolverKeepsNames(loans, name, payment, sel);
      SolverPaysInterestFirst(loans, name, payment, sel);
    }
    KeepsTermsThrough(loans, live, initial);
  }

  /** `LoanSolver`: the live table, the snapshot of each loan as it was added (kept after the loan is
      paid off), and the running total paid. */
  class LoanSolver {
    var loans: seq<Loan>
    var paidLoans: seq<Loan>
    var totalPaid: real

    /** Each table has distinct names and each live loan keeps the terms it was added with. */
    ghost predicate Valid()
      reads this
    {
      DistinctNames(loans) && DistinctNames(paidLoans) && KeepsTerms(loans, paidLoans)
    }

    constructor ()
      ensures Valid()
      ensures loans == [] && paidLoans == [] && totalPaid == 0.0
    {
      loans := [];
      paidLoans := [];
      totalPaid := 0.0;
    }

    /** `add_loan`. */
    method AddLoan(loanName: string, loanType: string, interestRate: real,
                   principalBalance: real, interestBalance: real)
      returns (r: Outcome<LedgerError>)
      requires Valid()
      modifies this
      ensures Valid()
      ensures totalPaid == old(totalPaid)
      ensures loanType !in LoanTypeNames ==> r == Fail(UnsupportedLoanType)
      ensures loanType in LoanTypeNames && Has(old(loans), loanName) ==> r == Fail(DuplicateLoanName)
      ensures r.Pass? <==> loanType in LoanTypeNames && !Has(old(loans), loanName)
      ensures r.Fail? ==> loans == old(loans) && paidLoans == old(paidLoans)
      ensures r.Pass? ==>
        var added := Loan(loanName, interestRate, loanType, interestBalance, principalBalance);
        && loans == old(loans) + [added]
        && paidLoans == Put(old(paidLoans), added)
    {
      var t := Register(loans, paidLoans, loanName, loanType, interestRate, principalBalance, interestBalance);
      match t
      case Err(e) =>
        r := Fail(e);
      case Ok(tables) =>
        loans, paidLoans := tables.live, tables.initial;
        r := Pass;
    }

    /** `get_initial_principal`: the principal of every loan ever added, as it was when added. */
    function GetInitialPrincipal(): (r: real)
      reads this
      ensures r == Total(paidLoans, PrincipalOf)
      ensures NonNegative(paidLoans) ==> r >= 0.0
    {
      ColumnsNonNegative(paidLoans);
      Total(paidLoans, PrincipalOf)
    }

    /** `get_initial_interest`. */
    function GetInitialInterest(): (r: real)
      reads this
      ensures r == Total(paidLoans, InterestOf)
      ensures NonNegative(paidLoans) ==> r >= 0.0
    {
      ColumnsNonNegative(paidLoans);
      Total(paidLoans, InterestOf)
    }

    /** `get_initial_debt`: the balances of the snapshots, summed. */
    function GetInitialDebt(): (r: real)
      reads this
      ensures r == Debt(paidLoans)
    {
      TotalSplit(paidLoans);
      GetInitialPrincipal() + GetInitialInterest()
    }

    /** `recapitalize`. */
    method Recapitalize(loanType: Option<string>, loanName: Option<string>)
      requires Valid()
      modifies this
      ensures Valid()
      ensures paidLoans == old(paidLoans) && totalPaid == old(totalPaid)
      ensures |loans| == |old(loans)|
      ensures forall i :: 0 <= i < |loans| ==>
        loans[i] == if Affected(old(loans)[i], loanName) then Recap(old(loans)[i]) else old(loans)[i]
      ensures Debt(loans) == Debt(old(loans))
    {
      var folded := RecapitalizeLoans(loans, loanType, loanName);
      PointwiseKeepsTerms(loans, folded, paidLoans);
      loans := folded;
    }

    /** `add_interest`, with `exp` standing for `np.exp`. */
    method AddInterest(amountOfTime: real, timeUnit: string, exp: real -> real)
      returns (r: Outcome<LedgerError>)
      requires Valid()
      modifies this
      ensures Valid()
      ensures paidLoans == old(paidLoans) && totalPaid == old(totalPaid)
      ensures ToYears(amountOfTime, timeUnit).None? ==> r == Fail(UnsupportedTimeUnit) && loans == old(loans)
      ensures ToYears(amountOfTime, timeUnit).Some? ==>
        && r == Pass
        && |loans| == |old(loans)|
        && forall i :: 0 <= i < |loans| ==>
             loans[i] == Accrued(old(loans)[i], ToYears(amountOfTime, timeUnit).value, exp)
    {
      var years := ToYears(amountOfTime, timeUnit);
      if years.None? {
        return Fail(UnsupportedTimeUnit);
      }
      var accrued := AccrueLoans(loans, years.value, exp);
      PointwiseKeepsTerms(loans, accrued, paidLoans);
      loans := accrued;
      r := Pass;
    }

    /** `debt_free`: no loan is left, so nothing is owed. */
    function DebtFree(): (r: bool)
      reads this
      ensures r <==> forall sel: Selector :: Select(loans, sel).None?
      ensures r ==> Debt(loans) == 0.0
    {
      assert Select(loans, Selector.LargestPrincipal).None? <==> loans == [];
      loans == []
    }

    /** `pay_loan`: pays the named loan and, when it is paid off and deleted, calls itself on the
        loan the rule selects with what is left. Each call adds its payment to the total paid. */
    method PayLoan(loanName: string, payment: real, excess: string) returns (r: Result<real, LedgerError>)
      requires Valid()
      modifies this
      ensures Valid()
      ensures paidLoans == old(paidLoans)
      ensures var s := SolverPay(old(loans), loanName, payment, excess);
        && (s.Err? ==> r == Err(s.error) && loans == old(loans) && totalPaid == old(totalPaid))
        && (s.Ok? ==> r == Ok(s.value.returned) && loans == s.value.loans
                      && totalPaid == old(totalPaid) + s.value.counted)
      decreases |loans|
    {
      if !Has(loans, loanName) {
        return Ok(payment);
      }
      var rule := SolverRule(excess);
      if rule.None? {
        return Err(UnknownExcessRule);
      }
      totalPaid := totalPaid + payment;
      var deleted, live, left := PayNamed(loans, loanName, payment, rule.value);
      PassKeepsLedger(loans, paidLoans, loanName, payment, rule.value, deleted, live);
      loans := live;
      if !deleted {
        return Ok(0.0);
      }
      // The leftover is not taken back out of the total paid: `total_paid - payment` is discarded.
      var next := Select(loans, rule.value);
      if next.None? {
        return Ok(left);
      }
      r := PayLoan(next.value, left, excess);
    }

    /** `get_total_debt`. */
    function GetTotalDebt(): (r: DebtReport)
      reads this
      ensures r.principal + r.interest == Debt(loans)
    {
      TotalDebt(loans)
    }

    /** `get_balance_distribution`. */
    function GetBalanceDistribution(): (r: Result<map<string, real>, LedgerError>)
      reads this
      ensures loans == [] ==> r == Ok(map[])
      ensures loans != [] ==> (r.Err? <==> Debt(loans) == 0.0)
      ensures r.Ok? ==> r.value.Keys == Names(loans)
    {
      BalanceDistribution(loans)
    }

    /** `get_interest_distribution`. */
    function GetInterestDistribution(): (r: Result<map<string, real>, LedgerError>)
      reads this
      ensures loans == [] ==> r == Ok(map[])
      ensures loans != [] ==> (r.Err? <==> Total(loans, RateOf) == 0.0)
      ensures r.Ok? ==> r.value.Keys == Names(loans)
    {
      InterestDistribution(loans)
    }

    /** `largest_interest_rate`: the name of the loan with the most unpaid interest. */
    function LargestInterestRate(): (r: Option<string>)
      reads this
      ensures r.None? <==> loans == []
      ensures r.Some? && DistinctNames(loans) ==> Chosen(loans, LargestInterest, IndexOf(loans, r.value))
    {
      Select(loans, LargestInterest)
    }

    /** `smallest_interest_rate`: the name of the loan with the least unpaid interest. */
    function SmallestInterestRate(): (r: Option<string>)
      reads this
      ensures r.None? <==> loans == []
      ensures r.Some? && DistinctNames(loans) ==> Chosen(loans, SmallestInterest, IndexOf(loans, r.value))
    {
      Select(loans, SmallestInterest)
    }

    /** `largest_principal`. */
    function LargestPrincipal(): (r: Option<string>)
      reads this
      ensures r.None? <==> loans == []
      ensures r.Some? && DistinctNames(loans) ==> Chosen(loans, Selector.LargestPrincipal, IndexOf(loans, r.value))
    {
      Select(loans, Selector.LargestPrincipal)
    }

    /** `smallest_principal`. */
    function SmallestPrincipal(): (r: Option<string>)
      reads this
      ensures r.None? <==> loans == []
      ensures r.Some? && DistinctNames(loans) ==> Chosen(loans, Selector.SmallestPrincipal, IndexOf(loans, r.value))
    {
      Select(loans, Selector.SmallestPrincipal)
    }
  }
}
