/** loan_calc/LoanManager.py: the iterative ledger. `pay_loan` is a loop that applies money to
    interest, then principal, deletes a loan only on a strict overshoot, and sends the excess to
    the loan the excess rule selects, returning (and un-counting) what it cannot place. */
module LoanCalc {
  import opened Wrappers
  import opened LoanTypes
  import opened LoanTable
  import opened Selection
  import opened LedgerOps
  import opened Reports

  /** `pay_loan`'s dispatch table `next_loan_name`. */
  function ExcessRule(rule: string): Option<Selector>
  {
    if rule == "largest_interest" then Some(LargestInterest)
    else if rule == "lowest_interest" then Some(SmallestInterest)
    else if rule == "largest_balance" then Some(LargestPrincipal)
    else if rule == "lowest_principal" then Some(SmallestPrincipal)
    else None
  }

  /** The live table after a payment, the money handed back, and what was counted as interest
      and as principal paid. */
  datatype Payment = Payment(loans: seq<Loan>, returned: real, interestPaid: real, principalPaid: real)

  /** The loan `Route` pays next, when it pays any. */
  function Target(loans: seq<Loan>, name: string, rule: Option<Selector>): (t: string)
    requires Has(loans, name) || (rule.Some? && loans != [])
    ensures Has(loans, t)
  {
    if Has(loans, name) then name else Select(loans, rule.value).value
  }

  /** The passes of `pay_loan`'s loop from the moment `payment` is still to be placed and `name`
      is the current target (a name already deleted, or never present, sends the money on). */
  function Route(loans: seq<Loan>, name: string, payment: real, rule: Option<Selector>): Payment
    decreases |loans|, 1
  {
    if !Has(loans, name) && (rule.None? || loans == []) then
      Payment(loans, payment, 0.0, 0.0)
    else
      RouteAt(loans, IndexOf(loans, Target(loans, name, rule)), payment, rule)
  }

  /** One pass of the loop on the loan at index `i`: interest first, then principal, and on a
      strict overshoot the loan is deleted and the rest is routed on from its name. */
  function RouteAt(loans: seq<Loan>, i: nat, payment: real, rule: Option<Selector>): Payment
    requires i < |loans|
    decreases |loans|, 0
  {
    var l := loans[i];
    if l.interest >= payment then
      Payment(loans[i := l.(interest := l.interest - payment)], 0.0, payment, 0.0)
    else
      var rest := payment - l.interest;
      if l.principal >= rest then
        Payment(loans[i := l.(interest := 0.0, principal := l.principal - rest)], 0.0, l.interest, rest)
      else
        var after := Route(Remove(loans, i), l.name, rest - l.principal, rule);
        Payment(after.loans, after.returned, l.interest + after.interestPaid, l.principal + after.principalPaid)
  }

  /** Every unit of the payment is either handed back or counted as interest or principal paid. */
  lemma {:induction false} RouteConservesMoney(loans: seq<Loan>, name: string, payment: real, rule: Option<Selector>)
    ensures var r := Route(loans, name, payment, rule);
      r.returned + r.interestPaid + r.principalPaid == payment
    decreases |loans|, 1
  {
    if Has(loans, name) || (rule.Some? && loans != []) {
      RouteAtConservesMoney(loans, IndexOf(loans, Target(loans, name, rule)), payment, rule);
    }
  }

  lemma {:induction false} RouteAtConservesMoney(loans: seq<Loan>, i: nat, payment: real, rule: Option<Selector>)
    requires i < |loans|
    ensures var r := RouteAt(loans, i, payment, rule);
      r.returned + r.interestPaid + r.principalPaid == payment
    decreases |loans|, 0
  {
    var l := loans[i];
    if l.interest < payment && l.principal < payment - l.interest {
      RouteConservesMoney(Remove(loans, i), l.name, payment - l.interest - l.principal, rule);
    }
  }

  /** The debt still owed on the live loans falls by exactly the money absorbed (a deleted loan
      was paid in full, so it leaves the sum with nothing owed). */
  lemma {:induction false} RouteDebtFalls(loans: seq<Loan>, name: string, payment: real, rule: Option<Selector>)
    ensures var r := Route(loans, name, payment, rule);
      Debt(r.loans) == Debt(loans) - (payment - r.returned)
    decreases |loans|, 1
  {
    if Has(loans, name) || (rule.Some? && loans != []) {
      RouteAtDebtFalls(loans, IndexOf(loans, Target(loans, name, rule)), payment, rule);
    }
  }

  lemma {:induction false} RouteAtDebtFalls(loans: seq<Loan>, i: nat, payment: real, rule: Option<Selector>)
    requires i < |loans|
    ensures var r := RouteAt(loans, i, payment, rule);
      Debt(r.loans) == Debt(loans) - (payment - r.returned)
    decreases |loans|, 0
  {
    var l := loans[i];
    if l.interest >= payment {
      var x := l.(interest := l.interest - payment);
      assert RouteAt(loans, i, payment, rule) == Payment(loans[i := x], 0.0, payment, 0.0);
      TotalUpdate(loans, i, x, BalanceOf);
    } else if l.principal >= payment - l.interest {
      var x := l.(interest := 0.0, principal := l.principal - (payment - l.interest));
      assert RouteAt(loans, i, payment, rule) == Payment(loans[i := x], 0.0, l.interest, payment - l.interest);
      TotalUpdate(loans, i, x, BalanceOf);
    } else {
      var rest := payment - l.interest - l.principal;
      var after := Route(Remove(loans, i), l.name, rest, rule);
      assert RouteAt(loans, i, payment, rule).loans == after.loans;
      assert RouteAt(loans, i, payment, rule).returned == after.returned;
      TotalRemove(loans, i, BalanceOf);
      RouteDebtFalls(Remove(loans, i), l.name, rest, rule);
    }
  }

  /** With a known rule and no negative amounts, the money handed back is exactly what exceeds
      the whole debt: nothing when the payment fits, the excess when it pays every loan off. */
  lemma {:induction false} RouteReturnsExcess(loans: seq<Loan>, name: string, payment: real, rule: Option<Selector>)
    requires rule.Some? && NonNegative(loans) && payment >= 0.0
    ensures Route(loans, name, payment, rule).returned ==
      if payment <= Debt(loans) then 0.0 else payment - Debt(loans)
    decreases |loans|, 1
  {
    if loans != [] {
      RouteAtReturnsExcess(loans, IndexOf(loans, Target(loans, name, rule)), payment, rule);
    }
  }

  lemma {:induction false} RouteAtReturnsExcess(loans: seq<Loan>, i: nat, payment: real, rule: Option<Selector>)
    requires i < |loans|
    requires rule.Some? && NonNegative(loans) && payment >= 0.0
    ensures RouteAt(loans, i, payment, rule).returned ==
      if payment <= Debt(loans) then 0.0 else payment - Debt(loans)
    decreases |loans|, 0
  {
    var l := loans[i];
    BalanceAtMostDebt(loans, i);
    if l.interest < payment && l.principal < payment - l.interest {
      RouteReturnsExcess(Remove(loans, i), l.name, payment - l.interest - l.principal, rule);
    }
  }

  /** Money is handed back with a known rule only once no loan is left. */
  lemma {:induction false} RouteReturnsOnlyWhenDebtFree(loans: seq<Loan>, name: string, payment: real, rule: Option<Selector>)
    requires rule.Some?
    ensures var r := Route(loans, name, payment, rule);
      r.returned != 0.0 ==> r.loans == []
    decreases |loans|, 1
  {
    if loans != [] {
      RouteAtReturnsOnlyWhenDebtFree(loans, IndexOf(loans, Target(loans, name, rule)), payment, rule);
    }
  }

  lemma {:induction false} RouteAtReturnsOnlyWhenDebtFree(loans: seq<Loan>, i: nat, payment: real, rule: Option<Selector>)
    requires i < |loans| && rule.Some?
    ensures var r := RouteAt(loans, i, payment, rule);
      r.returned != 0.0 ==> r.loans == []
    decreases |loans|, 0
  {
    var l := loans[i];
    if l.interest < payment && l.principal < payment - l.interest {
      RouteReturnsOnlyWhenDebtFree(Remove(loans, i), l.name, payment - l.interest - l.principal, rule);
    }
  }

  /** For a non-negative payment nothing negative is handed back; with no negative amounts in the
      ledger, no more than the payment is handed back and neither paid counter falls. */
  lemma {:induction false} RouteBounds(loans: seq<Loan>, name: string, payment: real, rule: Option<Selector>)
    requires payment >= 0.0
    ensures var r := Route(loans, name, payment, rule);
      && r.returned >= 0.0
      && (NonNegative(loans) ==> r.returned <= payment && r.interestPaid >= 0.0 && r.principalPaid >= 0.0)
    decreases |loans|, 1
  {
    if Has(loans, name) || (rule.Some? && loans != []) {
      RouteAtBounds(loans, IndexOf(loans, Target(loans, name, rule)), payment, rule);
    }
  }

  lemma {:induction false} RouteAtBounds(loans: seq<Loan>, i: nat, payment: real, rule: Option<Selector>)
    requires i < |loans| && payment >= 0.0
    ensures var r := RouteAt(loans, i, payment, rule);
      && r.returned >= 0.0
      && (NonNegative(loans) ==> r.returned <= payment && r.interestPaid >= 0.0 && r.principalPaid >= 0.0)
    decreases |loans|, 0
  {
    var l := loans[i];
    if l.interest < payment && l.principal < payment - l.interest {
      if NonNegative(loans) {
        BalanceAtMostDebt(loans, i);
      }
      RouteBounds(Remove(loans, i), l.name, payment - l.interest - l.principal, rule);
    }
  }

  /** An unrecognised rule with an absent target, or an empty ledger with an absent target,
      hands the whole payment back and changes nothing. */
  lemma RouteWithNowhereToPay(loans: seq<Loan>, name: string, payment: real, rule: Option<Selector>)
    requires !Has(loans, name) && (rule.None? || loans == [])
    ensures Route(loans, name, payment, rule) == Payment(loans, payment, 0.0, 0.0)
  {
  }

  /** A payment never creates a loan, and keeps the names distinct. */
  lemma {:induction false} RouteKeepsNames(loans: seq<Loan>, name: string, payment: real, rule: Option<Selector>)
    requires DistinctNames(loans)
    ensures var r := Route(loans, name, payment, rule);
      && DistinctNames(r.loans)
      && forall n :: Has(r.loans, n) ==> Has(loans, n)
    decreases |loans|, 1
  {
    if Has(loans, name) || (rule.Some? && loans != []) {
      RouteAtKeepsNames(loans, IndexOf(loans, Target(loans, name, rule)), payment, rule);
    }
  }

  lemma {:induction false} RouteAtKeepsNames(loans: seq<Loan>, i: nat, payment: real, rule: Option<Selector>)
    requires i < |loans| && DistinctNames(loans)
    ensures var r := RouteAt(loans, i, payment, rule);
      && DistinctNames(r.loans)
      && forall n :: Has(r.loans, n) ==> Has(loans, n)
    decreases |loans|, 0
  {
    var l := loans[i];
    if l.interest >= payment {
      var x := l.(interest := l.interest - payment);
      assert RouteAt(loans, i, payment, rule).loans == loans[i := x];
      UpdateKeepsLookups(loans, i, x);
    } else if l.principal >= payment - l.interest {
      var x := l.(interest := 0.0, principal := l.principal - (payment - l.interest));
      assert RouteAt(loans, i, payment, rule).loans == loans[i := x];
      UpdateKeepsLookups(loans, i, x);
    } else {
      var rest := payment - l.interest - l.principal;
      assert RouteAt(loans, i, payment, rule).loans == Route(Remove(loans, i), l.name, rest, rule).loans;
      RemoveKeepsLookups(loans, i);
      RouteKeepsNames(Remove(loans, i), l.name, rest, rule);
    }
  }

  /** The target loan is deleted exactly when the money reaching it strictly exceeds its unpaid
      interest plus its principal; a loan paid exactly to zero stays, with nothing owed. */
  lemma RouteDeletesOnlyOnOvershoot(loans: seq<Loan>, name: string, payment: real, rule: Option<Selector>)
    requires DistinctNames(loans) && Has(loans, name)
    ensures var l := Get(loans, name);
      !Has(Route(loans, name, payment, rule).loans, name) <==>
        payment > l.interest && payment - l.interest > l.principal
    ensures var l := Get(loans, name);
      payment == BalanceOf(l) && payment > l.interest ==>
        Route(loans, name, payment, rule) ==
          Payment(loans[IndexOf(loans, name) := l.(interest := 0.0, principal := 0.0)], 0.0, l.interest, l.principal)
  {
    var i := IndexOf(loans, name);
    var l := loans[i];
    var r := Route(loans, name, payment, rule);
    assert r == RouteAt(loans, i, payment, rule);
    if l.interest >= payment {
      var x := l.(interest := l.interest - payment);
      assert r.loans == loans[i := x];
      UpdateKeepsLookups(loans, i, x);
    } else if l.principal >= payment - l.interest {
      var x := l.(interest := 0.0, principal := l.principal - (payment - l.interest));
      assert r == Payment(loans[i := x], 0.0, l.interest, payment - l.interest);
      UpdateKeepsLookups(loans, i, x);
    } else {
      var rest := payment - l.interest - l.principal;
      assert r.loans == Route(Remove(loans, i), name, rest, rule).loans;
      RemoveKeepsLookups(loans, i);
      RouteKeepsNames(Remove(loans, i), name, rest, rule);
    }
  }


  /** `pay_loan` pays interest before principal, and changes at most one surviving loan. */
  lemma {:induction false} RoutePaysInterestFirst(loans: seq<Loan>, name: string, payment: real, rule: Option<Selector>)
    requires DistinctNames(loans)
    ensures PaidInterestFirst(loans, Route(loans, name, payment, rule).loans)
    decreases |loans|, 1
  {
    if Has(loans, name) || (rule.Some? && loans != []) {
      RouteAtPaysInterestFirst(loans, IndexOf(loans, Target(loans, name, rule)), payment, rule);
    } else {
      NothingPaidIsInterestFirst(loans);
    }
  }

  lemma {:induction false} RouteAtPaysInterestFirst(loans: seq<Loan>, i: nat, payment: real, rule: Option<Selector>)
    requires i < |loans| && DistinctNames(loans)
    ensures PaidInterestFirst(loans, RouteAt(loans, i, payment, rule).loans)
    decreases |loans|, 0
  {
    var l := loans[i];
    if l.interest >= payment {
      var x := l.(interest := l.interest - payment);
      assert RouteAt(loans, i, payment, rule).loans == loans[i := x];
      PaidInterestFirstAfterUpdate(loans, i, x);
    } else if l.principal >= payment - l.interest {
      var x := l.(interest := 0.0, principal := l.principal - (payment - l.interest));
      assert RouteAt(loans, i, payment, rule).loans == loans[i := x];
      PaidInterestFirstAfterUpdate(loans, i, x);
    } else {
      var after := Route(Remove(loans, i), l.name, payment - l.interest - l.principal, rule).loans;
      assert RouteAt(loans, i, payment, rule).loans == after;
      RemoveShifts(loans, i);
      RoutePaysInterestFirst(Remove(loans, i), l.name, payment - l.interest - l.principal, rule);
      PaidInterestFirstAfterRemove(loans, i, after);
    }
  }


  /** A payment keeps the ledger's invariant: distinct names, every live loan on record with its
      terms, and every unit of the payment accounted for. */
  lemma RouteKeepsLedger(loans: seq<Loan>, initial: seq<Loan>, name: string, payment: real, rule: Option<Selector>)
    requires DistinctNames(loans) && KeepsTerms(loans, initial)
    ensures var r := Route(loans, name, payment, rule);
      && DistinctNames(r.loans) && KeepsTerms(r.loans, initial)
      && r.returned + r.interestPaid + r.principalPaid == payment
  {
    RouteConservesMoney(loans, name, payment, rule);
    RouteKeepsNames(loans, name, payment, rule);
    RoutePaysInterestFirst(loans, name, payment, rule);
    KeepsTermsThrough(loans, Route(loans, name, payment, rule).loans, initial);
  }

  /** A target that is gone hands the payment to the loan the rule selects. */
  lemma RouteToSelected(loans: seq<Loan>, name: string, payment: real, rule: Option<Selector>)
    requires !Has(loans, name) && rule.Some? && loans != []
    ensures Route(loans, name, payment, rule) == Route(loans, Select(loans, rule.value).value, payment, rule)
  {
  }

  /** One pass on a present target, in each of its three cases. */
  lemma RouteStepInterest(loans: seq<Loan>, name: string, payment: real, rule: Option<Selector>, i: nat)
    requires Has(loans, name) && i == IndexOf(loans, name) && loans[i].interest >= payment
    ensures Route(loans, name, payment, rule) ==
      Payment(loans[i := loans[i].(interest := loans[i].interest - payment)], 0.0, payment, 0.0)
  {
  }

  lemma RouteStepPrincipal(loans: seq<Loan>, name: string, payment: real, rule: Option<Selector>, i: nat, l: Loan)
    requires Has(loans, name) && i == IndexOf(loans, name) && l == loans[i]
    requires l.interest < payment && l.principal >= payment - l.interest
    ensures Route(loans, name, payment, rule) ==
      Payment(loans[i := l.(interest := 0.0)][i := l.(interest := 0.0, principal := l.principal - (payment - l.interest))],
              0.0, l.interest, payment - l.interest)
  {
    var x := l.(interest := 0.0, principal := l.principal - (payment - l.interest));
    assert loans[i := l.(interest := 0.0)][i := x] == loans[i := x];
  }

  lemma RouteStepDelete(loans: seq<Loan>, name: string, payment: real, rule: Option<Selector>,
                        i: nat, l: Loan, after: Payment)
    requires Has(loans, name) && i == IndexOf(loans, name) && l == loans[i]
    requires l.interest < payment && l.principal < payment - l.interest
    requires after == Route(Remove(loans[i := l.(interest := 0.0)], i), name, payment - l.interest - l.principal, rule)
    ensures Remove(loans[i := l.(interest := 0.0)], i) == Remove(loans, i)
    ensures Route(loans, name, payment, rule) == Credit(after, l.interest, l.principal)
  {
    var t := loans[i := l.(interest := 0.0)];
    assert t[..i] == loans[..i] && t[i + 1..] == loans[i + 1..];
  }

  /** A later pass's payment with what earlier passes already paid added to its counts. */
  function Credit(later: Payment, interest: real, principal: real): Payment
  {
    later.(interestPaid := interest + later.interestPaid, principalPaid := principal + later.principalPaid)
  }

  /** The head of a pass of `pay_loan`'s loop: the loan to pay is the named one when it is still
      in the table, otherwise the one the rule selects; with no rule or no loan left there is none. */
  method FindLoan(live: seq<Loan>, name: string, amount: real, rule: Option<Selector>)
    returns (found: bool, name': string)
    ensures found <==> Has(live, name) || (rule.Some? && live != [])
    ensures found ==> Has(live, name') && Route(live, name, amount, rule) == Route(live, name', amount, rule)
    ensures !found ==> Route(live, name, amount, rule) == Payment(live, amount, 0.0, 0.0)
  {
    name' := name;
    if !Has(live, name) {
      if rule.None? {
        return false, name';
      } else if live == [] {
        return false, name';
      }
      RouteToSelected(live, name, amount, rule);
      name' := Select(live, rule.value).value;
    }
    found := true;
  }

  /** The rest of a pass: pay the loan's interest, then its principal, and delete it when the
      money left over exceeds the principal. A pass that does not finish the payment has paid off
      and deleted that loan. */
  method PayFound(live: seq<Loan>, name: string, amount: real, rule: Option<Selector>)
    returns (done: bool, live': seq<Loan>, amount': real, interest: real, principal: real)
    requires Has(live, name)
    ensures |live'| <= |live| && (!done ==> |live'| < |live|)
    ensures done ==> Route(live, name, amount, rule) == Payment(live', 0.0, interest, principal)
    ensures !done ==> Route(live, name, amount, rule) == Credit(Route(live', name, amount', rule), interest, principal)
  {
    var i := IndexOf(live, name);
    var l := live[i];
    if l.interest >= amount {
      RouteStepInterest(live, name, amount, rule, i);
      live' := live[i := l.(interest := l.interest - amount)];
      return true, live', 0.0, amount, 0.0;
    }
    amount' := amount - l.interest;
    interest := l.interest;
    live' := live[i := l.(interest := 0.0)];
    if live'[i].principal >= amount' {
      RouteStepPrincipal(live, name, amount, rule, i, l);
      principal := amount';
      live' := live'[i := live'[i].(principal := live'[i].principal - amount')];
      return true, live', 0.0, interest, principal;
    }
    ghost var after := Route(Remove(live', i), name, amount - l.interest - l.principal, rule);
    RouteStepDelete(live, name, amount, rule, i, l, after);
    principal := live'[i].principal;
    amount' := amount' - live'[i].principal;
    live' := Remove(live', i);
    done := false;
  }

  /** The `while True` loop of `pay_loan` on the live table, returning the money it could not
      place and what it counted as interest and as principal paid. */
  method PayPasses(loans: seq<Loan>, loanName: string, payment: real, rule: Option<Selector>)
    returns (live: seq<Loan>, returned: real, interestPaid: real, principalPaid: real)
    ensures Payment(live, returned, interestPaid, principalPaid) == Route(loans, loanName, payment, rule)
  {
    live, interestPaid, principalPaid := loans, 0.0, 0.0;
    ghost var outcome := Route(loans, loanName, payment, rule);
    var name, amount := loanName, payment;
    returned := 0.0;
    var done := false;
    while !done
      invariant done ==> Payment(live, returned, interestPaid, principalPaid) == outcome
      invariant !done ==> returned == 0.0 && outcome == Credit(Route(live, name, amount, rule), interestPaid, principalPaid)
      decreases |live| + (if done then 0 else 1)
    {
      var found;
      found, name := FindLoan(live, name, amount, rule);
      if !found {
        returned := amount;
        done := true;
      } else {
        var interest, principal;
        done, live, amount, interest, principal := PayFound(live, name, amount, rule);
        interestPaid, principalPaid := interestPaid + interest, principalPaid + principal;
      }
    }
  }

  /** A payment of exactly the balance, once past the interest, leaves the loan in the ledger
      with nothing owed, whatever the rule. */
  lemma ExactPayoffKeepsLoan(rule: Option<Selector>)
    ensures var a := Loan("a", 0.05, "StudentLoan", 10.0, 1000.0);
      Route([a], "a", 1010.0, rule) ==
        Payment([a.(interest := 0.0, principal := 0.0)], 0.0, 10.0, 1000.0)
  {
    var a := Loan("a", 0.05, "StudentLoan", 10.0, 1000.0);
    assert IndexOf([a], "a") == 0;
  }

  /** Overpaying one loan pays the next one the rule selects: the smallest principal... */
  lemma ExcessToLowestPrincipal()
    ensures var a := Loan("a", 0.05, "StudentLoan", 0.0, 100.0);
      var b := Loan("b", 0.03, "StudentLoan", 0.0, 50.0);
      var c := Loan("c", 0.04, "StudentLoan", 0.0, 80.0);
      Route([a, b, c], "a", 150.0, ExcessRule("lowest_principal")) ==
        Payment([b.(principal := 0.0), c], 0.0, 0.0, 150.0)
  {
    var a := Loan("a", 0.05, "StudentLoan", 0.0, 100.0);
    var b := Loan("b", 0.03, "StudentLoan", 0.0, 50.0);
    var c := Loan("c", 0.04, "StudentLoan", 0.0, 80.0);
    var rule := Some(SmallestPrincipal);
    assert ExcessRule("lowest_principal") == rule;
    assert IndexOf([a, b, c], "a") == 0 && [a, b, c][0 := a] == [a, b, c];
    assert Remove([a, b, c], 0) == [b, c];
    RouteStepDelete([a, b, c], "a", 150.0, rule, 0, a, Route([b, c], "a", 50.0, rule));
    RestToLowestPrincipal(b, c);
  }

  /** The second pass of `ExcessToLowestPrincipal`. */
  lemma RestToLowestPrincipal(b: Loan, c: Loan)
    requires b == Loan("b", 0.03, "StudentLoan", 0.0, 50.0)
    requires c == Loan("c", 0.04, "StudentLoan", 0.0, 80.0)
    ensures Route([b, c], "a", 50.0, Some(SmallestPrincipal)) == Payment([b.(principal := 0.0), c], 0.0, 0.0, 50.0)
  {
    var rule := Some(SmallestPrincipal);
    assert !Has([b, c], "a");
    assert Select([b, c], SmallestPrincipal) == Some("b") by {
      assert [b, c][..1] == [b];
      assert PickIndex([b, c], SmallestPrincipal) == 0;
    }
    RouteToSelected([b, c], "a", 50.0, rule);
    assert IndexOf([b, c], "b") == 0;
    RouteStepPrincipal([b, c], "b", 50.0, rule, 0, b);
  }


  /** ... or the largest principal. */
  lemma ExcessToLargestBalance()
    ensures var a := Loan("a", 0.05, "StudentLoan", 0.0, 100.0);
      var b := Loan("b", 0.03, "StudentLoan", 0.0, 50.0);
      var c := Loan("c", 0.04, "StudentLoan", 0.0, 80.0);
      Route([a, b, c], "a", 150.0, ExcessRule("largest_balance")) ==
        Payment([b, c.(principal := 30.0)], 0.0, 0.0, 150.0)
  {
    var a := Loan("a", 0.05, "StudentLoan", 0.0, 100.0);
    var b := Loan("b", 0.03, "StudentLoan", 0.0, 50.0);
    var c := Loan("c", 0.04, "StudentLoan", 0.0, 80.0);
    var rule := Some(LargestPrincipal);
    assert ExcessRule("largest_balance") == rule;
    assert IndexOf([a, b, c], "a") == 0 && [a, b, c][0 := a] == [a, b, c];
    assert Remove([a, b, c], 0) == [b, c];
    RouteStepDelete([a, b, c], "a", 150.0, rule, 0, a, Route([b, c], "a", 50.0, rule));
    RestToLargestBalance(b, c);
  }

  /** The second pass of `ExcessToLargestBalance`. */
  lemma RestToLargestBalance(b: Loan, c: Loan)
    requires b == Loan("b", 0.03, "StudentLoan", 0.0, 50.0)
    requires c == Loan("c", 0.04, "StudentLoan", 0.0, 80.0)
    ensures Route([b, c], "a", 50.0, Some(LargestPrincipal)) == Payment([b, c.(principal := 30.0)], 0.0, 0.0, 50.0)
  {
    var rule := Some(LargestPrincipal);
    assert !Has([b, c], "a");
    assert Select([b, c], LargestPrincipal) == Some("c") by {
      assert [b, c][..1] == [b];
      assert PickIndex([b, c], LargestPrincipal) == 1;
    }
    RouteToSelected([b, c], "a", 50.0, rule);
    assert IndexOf([b, c], "c") == 1;
    RouteStepPrincipal([b, c], "c", 50.0, rule, 1, c);
    assert [b, c][1 := c.(interest := 0.0)] == [b, c];
  }


  /** Money left once every loan is paid off is handed back. */
  lemma ExcessBeyondAllDebt()
    ensures var a := Loan("a", 0.05, "StudentLoan", 0.0, 100.0);
      var b := Loan("b", 0.03, "StudentLoan", 0.0, 50.0);
      Route([a, b], "a", 200.0, ExcessRule("largest_interest")) == Payment([], 50.0, 0.0, 150.0)
  {
    var a := Loan("a", 0.05, "StudentLoan", 0.0, 100.0);
    var b := Loan("b", 0.03, "StudentLoan", 0.0, 50.0);
    var rule := Some(LargestInterest);
    assert ExcessRule("largest_interest") == rule;
    assert IndexOf([a, b], "a") == 0 && Target([a, b], "a", rule) == "a";
    assert Route([a, b], "a", 200.0, rule) == RouteAt([a, b], 0, 200.0, rule);
    assert Remove([a, b], 0) == [b] && !Has([b], "a");
    assert Select([b], LargestInterest) == Some("b");
    assert IndexOf([b], "b") == 0 && Target([b], "a", rule) == "b";
    assert Route([b], "a", 100.0, rule) == RouteAt([b], 0, 100.0, rule);
    assert Remove([b], 0) == [];
    assert Route([], "b", 50.0, rule) == Payment([], 50.0, 0.0, 0.0);
  }

  /** With the default rule nothing is sent on: the overshoot is handed back at once. */
  lemma ExcessWithoutRule()
    ensures var a := Loan("a", 0.05, "StudentLoan", 0.0, 100.0);
      var b := Loan("b", 0.03, "StudentLoan", 0.0, 50.0);
      Route([a, b], "a", 200.0, ExcessRule("null")) == Payment([b], 100.0, 0.0, 100.0)
  {
    var a := Loan("a", 0.05, "StudentLoan", 0.0, 100.0);
    var b := Loan("b", 0.03, "StudentLoan", 0.0, 50.0);
    assert ExcessRule("null") == None;
    assert IndexOf([a, b], "a") == 0 && Target([a, b], "a", None) == "a";
    assert Route([a, b], "a", 200.0, None) == RouteAt([a, b], 0, 200.0, None);
    assert Remove([a, b], 0) == [b] && !Has([b], "a");
    assert Route([b], "a", 100.0, None) == Payment([b], 100.0, 0.0, 0.0);
  }

  /** `LoanManager`: the live table, the snapshot of each loan as it was added, and the payment
      counters. */
  class LoanManager {
    var loans: seq<Loan>
    var initialLoan: seq<Loan>
    var totalPaid: real
    var interestPaid: real
    var principalPaid: real

    /** Each table has distinct names, each live loan keeps the terms it was added with, and
        every payment counted is counted as interest or as principal. */
    ghost predicate Valid()
      reads this
    {
      && DistinctNames(loans) && DistinctNames(initialLoan)
      && KeepsTerms(loans, initialLoan)
      && totalPaid == interestPaid + principalPaid
    }

    constructor ()
      ensures Valid()
      ensures loans == [] && initialLoan == []
      ensures totalPaid == 0.0 && interestPaid == 0.0 && principalPaid == 0.0
    {
      loans := [];
      initialLoan := [];
      totalPaid := 0.0;
      interestPaid := 0.0;
      principalPaid := 0.0;
    }

    /** `add_loan`. */
    method AddLoan(loanName: string, loanType: string, interestRate: real,
                   principalBalance: real, interestBalance: real)
      returns (r: Outcome<LedgerError>)
      requires Valid()
      modifies this
      ensures Valid()
      ensures totalPaid == old(totalPaid) && interestPaid == old(interestPaid) && principalPaid == old(principalPaid)
      ensures loanType !in LoanTypeNames ==> r == Fail(UnsupportedLoanType)
      ensures loanType in LoanTypeNames && Has(old(loans), loanName) ==> r == Fail(DuplicateLoanName)
      ensures r.Pass? <==> loanType in LoanTypeNames && !Has(old(loans), loanName)
      ensures r.Fail? ==> loans == old(loans) && initialLoan == old(initialLoan)
      ensures r.Pass? ==>
        var added := Loan(loanName, interestRate, loanType, interestBalance, principalBalance);
        && loans == old(loans) + [added]
        && initialLoan == Put(old(initialLoan), added)
    {
      var t := Register(loans, initialLoan, loanName, loanType, interestRate, principalBalance, interestBalance);
      match t
      case Err(e) =>
        r := Fail(e);
      case Ok(tables) =>
        loans, initialLoan := tables.live, tables.initial;
        r := Pass;
    }

    /** `get_initial_balance`: the principal of every loan ever added, as it was when added. */
    function GetInitialBalance(): (r: real)
      reads this
      ensures r == Total(initialLoan, PrincipalOf)
      ensures NonNegative(initialLoan) ==> r >= 0.0
    {
      ColumnsNonNegative(initialLoan);
      Total(initialLoan, PrincipalOf)
    }

    /** `get_initial_interest`. */
    function GetInitialInterest(): (r: real)
      reads this
      ensures r == Total(initialLoan, InterestOf)
      ensures NonNegative(initialLoan) ==> r >= 0.0
    {
      ColumnsNonNegative(initialLoan);
      Total(initialLoan, InterestOf)
    }

    /** `get_initial_debt`: the balances of the snapshots, summed. */
    function GetInitialDebt(): (r: real)
      reads this
      ensures r == Debt(initialLoan)
    {
      TotalSplit(initialLoan);
      GetInitialBalance() + GetInitialInterest()
    }

    /** `recapitalize`. */
    method Recapitalize(loanType: Option<string>, loanName: Option<string>)
      requires Valid()
      modifies this
      ensures Valid()
      ensures initialLoan == old(initialLoan)
      ensures totalPaid == old(totalPaid) && interestPaid == old(interestPaid) && principalPaid == old(principalPaid)
      ensures |loans| == |old(loans)|
      ensures forall i :: 0 <= i < |loans| ==>
        loans[i] == if Affected(old(loans)[i], loanName) then Recap(old(loans)[i]) else old(loans)[i]
      ensures Debt(loans) == Debt(old(loans))
    {
      var folded := RecapitalizeLoans(loans, loanType, loanName);
      PointwiseKeepsTerms(loans, folded, initialLoan);
      loans := folded;
    }

    /** `add_interest`, with `exp` standing for `np.exp`. */
    method AddInterest(amountOfTime: real, timeUnit: string, exp: real -> real)
      returns (r: Outcome<LedgerError>)
      requires Valid()
      modifies this
      ensures Valid()
      ensures initialLoan == old(initialLoan)
      ensures totalPaid == old(totalPaid) && interestPaid == old(interestPaid) && principalPaid == old(principalPaid)
      ensures ToYears(amountOfTime, timeUnit).None? ==> r == Fail(UnsupportedTimeUnit) && loans == old(loans)
      ensures ToYears(amountOfTime, timeUnit).Some? ==>
        && r == Pass
        && |loans| == |old(loans)|
        && forall i :: 0 <= i < |loans| ==>
             loans[i] == Accrued(old(loans)[i], ToYears(amountOfTime, timeUnit).value, exp)
    {
      var years := ToYears(amountOfTime, timeUnit);
      if years.None? {
        return Fail(UnsupportedTimeUnit);
      }
      var accrued := AccrueLoans(loans, years.value, exp);
      PointwiseKeepsTerms(loans, accrued, initialLoan);
      loans := accrued;
      r := Pass;
    }

    /** `debt_free`: no loan is left, so no excess rule has anything to select and nothing is
        owed. */
    function DebtFree(): (r: bool)
      reads this
      ensures r <==> forall sel: Selector :: Select(loans, sel).None?
      ensures r ==> Debt(loans) == 0.0
    {
      assert Select(loans, LargestPrincipal).None? <==> loans == [];
      loans == []
    }

    /** `pay_loan`: pays through `PayPasses`, counts the payment in the total paid and takes back
        out of it the money that could not be placed. */
    method PayLoan(loanName: string, payment: real, excessRule: string) returns (returned: real)
      requires Valid()
      modifies this
      ensures Valid()
      ensures initialLoan == old(initialLoan)
      ensures var r := Route(old(loans), loanName, payment, ExcessRule(excessRule));
        && loans == r.loans && returned == r.returned
        && interestPaid == old(interestPaid) + r.interestPaid
        && principalPaid == old(principalPaid) + r.principalPaid
      ensures totalPaid == old(totalPaid) + payment - returned
    {
      var rule := ExcessRule(excessRule);
      RouteKeepsLedger(loans, initialLoan, loanName, payment, rule);
      totalPaid := totalPaid + payment;
      var live, interest, principal;
      live, returned, interest, principal := PayPasses(loans, loanName, payment, rule);
      loans := live;
      interestPaid := interestPaid + interest;
      principalPaid := principalPaid + principal;
      totalPaid := totalPaid - returned;
    }

    /** `get_total_debt`. */
    function GetTotalDebt(): (r: DebtReport)
      reads this
      ensures r.principal + r.interest == Debt(loans)
    {
      TotalDebt(loans)
    }

    /** `get_balance_distribution`. */
    function GetBalanceDistribution(): (r: Result<map<string, real>, LedgerError>)
      reads this
      ensures loans == [] ==> r == Ok(map[])
      ensures loans != [] ==> (r.Err? <==> Debt(loans) == 0.0)
      ensures r.Ok? ==> r.value.Keys == Names(loans)
    {
      BalanceDistribution(loans)
    }

    /** `get_interest_distribution`. */
    function GetInterestDistribution(): (r: Result<map<string, real>, LedgerError>)
      reads this
      ensures loans == [] ==> r == Ok(map[])
      ensures loans != [] ==> (r.Err? <==> Total(loans, RateOf) == 0.0)
      ensures r.Ok? ==> r.value.Keys == Names(loans)
    {
      InterestDistribution(loans)
    }

    /** `largest_interest_rate`: the name of the loan with the most unpaid interest. */
    function LargestInterestRate(): (r: Option<string>)
      reads this
      ensures r.None? <==> loans == []
      ensures r.Some? && DistinctNames(loans) ==> Chosen(loans, LargestInterest, IndexOf(loans, r.value))
    {
      Select(loans, LargestInterest)
    }

    /** `smallest_interest_rate`: the name of the loan with the least unpaid interest. */
    function SmallestInterestRate(): (r: Option<string>)
      reads this
      ensures r.None? <==> loans == []
      ensures r.Some? && DistinctNames(loans) ==> Chosen(loans, SmallestInterest, IndexOf(loans, r.value))
    {
      Select(loans, SmallestInterest)
    }

    /** `largest_balance`: the name of the loan with the most principal. */
    function LargestBalance(): (r: Option<string>)
      reads this
      ensures r.None? <==> loans == []
      ensures r.Some? && DistinctNames(loans) ==> Chosen(loans, LargestPrincipal, IndexOf(loans, r.value))
    {
      Select(loans, LargestPrincipal)
    }

    /** `smallest_balance`: the name of the loan with the least principal. */
    function SmallestBalance(): (r: Option<string>)
      reads this
      ensures r.None? <==> loans == []
      ensures r.Some? && DistinctNames(loans) ==> Chosen(loans, SmallestPrincipal, IndexOf(loans, r.value))
    {
      Select(loans, SmallestPrincipal)
    }

    /** `get_interest_paid`. */
    function GetInterestPaid(): real
      reads this
    {
      interestPaid
    }

    /** `get_principal_paid`. */
    function GetPrincipalPaid(): real
      reads this
    {
      principalPaid
    }

    /** `get_total_paid`: every payment counted is counted as interest or as principal. */
    function GetTotalPaid(): (r: real)
      reads this
      ensures Valid() ==> r == GetInterestPaid() + GetPrincipalPaid()
    {
      totalPaid
    }

    /** `check_payments`: a zero total divides by zero; otherwise the uncounted share of the total
        may not exceed one percent, which the ledger's own bookkeeping guarantees. */
    function CheckPayments(): (r: Outcome<LedgerError>)
      reads this
      ensures totalPaid == 0.0 ==> r == Fail(DivisionByZero)
      ensures r == Fail(PaymentMismatch) ==> totalPaid != principalPaid + interestPaid
      ensures Valid() ==> (r.Pass? <==> totalPaid != 0.0)
    {
      if totalPaid == 0.0 then Fail(DivisionByZero)
      else if (totalPaid - (principalPaid + interestPaid)) / totalPaid > 0.01 then Fail(PaymentMismatch)
      else Pass
    }
  }
}
