/** The operations both ledgers perform identically: adding a loan, recapitalising, and the
    time-unit table and per-loan overwrite of interest accrual. */
module LedgerOps {
  import opened Wrappers
  import opened LoanTypes
  import opened LoanTable

  /** The exceptions the ledgers raise, and the division by zero their reports can hit. */
  datatype LedgerError =
    | UnsupportedLoanType
    | DuplicateLoanName
    | UnsupportedTimeUnit
    | UnknownExcessRule
    | DivisionByZero
    | PaymentMismatch

  /** The keys of the loan-type factory table. */
  const LoanTypeNames: set<string> := {"StudentLoan"}

  /** The live table and the at-add snapshot table of a ledger. */
  datatype Tables = Tables(live: seq<Loan>, initial: seq<Loan>)

  /** `add_loan`: the type is checked before the name, and only the live table is searched for the
      name, so a paid-off loan's name can be added again (its snapshot is then replaced in place). */
  method Register(live: seq<Loan>, initial: seq<Loan>, loanName: string, loanType: string,
                  interestRate: real, principalBalance: real, interestBalance: real)
    returns (r: Result<Tables, LedgerError>)
    ensures loanType !in LoanTypeNames ==> r == Err(UnsupportedLoanType)
    ensures loanType in LoanTypeNames && Has(live, loanName) ==> r == Err(DuplicateLoanName)
    ensures r.Ok? <==> loanType in LoanTypeNames && !Has(live, loanName)
    ensures r.Ok? ==>
      var added := Loan(loanName, interestRate, loanType, interestBalance, principalBalance);
      && r.value.live == live + [added]
      && r.value.initial == Put(initial, added)
      && Has(r.value.live, loanName) && Has(r.value.initial, loanName)
      && Get(r.value.live, loanName) == added
      && Get(r.value.initial, loanName) == added
    ensures r.Ok? && DistinctNames(live) ==> DistinctNames(r.value.live)
    ensures r.Ok? && DistinctNames(initial) ==> DistinctNames(r.value.initial)
    ensures r.Ok? && KeepsTerms(live, initial) ==> KeepsTerms(r.value.live, r.value.initial)
  {
    if loanType !in LoanTypeNames {
      return Err(UnsupportedLoanType);
    }
    if Has(live, loanName) {
      return Err(DuplicateLoanName);
    }
    var loan := new StudentLoan(loanName, interestRate, loanType, interestBalance, principalBalance);
    var snapshot := loan.Copy();
    AppendKeepsIndex(live, loan.Value());
    r := Ok(Tables(live + [loan.Value()], Put(initial, snapshot.Value())));
    if KeepsTerms(live, initial) {
      var added := live + [loan.Value()];
      forall j | 0 <= j < |added|
        ensures Has(r.value.initial, added[j].name) && Terms(Get(r.value.initial, added[j].name), added[j])
      {
        if j < |live| {
          HasAt(live, j);
        }
      }
    }
  }

  /** Two records of one loan agree on its name, rate and type. */
  predicate Terms(l: Loan, m: Loan)
  {
    l.name == m.name && l.rate == m.rate && l.ltype == m.ltype
  }

  /** Every live loan is on record in the snapshot table, with the rate and type it was added
      with: payments, accrual and recapitalisation never change either. */
  ghost predicate KeepsTerms(live: seq<Loan>, initial: seq<Loan>)
  {
    forall j :: 0 <= j < |live| ==> Has(initial, live[j].name) && Terms(Get(initial, live[j].name), live[j])
  }

  /** A live table whose every loan comes, terms unchanged, from one that keeps its terms also
      keeps them. */
  lemma KeepsTermsThrough(before: seq<Loan>, after: seq<Loan>, initial: seq<Loan>)
    requires KeepsTerms(before, initial)
    requires forall j :: 0 <= j < |after| ==>
      Has(before, after[j].name) && Terms(Get(before, after[j].name), after[j])
    ensures KeepsTerms(after, initial)
  {
    forall j | 0 <= j < |after|
      ensures Has(initial, after[j].name) && Terms(Get(initial, after[j].name), after[j])
    {
      var k := IndexOf(before, after[j].name);
      assert Get(before, after[j].name) == before[k];
    }
  }

  /** A live table changed loan by loan, each keeping its terms, keeps its terms and its
      distinct names. */
  lemma PointwiseKeepsTerms(before: seq<Loan>, after: seq<Loan>, initial: seq<Loan>)
    requires |before| == |after| && KeepsTerms(before, initial)
    requires forall j :: 0 <= j < |after| ==> Terms(before[j], after[j])
    ensures KeepsTerms(after, initial)
    ensures DistinctNames(before) ==> DistinctNames(after)
  {
    SameNamesKeepIndex(before, after);
  }

  /** How a surviving loan may differ from what it was: same name, rate and type, principal
      never higher, and a principal that moved only once the unpaid interest is zero. */
  predicate InterestFirst(was: Loan, now: Loan)
  {
    && Terms(was, now)
    && now.principal <= was.principal
    && (now.principal != was.principal ==> now.interest == 0.0)
  }

  /** Every loan of `after` was in `before` and changed only as `InterestFirst` allows, and at most
      one of them changed at all. */
  ghost predicate PaidInterestFirst(before: seq<Loan>, after: seq<Loan>)
  {
    && (forall j :: 0 <= j < |after| ==>
          Has(before, after[j].name) && InterestFirst(Get(before, after[j].name), after[j]))
    && (forall j, k :: 0 <= j < k < |after| ==>
          (Has(before, after[j].name) && Get(before, after[j].name) == after[j]) ||
          (Has(before, after[k].name) && Get(before, after[k].name) == after[k]))
  }

  /** `PaidInterestFirst` relative to a table with one loan deleted is relative to the full table. */
  lemma PaidInterestFirstAfterRemove(before: seq<Loan>, i: nat, after: seq<Loan>)
    requires i < |before| && DistinctNames(before)
    requires PaidInterestFirst(Remove(before, i), after)
    ensures PaidInterestFirst(before, after)
  {
    RemoveKeepsLookups(before, i);
  }

  /** Replacing the loan at `i` within what `InterestFirst` allows gives `PaidInterestFirst`. */
  lemma PaidInterestFirstAfterUpdate(before: seq<Loan>, i: nat, x: Loan)
    requires i < |before| && DistinctNames(before) && InterestFirst(before[i], x)
    ensures PaidInterestFirst(before, before[i := x])
  {
    UpdateKeepsLookups(before, i, x);
    var after := before[i := x];
    forall j | 0 <= j < |after|
      ensures Has(before, after[j].name) && InterestFirst(Get(before, after[j].name), after[j])
      ensures j != i ==> Get(before, after[j].name) == after[j]
    {
      HasAt(before, j);
    }
  }

  /** A ledger left as it was trivially satisfies `PaidInterestFirst`. */
  lemma NothingPaidIsInterestFirst(loans: seq<Loan>)
    requires DistinctNames(loans)
    ensures PaidInterestFirst(loans, loans)
  {
    forall j | 0 <= j < |loans|
      ensures Has(loans, loans[j].name) && Get(loans, loans[j].name) == loans[j]
    {
      HasAt(loans, j);
    }
  }

  /** Folding one loan's unpaid interest into its principal. */
  function Recap(l: Loan): Loan
  {
    l.(principal := l.principal + l.interest, interest := 0.0)
  }

  /** The loans `recapitalize` folds: only the named one when a name is given, and every loan
      otherwise, whatever `loan_type` says (the unconditional `else` branch). */
  predicate Affected(l: Loan, loanName: Option<string>)
  {
    loanName.None? || l.name == loanName.value
  }

  /** `recapitalize`'s loop over the loans, with its three branches as written. */
  method RecapitalizeLoans(loans: seq<Loan>, loanType: Option<string>, loanName: Option<string>)
    returns (r: seq<Loan>)
    ensures |r| == |loans|
    ensures forall i :: 0 <= i < |r| ==> r[i] == if Affected(loans[i], loanName) then Recap(loans[i]) else loans[i]
    ensures forall i :: 0 <= i < |r| ==>
      && r[i].name == loans[i].name && r[i].rate == loans[i].rate && r[i].ltype == loans[i].ltype
      && BalanceOf(r[i]) == BalanceOf(loans[i])
    ensures forall i :: 0 <= i < |r| ==>
      if Affected(loans[i], loanName) then r[i].interest == 0.0 else r[i] == loans[i]
    ensures Debt(r) == Debt(loans)
  {
    r := loans;
    var i := 0;
    while i < |r|
      invariant 0 <= i <= |r| == |loans|
      invariant forall j :: 0 <= j < i ==>
        r[j] == if Affected(loans[j], loanName) then Recap(loans[j]) else loans[j]
      invariant forall j :: i <= j < |r| ==> r[j] == loans[j]
    {
      var loan := r[i];
      if loanType.Some? && loanName.None? {
        if loanType.value == loan.ltype {
          loan := Recap(loan);
        }
      }
      if loanName.Some? {
        if loanName.value == loan.name {
          loan := Recap(loan);
        }
      } else {
        loan := Recap(loan);
      }
      r := r[i := loan];
      i := i + 1;
    }
    TotalPointwise(r, loans, BalanceOf);
  }

  /** Years per unit of time: `amount` of a unit is `amount / divisor` years. */
  const TimeUnitDivisors: map<string, real> :=
    map["hour" := 8760.0, "day" := 365.0, "minute" := 525600.0,
        "second" := 31536000.0, "year" := 1.0, "month" := 12.0]

  function LowerChar(c: char): char
  {
    if 'A' <= c <= 'Z' then (c as int + 32) as char else c
  }

  /** No ASCII capital letter occurs in `s`. */
  predicate NoCapitals(s: string)
  {
    forall i :: 0 <= i < |s| ==> !('A' <= s[i] <= 'Z')
  }

  /** `str.lower()` on the ASCII letters: no capital is left, a string without capitals is
      returned as it is, and every other character is kept in its place. */
  function Lower(s: string): (r: string)
    ensures |r| == |s| && NoCapitals(r)
    ensures NoCapitals(s) ==> r == s
    ensures forall i :: 0 <= i < |s| && !('A' <= s[i] <= 'Z') ==> r[i] == s[i]
  {
    seq(|s|, i requires 0 <= i < |s| => LowerChar(s[i]))
  }

  /** Lowercasing twice is lowercasing once. */
  lemma LowerIsIdempotent(s: string)
    ensures Lower(Lower(s)) == Lower(s)
  {
  }

  /** `add_interest` ignores the case of every unit name, not only of the known ones. */
  lemma ToYearsIgnoresCase(amount: real, unit: string)
    ensures ToYears(amount, Lower(unit)) == ToYears(amount, unit)
  {
    LowerIsIdempotent(unit);
  }

  /** The time-unit table of `add_interest`: an unknown unit (after lowercasing) is an error,
      otherwise the amount expressed in years. */
  function ToYears(amount: real, unit: string): (r: Option<real>)
    ensures r.None? <==> Lower(unit) !in TimeUnitDivisors
    ensures r.Some? ==> r.value * TimeUnitDivisors[Lower(unit)] == amount
  {
    var u := Lower(unit);
    if u !in TimeUnitDivisors then None
    else if u == "year" then Some(amount)
    else Some(amount / TimeUnitDivisors[u])
  }

  /** The table agrees with itself on a year, ignores case, and does not know the default
      `'years'` of `add_interest`. */
  lemma TimeUnitFacts(amount: real)
    ensures ToYears(12.0, "month") == ToYears(1.0, "year") == Some(1.0)
    ensures ToYears(365.0, "day") == ToYears(8760.0, "hour") == Some(1.0)
    ensures ToYears(60.0, "second") == ToYears(1.0, "minute")
    ensures ToYears(amount, "Month") == ToYears(amount, "month")
    ensures ToYears(amount, "years") == None
  {
    assert Lower("Month") == Lower("month") == "month";
    assert Lower("year") == "year" && Lower("years") == "years";
    assert Lower("day") == "day" && Lower("hour") == "hour";
    assert Lower("second") == "second" && Lower("minute") == "minute";
  }

  /** Continuously compounded growth of `principal` over `years` years at `rate`, where `exp`
      stands for `np.exp`. */
  function Growth(principal: real, rate: real, years: real, exp: real -> real): real
  {
    principal * exp(rate * years) - principal
  }

  /** One loan after accrual: its unpaid interest is overwritten with the growth of its principal. */
  function Accrued(l: Loan, years: real, exp: real -> real): Loan
  {
    l.(interest := Growth(l.principal, l.rate, years, exp))
  }

  /** `add_interest`'s loop over the loans. */
  method AccrueLoans(loans: seq<Loan>, years: real, exp: real -> real) returns (r: seq<Loan>)
    ensures |r| == |loans|
    ensures forall i :: 0 <= i < |r| ==> r[i] == Accrued(loans[i], years, exp)
  {
    r := loans;
    var i := 0;
    while i < |r|
      invariant 0 <= i <= |r| == |loans|
      invariant forall j :: 0 <= j < i ==> r[j] == Accrued(loans[j], years, exp)
      invariant forall j :: i <= j < |r| ==> r[j] == loans[j]
    {
      r := r[i := Accrued(r[i], years, exp)];
      i := i + 1;
    }
  }

  /** Accrual replaces the unpaid interest instead of adding to it: the result does not depend on
      the interest already there, keeps everything else, and accruing twice is accruing once. */
  lemma AccrualReplacesInterest(l: Loan, years: real, exp: real -> real, interest: real)
    ensures Accrued(l.(interest := interest), years, exp) == Accrued(l, years, exp)
    ensures Accrued(Accrued(l, years, exp), years, exp) == Accrued(l, years, exp)
    ensures Accrued(l, years, exp).(interest := l.interest) == l
  {
  }

  /** Accrual right after recapitalisation grows the whole former balance, from zero interest. */
  lemma AccrualAfterRecap(l: Loan, years: real, exp: real -> real)
    ensures Accrued(Recap(l), years, exp).principal == BalanceOf(l)
    ensures Accrued(Recap(l), years, exp).interest == Growth(BalanceOf(l), l.rate, years, exp)
  {
  }
}
