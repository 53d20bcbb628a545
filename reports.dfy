/** The reporting getters both ledgers share: the debt totals and the two distributions. */
module Reports {
  import opened Wrappers
  import opened LoanTypes
  import opened LoanTable
  import opened LedgerOps

  /** `get_total_debt`'s dict `{'principal': ..., 'interest': ...}`. */
  datatype DebtReport = DebtReport(principal: real, interest: real)

  function TotalDebt(s: seq<Loan>): (r: DebtReport)
    ensures r.principal + r.interest == Debt(s)
    ensures NonNegative(s) ==> r.principal >= 0.0 && r.interest >= 0.0
  {
    TotalSplit(s);
    ColumnsNonNegative(s);
    DebtReport(Total(s, PrincipalOf), Total(s, InterestOf))
  }

  lemma {:induction false} ColumnsNonNegative(s: seq<Loan>)
    ensures NonNegative(s) ==> Total(s, PrincipalOf) >= 0.0 && Total(s, InterestOf) >= 0.0
  {
    if s != [] {
      ColumnsNonNegative(s[1..]);
    }
  }

  /** `{loan.name: f(loan) / total for loan in loans.values()}`: an empty table gives an empty
      dict without dividing; otherwise a zero `total` raises. */
  function Shares(s: seq<Loan>, f: Loan -> real, total: real): (r: Result<map<string, real>, LedgerError>)
    ensures s == [] ==> r == Ok(map[])
    ensures s != [] ==> (r.Err? <==> total == 0.0)
    ensures r.Err? ==> r.error == DivisionByZero
    ensures r.Ok? ==> r.value.Keys == Names(s)
  {
    if s == [] then Ok(map[])
    else if total == 0.0 then Err(DivisionByZero)
    else
      NamesAreKeys(s);
      Ok(map n | n in Names(s) :: f(Get(s, n)) / total)
  }

  /** Each loan's entry is its own fraction of `total`. */
  lemma ShareOfEach(s: seq<Loan>, f: Loan -> real, total: real, d: map<string, real>)
    requires DistinctNames(s) && Shares(s, f, total) == Ok(d)
    ensures forall j :: 0 <= j < |s| ==> s[j].name in d && d[s[j].name] == f(s[j]) / total
  {
    NamesAreKeys(s);
    forall j | 0 <= j < |s|
      ensures s[j].name in d && d[s[j].name] == f(s[j]) / total
    {
      HasAt(s, j);
    }
  }

  /** The shares of the loans, added in table order. */
  function ShareSum(s: seq<Loan>, d: map<string, real>): real
    requires forall j :: 0 <= j < |s| ==> s[j].name in d
  {
    if s == [] then 0.0 else d[s[0].name] + ShareSum(s[1..], d)
  }

  lemma {:induction false} ShareSumScales(s: seq<Loan>, d: map<string, real>, f: Loan -> real, total: real)
    requires total != 0.0
    requires forall j :: 0 <= j < |s| ==> s[j].name in d && d[s[j].name] == f(s[j]) / total
    ensures ShareSum(s, d) == Total(s, f) / total
  {
    if s != [] {
      ShareSumScales(s[1..], d, f, total);
      AddQuotients(f(s[0]), Total(s[1..], f), total);
    }
  }

  lemma AddQuotients(a: real, b: real, t: real)
    requires t != 0.0
    ensures a / t + b / t == (a + b) / t
  {
  }

  /** The shares of a distribution over its own column total add up to one. */
  lemma SharesSumToOne(s: seq<Loan>, f: Loan -> real, d: map<string, real>)
    requires DistinctNames(s) && s != [] && Shares(s, f, Total(s, f)) == Ok(d)
    ensures forall j :: 0 <= j < |s| ==> s[j].name in d
    ensures ShareSum(s, d) == 1.0
  {
    ShareOfEach(s, f, Total(s, f), d);
    FractionsOfTotal(s, d, f);
  }

  lemma FractionsOfTotal(s: seq<Loan>, d: map<string, real>, f: Loan -> real)
    requires Total(s, f) != 0.0
    requires forall j :: 0 <= j < |s| ==> s[j].name in d && d[s[j].name] == f(s[j]) / Total(s, f)
    ensures ShareSum(s, d) == 1.0
  {
    var total := Total(s, f);
    ShareSumScales(s, d, f, total);
    assert total / total == 1.0;
  }

  /** `get_balance_distribution`: each loan's fraction of the summed debt. */
  function BalanceDistribution(s: seq<Loan>): Result<map<string, real>, LedgerError>
  {
    var debt := TotalDebt(s);
    Shares(s, BalanceOf, debt.principal + debt.interest)
  }

  /** `get_interest_distribution`: each loan's fraction of the summed rates. */
  function InterestDistribution(s: seq<Loan>): Result<map<string, real>, LedgerError>
  {
    Shares(s, RateOf, Total(s, RateOf))
  }

  /** Whenever the ledger owes anything, `get_balance_distribution` succeeds and its fractions
      add up to one; with no loans it is empty. */
  lemma BalanceDistributionSumsToOne(s: seq<Loan>)
    requires DistinctNames(s)
    ensures s == [] ==> BalanceDistribution(s) == Ok(map[])
    ensures s != [] ==> (BalanceDistribution(s).Ok? <==> Debt(s) != 0.0)
    ensures BalanceDistribution(s).Ok? && s != [] ==>
      (forall j :: 0 <= j < |s| ==> s[j].name in BalanceDistribution(s).value) &&
      ShareSum(s, BalanceDistribution(s).value) == 1.0
  {
    if s != [] && Debt(s) != 0.0 {
      SharesSumToOne(s, BalanceOf, BalanceDistribution(s).value);
    }
  }

  /** Whenever the rates do not sum to zero, `get_interest_distribution`'s fractions add up to one;
      with no loans it is empty. */
  lemma InterestDistributionSumsToOne(s: seq<Loan>)
    requires DistinctNames(s)
    ensures s == [] ==> InterestDistribution(s) == Ok(map[])
    ensures s != [] ==> (InterestDistribution(s).Ok? <==> Total(s, RateOf) != 0.0)
    ensures InterestDistribution(s).Ok? && s != [] ==>
      (forall j :: 0 <= j < |s| ==> s[j].name in InterestDistribution(s).value) &&
      ShareSum(s, InterestDistribution(s).value) == 1.0
  {
    if s != [] && Total(s, RateOf) != 0.0 {
      SharesSumToOne(s, RateOf, InterestDistribution(s).value);
    }
  }
}
