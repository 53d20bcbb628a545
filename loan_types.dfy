/** The loan record of loan_solver/loan_types.py (and of loan_calc/loan_types.py, the same record). */
module LoanTypes {

  /** The five fields of one loan at one moment: the value a `StudentLoan` object holds. */
  datatype Loan = Loan(name: string, rate: real, ltype: string, interest: real, principal: real)

  /** Field selectors, passed to `LoanTable.Total` to sum one column of the ledger. */
  function PrincipalOf(l: Loan): real { l.principal }
  function InterestOf(l: Loan): real { l.interest }
  function RateOf(l: Loan): real { l.rate }
  /** What is still owed on a loan. */
  function BalanceOf(l: Loan): real { l.principal + l.interest }

  /** The mutable record. Its constructor validates nothing: an empty name and negative
      amounts are stored as given. */
  class StudentLoan {
    var name: string
    var rate: real
    var ltype: string
    var interest: real
    var principal: real

    constructor (name: string, rate: real, ltype: string, interest: real, principal: real)
      ensures Value() == Loan(name, rate, ltype, interest, principal)
    {
      this.name := name;
      this.rate := rate;
      this.ltype := ltype;
      this.interest := interest;
      this.principal := principal;
    }

    /** The record's current field values. */
    function Value(): Loan
      reads this
    {
      Loan(name, rate, ltype, interest, principal)
    }

    /** A new record with the same five fields. */
    method Copy() returns (c: StudentLoan)
      ensures fresh(c)
      ensures c.Value() == Value()
    {
      c := new StudentLoan(name, rate, ltype, interest, principal);
    }
  }

  /** The copy does not share state with the original: after the original's interest and principal
      are overwritten, the copy still holds the values the original had when it was copied. */
  method CopyIsIndependent(original: StudentLoan, interest: real, principal: real) returns (c: StudentLoan)
    modifies original
    ensures c.Value() == old(original.Value())
    ensures original.Value() == old(original.Value()).(interest := interest, principal := principal)
  {
    c := original.Copy();
    original.interest := interest;
    original.principal := principal;
  }
}
