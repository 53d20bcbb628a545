/** The four excess-routing selectors of both ledgers: `sorted(loans.items(), key=...)[-1]` and
    `[0]`, with the name of the chosen loan, or None when the sort finds nothing to index. */
module Selection {
  import opened Wrappers
  import opened LoanTypes
  import opened LoanTable

  /** Which column is sorted on and which end of the sorted list is taken. The two "interest"
      selectors sort on the unpaid `interest`, not on `rate`. */
  datatype Selector = LargestInterest | SmallestInterest | LargestPrincipal | SmallestPrincipal
  {
    function Key(l: Loan): real
    {
      if LargestInterest? || SmallestInterest? then l.interest else l.principal
    }

    /** `[-1]` of the ascending sort rather than `[0]`. */
    predicate TakesLargest()
    {
      LargestInterest? || LargestPrincipal?
    }
  }

  /** Position `k` is what a stable ascending sort puts last (the last of the loans tied for the
      largest key, in insertion order) or first (the first of those tied for the smallest key). */
  ghost predicate Chosen(s: seq<Loan>, sel: Selector, k: nat)
  {
    && k < |s|
    && (sel.TakesLargest() ==>
          && (forall j :: 0 <= j < |s| ==> sel.Key(s[j]) <= sel.Key(s[k]))
          && (forall j :: k < j < |s| ==> sel.Key(s[j]) < sel.Key(s[k])))
    && (!sel.TakesLargest() ==>
          && (forall j :: 0 <= j < |s| ==> sel.Key(s[k]) <= sel.Key(s[j]))
          && (forall j :: 0 <= j < k ==> sel.Key(s[k]) < sel.Key(s[j])))
  }

  function PickIndex(s: seq<Loan>, sel: Selector): (k: nat)
    requires s != []
    ensures Chosen(s, sel, k)
    decreases |s|
  {
    if |s| == 1 then 0
    else
      var last := |s| - 1;
      var k := PickIndex(s[..last], sel);
      assert forall j :: 0 <= j < last ==> s[..last][j] == s[j];
      if sel.TakesLargest() then
        (if sel.Key(s[k]) <= sel.Key(s[last]) then last else k)
      else
        (if sel.Key(s[last]) < sel.Key(s[k]) then last else k)
  }

  /** The tie-break leaves no choice: at most one position satisfies `Chosen`. */
  lemma ChosenIsUnique(s: seq<Loan>, sel: Selector, k: nat, k': nat)
    requires Chosen(s, sel, k) && Chosen(s, sel, k')
    ensures k == k'
  {
    // Name both keys so that each `Chosen` can be instantiated at the other position.
    var atK, atK' := sel.Key(s[k]), sel.Key(s[k']);
  }

  /** A selector method: the chosen loan's name, None exactly when there is no loan. */
  function Select(s: seq<Loan>, sel: Selector): (r: Option<string>)
    ensures r.None? <==> s == []
    ensures r.Some? ==> Has(s, r.value)
    ensures r.Some? && DistinctNames(s) ==> Chosen(s, sel, IndexOf(s, r.value))
  {
    if s == [] then None
    else
      var k := PickIndex(s, sel);
      HasAt(s, k);
      Some(s[k].name)
  }
}
