/** The ledgers' `loans` and snapshot dictionaries: a Python dict from loan name to loan record,
    modelled as the sequence of its values in insertion order (the key of each entry is its `name`).
    Column sums over such a table, and how they change when one entry is replaced or deleted. */
module LoanTable {
  import opened LoanTypes

  /** Where `name` sits in the table, or `|s|` when it is absent. */
  function IndexOf(s: seq<Loan>, name: string): (i: nat)
    ensures i <= |s|
    ensures i < |s| ==> s[i].name == name
    ensures forall j :: 0 <= j < i ==> s[j].name != name
  {
    if s == [] then 0
    else if s[0].name == name then 0
    else 1 + IndexOf(s[1..], name)
  }

  /** `name in d` */
  predicate Has(s: seq<Loan>, name: string)
  {
    IndexOf(s, name) < |s|
  }

  /** `d[name]` */
  function Get(s: seq<Loan>, name: string): Loan
    requires Has(s, name)
  {
    s[IndexOf(s, name)]
  }

  /** `d.keys()` */
  function Names(s: seq<Loan>): set<string>
  {
    set i | 0 <= i < |s| :: s[i].name
  }

  lemma NamesAreKeys(s: seq<Loan>)
    ensures forall n :: n in Names(s) <==> Has(s, n)
  {
    forall n | n in Names(s) ensures Has(s, n) {
      var i :| 0 <= i < |s| && s[i].name == n;
      HasAt(s, i);
    }
  }

  /** A dict has each key once. */
  ghost predicate DistinctNames(s: seq<Loan>)
  {
    forall i, j :: 0 <= i < j < |s| ==> s[i].name != s[j].name
  }

  /** `del d[s[i].name]`: the other entries keep their order. */
  function Remove(s: seq<Loan>, i: nat): (r: seq<Loan>)
    requires i < |s|
    ensures |r| == |s| - 1
  {
    s[..i] + s[i + 1..]
  }

  /** `d[x.name] = x`: an existing key keeps its place and takes the new value; a new key goes last. */
  function Put(s: seq<Loan>, x: Loan): (r: seq<Loan>)
    ensures Has(r, x.name) && Get(r, x.name) == x
    ensures forall n :: n != x.name ==> (Has(r, n) <==> Has(s, n))
    ensures forall n :: n != x.name && Has(s, n) ==> Get(r, n) == Get(s, n)
    ensures DistinctNames(s) ==> DistinctNames(r)
  {
    var i := IndexOf(s, x.name);
    if i < |s| then
      IndexOfSameNames(s, s[i := x], x.name);
      SameNamesKeepIndex(s, s[i := x]);
      s[i := x]
    else
      HasAt(s + [x], |s|);
      AppendKeepsIndex(s, x);
      s + [x]
  }

  /** The entry at position `k` is found at `k` or earlier (exactly at `k` when names are distinct). */
  lemma HasAt(s: seq<Loan>, k: nat)
    requires k < |s|
    ensures Has(s, s[k].name) && IndexOf(s, s[k].name) <= k
    ensures DistinctNames(s) ==> IndexOf(s, s[k].name) == k
  {
  }

  /** Lookups see only the names: replacing entries by others with the same names moves nothing. */
  lemma IndexOfSameNames(s: seq<Loan>, t: seq<Loan>, n: string)
    requires |s| == |t|
    requires forall j :: 0 <= j < |s| ==> s[j].name == t[j].name
    ensures IndexOf(s, n) == IndexOf(t, n)
  {
  }

  lemma SameNamesKeepIndex(s: seq<Loan>, t: seq<Loan>)
    requires |s| == |t|
    requires forall j :: 0 <= j < |s| ==> s[j].name == t[j].name
    ensures forall n :: IndexOf(s, n) == IndexOf(t, n)
    ensures DistinctNames(s) ==> DistinctNames(t)
  {
    forall n ensures IndexOf(s, n) == IndexOf(t, n) {
      IndexOfSameNames(s, t, n);
    }
  }

  lemma AppendKeepsIndex(s: seq<Loan>, x: Loan)
    requires !Has(s, x.name)
    ensures Has(s + [x], x.name) && Get(s + [x], x.name) == x
    ensures forall n :: n != x.name ==> (Has(s + [x], n) <==> Has(s, n))
    ensures forall n :: n != x.name && Has(s, n) ==> IndexOf(s + [x], n) == IndexOf(s, n)
    ensures DistinctNames(s) ==> DistinctNames(s + [x])
  {
    HasAt(s + [x], |s|);
    assert forall j :: 0 <= j < |s| ==> (s + [x])[j] == s[j];
    forall n | n != x.name
      ensures Has(s + [x], n) <==> Has(s, n)
      ensures Has(s, n) ==> IndexOf(s + [x], n) == IndexOf(s, n)
    {
      var a := IndexOf(s + [x], n);
      assert forall j :: 0 <= j < |s| ==> (s + [x])[j] == s[j];
      if a < |s| {
        assert s[a].name == n;
      }
    }
  }

  /** Replacing the entry at `i` by a record with the same name keeps every lookup, and the
      replaced name now finds the new record. */
  lemma UpdateKeepsLookups(s: seq<Loan>, i: nat, x: Loan)
    requires i < |s| && x.name == s[i].name
    ensures forall n :: IndexOf(s[i := x], n) == IndexOf(s, n)
    ensures forall n :: Has(s[i := x], n) <==> Has(s, n)
    ensures DistinctNames(s) ==> DistinctNames(s[i := x])
    ensures Has(s[i := x], x.name)
    ensures DistinctNames(s) ==> Get(s[i := x], x.name) == x
    ensures DistinctNames(s) ==> forall n :: n != x.name && Has(s, n) ==> Get(s[i := x], n) == Get(s, n)
  {
    SameNamesKeepIndex(s, s[i := x]);
    HasAt(s, i);
  }

  /** Deleting a key from a dict with distinct keys: the key is gone and every other key still
      finds its record. */
  lemma RemoveKeepsLookups(s: seq<Loan>, i: nat)
    requires i < |s| && DistinctNames(s)
    ensures DistinctNames(Remove(s, i))
    ensures !Has(Remove(s, i), s[i].name)
    ensures forall n :: n != s[i].name ==> (Has(Remove(s, i), n) <==> Has(s, n))
    ensures forall n :: n != s[i].name && Has(s, n) ==> Get(Remove(s, i), n) == Get(s, n)
  {
    var r := Remove(s, i);
    RemoveShifts(s, i);
    assert forall k :: 0 <= k < |r| ==> r[k].name != s[i].name;
    forall n | n != s[i].name && Has(s, n)
      ensures Has(r, n) && Get(r, n) == Get(s, n)
    {
      var k := IndexOf(s, n);
      var k' := if k < i then k else k - 1;
      assert r[k'] == s[k];
      HasAt(r, k');
    }
    forall n | Has(r, n)
      ensures Has(s, n)
    {
      var k := IndexOf(r, n);
      HasAt(s, if k < i then k else k + 1);
    }
  }

  /** The entries after a deleted one move down by one place. */
  lemma RemoveShifts(s: seq<Loan>, i: nat)
    requires i < |s|
    ensures forall j :: 0 <= j < |s| - 1 ==> Remove(s, i)[j] == if j < i then s[j] else s[j + 1]
    ensures DistinctNames(s) ==> DistinctNames(Remove(s, i))
  {
    var r := Remove(s, i);
    assert forall j :: 0 <= j < |r| ==> r[j] == if j < i then s[j] else s[j + 1];
    if DistinctNames(s) {
      forall a, b | 0 <= a < b < |r|
        ensures r[a].name != r[b].name
      {
        var a', b' := if a < i then a else a + 1, if b < i then b else b + 1;
        assert r[a] == s[a'] && r[b] == s[b'];
      }
    }
  }


  /** The sum of one column, `sum([f(l) for l in d.values()])`. */
  function Total(s: seq<Loan>, f: Loan -> real): real
  {
    if s == [] then 0.0 else f(s[0]) + Total(s[1..], f)
  }

  /** The debt still owed on all loans of the table. */
  function Debt(s: seq<Loan>): real
  {
    Total(s, BalanceOf)
  }

  /** No loan has a negative principal or a negative unpaid interest. */
  predicate NonNegative(s: seq<Loan>)
  {
    forall j :: 0 <= j < |s| ==> s[j].principal >= 0.0 && s[j].interest >= 0.0
  }

  lemma {:induction false} TotalConcat(a: seq<Loan>, b: seq<Loan>, f: Loan -> real)
    ensures Total(a + b, f) == Total(a, f) + Total(b, f)
  {
    if a == [] {
      assert a + b == b;
    } else {
      assert (a + b)[1..] == a[1..] + b;
      TotalConcat(a[1..], b, f);
    }
  }

  /** Replacing one entry changes the column sum by exactly the change of that entry. */
  lemma TotalUpdate(s: seq<Loan>, i: nat, x: Loan, f: Loan -> real)
    requires i < |s|
    ensures Total(s[i := x], f) == Total(s, f) - f(s[i]) + f(x)
  {
    assert s == s[..i] + ([s[i]] + s[i + 1..]);
    assert s[i := x] == s[..i] + ([x] + s[i + 1..]);
    TotalConcat(s[..i], [s[i]] + s[i + 1..], f);
    TotalConcat(s[..i], [x] + s[i + 1..], f);
    TotalConcat([s[i]], s[i + 1..], f);
    TotalConcat([x], s[i + 1..], f);
  }

  /** Deleting one entry takes exactly that entry out of the column sum. */
  lemma TotalRemove(s: seq<Loan>, i: nat, f: Loan -> real)
    requires i < |s|
    ensures Total(Remove(s, i), f) == Total(s, f) - f(s[i])
  {
    assert s == s[..i] + ([s[i]] + s[i + 1..]);
    TotalConcat(s[..i], [s[i]] + s[i + 1..], f);
    TotalConcat([s[i]], s[i + 1..], f);
    TotalConcat(s[..i], s[i + 1..], f);
  }

  /** The debt is the principal column plus the interest column. */
  lemma {:induction false} TotalSplit(s: seq<Loan>)
    ensures Debt(s) == Total(s, PrincipalOf) + Total(s, InterestOf)
  {
    if s != [] {
      TotalSplit(s[1..]);
    }
  }

  /** Two tables that agree entry by entry on a column have the same column sum. */
  lemma {:induction false} TotalPointwise(s: seq<Loan>, t: seq<Loan>, f: Loan -> real)
    requires |s| == |t|
    requires forall j :: 0 <= j < |s| ==> f(s[j]) == f(t[j])
    ensures Total(s, f) == Total(t, f)
  {
    if s != [] {
      TotalPointwise(s[1..], t[1..], f);
    }
  }

  /** With no negative amounts, no loan owes more than the whole table. */
  lemma {:induction false} BalanceAtMostDebt(s: seq<Loan>, i: nat)
    requires i < |s| && NonNegative(s)
    ensures NonNegative(Remove(s, i))
    ensures 0.0 <= Debt(Remove(s, i)) == Debt(s) - BalanceOf(s[i])
  {
    TotalRemove(s, i, BalanceOf);
    DebtNonNegative(Remove(s, i));
  }

  lemma {:induction false} DebtNonNegative(s: seq<Loan>)
    requires NonNegative(s)
    ensures Debt(s) >= 0.0
  {
    if s != [] {
      DebtNonNegative(s[1..]);
    }
  }
}
