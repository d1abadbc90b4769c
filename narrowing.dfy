/** The deleted-state adjustment of `gen_config`: `haved` is narrowed to
    the ACLs named on the want side (all of them when the want side names
    none), and `wantd` is emptied. */
module Narrowing {
  import opened Values
  import opened Dicts

  /** The entries of `haved` the narrowing keeps, in their order. */
  function Kept(haved: seq<(string, Acl)>, wantd: AclDict): AclDict
    decreases |haved|
  {
    if haved == [] then []
    else
      var n := |haved| - 1;
      var prefix := haved[..n];
      var (k, v) := haved[n];
      if Has(wantd, k) || wantd == [] then Put(Kept(prefix, wantd), k, v) else Kept(prefix, wantd)
  }

  /** After the narrowing, `haved` holds exactly the original entries whose
      name was on the want side, or all of them when that side was empty. */
  lemma {:induction false} KeptLookup(haved: AclDict, wantd: AclDict, k: string)
    ensures Lookup(Kept(haved, wantd), k) == if Has(wantd, k) || wantd == [] then Lookup(haved, k) else None
    decreases |haved|
  {
    if haved != [] {
      var n := |haved| - 1;
      var prefix: AclDict := haved[..n];
      KeptLookup(prefix, wantd, k);
      LookupLast(haved, k);
    }
  }

  /** With nothing named on the want side every have entry is kept, in order. */
  lemma {:induction false} KeptAll(haved: AclDict)
    ensures Kept(haved, []) == haved
    decreases |haved|
  {
    if haved != [] {
      var n := |haved| - 1;
      var prefix: AclDict := haved[..n];
      KeptAll(prefix);
      assert !Has(prefix, haved[n].0);
      assert prefix + [haved[n]] == haved;
    }
  }

  /** The entries of `haved` whose name is on the want side, or all of
      them when that side is empty, in the order of `haved`. */
  function Passing(haved: seq<(string, Acl)>, wantd: AclDict): (r: seq<(string, Acl)>)
    ensures |r| <= |haved|
    ensures forall e :: e in r <==> e in haved && (Has(wantd, e.0) || wantd == [])
    decreases |haved|
  {
    if haved == [] then []
    else
      var n := |haved| - 1;
      Passing(haved[..n], wantd) + (if Has(wantd, haved[n].0) || wantd == [] then [haved[n]] else [])
  }

  /** The narrowed dictionary is the subsequence of `haved` whose names
      pass the test, in their order: the superfluous removals that follow
      visit them in the device's order. */
  lemma {:induction false} KeptInOrder(haved: AclDict, wantd: AclDict)
    ensures Kept(haved, wantd) == Passing(haved, wantd)
    decreases |haved|
  {
    if haved != [] {
      var n := |haved| - 1;
      var prefix: AclDict := haved[..n];
      var (k, v) := haved[n];
      var before := Kept(prefix, wantd);
      KeptInOrder(prefix, wantd);
      KeptLookup(prefix, wantd, k);
      assert forall i :: 0 <= i < n ==> prefix[i].0 != k;
      assert Lookup(before, k) == None;
      assert Kept(haved, wantd) == if Has(wantd, k) || wantd == [] then Put(before, k, v) else before;
      assert Passing(haved, wantd) == Passing(prefix, wantd) + (if Has(wantd, k) || wantd == [] then [(k, v)] else []);
    }
  }

  lemma {:induction false} KeptStep(haved: seq<(string, Acl)>, wantd: AclDict, i: nat)
    requires i < |haved|
    ensures var (k, v) := haved[i];
      Kept(haved[..i + 1], wantd) == if Has(wantd, k) || wantd == [] then Put(Kept(haved[..i], wantd), k, v) else Kept(haved[..i], wantd)
  {
    var prefix := haved[..i + 1];
    var before := haved[..i];
    assert |prefix| - 1 == i;
    assert prefix[..i] == before;
    assert prefix[i] == haved[i];
    assert prefix != [];
    var (k, v) := prefix[i];
    assert Kept(prefix, wantd) == if Has(wantd, k) || wantd == [] then Put(Kept(before, wantd), k, v) else Kept(before, wantd);
  }

  /** The deleted-state loop: the entries of `haved` are copied into a new
      dictionary when their name is on the want side, and `wantd` becomes `{}`. */
  method NarrowForDelete(haved: AclDict, wantd: AclDict) returns (newHave: AclDict, newWant: AclDict)
    ensures newHave == Kept(haved, wantd) && newWant == []
  {
    var temp: AclDict := [];
    for i := 0 to |haved|
      invariant temp == Kept(haved[..i], wantd)
    {
      var (k, v) := haved[i];
      KeptStep(haved, wantd, i);
      if Has(wantd, k) || wantd == [] {
        temp := Put(temp, k, v);
      }
    }
    assert haved[..|haved|] == haved;
    newHave, newWant := temp, [];
  }
}
