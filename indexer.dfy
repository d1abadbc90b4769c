/** The entity indexer: the loops of `gen_config` that turn the want and
    have ACL lists into dictionaries keyed by ACL name. */
module Indexer {
  import opened Values
  import opened Dicts

  /** The dictionary the loop `for entry in acls: temp.update({entry["name"]: entry})` builds. */
  function Index(entries: seq<Acl>): AclDict
    decreases |entries|
  {
    if entries == [] then []
    else
      var n := |entries| - 1;
      Put(Index(entries[..n]), entries[n].name, entries[n])
  }

  method IndexAcls(entries: seq<Acl>) returns (d: AclDict)
    ensures d == Index(entries)
  {
    d := [];
    for i := 0 to |entries|
      invariant d == Index(entries[..i])
    {
      assert entries[..i + 1][..i] == entries[..i];
      d := Put(d, entries[i].name, entries[i]);
    }
    assert entries[..|entries|] == entries;
  }

  /** The last entry named `k`: the one a later `update` leaves in place. */
  function LastNamed(entries: seq<Acl>, k: string): Option<Acl>
    decreases |entries|
  {
    if entries == [] then None
    else if entries[|entries| - 1].name == k then Some(entries[|entries| - 1])
    else LastNamed(entries[..|entries| - 1], k)
  }

  /** The position of the first entry named `k`, `|entries|` when there is none. */
  function FirstNamed(entries: seq<Acl>, k: string): (i: nat)
    ensures i <= |entries|
    ensures i < |entries| ==> entries[i].name == k
    ensures forall j :: 0 <= j < i ==> entries[j].name != k
  {
    if entries == [] then 0 else if entries[0].name == k then 0 else 1 + FirstNamed(entries[1..], k)
  }

  /** Last one wins: every name maps to the last entry carrying it, and
      names that no entry carries are absent (so an empty list gives `{}`). */
  lemma {:induction false} IndexLastWins(entries: seq<Acl>, k: string)
    ensures Lookup(Index(entries), k) == LastNamed(entries, k)
    decreases |entries|
  {
    if entries != [] {
      IndexLastWins(entries[..|entries| - 1], k);
    }
  }

  /** Every key of `d` is the name of its entry and occurs in `entries`,
      and keys come in the order in which their names first occur. */
  ghost predicate FirstOccurrenceOrdered(entries: seq<Acl>, d: AclDict) {
    && (forall p :: 0 <= p < |d| ==> d[p].1.name == d[p].0 && FirstNamed(entries, d[p].0) < |entries|)
    && (forall p, q :: 0 <= p < q < |d| ==> FirstNamed(entries, d[p].0) < FirstNamed(entries, d[q].0))
  }

  /** Keys appear in the order in which their names first occur in the list. */
  lemma {:induction false} IndexFirstOccurrenceOrder(entries: seq<Acl>)
    ensures FirstOccurrenceOrdered(entries, Index(entries))
    decreases |entries|
  {
    if entries != [] {
      var n := |entries| - 1;
      IndexFirstOccurrenceOrder(entries[..n]);
      assert entries == entries[..n] + [entries[n]];
      IndexOrderStep(entries[..n], entries[n]);
    }
  }

  lemma {:induction false} IndexOrderStep(init: seq<Acl>, e: Acl)
    requires FirstOccurrenceOrdered(init, Index(init))
    ensures FirstOccurrenceOrdered(init + [e], Put(Index(init), e.name, e))
  {
    var prev := Index(init);
    forall p | 0 <= p < |prev|
      ensures FirstNamed(init + [e], prev[p].0) == FirstNamed(init, prev[p].0)
    {
      FirstNamedExtends(init, e, prev[p].0);
    }
    if !Has(prev, e.name) {
      FirstNamedOfNew(init, e);
      OrderAppend(init + [e], prev, e);
    } else {
      PutExistingKeepsKeys(prev, e);
    }
  }

  lemma {:induction false} OrderAppend(all: seq<Acl>, prev: AclDict, e: Acl)
    requires !Has(prev, e.name)
    requires FirstNamed(all, e.name) == |all| - 1
    requires forall p :: 0 <= p < |prev| ==> prev[p].1.name == prev[p].0 && FirstNamed(all, prev[p].0) < |all| - 1
    requires forall p, q :: 0 <= p < q < |prev| ==> FirstNamed(all, prev[p].0) < FirstNamed(all, prev[q].0)
    ensures FirstOccurrenceOrdered(all, Put(prev, e.name, e))
  {
    var next := Put(prev, e.name, e);
    assert next == prev + [(e.name, e)];
    assert forall p :: 0 <= p < |prev| ==> next[p] == prev[p];
  }

  lemma {:induction false} PutExistingKeepsKeys(prev: AclDict, e: Acl)
    requires Has(prev, e.name)
    requires forall p :: 0 <= p < |prev| ==> prev[p].1.name == prev[p].0
    ensures |Put(prev, e.name, e)| == |prev|
    ensures forall p :: 0 <= p < |prev| ==>
      Put(prev, e.name, e)[p].0 == prev[p].0 && Put(prev, e.name, e)[p].1.name == prev[p].0
  {
    var next := Put(prev, e.name, e);
    forall p | 0 <= p < |prev|
      ensures next[p].0 == prev[p].0 && next[p].1.name == prev[p].0
    {
      if prev[p].0 == e.name {
        assert Lookup(next, e.name) == Some(e);
      } else {
        assert Lookup(next, prev[p].0) == Lookup(prev, prev[p].0);
      }
    }
  }

  lemma {:induction false} FirstNamedExtends(init: seq<Acl>, e: Acl, k: string)
    requires FirstNamed(init, k) < |init|
    ensures FirstNamed(init + [e], k) == FirstNamed(init, k)
  {
    var i := FirstNamed(init, k);
    var j := FirstNamed(init + [e], k);
    assert (init + [e])[i] == init[i];
    assert j <= i;
    assert j < |init| ==> (init + [e])[j] == init[j];
  }

  lemma {:induction false} FirstNamedOfNew(init: seq<Acl>, e: Acl)
    requires !Has(Index(init), e.name)
    ensures FirstNamed(init + [e], e.name) == |init|
  {
    assert Lookup(Index(init), e.name) == None;
    IndexLastWins(init, e.name);
    assert LastNamed(init, e.name) == None;
    LastNamedNone(init, e.name);
    assert forall i :: 0 <= i < |init| ==> init[i].name != e.name;
    var j := FirstNamed(init + [e], e.name);
    assert (init + [e])[|init|] == e;
    assert forall i :: 0 <= i < |init| ==> (init + [e])[i] == init[i];
  }

  lemma {:induction false} LastNamedNone(entries: seq<Acl>, k: string)
    requires LastNamed(entries, k) == None
    ensures forall i :: 0 <= i < |entries| ==> entries[i].name != k
    decreases |entries|
  {
    if entries != [] {
      var n := |entries| - 1;
      LastNamedNone(entries[..n], k);
      assert forall i :: 0 <= i < n ==> entries[i] == entries[..n][i];
    }
  }
}
