/** Python dictionaries from ACL name to ACL entry. Python dicts remember
    insertion order, and the reconciler's command order follows it, so a
    dictionary is the sequence of its items with pairwise distinct keys. */
module Dicts {
  import opened Values

  ghost predicate DistinctKeys(s: seq<(string, Acl)>) {
    forall i, j :: 0 <= i < j < |s| ==> s[i].0 != s[j].0
  }

  /** A name-indexed ACL dictionary, items in insertion order. */
  type AclDict = s: seq<(string, Acl)> | DistinctKeys(s)

  /** The position of key `k`, or `|d|` when it is absent. */
  function Find(d: seq<(string, Acl)>, k: string): (i: nat)
    ensures i <= |d|
    ensures i < |d| ==> d[i].0 == k
    ensures forall j :: 0 <= j < i ==> d[j].0 != k
  {
    if d == [] then 0 else if d[0].0 == k then 0 else 1 + Find(d[1..], k)
  }

  /** `k in d`. */
  predicate Has(d: AclDict, k: string) {
    Find(d, k) < |d|
  }

  /** `d.get(k)`. */
  function Lookup(d: AclDict, k: string): (r: Option<Acl>)
    ensures r.None? ==> forall i :: 0 <= i < |d| ==> d[i].0 != k
    ensures r.Some? ==> Has(d, k) && d[Find(d, k)] == (k, r.value)
    ensures forall i :: 0 <= i < |d| && d[i].0 == k ==> r == Some(d[i].1)
  {
    var i := Find(d, k);
    if i < |d| then Some(d[i].1) else None
  }

  /** `d.get(k, {})`. */
  function LookupOrEmpty(d: AclDict, k: string): Acl {
    match Lookup(d, k)
    case Some(acl) => acl
    case None => EmptyAcl
  }

  /** `d.update({k: v})`: an existing key keeps its place and takes the new
      value, a new key goes to the end. */
  function Put(d: AclDict, k: string, v: Acl): (r: AclDict)
    ensures Lookup(r, k) == Some(v)
    ensures forall k' :: k' != k ==> Lookup(r, k') == Lookup(d, k')
    ensures Has(d, k) ==> |r| == |d| && forall i :: 0 <= i < |d| ==> r[i].0 == d[i].0
    ensures !Has(d, k) ==> r == d + [(k, v)]
  {
    var i := Find(d, k);
    if i < |d| then
      var r: AclDict := d[i := (k, v)];
      assert r[i].0 == k;
      assert forall j :: 0 <= j < |r| && j != i ==> r[j] == d[j];
      r
    else
      var r: AclDict := d + [(k, v)];
      assert r[|d|].0 == k;
      assert forall j :: 0 <= j < |d| ==> r[j] == d[j];
      r
  }

  /** `d.pop(k, ...)`: the dictionary without `k`, the others in order. */
  function Pop(d: AclDict, k: string): (r: AclDict)
    ensures Lookup(r, k) == None
    ensures forall k' :: k' != k ==> Lookup(r, k') == Lookup(d, k')
    ensures !Has(d, k) ==> r == d
  {
    var i := Find(d, k);
    if i < |d| then
      var r: AclDict := d[..i] + d[i + 1..];
      assert forall j :: 0 <= j < i ==> r[j] == d[j];
      assert forall j :: i < j < |d| ==> r[j - 1] == d[j];
      r
    else d
  }

  /** Two dictionaries with the same keys in the same places find a key at the same place. */
  lemma {:induction false} FindSameKeys(a: seq<(string, Acl)>, b: seq<(string, Acl)>, k: string)
    requires |a| == |b| && forall p :: 0 <= p < |a| ==> a[p].0 == b[p].0
    ensures Find(a, k) == Find(b, k)
    decreases |a|
  {
    if a != [] && a[0].0 != k {
      FindSameKeys(a[1..], b[1..], k);
    }
  }

  /** A lookup in a non-empty dictionary either hits its last item or
      looks among the ones before. */
  lemma {:induction false} LookupLast(d: AclDict, k: string)
    requires d != []
    ensures var n := |d| - 1; var prefix: AclDict := d[..n];
      Lookup(d, k) == if d[n].0 == k then Some(d[n].1) else Lookup(prefix, k)
  {
    var n := |d| - 1;
    var prefix: AclDict := d[..n];
    assert forall i :: 0 <= i < n ==> prefix[i] == d[i];
  }
}
