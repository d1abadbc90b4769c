/** The protocol normaliser of `gen_config`: for every want ACE, the first
    have ACE of the same ACL with equal source and destination from which a
    redundant `protocol_options` or `protocol` key can be dropped loses that
    key, and the scan for that want ACE stops there. */
module Normaliser {
  import opened Values
  import opened Dicts

  predicate SameEndpoints(w: Ace, h: Ace) {
    Get(h, "source") == Get(w, "source") && Get(h, "destination") == Get(w, "destination")
  }

  /** What the scan does with have ACE `h` for want ACE `w`: the ACE without
      the deleted key when it deletes one (and then breaks), None when it
      moves on to the next have ACE. */
  function Trim(w: Ace, h: Ace): Option<Ace> {
    if !SameEndpoints(w, h) then None
    else if Get(w, "protocol") == Get(h, "protocol") then
      if !Truthy(Get(w, "protocol_options")) && Truthy(Get(h, "protocol_options"))
      then Some(h - {"protocol_options"}) else None
    else if Get(w, "protocol_options") == Get(h, "protocol_options") then
      if !Truthy(Get(w, "protocol")) && Truthy(Get(h, "protocol"))
      then Some(h - {"protocol"}) else None
    else None
  }

  /** `a` is `b` with some of `protocol` and `protocol_options` deleted and
      every other key and value as in `b`. */
  ghost predicate Trimmed(a: Ace, b: Ace) {
    && a.Keys <= b.Keys
    && b.Keys - a.Keys <= {"protocol", "protocol_options"}
    && forall key :: key in a ==> a[key] == b[key]
  }

  lemma {:induction false} TrimIsTrimmed(w: Ace, h: Ace)
    requires Trim(w, h).Some?
    ensures Trimmed(Trim(w, h).value, h)
  {
  }

  lemma {:induction false} TrimmedTransitive(a: Ace, b: Ace, c: Ace)
    requires Trimmed(a, b) && Trimmed(b, c)
    ensures Trimmed(a, c)
  {
  }

  lemma {:induction false} TrimmedKeepsEndpoints(a: Ace, b: Ace)
    requires Trimmed(a, b)
    ensures Get(a, "source") == Get(b, "source") && Get(a, "destination") == Get(b, "destination")
  {
    assert "source" !in {"protocol", "protocol_options"} by {
      assert "source"[0] != "protocol"[1];
      assert |"source"| != |"protocol"|;
      assert |"source"| != |"protocol_options"|;
    }
    assert "destination" !in {"protocol", "protocol_options"} by {
      assert |"destination"| != |"protocol"|;
      assert |"destination"| != |"protocol_options"|;
    }
    if "source" in b {
      assert "source" !in b.Keys - a.Keys;
      assert a["source"] == b["source"];
    }
    if "destination" in b {
      assert "destination" !in b.Keys - a.Keys;
      assert a["destination"] == b["destination"];
    }
  }

  /** A deletion removes exactly one key, which was there, and keeps the
      endpoints the match was made on. */
  lemma {:induction false} TrimDeletesOneKey(w: Ace, h: Ace)
    requires Trim(w, h).Some?
    ensures var t := Trim(w, h).value;
      SameEndpoints(w, h) &&
      ((|h.Keys - t.Keys| == 1 && "protocol_options" in h && t == h - {"protocol_options"}) ||
       (|h.Keys - t.Keys| == 1 && "protocol" in h && t == h - {"protocol"})) &&
      ("protocol_options" in h && t == h - {"protocol_options"} ==>
         Get(w, "protocol") == Get(h, "protocol") && !Truthy(Get(w, "protocol_options"))) &&
      ("protocol" in h && t == h - {"protocol"} && t != h - {"protocol_options"} ==>
         Get(w, "protocol") != Get(h, "protocol") && Get(w, "protocol_options") == Get(h, "protocol_options") &&
         !Truthy(Get(w, "protocol")))
  {
    var t := Trim(w, h).value;
    if Get(w, "protocol") == Get(h, "protocol") {
      assert Truthy(Get(h, "protocol_options"));
      assert "protocol_options" in h;
      assert t == h - {"protocol_options"};
      assert h.Keys - t.Keys == {"protocol_options"};
    } else {
      assert Truthy(Get(h, "protocol"));
      assert "protocol" in h;
      assert t == h - {"protocol"};
      assert h.Keys - t.Keys == {"protocol"};
    }
  }

  /** The index at which the scan for `w` breaks, `|hs|` when it runs to the end. */
  function FirstTrimmable(w: Ace, hs: seq<Ace>): (m: nat)
    ensures m <= |hs|
    ensures m < |hs| ==> Trim(w, hs[m]).Some?
    ensures forall j :: 0 <= j < m ==> Trim(w, hs[j]).None?
  {
    if hs == [] then 0 else if Trim(w, hs[0]).Some? then 0 else 1 + FirstTrimmable(w, hs[1..])
  }

  /** The have ACEs after the scan for one want ACE. */
  function TrimFirst(w: Ace, hs: seq<Ace>): (r: seq<Ace>)
    ensures |r| == |hs|
  {
    var m := FirstTrimmable(w, hs);
    if m == |hs| then hs else hs[m := Trim(w, hs[m]).value]
  }

  /** The have ACEs after the scans for all want ACEs `ws`, in order. */
  function NormaliseAces(ws: seq<Ace>, hs: seq<Ace>): (r: seq<Ace>)
    ensures |r| == |hs|
    decreases |ws|
  {
    if ws == [] then hs else TrimFirst(ws[|ws| - 1], NormaliseAces(ws[..|ws| - 1], hs))
  }

  /** One want ACE changes at most one have ACE: the first one its scan can
      trim, and only by deleting one of the two keys. */
  lemma {:induction false} TrimFirstChangesAtMostOne(w: Ace, hs: seq<Ace>)
    ensures var r := TrimFirst(w, hs);
      r == hs ||
      exists m :: 0 <= m < |hs| && Trim(w, hs[m]).Some? && r == hs[m := Trim(w, hs[m]).value] &&
        forall j :: 0 <= j < m ==> Trim(w, hs[j]).None?
  {
    var m := FirstTrimmable(w, hs);
    if m < |hs| {
      assert Trim(w, hs[m]).Some? && TrimFirst(w, hs) == hs[m := Trim(w, hs[m]).value];
    }
  }

  /** What the normaliser does to one ACL's have ACEs: every ACE keeps its
      place and loses at most `protocol` and `protocol_options`, and an ACE
      changes only when some want ACE has its source and destination. */
  lemma {:induction false} NormaliseAcesOnlyTrims(ws: seq<Ace>, hs: seq<Ace>)
    ensures var r := NormaliseAces(ws, hs);
      forall m :: 0 <= m < |hs| ==>
        && Trimmed(r[m], hs[m])
        && (r[m] != hs[m] ==> exists j :: 0 <= j < |ws| && SameEndpoints(ws[j], hs[m]))
    decreases |ws|
  {
    if ws == [] {
      forall m | 0 <= m < |hs| ensures Trimmed(hs[m], hs[m]) {}
    } else {
      var n := |ws| - 1;
      NormaliseAcesOnlyTrims(ws[..n], hs);
      var prev := NormaliseAces(ws[..n], hs);
      var k := FirstTrimmable(ws[n], prev);
      forall m | 0 <= m < |hs|
        ensures Trimmed(NormaliseAces(ws, hs)[m], hs[m])
        ensures NormaliseAces(ws, hs)[m] != hs[m] ==> exists j :: 0 <= j < |ws| && SameEndpoints(ws[j], hs[m])
      {
        if prev[m] != hs[m] {
          var j :| 0 <= j < n && SameEndpoints(ws[..n][j], hs[m]);
          assert ws[..n][j] == ws[j];
        }
        OnlyTrimsAt(ws, hs, prev, k, m);
      }
    }
  }

  lemma {:induction false} OnlyTrimsAt(ws: seq<Ace>, hs: seq<Ace>, prev: seq<Ace>, k: nat, m: nat)
    requires ws != [] && m < |hs|
    requires prev == NormaliseAces(ws[..|ws| - 1], hs)
    requires k == FirstTrimmable(ws[|ws| - 1], prev)
    requires Trimmed(prev[m], hs[m])
    requires prev[m] != hs[m] ==> exists j :: 0 <= j < |ws| - 1 && SameEndpoints(ws[j], hs[m])
    ensures Trimmed(NormaliseAces(ws, hs)[m], hs[m])
    ensures NormaliseAces(ws, hs)[m] != hs[m] ==> exists j :: 0 <= j < |ws| && SameEndpoints(ws[j], hs[m])
  {
    var n := |ws| - 1;
    var r := NormaliseAces(ws, hs);
    assert r == TrimFirst(ws[n], prev);
    if m == k {
      TrimIsTrimmed(ws[n], prev[m]);
      assert r[m] == Trim(ws[n], prev[m]).value;
      TrimmedTransitive(r[m], prev[m], hs[m]);
      TrimmedKeepsEndpoints(prev[m], hs[m]);
      assert SameEndpoints(ws[n], hs[m]);
    } else {
      assert r[m] == prev[m];
    }
  }

  /** The number of positions at which two equally long ACE lists differ. */
  function ChangedCount(a: seq<Ace>, b: seq<Ace>): nat
    requires |a| == |b|
    decreases |a|
  {
    if a == [] then 0 else (if a[0] != b[0] then 1 else 0) + ChangedCount(a[1..], b[1..])
  }

  lemma {:induction false} ChangedCountSelf(a: seq<Ace>)
    ensures ChangedCount(a, a) == 0
    decreases |a|
  {
    if a != [] {
      ChangedCountSelf(a[1..]);
    }
  }

  lemma {:induction false} ChangedCountUpdate(a: seq<Ace>, b: seq<Ace>, m: nat, v: Ace)
    requires |a| == |b| && m < |a|
    ensures ChangedCount(a[m := v], b) <= ChangedCount(a, b) + 1
    decreases |a|
  {
    if m > 0 {
      assert a[m := v][1..] == a[1..][m - 1 := v];
      ChangedCountUpdate(a[1..], b[1..], m - 1, v);
    } else {
      assert a[m := v][1..] == a[1..];
    }
  }

  /** Because each scan breaks after its deletion, the normaliser changes
      at most as many have ACEs as there are want ACEs. */
  lemma {:induction false} NormaliseAcesBound(ws: seq<Ace>, hs: seq<Ace>)
    ensures ChangedCount(NormaliseAces(ws, hs), hs) <= |ws|
    decreases |ws|
  {
    if ws == [] {
      ChangedCountSelf(hs);
    } else {
      var n := |ws| - 1;
      NormaliseAcesBound(ws[..n], hs);
      var prev := NormaliseAces(ws[..n], hs);
      var k := FirstTrimmable(ws[n], prev);
      assert NormaliseAces(ws, hs) == TrimFirst(ws[n], prev);
      if k < |prev| {
        ChangedCountUpdate(prev, hs, k, Trim(ws[n], prev[k]).value);
      }
    }
  }

  /** The have entry named `k` after the normaliser: its ACE list is
      rewritten when the want side has an entry of that name and the have
      entry has an `aces` list. */
  function NormaliseEntry(wantd: AclDict, k: string, h: Acl): Acl {
    match Lookup(wantd, k)
    case Some(w) =>
      if HasAces(w) && h.aces.Some? then h.(aces := Some(NormaliseAces(AcesOf(w), h.aces.value))) else h
    case None => h
  }

  /** `haved` after the normaliser: same keys in the same order, each entry
      normalised against the want entry of its name. */
  function Normalised(wantd: AclDict, haved: AclDict): (r: AclDict)
    ensures |r| == |haved|
    ensures forall p :: 0 <= p < |r| ==> r[p].0 == haved[p].0
  {
    seq(|haved|, p requires 0 <= p < |haved| => (haved[p].0, NormaliseEntry(wantd, haved[p].0, haved[p].1)))
  }

  /** The innermost loop: scan the have ACEs for want ACE `w`, deleting at
      most one key and breaking right after a deletion. */
  method ScanHaveAces(w: Ace, hs: seq<Ace>) returns (r: seq<Ace>)
    ensures r == TrimFirst(w, hs)
  {
    r := hs;
    var m := 0;
    while m < |r|
      invariant m <= |r| && r == hs
      invariant forall j :: 0 <= j < m ==> Trim(w, r[j]).None?
    {
      var t := Trim(w, r[m]);
      if t.Some? {
        r := r[m := t.value];
        return;
      }
      m := m + 1;
    }
  }

  /** The loop over the want ACEs of one ACL, each scanning the have ACEs as
      the previous scans left them. */
  method NormaliseAclAces(ws: seq<Ace>, hs: seq<Ace>) returns (r: seq<Ace>)
    ensures r == NormaliseAces(ws, hs)
  {
    r := hs;
    for j := 0 to |ws|
      invariant r == NormaliseAces(ws[..j], hs)
    {
      assert ws[..j + 1][..j] == ws[..j];
      if r != [] {
        r := ScanHaveAces(ws[j], r);
      }
    }
    assert ws[..|ws|] == ws;
  }

  /** `haved` once the want entries before position `i` have been processed. */
  ghost function NormalisedBefore(wantd: AclDict, haved: AclDict, i: nat): (r: seq<(string, Acl)>)
    ensures |r| == |haved|
  {
    seq(|haved|, p requires 0 <= p < |haved| =>
      (haved[p].0, if Find(wantd, haved[p].0) < i then NormaliseEntry(wantd, haved[p].0, haved[p].1) else haved[p].1))
  }

  lemma {:induction false} NormalisedBeforeStep(wantd: AclDict, haved: AclDict, i: nat, p: nat)
    requires i < |wantd|
    requires p == Find(haved, wantd[i].0)
    ensures p == |haved| ==> NormalisedBefore(wantd, haved, i + 1) == NormalisedBefore(wantd, haved, i)
    ensures p < |haved| ==>
      NormalisedBefore(wantd, haved, i + 1) ==
      NormalisedBefore(wantd, haved, i)[p := (haved[p].0, NormaliseEntry(wantd, haved[p].0, haved[p].1))]
  {
    var k := wantd[i].0;
    assert Find(wantd, k) == i;
    var a, b := NormalisedBefore(wantd, haved, i), NormalisedBefore(wantd, haved, i + 1);
    forall q | 0 <= q < |haved| && q != p
      ensures a[q] == b[q]
    {
      assert haved[q].0 != k;
    }
  }

  /** The normaliser as `gen_config` runs it: for each want entry with ACEs,
      rewrite the ACEs of the have entry of the same name. */
  method NormaliseProtocols(wantd: AclDict, haved: AclDict) returns (r: AclDict)
    ensures r == Normalised(wantd, haved)
  {
    r := haved;
    assert r == NormalisedBefore(wantd, haved, 0);
    for i := 0 to |wantd|
      invariant r == NormalisedBefore(wantd, haved, i)
    {
      var (k, want) := wantd[i];
      FindSameKeys(r, haved, k);
      var p := Find(r, k);
      NormalisedBeforeStep(wantd, haved, i, p);
      if p < |r| {
        var h := r[p].1;
        assert h == haved[p].1;
        assert Lookup(wantd, k) == Some(want);
        if HasAces(want) && h.aces.Some? {
          var hs := NormaliseAclAces(want.aces.value, h.aces.value);
          assert h.(aces := Some(hs)) == NormaliseEntry(wantd, k, h);
          r := r[p := (k, h.(aces := Some(hs)))];
        } else {
          assert h == NormaliseEntry(wantd, k, h);
        }
      }
    }
    NormalisedBeforeEnd(wantd, haved);
  }

  lemma {:induction false} NormalisedBeforeEnd(wantd: AclDict, haved: AclDict)
    ensures NormalisedBefore(wantd, haved, |wantd|) == Normalised(wantd, haved)
  {
    forall q | 0 <= q < |haved|
      ensures NormalisedBefore(wantd, haved, |wantd|)[q] == Normalised(wantd, haved)[q]
    {
      assert Find(wantd, haved[q].0) < |wantd| || Lookup(wantd, haved[q].0) == None;
    }
  }
}
