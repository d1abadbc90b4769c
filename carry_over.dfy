/** The merged-state line carry-over of `gen_config`: a want ACE without a
    `line` takes the line of the first have ACE, in a deep copy of the have
    dictionary, that still has a truthy line and is equal to it once that
    line is set aside. The copy's ACE then keeps its line popped, so the
    line is handed out once; an unmatched ACE gets its line back. */
module CarryOver {
  import opened Values
  import opened Dicts

  /** Have ACE `h` can give its line to want ACE `w`: its line is truthy and
      popping it leaves a dictionary equal to `w`. */
  predicate Eligible(w: Ace, h: Ace) {
    Truthy(Get(h, "line")) && h - {"line"} == w
  }

  /** The index at which the inner scan for `w` breaks, `|hs|` when no ACE matches. */
  function FirstEligible(w: Ace, hs: seq<Ace>): (m: nat)
    ensures m <= |hs|
    ensures m < |hs| ==> Eligible(w, hs[m])
    ensures forall p :: 0 <= p < m ==> !Eligible(w, hs[p])
  {
    if hs == [] then 0 else if Eligible(w, hs[0]) then 0 else 1 + FirstEligible(w, hs[1..])
  }

  /** The outcome of the carry-over for one ACL: the want ACEs as they come
      out, the copied have ACEs as they are left, and for each want ACE the
      index of the have ACE it took its line from, or -1. */
  datatype Carried = Carried(out: seq<Ace>, copy: seq<Ace>, picks: seq<int>)

  /** The step for one want ACE `w` against the copy `hs`. */
  function CarryStep(w: Ace, hs: seq<Ace>): (seq<Ace>, Ace, int) {
    if "line" in w then (hs, w, -1 as int)
    else
      var m := FirstEligible(w, hs);
      if m == |hs| then (hs, w, -1 as int)
      else (hs[m := hs[m] - {"line"}], w["line" := hs[m]["line"]], m as int)
  }

  /** The carry-over for want ACEs `ws` against have ACEs `hs`, the want ACEs taken in order. */
  function Carry(ws: seq<Ace>, hs: seq<Ace>): (c: Carried)
    decreases |ws|
  {
    if ws == [] then Carried([], hs, [])
    else
      var n := |ws| - 1;
      var prev := Carry(ws[..n], hs);
      var (copy, o, pick) := CarryStep(ws[n], prev.copy);
      Carried(prev.out + [o], copy, prev.picks + [pick])
  }

  /** What the carry-over promises about want ACE `i`: one that already has
      a line, or finds no have ACE to match, is left as it is and every
      matching have ACE was already taken; otherwise it takes the line of
      the first matching have ACE not taken by an earlier want ACE. */
  ghost predicate PickOk(ws: seq<Ace>, hs: seq<Ace>, out: seq<Ace>, picks: seq<int>, i: nat)
    requires i < |ws| && i < |out| && i < |picks|
  {
    if picks[i] == -1 then
      && out[i] == ws[i]
      && ("line" !in ws[i] ==> forall p :: 0 <= p < |hs| && Eligible(ws[i], hs[p]) ==> p in picks[..i])
    else
      && 0 <= picks[i] < |hs|
      && "line" !in ws[i]
      && Eligible(ws[i], hs[picks[i]])
      && picks[i] !in picks[..i]
      && out[i] == ws[i]["line" := hs[picks[i]]["line"]]
      && forall p :: 0 <= p < picks[i] && Eligible(ws[i], hs[p]) ==> p in picks[..i]
  }

  /** The carry-over is correct for `ws` against `hs`: every want ACE is
      handled as `PickOk` says, and the copy is `hs` with the line popped
      exactly from the ACEs whose line was handed out. */
  ghost predicate CarrySound(ws: seq<Ace>, hs: seq<Ace>, c: Carried) {
    && |c.out| == |ws| && |c.picks| == |ws| && |c.copy| == |hs|
    && (forall p :: 0 <= p < |hs| ==> c.copy[p] == if p in c.picks then hs[p] - {"line"} else hs[p])
    && (forall i :: 0 <= i < |ws| ==> PickOk(ws, hs, c.out, c.picks, i))
  }

  /** The carry-over as `gen_config` performs it is correct: ACEs that
      have a line are untouched, each have line goes to at most one want
      ACE, and it goes to the first ACE that matches and is still untaken. */
  lemma {:induction false} CarryFacts(ws: seq<Ace>, hs: seq<Ace>)
    ensures CarrySound(ws, hs, Carry(ws, hs))
    decreases |ws|
  {
    if ws != [] {
      var n := |ws| - 1;
      CarryFacts(ws[..n], hs);
      CarryExtend(ws, hs, Carry(ws[..n], hs));
    }
  }

  lemma {:induction false} CarryExtend(ws: seq<Ace>, hs: seq<Ace>, prev: Carried)
    requires ws != []
    requires prev == Carry(ws[..|ws| - 1], hs)
    requires CarrySound(ws[..|ws| - 1], hs, prev)
    ensures CarrySound(ws, hs, Carry(ws, hs))
  {
    var n := |ws| - 1;
    CarryKeepEarlier(ws, ws[..n], hs, prev);
    CopyEligible(ws[n], hs, prev.copy, prev.picks);
    CarryLast(ws, hs, prev);
    CarryCopy(ws, hs, prev);
  }

  lemma {:induction false} CarryKeepEarlier(ws: seq<Ace>, init: seq<Ace>, hs: seq<Ace>, prev: Carried)
    requires ws != [] && init == ws[..|ws| - 1]
    requires prev == Carry(init, hs)
    requires |prev.out| == |init| && |prev.picks| == |init|
    requires forall i :: 0 <= i < |init| ==> PickOk(init, hs, prev.out, prev.picks, i)
    ensures |Carry(ws, hs).out| == |ws| && |Carry(ws, hs).picks| == |ws|
    ensures forall i :: 0 <= i < |ws| - 1 ==> PickOk(ws, hs, Carry(ws, hs).out, Carry(ws, hs).picks, i)
  {
    var n := |ws| - 1;
    var c := Carry(ws, hs);
    assert c.out == prev.out + [CarryStep(ws[n], prev.copy).1];
    assert c.picks == prev.picks + [CarryStep(ws[n], prev.copy).2];
    forall i | 0 <= i < n
      ensures PickOk(ws, hs, c.out, c.picks, i)
    {
      assert PickOk(init, hs, prev.out, prev.picks, i);
      assert c.picks[..i] == prev.picks[..i];
      assert ws[..n][i] == ws[i];
      assert c.out[i] == prev.out[i] && c.picks[i] == prev.picks[i];
    }
  }

  lemma {:induction false} CarryCopy(ws: seq<Ace>, hs: seq<Ace>, prev: Carried)
    requires ws != []
    requires prev == Carry(ws[..|ws| - 1], hs)
    requires |prev.copy| == |hs|
    requires forall p :: 0 <= p < |hs| ==> prev.copy[p] == if p in prev.picks then hs[p] - {"line"} else hs[p]
    ensures |Carry(ws, hs).copy| == |hs|
    ensures forall p :: 0 <= p < |hs| ==>
      Carry(ws, hs).copy[p] == if p in Carry(ws, hs).picks then hs[p] - {"line"} else hs[p]
  {
    var n := |ws| - 1;
    var (copy, o, pick) := CarryStep(ws[n], prev.copy);
    var c := Carry(ws, hs);
    assert c.copy == copy && c.picks == prev.picks + [pick];
    forall p | 0 <= p < |hs|
      ensures c.copy[p] == if p in c.picks then hs[p] - {"line"} else hs[p]
    {
      assert p in c.picks <==> p in prev.picks || p == pick;
      if pick != -1 && p == pick {
        assert Eligible(ws[n], prev.copy[p]);
        assert p !in prev.picks;
      }
    }
  }

  lemma {:induction false} CarryLast(ws: seq<Ace>, hs: seq<Ace>, prev: Carried)
    requires ws != []
    requires prev == Carry(ws[..|ws| - 1], hs)
    requires |prev.copy| == |hs|
    requires forall p :: 0 <= p < |hs| ==> (Eligible(ws[|ws| - 1], prev.copy[p]) <==> Eligible(ws[|ws| - 1], hs[p]) && p !in prev.picks)
    requires forall p :: 0 <= p < |hs| && p !in prev.picks ==> prev.copy[p] == hs[p]
    requires |prev.out| == |ws| - 1 && |prev.picks| == |ws| - 1
    ensures PickOk(ws, hs, Carry(ws, hs).out, Carry(ws, hs).picks, |ws| - 1)
  {
    var n := |ws| - 1;
    var w := ws[n];
    var (copy, o, pick) := CarryStep(w, prev.copy);
    var c := Carry(ws, hs);
    assert c.picks[..n] == prev.picks;
    assert c.out[n] == o && c.picks[n] == pick;
    if "line" !in w {
      var m := FirstEligible(w, prev.copy);
      if m < |hs| {
        assert Eligible(w, prev.copy[m]);
        assert m !in prev.picks;
        assert prev.copy[m] == hs[m];
      }
    }
  }

  /** A copied ACE matches exactly when its original matches and its line
      has not been handed out. */
  lemma {:induction false} CopyEligible(w: Ace, hs: seq<Ace>, copy: seq<Ace>, picks: seq<int>)
    requires |copy| == |hs|
    requires forall p :: 0 <= p < |hs| ==> copy[p] == if p in picks then hs[p] - {"line"} else hs[p]
    ensures forall p :: 0 <= p < |hs| ==> (Eligible(w, copy[p]) <==> Eligible(w, hs[p]) && p !in picks)
    ensures forall p :: 0 <= p < |hs| && p !in picks ==> copy[p] == hs[p]
  {
    forall p | 0 <= p < |hs| && p in picks
      ensures !Eligible(w, copy[p])
    {
      assert "line" !in copy[p];
    }
  }

  /** The carry-over only adds lines: the list keeps its length, and an
      ACE changes only by gaining a `line` it did not have. */
  lemma {:induction false} CarryOnlySetsLines(ws: seq<Ace>, hs: seq<Ace>)
    ensures var c := Carry(ws, hs);
      |c.out| == |ws| &&
      forall i :: 0 <= i < |ws| ==> c.out[i] == ws[i] || ("line" !in ws[i] && c.out[i] - {"line"} == ws[i] && "line" in c.out[i])
  {
    CarryFacts(ws, hs);
    var c := Carry(ws, hs);
    forall i | 0 <= i < |ws|
      ensures c.out[i] == ws[i] || ("line" !in ws[i] && c.out[i] - {"line"} == ws[i] && "line" in c.out[i])
    {
      assert PickOk(ws, hs, c.out, c.picks, i);
      if c.picks[i] != -1 {
        assert c.out[i] - {"line"} == ws[i];
      }
    }
  }

  /** The ACEs of one want entry after the carry-over against the `aces`
      of its have counterpart; with no have list, the first want ACE
      without a line raises when it looks into it. */
  function CarryAces(ws: seq<Ace>, haces: Option<seq<Ace>>): Result<seq<Ace>> {
    if haces.Some? then Ok(Carry(ws, haces.value).out)
    else if forall i :: 0 <= i < |ws| ==> "line" in ws[i] then Ok(ws)
    else Err("KeyError")
  }

  /** A want entry after the carry-over against its have counterpart `h`:
      one without a counterpart or without ACEs is skipped. */
  function CarryEntry(h: Option<Acl>, v: Acl): Result<Acl> {
    if h.None? || !HasAces(v) then Ok(v)
    else match CarryAces(v.aces.value, h.value.aces)
      case Err(e) => Err(e)
      case Ok(out) => Ok(v.(aces := Some(out)))
  }

  /** `wantd` after the carry-over loop: same keys in the same order, or
      the exception of the first entry that raises. */
  function CarriedOver(wantd: AclDict, haved: AclDict): (r: Result<AclDict>)
    ensures r.Ok? ==> |r.value| == |wantd| && forall p :: 0 <= p < |wantd| ==> r.value[p].0 == wantd[p].0
    decreases |wantd|
  {
    if wantd == [] then Result<AclDict>.Ok([])
    else
      var n := |wantd| - 1;
      var (k, v) := wantd[n];
      match CarriedOver(wantd[..n], haved)
      case Err(e) => Result<AclDict>.Err(e)
      case Ok(prev) =>
        match CarryEntry(Lookup(haved, k), v)
        case Err(e) => Result<AclDict>.Err(e)
        case Ok(e) =>
          assert forall p :: 0 <= p < n ==> prev[p].0 == wantd[p].0;
          var r: AclDict := prev + [(k, e)];
          Ok(r)
  }

  /** The carry-over raises exactly when some entry raises, and otherwise
      maps every want entry through `CarryEntry`; `haved` is only read. */
  lemma {:induction false} CarriedOverEntries(wantd: AclDict, haved: AclDict)
    ensures var r := CarriedOver(wantd, haved);
      (r.Err? <==> exists p :: 0 <= p < |wantd| && CarryEntry(Lookup(haved, wantd[p].0), wantd[p].1).Err?) &&
      (r.Ok? ==> forall p :: 0 <= p < |wantd| ==> r.value[p].1 == CarryEntry(Lookup(haved, wantd[p].0), wantd[p].1).value)
    decreases |wantd|
  {
    if wantd != [] {
      var n := |wantd| - 1;
      var init: AclDict := wantd[..n];
      CarriedOverEntries(init, haved);
      assert forall p :: 0 <= p < n ==> init[p] == wantd[p];
    }
  }

  /** Without a have counterpart in `haved` an entry comes out as it went in. */
  lemma {:induction false} CarriedOverSkipsNew(wantd: AclDict, haved: AclDict, p: nat)
    requires p < |wantd| && !Has(haved, wantd[p].0)
    requires CarriedOver(wantd, haved).Ok?
    ensures CarriedOver(wantd, haved).value[p] == wantd[p]
  {
    CarriedOverEntries(wantd, haved);
  }

  /** The inner loop for one want ACE: look through the copied have ACEs,
      pop each truthy line, keep it popped and copy it onto the want ACE
      on a match, put it back otherwise. */
  method TakeLine(w: Ace, hs: seq<Ace>) returns (copy: seq<Ace>, o: Ace)
    requires "line" !in w
    ensures copy == CarryStep(w, hs).0 && o == CarryStep(w, hs).1
  {
    copy, o := hs, w;
    var m := 0;
    while m < |copy|
      invariant m <= |copy| && copy == hs && o == w
      invariant forall p :: 0 <= p < m ==> !Eligible(w, hs[p])
    {
      var each := copy[m];
      if Truthy(Get(each, "line")) {
        var line := each["line"];
        copy := copy[m := each - {"line"}];
        if w == copy[m] {
          o := w["line" := line];
          return;
        }
        assert copy[m]["line" := line] == each;
        copy := copy[m := copy[m]["line" := line]];
      }
      m := m + 1;
    }
  }

  /** The loop over the want ACEs of one ACL. */
  method CarryAclLines(ws: seq<Ace>, haces: Option<seq<Ace>>) returns (r: Result<seq<Ace>>)
    ensures r == CarryAces(ws, haces)
  {
    var out: seq<Ace> := [];
    var copy := if haces.Some? then haces.value else [];
    for i := 0 to |ws|
      invariant haces.Some? ==> out == Carry(ws[..i], haces.value).out && copy == Carry(ws[..i], haces.value).copy
      invariant haces.None? ==> out == ws[..i] && forall q :: 0 <= q < i ==> "line" in ws[q]
    {
      assert ws[..i + 1][..i] == ws[..i];
      var each := ws[i];
      if "line" in each {
        out := out + [each];
      } else {
        if haces.None? {
          return Err("KeyError");
        }
        var o;
        copy, o := TakeLine(each, copy);
        out := out + [o];
      }
    }
    assert ws[..|ws|] == ws;
    r := Ok(out);
  }

  /** The body of the carry-over loop for one want entry `v` and the have
      entry `hItem` popped from the copy. */
  method CarryOneEntry(hItem: Option<Acl>, v: Acl) returns (r: Result<Acl>)
    ensures r == CarryEntry(hItem, v)
  {
    if hItem.None? || !HasAces(v) {
      return Ok(v);
    }
    var aces := CarryAclLines(v.aces.value, hItem.value.aces);
    if aces.Err? {
      return Err(aces.error);
    }
    r := Ok(v.(aces := Some(aces.value)));
  }

  /** The carry-over loop of the merged state; `haved` is read through a
      copy from which each visited entry is popped. */
  method CarryOverLines(wantd: AclDict, haved: AclDict) returns (r: Result<AclDict>)
    ensures r == CarriedOver(wantd, haved)
  {
    var tempHave := haved;
    var acc: AclDict := [];
    for i := 0 to |wantd|
      invariant CarriedOver(wantd[..i], haved) == Ok(acc)
      invariant Unvisited(wantd, haved, tempHave, i)
    {
      var (k, v) := wantd[i];
      PopVisited(wantd, haved, tempHave, i);
      var hItem := Lookup(tempHave, k);
      tempHave := Pop(tempHave, k);
      var e := CarryOneEntry(hItem, v);
      if e.Err? {
        EntryErr(wantd, haved, i, acc, e.error);
        return Err(e.error);
      }
      NextEntry(wantd, haved, i, acc, e.value);
      acc := acc + [(k, e.value)];
    }
    assert wantd[..|wantd|] == wantd;
    r := Ok(acc);
  }

  /** The copy of `haved` still holds the entries of the want names not yet visited. */
  ghost predicate Unvisited(wantd: AclDict, haved: AclDict, tempHave: AclDict, i: nat) {
    forall j :: i <= j < |wantd| ==> Lookup(tempHave, wantd[j].0) == Lookup(haved, wantd[j].0)
  }

  lemma {:induction false} PopVisited(wantd: AclDict, haved: AclDict, tempHave: AclDict, i: nat)
    requires i < |wantd| && Unvisited(wantd, haved, tempHave, i)
    ensures Lookup(tempHave, wantd[i].0) == Lookup(haved, wantd[i].0)
    ensures Unvisited(wantd, haved, Pop(tempHave, wantd[i].0), i + 1)
  {
    var k := wantd[i].0;
    forall j | i + 1 <= j < |wantd|
      ensures Lookup(Pop(tempHave, k), wantd[j].0) == Lookup(haved, wantd[j].0)
    {
      assert wantd[j].0 != k;
    }
  }

  /** An entry that raises makes the whole loop raise. */
  lemma {:induction false} EntryErr(wantd: AclDict, haved: AclDict, i: nat, acc: AclDict, e: string)
    requires i < |wantd|
    requires CarriedOver(wantd[..i], haved) == Ok(acc)
    requires CarryEntry(Lookup(haved, wantd[i].0), wantd[i].1) == Err(e)
    ensures CarriedOver(wantd, haved) == Err(e)
  {
    var prefix := wantd[..i + 1];
    assert prefix[..i] == wantd[..i] && prefix[i] == wantd[i];
    assert CarriedOver(prefix, haved) == Err(e);
    CarriedOverPrefixErr(wantd, haved, i + 1);
  }

  /** One more entry of the accumulated carry-over. */
  lemma {:induction false} NextEntry(wantd: AclDict, haved: AclDict, i: nat, acc: AclDict, e: Acl)
    requires i < |wantd|
    requires CarriedOver(wantd[..i], haved) == Ok(acc)
    requires CarryEntry(Lookup(haved, wantd[i].0), wantd[i].1) == Ok(e)
    ensures DistinctKeys(acc + [(wantd[i].0, e)])
    ensures CarriedOver(wantd[..i + 1], haved).Ok? && CarriedOver(wantd[..i + 1], haved).value == acc + [(wantd[i].0, e)]
  {
    assert wantd[..i + 1][..i] == wantd[..i];
    assert forall p :: 0 <= p < i ==> acc[p].0 == wantd[..i][p].0 == wantd[p].0;
  }

  /** Once a prefix raises, the whole loop raises with the same exception. */
  lemma {:induction false} CarriedOverPrefixErr(wantd: AclDict, haved: AclDict, i: nat)
    requires i <= |wantd|
    requires CarriedOver(wantd[..i], haved).Err?
    ensures CarriedOver(wantd, haved) == CarriedOver(wantd[..i], haved)
    decreases |wantd| - i
  {
    if i < |wantd| {
      assert wantd[..i + 1][..i] == wantd[..i];
      CarriedOverPrefixErr(wantd, haved, i + 1);
    } else {
      assert wantd[..i] == wantd;
    }
  }
}
