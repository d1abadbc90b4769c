/** The ACL resource module: `gen_config` indexes the want and have ACLs,
    normalises the have protocols, applies the state's adjustment, removes
    superfluous ACLs, drives `_compare` over the want ACLs and sequences the
    resulting commands. */
module AsaAcls {
  import opened Values
  import opened Text
  import opened Dicts
  import opened Indexer
  import opened Normaliser
  import opened CarryOver
  import opened Narrowing
  import opened Diff
  import opened Passes
  import opened Comparator
  import opened Sequencer

  type Renderer = Ace -> string
  type Differ = (seq<string>, seq<string>) -> seq<DiffLine>
  type Merger = (AclDict, AclDict) -> AclDict

  /** `"access-list {name} rename {rename}".format(**want)`. */
  function RenameCommand(w: Acl): string {
    "access-list " + w.name + " rename " + w.rename
  }

  /** The driver loop emits a rename for `w` given the names collected so far. */
  predicate RenameHere(w: Acl, seen: seq<string>) {
    w.rename != "" && w.rename !in seen
  }

  /** The list `temp` of the driver loop after the entries `wantd`: the
      names of the entries that emitted no rename and have a have counterpart. */
  function Seen(wantd: seq<(string, Acl)>, haved: AclDict): seq<string>
    decreases |wantd|
  {
    if wantd == [] then []
    else
      var n := |wantd| - 1;
      var prev := Seen(wantd[..n], haved);
      var (k, w) := wantd[n];
      if RenameHere(w, prev) then prev else if Has(haved, k) then prev + [k] else prev
  }

  /** The commands of one turn of the driver loop. */
  function DriveEntry(state: State, render: Renderer, differ: Differ, seen: seq<string>, haved: AclDict,
                      k: string, w: Acl): Result<seq<string>>
  {
    Chain(Ok(if RenameHere(w, seen) then [RenameCommand(w)] else []),
          CompareCommands(state, render, differ, w, LookupOrEmpty(haved, k)))
  }

  /** The commands of the driver loop over `wantd`. */
  function Driven(state: State, render: Renderer, differ: Differ, wantd: seq<(string, Acl)>, haved: AclDict): Result<seq<string>>
    decreases |wantd|
  {
    if wantd == [] then Ok([])
    else
      var n := |wantd| - 1;
      Chain(Driven(state, render, differ, wantd[..n], haved),
            DriveEntry(state, render, differ, Seen(wantd[..n], haved), haved, wantd[n].0, wantd[n].1))
  }

  /** The commands of the overridden/deleted loop that compares every have
      ACL missing from `wantd` against `{}`. */
  function Superfluous(state: State, render: Renderer, differ: Differ, wantd: AclDict, haved: seq<(string, Acl)>): Result<seq<string>>
    decreases |haved|
  {
    if haved == [] then Ok([])
    else
      var n := |haved| - 1;
      Chain(Superfluous(state, render, differ, wantd, haved[..n]),
            if Has(wantd, haved[n].0) then Ok([]) else CompareCommands(state, render, differ, EmptyAcl, haved[n].1))
  }

  /** `wantd` and `haved` after the normaliser and the state's adjustment. */
  function Adjusted(state: State, dictMerge: Merger, wantd: AclDict, haved: AclDict): Result<(AclDict, AclDict)> {
    var normal := Normalised(wantd, haved);
    var nothing: AclDict := [];
    if state == Merged then
      match CarriedOver(wantd, normal)
      case Err(e) => Err(e)
      case Ok(carried) => Ok((dictMerge(normal, carried), normal))
    else if state == Deleted then Ok((nothing, Kept(normal, wantd)))
    else Ok((wantd, normal))
  }

  /** All commands `gen_config` produces before the sequencer, or the
      exception it raises. */
  function Planned(state: State, render: Renderer, differ: Differ, dictMerge: Merger, want: seq<Acl>, have: seq<Acl>): Result<seq<string>> {
    match Adjusted(state, dictMerge, Index(want), Index(have))
    case Err(e) => Err(e)
    case Ok((wantd, haved)) =>
      Chain(if state == Overridden || state == Deleted then Superfluous(state, render, differ, wantd, haved) else Ok([]),
            Driven(state, render, differ, wantd, haved))
  }

  /** `cur` is `haved` with the keys of the first `i` entries of `wantd` popped. */
  ghost predicate PoppedUpTo(wantd: AclDict, haved: AclDict, cur: AclDict, i: nat) {
    forall k :: Lookup(cur, k) == if Find(wantd, k) < i then None else Lookup(haved, k)
  }

  lemma {:induction false} PopNext(wantd: AclDict, haved: AclDict, cur: AclDict, i: nat)
    requires i < |wantd| && PoppedUpTo(wantd, haved, cur, i)
    ensures PoppedUpTo(wantd, haved, Pop(cur, wantd[i].0), i + 1)
    ensures LookupOrEmpty(cur, wantd[i].0) == LookupOrEmpty(haved, wantd[i].0)
    ensures Has(cur, wantd[i].0) == Has(haved, wantd[i].0)
  {
    var k := wantd[i].0;
    assert Find(wantd, k) == i;
    assert Lookup(cur, k) == Lookup(haved, k);
  }

  /** A turn of the driver loop reads only the have ACL under its own key. */
  lemma {:induction false} DriveEntrySameHave(state: State, render: Renderer, differ: Differ, seen: seq<string>,
                                              cur: AclDict, haved: AclDict, k: string, w: Acl)
    requires LookupOrEmpty(cur, k) == LookupOrEmpty(haved, k)
    ensures DriveEntry(state, render, differ, seen, cur, k, w) == DriveEntry(state, render, differ, seen, haved, k, w)
  {
  }

  lemma {:induction false} PoppedAll(wantd: AclDict, haved: AclDict, cur: AclDict)
    requires PoppedUpTo(wantd, haved, cur, |wantd|)
    ensures forall k :: Lookup(cur, k) == if Has(wantd, k) then None else Lookup(haved, k)
  {
    forall k
      ensures Lookup(cur, k) == if Has(wantd, k) then None else Lookup(haved, k)
    {
      assert Lookup(cur, k) == if Find(wantd, k) < |wantd| then None else Lookup(haved, k);
    }
  }

  lemma {:induction false} DrivenStep(state: State, render: Renderer, differ: Differ, wantd: AclDict, haved: AclDict, i: nat)
    requires i < |wantd|
    ensures Driven(state, render, differ, wantd[..i + 1], haved) ==
      Chain(Driven(state, render, differ, wantd[..i], haved),
            DriveEntry(state, render, differ, Seen(wantd[..i], haved), haved, wantd[i].0, wantd[i].1))
  {
    var prefix := wantd[..i + 1];
    assert prefix[..i] == wantd[..i] && prefix[i] == wantd[i];
  }

  lemma {:induction false} DrivenPrefixErr(state: State, render: Renderer, differ: Differ, wantd: AclDict, haved: AclDict, i: nat)
    requires i <= |wantd| && Driven(state, render, differ, wantd[..i], haved).Err?
    ensures Driven(state, render, differ, wantd, haved) == Driven(state, render, differ, wantd[..i], haved)
    decreases |wantd| - i
  {
    if i < |wantd| {
      DrivenStep(state, render, differ, wantd, haved, i);
      DrivenPrefixErr(state, render, differ, wantd, haved, i + 1);
    } else {
      assert wantd[..i] == wantd;
    }
  }

  lemma {:induction false} SuperfluousStep(state: State, render: Renderer, differ: Differ, wantd: AclDict, haved: AclDict, i: nat)
    requires i < |haved|
    ensures Superfluous(state, render, differ, wantd, haved[..i + 1]) ==
      Chain(Superfluous(state, render, differ, wantd, haved[..i]),
            if Has(wantd, haved[i].0) then Ok([]) else CompareCommands(state, render, differ, EmptyAcl, haved[i].1))
  {
    var prefix := haved[..i + 1];
    assert prefix[..i] == haved[..i] && prefix[i] == haved[i];
  }

  lemma {:induction false} SuperfluousPrefixErr(state: State, render: Renderer, differ: Differ, wantd: AclDict, haved: AclDict, i: nat)
    requires i <= |haved| && Superfluous(state, render, differ, wantd, haved[..i]).Err?
    ensures Superfluous(state, render, differ, wantd, haved) == Superfluous(state, render, differ, wantd, haved[..i])
    decreases |haved| - i
  {
    if i < |haved| {
      SuperfluousStep(state, render, differ, wantd, haved, i);
      SuperfluousPrefixErr(state, render, differ, wantd, haved, i + 1);
    } else {
      assert haved[..i] == haved;
    }
  }

  /** A turn for a want ACL without ACEs whose have counterpart has none
      either emits at most the rename. */
  lemma {:induction false} DriveEntryBare(state: State, render: Renderer, differ: Differ, seen: seq<string>,
                                          haved: AclDict, k: string, w: Acl)
    requires !HasAces(w) && !HasAces(LookupOrEmpty(haved, k))
    requires ValidDiff([], [], differ([], []))
    ensures DriveEntry(state, render, differ, seen, haved, k, w) == Ok(if RenameHere(w, seen) then [RenameCommand(w)] else [])
  {
    PassesOnUnchanged(differ([], []));
    assert Comparator.Rendered(state, render, w) == [];
    assert Comparator.Rendered(state, render, LookupOrEmpty(haved, k)) == [];
  }

  /** The driver loop over one ACL without ACEs whose have counterpart has none either. */
  lemma {:induction false} DrivenSingle(state: State, render: Renderer, differ: Differ, haved: AclDict, k: string, w: Acl)
    requires !HasAces(w) && !HasAces(LookupOrEmpty(haved, k))
    requires ValidDiff([], [], differ([], []))
    ensures Driven(state, render, differ, [(k, w)], haved) == Ok(if w.rename != "" then [RenameCommand(w)] else [])
    ensures Seen([(k, w)], haved) == if w.rename != "" then [] else if Has(haved, k) then [k] else []
  {
    var one := [(k, w)];
    assert one[..0] == [];
    DriveEntryBare(state, render, differ, [], haved, k, w);
  }

  /** The driver loop over two entries. */
  lemma {:induction false} DrivenPair(state: State, render: Renderer, differ: Differ, haved: AclDict, e1: (string, Acl), e2: (string, Acl))
    ensures Driven(state, render, differ, [e1, e2], haved) ==
      Chain(Driven(state, render, differ, [e1], haved), DriveEntry(state, render, differ, Seen([e1], haved), haved, e2.0, e2.1))
  {
    var two := [e1, e2];
    assert two[..1] == [e1];
  }

  /** Rename values are not deduplicated: two want ACLs renamed to the same
      value, neither present on the device, each emit a rename command. */
  lemma {:induction false} RenameEmittedTwice(state: State, render: Renderer, differ: Differ,
                                              ka: string, a: Acl, kb: string, b: Acl)
    requires ka != kb && a.rename != "" && a.rename == b.rename
    requires !HasAces(a) && !HasAces(b)
    requires ValidDiff([], [], differ([], []))
    ensures var wantd: AclDict := [(ka, a), (kb, b)];
      Driven(state, render, differ, wantd, []) == Ok([RenameCommand(a), RenameCommand(b)])
  {
    var nothing: AclDict := [];
    assert LookupOrEmpty(nothing, ka) == EmptyAcl && LookupOrEmpty(nothing, kb) == EmptyAcl;
    DrivenSingle(state, render, differ, nothing, ka, a);
    DriveEntryBare(state, render, differ, [], nothing, kb, b);
    DrivenPair(state, render, differ, nothing, (ka, a), (kb, b));
    var first := Driven(state, render, differ, [(ka, a)], nothing);
    var second := DriveEntry(state, render, differ, Seen([(ka, a)], nothing), nothing, kb, b);
    assert first == Ok([RenameCommand(a)]);
    assert second == Ok([RenameCommand(b)]);
    var both := [RenameCommand(a), RenameCommand(b)];
    assert [RenameCommand(a)] + [RenameCommand(b)] == both;
    assert Chain(first, second) == Ok(both);
  }

  lemma {:induction false} SeenStep(wantd: AclDict, haved: AclDict, i: nat)
    requires i < |wantd|
    ensures Seen(wantd[..i + 1], haved) ==
      if RenameHere(wantd[i].1, Seen(wantd[..i], haved)) then Seen(wantd[..i], haved)
      else if Has(haved, wantd[i].0) then Seen(wantd[..i], haved) + [wantd[i].0]
      else Seen(wantd[..i], haved)
  {
    var prefix := wantd[..i + 1];
    assert prefix[..i] == wantd[..i] && prefix[i] == wantd[i];
  }

  /** The names collected by the driver loop only grow. */
  lemma {:induction false} SeenGrows(wantd: AclDict, haved: AclDict, j: nat, i: nat)
    requires j <= i <= |wantd|
    ensures forall x :: x in Seen(wantd[..j], haved) ==> x in Seen(wantd[..i], haved)
    decreases i - j
  {
    if j < i {
      SeenGrows(wantd, haved, j + 1, i);
      SeenStep(wantd, haved, j);
    }
  }

  /** A rename is suppressed when its value is the name of an earlier want
      ACL that is on the device and emitted no rename itself, even though
      that is a different ACL. */
  lemma {:induction false} RenameSuppressedByName(wantd: AclDict, haved: AclDict, j: nat, i: nat)
    requires j < i < |wantd|
    requires wantd[j].0 == wantd[i].1.rename && Has(haved, wantd[j].0)
    requires !RenameHere(wantd[j].1, Seen(wantd[..j], haved))
    ensures !RenameHere(wantd[i].1, Seen(wantd[..i], haved))
  {
    SeenStep(wantd, haved, j);
    assert wantd[j].0 in Seen(wantd[..j + 1], haved);
    SeenGrows(wantd, haved, j + 1, i);
  }

  /** One protocol-normaliser counterexample to "identical want and have
      give no change": a want ACE without options trims the options of an
      earlier have ACE with the same endpoints and protocol. */
  lemma {:induction false} NormaliserChangesIdenticalLists()
    ensures var ace1 := map["source" := Str("S"), "destination" := Str("D"), "protocol" := Str("tcp"), "protocol_options" := Str("eq 80")];
      var ace2 := map["source" := Str("S"), "destination" := Str("D"), "protocol" := Str("tcp")];
      NormaliseAces([ace1, ace2], [ace1, ace2])[0] == ace1 - {"protocol_options"}
  {
    var ace1 := map["source" := Str("S"), "destination" := Str("D"), "protocol" := Str("tcp"), "protocol_options" := Str("eq 80")];
    var ace2 := map["source" := Str("S"), "destination" := Str("D"), "protocol" := Str("tcp")];
    var ws := [ace1, ace2];
    assert ws[..1] == [ace1] && ws[..1][..0] == [];
    assert Trim(ace1, ace1).None?;
    assert Trim(ace1, ace2).None?;
    assert NormaliseAces(ws[..1], ws) == ws;
    assert Get(ace2, "protocol_options") == Null;
    assert Trim(ace2, ace1) == Some(ace1 - {"protocol_options"});
    assert FirstTrimmable(ace2, ws) == 0;
  }

  /** A single want ACE without a line, against any list of have ACEs,
      takes the line of the first have ACE that equals it once its line is
      set aside; the other have ACEs are not read. */
  lemma {:induction false} MergedTakesLine(w: Ace, hs: seq<Ace>, m: nat)
    requires "line" !in w && m < |hs| && Eligible(w, hs[m])
    requires forall j :: 0 <= j < m ==> !Eligible(w, hs[j])
    ensures CarryAces([w], Some(hs)) == Ok([hs[m]])
  {
    assert FirstEligible(w, hs) == m;
    var one := [w];
    assert one[..0] == [];
    assert Carry(one, hs).out == [w["line" := hs[m]["line"]]];
    assert w["line" := hs[m]["line"]] == hs[m];
  }

  /** A single want ACE whose options are falsy, against any list of have
      ACEs: the first have ACE it can trim, when that one has its endpoints
      and protocol, loses its options and the others stay as they were; when
      the options were all that told the two apart, it then equals the want ACE. */
  lemma {:induction false} OptionsDropped(w: Ace, hs: seq<Ace>, m: nat)
    requires m < |hs| && forall j :: 0 <= j < m ==> Trim(w, hs[j]).None?
    requires SameEndpoints(w, hs[m]) && Get(w, "protocol") == Get(hs[m], "protocol")
    requires !Truthy(Get(w, "protocol_options")) && Truthy(Get(hs[m], "protocol_options"))
    ensures NormaliseAces([w], hs) == hs[m := hs[m] - {"protocol_options"}]
    ensures hs[m] - {"protocol_options"} == w ==> NormaliseAces([w], hs)[m] == w
  {
    assert Trim(w, hs[m]) == Some(hs[m] - {"protocol_options"});
    assert FirstTrimmable(w, hs) == m;
    var one := [w];
    assert one[..0] == [];
    assert NormaliseAces(one, hs) == TrimFirst(w, hs);
  }

  /** With no renames and every want ACL rendering like its have
      counterpart, the driver loop emits nothing. */
  lemma {:induction false} DrivenQuiet(state: State, render: Renderer, differ: Differ, wantd: AclDict, haved: AclDict)
    requires forall p :: 0 <= p < |wantd| ==> wantd[p].1.rename == ""
    requires forall p :: 0 <= p < |wantd| ==> CompareCommands(state, render, differ, wantd[p].1, LookupOrEmpty(haved, wantd[p].0)) == Ok([])
    ensures Driven(state, render, differ, wantd, haved) == Ok([])
    decreases |wantd|
  {
    if wantd != [] {
      var n := |wantd| - 1;
      var prefix: AclDict := wantd[..n];
      assert forall p :: 0 <= p < n ==> prefix[p] == wantd[p];
      DrivenQuiet(state, render, differ, prefix, haved);
      var (k, w) := wantd[n];
      assert !RenameHere(w, Seen(prefix, haved));
      assert DriveEntry(state, render, differ, Seen(prefix, haved), haved, k, w) == Ok([]);
    }
  }

  /** Every have ACL also wanted: the overridden/deleted loop emits nothing. */
  lemma {:induction false} SuperfluousNone(state: State, render: Renderer, differ: Differ, wantd: AclDict, haved: seq<(string, Acl)>)
    requires forall p :: 0 <= p < |haved| ==> Has(wantd, haved[p].0)
    ensures Superfluous(state, render, differ, wantd, haved) == Ok([])
    decreases |haved|
  {
    if haved != [] {
      var n := |haved| - 1;
      var prefix := haved[..n];
      assert forall p :: 0 <= p < n ==> prefix[p] == haved[p];
      SuperfluousNone(state, render, differ, wantd, prefix);
    }
  }

  /** With the same ACLs wanted as present, no renames, a protocol
      normaliser that trims nothing and a Differ that reports equal lists as
      unchanged, replacing or overriding emits no command. */
  lemma {:induction false} ReplaceWithSameQuiet(state: State, render: Renderer, differ: Differ, dictMerge: Merger, want: seq<Acl>, have: seq<Acl>)
    requires state == Replaced || state == Overridden
    requires Index(have) == Index(want) && Normalised(Index(want), Index(want)) == Index(want)
    requires forall p :: 0 <= p < |Index(want)| ==> Index(want)[p].1.rename == ""
    requires forall p :: 0 <= p < |Index(want)| ==>
      var r := Comparator.Rendered(state, render, Index(want)[p].1);
      ValidDiff(r, r, differ(r, r))
    ensures Planned(state, render, differ, dictMerge, want, have) == Ok([])
  {
    var wantd := Index(want);
    assert Adjusted(state, dictMerge, wantd, wantd) == Ok((wantd, wantd));
    forall p | 0 <= p < |wantd|
      ensures CompareCommands(state, render, differ, wantd[p].1, LookupOrEmpty(wantd, wantd[p].0)) == Ok([])
    {
      assert LookupOrEmpty(wantd, wantd[p].0) == wantd[p].1;
      CompareUnchanged(state, render, differ, wantd[p].1, wantd[p].1);
    }
    DrivenQuiet(state, render, differ, wantd, wantd);
    if state == Overridden {
      assert forall p :: 0 <= p < |wantd| ==> Find(wantd, wantd[p].0) == p;
      SuperfluousNone(state, render, differ, wantd, wantd);
    }
  }

  /** Every ACL of `haved`, in order, removed line by line. */
  function RemoveEvery(state: State, render: Renderer, haved: seq<(string, Acl)>): Result<seq<string>>
    decreases |haved|
  {
    if haved == [] then Ok([])
    else
      var n := |haved| - 1;
      Chain(RemoveEvery(state, render, haved[..n]), RemoveAll(Comparator.Rendered(state, render, haved[n].1)))
  }

  /** Against an empty want dictionary the overridden/deleted loop removes
      every have ACL, numbering each one's lines from 1. */
  lemma {:induction false} SuperfluousAgainstNothing(state: State, render: Renderer, differ: Differ, haved: seq<(string, Acl)>)
    requires forall p :: 0 <= p < |haved| ==>
      var r := Comparator.Rendered(state, render, haved[p].1);
      ValidDiff(r, [], differ(r, []))
    ensures Superfluous(state, render, differ, [], haved) == RemoveEvery(state, render, haved)
    decreases |haved|
  {
    if haved != [] {
      var n := |haved| - 1;
      var prefix := haved[..n];
      assert forall p :: 0 <= p < n ==> prefix[p] == haved[p];
      SuperfluousAgainstNothing(state, render, differ, prefix);
      CompareToNothing(state, render, differ, EmptyAcl, haved[n].1);
      var nothing: AclDict := [];
      assert !Has(nothing, haved[n].0);
      assert Superfluous(state, render, differ, nothing, haved) ==
        Chain(Superfluous(state, render, differ, nothing, prefix), CompareCommands(state, render, differ, EmptyAcl, haved[n].1));
      assert RemoveEvery(state, render, haved) ==
        Chain(RemoveEvery(state, render, prefix), RemoveAll(Comparator.Rendered(state, render, haved[n].1)));
    }
  }

  /** `deleted` without any want ACL removes every ACL on the device, in
      the order of the have dictionary, before the sequencer runs. */
  lemma {:induction false} DeleteEverything(render: Renderer, differ: Differ, dictMerge: Merger, have: seq<Acl>)
    requires forall p :: 0 <= p < |Index(have)| ==>
      var r := Comparator.Rendered(Deleted, render, Index(have)[p].1);
      ValidDiff(r, [], differ(r, []))
    ensures Planned(Deleted, render, differ, dictMerge, [], have) == RemoveEvery(Deleted, render, Index(have))
  {
    var haved := Index(have);
    var nothing: AclDict := [];
    assert Index([]) == nothing;
    assert Normalised(nothing, haved) == haved;
    KeptAll(haved);
    assert Adjusted(Deleted, dictMerge, nothing, haved) == Ok((nothing, haved));
    SuperfluousAgainstNothing(Deleted, render, differ, haved);
  }

  /** Concatenation is associative. The loops below call this at the end of
      each turn so that the solver does not have to find the regrouping. */
  lemma {:induction false} AppendAssoc(a: seq<string>, b: seq<string>, c: seq<string>)
    ensures (a + b) + c == a + (b + c)
  {
  }

  /** The `gen_config` object: its state and its inputs, the collaborators
      it calls, and the command list it builds. */
  class Acls {
    const state: State
    /** `self.want["acls"]`, empty when `self.want` is. */
    const want: seq<Acl>
    /** `self.have["acls"]`, empty when `self.have` is. */
    const have: seq<Acl>
    const render: Renderer
    const differ: Differ
    const dictMerge: Merger
    var commands: seq<string>

    constructor (state: State, want: seq<Acl>, have: seq<Acl>, render: Renderer, differ: Differ, dictMerge: Merger)
      ensures this.state == state && this.want == want && this.have == have
      ensures this.render == render && this.differ == differ && this.dictMerge == dictMerge
      ensures commands == []
    {
      this.state := state;
      this.want := want;
      this.have := have;
      this.render := render;
      this.differ := differ;
      this.dictMerge := dictMerge;
      commands := [];
    }

    /** `_compare(want=w, have=h)`: append the removal pass's commands,
        then the addition pass's. */
    method Compare(w: Acl, h: Acl) returns (ok: bool)
      modifies this
      ensures var r := CompareCommands(state, render, differ, w, h);
        ok == r.Ok? && (ok ==> commands == old(commands) + r.value)
    {
      var wantCmds := RenderAces(state, render, w);
      var haveCmds := RenderAces(state, render, h);
      var diff := differ(haveCmds, wantCmds);
      var removed := RemovalPass(diff);
      if removed.Err? {
        return false;
      }
      commands := commands + removed.value;
      var added := AdditionPass(diff);
      if added.Err? {
        return false;
      }
      commands := commands + added.value;
      ok := true;
    }

    /** The overridden/deleted loop over `haved`. */
    method RemoveSuperfluous(wantd: AclDict, haved: AclDict) returns (ok: bool)
      modifies this
      ensures var r := Superfluous(state, render, differ, wantd, haved);
        ok == r.Ok? && (ok ==> commands == old(commands) + r.value)
    {
      for i := 0 to |haved|
        invariant Superfluous(state, render, differ, wantd, haved[..i]).Ok?
        invariant commands == old(commands) + Superfluous(state, render, differ, wantd, haved[..i]).value
      {
        SuperfluousStep(state, render, differ, wantd, haved, i);
        var (k, h) := haved[i];
        ghost var before := commands;
        ghost var prev := Superfluous(state, render, differ, wantd, haved[..i]);
        ghost var entry: Result<seq<string>> := if Has(wantd, k) then Ok([]) else CompareCommands(state, render, differ, EmptyAcl, h);
        assert Superfluous(state, render, differ, wantd, haved[..i + 1]) == Chain(prev, entry);
        if !Has(wantd, k) {
          ok := Compare(EmptyAcl, h);
          if !ok {
            SuperfluousPrefixErr(state, render, differ, wantd, haved, i + 1);
            return;
          }
        }
        assert commands == before + entry.value;
        AppendAssoc(old(commands), prev.value, entry.value);
      }
      assert haved[..|haved|] == haved;
      ok := true;
    }

    /** One turn of the driver loop for the entry `(k, w)`, with the
        names `temp` collected so far and the have ACLs `rest` not yet popped. */
    method DriveOne(temp: seq<string>, rest: AclDict, k: string, w: Acl) returns (ok: bool, temp': seq<string>, rest': AclDict)
      modifies this
      ensures var r := DriveEntry(state, render, differ, temp, rest, k, w);
        ok == r.Ok? && (ok ==> commands == old(commands) + r.value)
      ensures temp' == if RenameHere(w, temp) then temp else if Has(rest, k) then temp + [k] else temp
      ensures rest' == Pop(rest, k)
    {
      ghost var before := commands;
      ghost var renames: seq<string> := if RenameHere(w, temp) then [RenameCommand(w)] else [];
      temp' := temp;
      if w.rename != "" && w.rename !in temp {
        commands := commands + [RenameCommand(w)];
      } else if Has(rest, k) {
        temp' := temp + [k];
      }
      assert commands == before + renames;
      var h := LookupOrEmpty(rest, k);
      rest' := Pop(rest, k);
      ok := Compare(w, h);
      ghost var compared := CompareCommands(state, render, differ, w, h);
      assert DriveEntry(state, render, differ, temp, rest, k, w) == Chain(Ok(renames), compared);
      if ok {
        AppendAssoc(before, renames, compared.value);
      }
    }

    /** The driver loop over `wantd`; `rest` is `haved` once every want key
        has been popped from it. */
    method CompareAll(wantd: AclDict, haved: AclDict) returns (ok: bool, rest: AclDict)
      modifies this
      ensures var r := Driven(state, render, differ, wantd, haved);
        ok == r.Ok? && (ok ==> commands == old(commands) + r.value)
      ensures ok ==> forall k :: Lookup(rest, k) == if Has(wantd, k) then None else Lookup(haved, k)
    {
      var temp: seq<string> := [];
      rest := haved;
      for i := 0 to |wantd|
        invariant temp == Seen(wantd[..i], haved)
        invariant PoppedUpTo(wantd, haved, rest, i)
        invariant Driven(state, render, differ, wantd[..i], haved).Ok?
        invariant commands == old(commands) + Driven(state, render, differ, wantd[..i], haved).value
      {
        DrivenStep(state, render, differ, wantd, haved, i);
        SeenStep(wantd, haved, i);
        PopNext(wantd, haved, rest, i);
        var (k, w) := wantd[i];
        ghost var before := commands;
        ghost var prev := Driven(state, render, differ, wantd[..i], haved);
        ghost var entry := DriveEntry(state, render, differ, temp, haved, k, w);
        DriveEntrySameHave(state, render, differ, temp, rest, haved, k, w);
        assert Driven(state, render, differ, wantd[..i + 1], haved) == Chain(prev, entry);
        ok, temp, rest := DriveOne(temp, rest, k, w);
        if !ok {
          DrivenPrefixErr(state, render, differ, wantd, haved, i + 1);
          return;
        }
        assert commands == before + entry.value;
        AppendAssoc(old(commands), prev.value, entry.value);
      }
      assert wantd[..|wantd|] == wantd;
      ok := true;
      PoppedAll(wantd, haved, rest);
    }

    /** The indexing, the protocol normaliser and the state's adjustment. */
    method AdjustDicts() returns (r: Result<(AclDict, AclDict)>)
      ensures r == Adjusted(state, dictMerge, Index(want), Index(have))
    {
      var wantd := IndexAcls(want);
      var haved := IndexAcls(have);
      haved := NormaliseProtocols(wantd, haved);
      if state == Merged {
        var carried := CarryOverLines(wantd, haved);
        if carried.Err? {
          return Err(carried.error);
        }
        wantd := dictMerge(haved, carried.value);
      }
      if state == Deleted {
        haved, wantd := NarrowForDelete(haved, wantd);
      }
      r := Ok((wantd, haved));
    }

    /** `gen_config`: on success the commands are the planned ones, after
        any already present, put in order by the sequencer. */
    method GenConfig() returns (ok: bool)
      modifies this
      ensures var p := Planned(state, render, differ, dictMerge, want, have);
        ok == p.Ok? && (ok ==> commands == Sequence(state, old(commands) + p.value))
      ensures ok && !Reorders(state) ==> commands == old(commands) + Planned(state, render, differ, dictMerge, want, have).value
    {
      var adjusted := AdjustDicts();
      if adjusted.Err? {
        return false;
      }
      var (wantd, haved) := adjusted.value;
      ghost var removal := if state == Overridden || state == Deleted then Superfluous(state, render, differ, wantd, haved) else Ok([]);
      ghost var driven := Driven(state, render, differ, wantd, haved);
      assert Planned(state, render, differ, dictMerge, want, have) == Chain(removal, driven);
      if state == Overridden || state == Deleted {
        ok := RemoveSuperfluous(wantd, haved);
        if !ok {
          return;
        }
      }
      ghost var middle := commands;
      assert removal.Ok? && middle == old(commands) + removal.value;
      var rest;
      ok, rest := CompareAll(wantd, haved);
      if !ok {
        return;
      }
      AppendAssoc(old(commands), removal.value, driven.value);
      if Reorders(state) {
        commands := Sequence(state, commands);
      }
    }
  }
}
