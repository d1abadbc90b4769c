/** `_compare` for one ACL: render the want and have ACEs to text, diff
    the have text against the want text, and run the removal and addition
    passes over the diff. The renderer and the Differ are parameters. */
module Comparator {
  import opened Values
  import opened Text
  import opened Diff
  import opened Passes

  /** The states in which line numbers are recomputed rather than kept. */
  predicate StripsLine(state: State) {
    state == Replaced || state == Overridden || state == Deleted
  }

  /** An ACE as it is handed to the renderer: without a truthy `line` in
      the stripping states, and tagged with the ACL's name and type. */
  function Prepare(state: State, acl: Acl, ace: Ace): (r: Ace)
    ensures Get(r, "name") == Str(acl.name) && Get(r, "acl_type") == acl.aclType
    ensures StripsLine(state) && Truthy(Get(ace, "line")) ==> "line" !in r
    ensures !(StripsLine(state) && Truthy(Get(ace, "line"))) ==> Get(r, "line") == Get(ace, "line")
    ensures forall key :: key != "name" && key != "acl_type" && key != "line" ==> Get(r, key) == Get(ace, key)
  {
    var a := if StripsLine(state) && Truthy(Get(ace, "line")) then ace - {"line"} else ace;
    a["name" := Str(acl.name)]["acl_type" := acl.aclType]
  }

  /** The rendered lines of an ACL, one per ACE, in order; none when it
      has no ACEs. */
  function Rendered(state: State, render: Ace -> string, acl: Acl): (r: seq<string>)
    ensures |r| == |AcesOf(acl)|
  {
    if HasAces(acl) then
      seq(|acl.aces.value|, i requires 0 <= i < |acl.aces.value| => render(Prepare(state, acl, acl.aces.value[i])))
    else []
  }

  /** The commands `_compare` appends for `want` against `have`. */
  function CompareCommands(state: State, render: Ace -> string, differ: (seq<string>, seq<string>) -> seq<DiffLine>,
                           want: Acl, have: Acl): Result<seq<string>>
  {
    var d := differ(Rendered(state, render, have), Rendered(state, render, want));
    Chain(Removals(d), Additions(d))
  }

  /** The render loop over one ACL's ACEs. */
  method RenderAces(state: State, render: Ace -> string, acl: Acl) returns (cmds: seq<string>)
    ensures cmds == Rendered(state, render, acl)
  {
    cmds := [];
    if HasAces(acl) {
      var aces := acl.aces.value;
      for i := 0 to |aces|
        invariant |cmds| == i
        invariant forall j :: 0 <= j < i ==> cmds[j] == render(Prepare(state, acl, aces[j]))
      {
        var ace := aces[i];
        if StripsLine(state) && Truthy(Get(ace, "line")) {
          ace := ace - {"line"};
        }
        ace := ace["name" := Str(acl.name)]["acl_type" := acl.aclType];
        cmds := cmds + [render(ace)];
      }
    }
  }

  /** Equal rendered text on both sides gives no command. */
  lemma {:induction false} CompareUnchanged(state: State, render: Ace -> string, differ: (seq<string>, seq<string>) -> seq<DiffLine>,
                                            want: Acl, have: Acl)
    requires Rendered(state, render, have) == Rendered(state, render, want)
    requires ValidDiff(Rendered(state, render, have), Rendered(state, render, want),
                       differ(Rendered(state, render, have), Rendered(state, render, want)))
    ensures CompareCommands(state, render, differ, want, have) == Ok([])
  {
    PassesOnUnchanged(differ(Rendered(state, render, have), Rendered(state, render, want)));
  }

  /** An ACL missing on the device is added line by line, numbered 1 to n. */
  lemma {:induction false} CompareAgainstNothing(state: State, render: Ace -> string, differ: (seq<string>, seq<string>) -> seq<DiffLine>,
                                                 want: Acl, have: Acl)
    requires !HasAces(have)
    requires ValidDiff([], Rendered(state, render, want), differ([], Rendered(state, render, want)))
    ensures CompareCommands(state, render, differ, want, have) == AddAll(Rendered(state, render, want))
  {
    var d := differ([], Rendered(state, render, want));
    assert Rendered(state, render, have) == [];
    RemovalsFromNothing(d);
    AdditionsFromNothing(d);
  }

  /** An ACL compared against `{}` is removed line by line, numbered 1 to n. */
  lemma {:induction false} CompareToNothing(state: State, render: Ace -> string, differ: (seq<string>, seq<string>) -> seq<DiffLine>,
                                            want: Acl, have: Acl)
    requires !HasAces(want)
    requires ValidDiff(Rendered(state, render, have), [], differ(Rendered(state, render, have), []))
    ensures CompareCommands(state, render, differ, want, have) == RemoveAll(Rendered(state, render, have))
  {
    var d := differ(Rendered(state, render, have), []);
    assert Rendered(state, render, want) == [];
    AdditionsToNothing(d);
    RemovalsToNothing(d);
  }

  /** Removals come before additions, and the comparison raises exactly
      when a removed or added line cannot be numbered. */
  lemma {:induction false} CompareOrder(state: State, render: Ace -> string, differ: (seq<string>, seq<string>) -> seq<DiffLine>,
                                        want: Acl, have: Acl)
    ensures var d := differ(Rendered(state, render, have), Rendered(state, render, want));
      var r := CompareCommands(state, render, differ, want, have);
      && (r.Err? <==> exists i :: 0 <= i < |d| && (d[i].Removed? || d[i].Added?) && Unnumberable(d[i].text))
      && (r.Ok? ==> r.value == Removals(d).value + Additions(d).value && |r.value| == CountRemoved(d) + CountAdded(d))
  {
    var d := differ(Rendered(state, render, have), Rendered(state, render, want));
    RemovalsErr(d);
    AdditionsErr(d);
    if Removals(d).Ok? && Additions(d).Ok? {
      RemovalsShape(d);
      AdditionsShape(d);
    }
  }
}
