/** The command sequencer at the end of `gen_config`: for the replaced,
    overridden and deleted states every `no ` command moves to the front,
    in reverse order, and the other commands follow in their order. */
module Sequencer {
  import opened Values
  import opened Text

  predicate IsNegation(c: string) {
    StartsWith(c, "no ")
  }

  /** `[cmd for cmd in cmds if cmd.startswith("no ")]`. */
  function Negations(cmds: seq<string>): (r: seq<string>)
    ensures forall i :: 0 <= i < |r| ==> IsNegation(r[i])
    decreases |cmds|
  {
    if cmds == [] then []
    else Negations(cmds[..|cmds| - 1]) + (if IsNegation(cmds[|cmds| - 1]) then [cmds[|cmds| - 1]] else [])
  }

  /** `[cmd for cmd in cmds if not cmd.startswith("no ")]`. */
  function Others(cmds: seq<string>): (r: seq<string>)
    ensures forall i :: 0 <= i < |r| ==> !IsNegation(r[i])
    decreases |cmds|
  {
    if cmds == [] then []
    else Others(cmds[..|cmds| - 1]) + (if IsNegation(cmds[|cmds| - 1]) then [] else [cmds[|cmds| - 1]])
  }

  /** `s[::-1]`. */
  function Reverse(s: seq<string>): (r: seq<string>)
    ensures |r| == |s|
    decreases |s|
  {
    if s == [] then [] else [s[|s| - 1]] + Reverse(s[..|s| - 1])
  }

  /** The states whose commands are reordered. */
  predicate Reorders(state: State) {
    state == Replaced || state == Overridden || state == Deleted
  }

  /** The command list after the sequencer. */
  function Sequence(state: State, cmds: seq<string>): seq<string> {
    if Reorders(state) then Reverse(Negations(cmds)) + Others(cmds) else cmds
  }

  lemma {:induction false} ReverseElements(s: seq<string>)
    ensures forall i :: 0 <= i < |s| ==> Reverse(s)[i] == s[|s| - 1 - i]
    decreases |s|
  {
    if s != [] {
      ReverseElements(s[..|s| - 1]);
    }
  }

  lemma {:induction false} ReverseMultiset(s: seq<string>)
    ensures multiset(Reverse(s)) == multiset(s)
    decreases |s|
  {
    if s != [] {
      var n := |s| - 1;
      ReverseMultiset(s[..n]);
      assert s == s[..n] + [s[n]];
    }
  }

  lemma {:induction false} PartitionMultiset(cmds: seq<string>)
    ensures multiset(Negations(cmds)) + multiset(Others(cmds)) == multiset(cmds)
    decreases |cmds|
  {
    if cmds != [] {
      var n := |cmds| - 1;
      PartitionMultiset(cmds[..n]);
      assert cmds == cmds[..n] + [cmds[n]];
    }
  }

  /** The sequencer only reorders: the same commands, as often as before. */
  lemma {:induction false} SequencePermutes(state: State, cmds: seq<string>)
    ensures multiset(Sequence(state, cmds)) == multiset(cmds)
    ensures |Sequence(state, cmds)| == |cmds|
  {
    if Reorders(state) {
      ReverseMultiset(Negations(cmds));
      PartitionMultiset(cmds);
    }
    assert |multiset(Sequence(state, cmds))| == |multiset(cmds)|;
  }

  /** In the reordering states every `no ` command comes before every other command. */
  lemma {:induction false} SequenceNegationsFirst(state: State, cmds: seq<string>)
    requires Reorders(state)
    ensures var r := Sequence(state, cmds);
      forall i, j :: 0 <= i < j < |r| && IsNegation(r[j]) ==> IsNegation(r[i])
  {
    var r := Sequence(state, cmds);
    var m := |Negations(cmds)|;
    ReverseElements(Negations(cmds));
    assert forall i :: 0 <= i < |r| ==> (IsNegation(r[i]) <==> i < m);
  }

  /** A list of `no ` commands only comes out reversed. */
  lemma {:induction false} SequenceOfNegations(state: State, cmds: seq<string>)
    requires Reorders(state)
    requires forall i :: 0 <= i < |cmds| ==> IsNegation(cmds[i])
    ensures Sequence(state, cmds) == Reverse(cmds)
  {
    NegationsOnly(cmds);
  }

  /** A list without `no ` commands comes out unchanged. */
  lemma {:induction false} SequenceWithoutNegations(state: State, cmds: seq<string>)
    requires forall i :: 0 <= i < |cmds| ==> !IsNegation(cmds[i])
    ensures Sequence(state, cmds) == cmds
  {
    NegationsNone(cmds);
  }

  lemma {:induction false} NegationsOnly(cmds: seq<string>)
    requires forall i :: 0 <= i < |cmds| ==> IsNegation(cmds[i])
    ensures Negations(cmds) == cmds && Others(cmds) == []
    decreases |cmds|
  {
    if cmds != [] {
      var n := |cmds| - 1;
      var prefix := cmds[..n];
      assert forall i :: 0 <= i < |prefix| ==> IsNegation(prefix[i]) by {
        assert forall i :: 0 <= i < |prefix| ==> prefix[i] == cmds[i];
      }
      NegationsOnly(prefix);
      assert IsNegation(cmds[n]);
      assert Negations(cmds) == Negations(prefix) + [cmds[n]];
      assert Others(cmds) == Others(prefix);
      assert prefix + [cmds[n]] == cmds;
    }
  }

  lemma {:induction false} NegationsNone(cmds: seq<string>)
    requires forall i :: 0 <= i < |cmds| ==> !IsNegation(cmds[i])
    ensures Negations(cmds) == [] && Others(cmds) == cmds
    decreases |cmds|
  {
    if cmds != [] {
      var n := |cmds| - 1;
      var prefix := cmds[..n];
      assert forall i :: 0 <= i < |prefix| ==> !IsNegation(prefix[i]) by {
        assert forall i :: 0 <= i < |prefix| ==> prefix[i] == cmds[i];
      }
      NegationsNone(prefix);
      assert !IsNegation(cmds[n]);
      assert Negations(cmds) == Negations(prefix);
      assert Others(cmds) == Others(prefix) + [cmds[n]];
      assert prefix + [cmds[n]] == cmds;
    }
  }
}
