/** The two numbered passes of `_compare` over the Differ output. The
    removal pass emits a `no ...` command for every removed line and the
    addition pass a command for every added line; each keeps its own
    `line_no`, which counts unchanged lines and the lines of its own kind,
    so it is the position of the line in `have_cmds` (removals) or in
    `want_cmds` (additions). A text without `"line"` gets a synthesised
    `line <n>` clause after its first two tokens. */
module Passes {
  import opened Values
  import opened Text
  import opened Diff

  /** The text cannot be numbered: it has no `"line"` and fewer than two
      tokens, so the format string lacks an argument and raises. */
  predicate Unnumberable(s: string) {
    !Contains(s, "line") && |Split(s)| < 2
  }

  /** `"{} {} line {} {}".format(a, b, n, rest)`. */
  function Format(a: string, b: string, n: nat, rest: string): string {
    Join([a, b, "line", NatToString(n), rest])
  }

  /** `text` with `line <n>` spliced in after its first two tokens. */
  function Numbered(s: string, n: nat): string
    requires |Split(s)| >= 2
  {
    var t := Split(s);
    Format(t[0], t[1], n, Join(t[2..]))
  }

  /** The removal command for removed text `s` at have position `n`. */
  function RemovalCommand(s: string, n: nat): (r: Result<string>)
    ensures r.Err? <==> Unnumberable(s)
  {
    if Contains(s, "line") then Ok("no " + s)
    else if |Split(s)| < 2 then Err("IndexError")
    else Ok("no " + Numbered(s, n))
  }

  /** The addition command for added text `s` at want position `n`. */
  function AdditionCommand(s: string, n: nat): (r: Result<string>)
    ensures r.Err? <==> Unnumberable(s)
  {
    if Contains(s, "line") then Ok(s)
    else if |Split(s)| < 2 then Err("IndexError")
    else Ok(Numbered(s, n))
  }

  function Single(r: Result<string>): Result<seq<string>> {
    if r.Err? then Err(r.error) else Ok([r.value])
  }

  /** The commands of the removal pass over `d`. */
  function Removals(d: seq<DiffLine>): Result<seq<string>>
    decreases |d|
  {
    if d == [] then Ok([])
    else
      var n := |d| - 1;
      Chain(Removals(d[..n]), if d[n].Removed? then Single(RemovalCommand(d[n].text, |OldSide(d[..n])| + 1)) else Ok([]))
  }

  /** The commands of the addition pass over `d`. */
  function Additions(d: seq<DiffLine>): Result<seq<string>>
    decreases |d|
  {
    if d == [] then Ok([])
    else
      var n := |d| - 1;
      Chain(Additions(d[..n]), if d[n].Added? then Single(AdditionCommand(d[n].text, |NewSide(d[..n])| + 1)) else Ok([]))
  }

  function CountRemoved(d: seq<DiffLine>): nat
    decreases |d|
  {
    if d == [] then 0 else CountRemoved(d[..|d| - 1]) + (if d[|d| - 1].Removed? then 1 else 0)
  }

  function CountAdded(d: seq<DiffLine>): nat
    decreases |d|
  {
    if d == [] then 0 else CountAdded(d[..|d| - 1]) + (if d[|d| - 1].Added? then 1 else 0)
  }

  /** The removal pass emits one command per removed line and no other,
      and each of them starts with `no `. */
  lemma {:induction false} RemovalsShape(d: seq<DiffLine>)
    requires Removals(d).Ok?
    ensures |Removals(d).value| == CountRemoved(d)
    ensures forall c :: c in Removals(d).value ==> StartsWith(c, "no ")
    decreases |d|
  {
    if d != [] {
      var n := |d| - 1;
      assert Removals(d[..n]).Ok?;
      RemovalsShape(d[..n]);
    }
  }

  /** The addition pass emits one command per added line and no other. */
  lemma {:induction false} AdditionsShape(d: seq<DiffLine>)
    requires Additions(d).Ok?
    ensures |Additions(d).value| == CountAdded(d)
    decreases |d|
  {
    if d != [] {
      var n := |d| - 1;
      assert Additions(d[..n]).Ok?;
      AdditionsShape(d[..n]);
    }
  }

  /** The removal pass raises exactly when some removed line cannot be numbered. */
  lemma {:induction false} RemovalsErr(d: seq<DiffLine>)
    ensures Removals(d).Err? <==> exists i :: 0 <= i < |d| && d[i].Removed? && Unnumberable(d[i].text)
    decreases |d|
  {
    if d != [] {
      var n := |d| - 1;
      RemovalsErr(d[..n]);
      assert forall i :: 0 <= i < n ==> d[..n][i] == d[i];
    }
  }

  /** The addition pass raises exactly when some added line cannot be numbered. */
  lemma {:induction false} AdditionsErr(d: seq<DiffLine>)
    ensures Additions(d).Err? <==> exists i :: 0 <= i < |d| && d[i].Added? && Unnumberable(d[i].text)
    decreases |d|
  {
    if d != [] {
      var n := |d| - 1;
      AdditionsErr(d[..n]);
      assert forall i :: 0 <= i < n ==> d[..n][i] == d[i];
    }
  }

  /** The removed line at index `i` gives the command at index
      `CountRemoved(d[..i])`, numbered `|OldSide(d[..i])| + 1`. */
  lemma {:induction false} RemovalAt(d: seq<DiffLine>, i: nat)
    requires i < |d| && d[i].Removed? && Removals(d).Ok?
    ensures CountRemoved(d[..i]) < |Removals(d).value|
    ensures RemovalCommand(d[i].text, |OldSide(d[..i])| + 1) == Ok(Removals(d).value[CountRemoved(d[..i])])
    decreases |d|
  {
    var n := |d| - 1;
    assert d[..n + 1] == d;
    assert Removals(d[..n]).Ok?;
    if i < n {
      assert d[..n][..i] == d[..i];
      RemovalAt(d[..n], i);
    } else {
      assert d[..i] == d[..n];
      RemovalsShape(d[..n]);
    }
  }

  /** The added line at index `i` gives the command at index
      `CountAdded(d[..i])`, numbered `|NewSide(d[..i])| + 1`. */
  lemma {:induction false} AdditionAt(d: seq<DiffLine>, i: nat)
    requires i < |d| && d[i].Added? && Additions(d).Ok?
    ensures CountAdded(d[..i]) < |Additions(d).value|
    ensures AdditionCommand(d[i].text, |NewSide(d[..i])| + 1) == Ok(Additions(d).value[CountAdded(d[..i])])
    decreases |d|
  {
    var n := |d| - 1;
    assert d[..n + 1] == d;
    assert Additions(d[..n]).Ok?;
    if i < n {
      assert d[..n][..i] == d[..i];
      AdditionAt(d[..n], i);
    } else {
      assert d[..i] == d[..n];
      AdditionsShape(d[..n]);
    }
  }

  /** The line number a removal carries is the 1-based position of the
      removed text in `have_cmds`. */
  lemma {:induction false} RemovalNumberIsHavePosition(haveCmds: seq<string>, wantCmds: seq<string>, d: seq<DiffLine>, i: nat)
    requires ValidDiff(haveCmds, wantCmds, d)
    requires i < |d| && d[i].Removed? && Removals(d).Ok?
    ensures var n := |OldSide(d[..i])| + 1;
      && 1 <= n <= |haveCmds| && haveCmds[n - 1] == d[i].text
      && CountRemoved(d[..i]) < |Removals(d).value|
      && RemovalCommand(d[i].text, n) == Ok(Removals(d).value[CountRemoved(d[..i])])
  {
    OldSideAt(d, i);
    RemovalAt(d, i);
  }

  /** The line number an addition carries is the 1-based position of the
      added text in `want_cmds`. */
  lemma {:induction false} AdditionNumberIsWantPosition(haveCmds: seq<string>, wantCmds: seq<string>, d: seq<DiffLine>, i: nat)
    requires ValidDiff(haveCmds, wantCmds, d)
    requires i < |d| && d[i].Added? && Additions(d).Ok?
    ensures var n := |NewSide(d[..i])| + 1;
      && 1 <= n <= |wantCmds| && wantCmds[n - 1] == d[i].text
      && CountAdded(d[..i]) < |Additions(d).value|
      && AdditionCommand(d[i].text, n) == Ok(Additions(d).value[CountAdded(d[..i])])
  {
    NewSideAt(d, i);
    AdditionAt(d, i);
  }

  /** A text that already mentions `"line"` is used verbatim; otherwise the
      command is the text's tokens with `line <n>` after the first two, and
      the number token reads back as `n`. */
  lemma {:induction false} CommandTokens(s: string, n: nat)
    requires !Unnumberable(s)
    ensures Contains(s, "line") ==> RemovalCommand(s, n) == Ok("no " + s) && AdditionCommand(s, n) == Ok(s)
    ensures !Contains(s, "line") ==>
      var t := Split(s);
      && Split(AdditionCommand(s, n).value) == [t[0], t[1], "line", NatToString(n)] + (if |t| == 2 then [""] else t[2..])
      && Split(RemovalCommand(s, n).value) == ["no"] + Split(AdditionCommand(s, n).value)
      && ParseNat(Split(AdditionCommand(s, n).value)[3]) == n
  {
    if !Contains(s, "line") {
      NumberedTokens(s, n);
      assert "no " + Numbered(s, n) == "no" + " " + Numbered(s, n);
      SplitAfterHead("no", Numbered(s, n));
      ParseNatToString(n);
    }
  }

  lemma {:induction false} NumberedTokens(s: string, n: nat)
    requires |Split(s)| >= 2
    ensures var t := Split(s);
      Split(Numbered(s, n)) == [t[0], t[1], "line", NatToString(n)] + (if |t| == 2 then [""] else t[2..])
  {
    var t := Split(s);
    var rest := Join(t[2..]);
    assert Split(rest) == (if |t| == 2 then [""] else t[2..]) by {
      if |t| > 2 {
        SplitJoin(t[2..]);
      }
    }
    var heads := [t[0], t[1], "line", NatToString(n)];
    assert [t[0], t[1], "line", NatToString(n), rest] == heads + [rest];
    SplitJoinLast(heads, rest);
  }

  /** The addition commands numbered by position in `ws`, 1 to `|ws|`. */
  function AddAll(ws: seq<string>): Result<seq<string>>
    decreases |ws|
  {
    if ws == [] then Ok([]) else Chain(AddAll(ws[..|ws| - 1]), Single(AdditionCommand(ws[|ws| - 1], |ws|)))
  }

  /** The removal commands numbered by position in `hs`, 1 to `|hs|`. */
  function RemoveAll(hs: seq<string>): Result<seq<string>>
    decreases |hs|
  {
    if hs == [] then Ok([]) else Chain(RemoveAll(hs[..|hs| - 1]), Single(RemovalCommand(hs[|hs| - 1], |hs|)))
  }

  /** Against an empty have side there is nothing to remove. */
  lemma {:induction false} RemovalsFromNothing(d: seq<DiffLine>)
    requires OldSide(d) == []
    ensures Removals(d) == Ok([])
    decreases |d|
  {
    if d != [] {
      var n := |d| - 1;
      assert OldSide(d[..n]) == [];
      RemovalsFromNothing(d[..n]);
    }
  }

  /** Against an empty have side the additions are the want lines
      numbered 1 to n. */
  lemma {:induction false} AdditionsFromNothing(d: seq<DiffLine>)
    requires OldSide(d) == []
    ensures Additions(d) == AddAll(NewSide(d))
    decreases |d|
  {
    if d != [] {
      var n := |d| - 1;
      var prev := d[..n];
      assert OldSide(prev) == [];
      AdditionsFromNothing(prev);
      var ws := NewSide(d);
      if d[n].Added? {
        assert ws == NewSide(prev) + [d[n].text];
        assert ws[..|ws| - 1] == NewSide(prev);
        assert AddAll(ws) == Chain(AddAll(NewSide(prev)), Single(AdditionCommand(d[n].text, |NewSide(prev)| + 1)));
      } else {
        assert ws == NewSide(prev);
      }
    }
  }

  /** Against an empty want side there is nothing to add. */
  lemma {:induction false} AdditionsToNothing(d: seq<DiffLine>)
    requires NewSide(d) == []
    ensures Additions(d) == Ok([])
    decreases |d|
  {
    if d != [] {
      var n := |d| - 1;
      assert NewSide(d[..n]) == [];
      AdditionsToNothing(d[..n]);
    }
  }

  /** Against an empty want side the removals are the have lines numbered
      1 to n. */
  lemma {:induction false} RemovalsToNothing(d: seq<DiffLine>)
    requires NewSide(d) == []
    ensures Removals(d) == RemoveAll(OldSide(d))
    decreases |d|
  {
    if d != [] {
      var n := |d| - 1;
      var prev := d[..n];
      assert NewSide(prev) == [];
      RemovalsToNothing(prev);
      var hs := OldSide(d);
      if d[n].Removed? {
        assert hs == OldSide(prev) + [d[n].text];
        assert hs[..|hs| - 1] == OldSide(prev);
        assert RemoveAll(hs) == Chain(RemoveAll(OldSide(prev)), Single(RemovalCommand(d[n].text, |OldSide(prev)| + 1)));
      } else {
        assert hs == OldSide(prev);
      }
    }
  }

  /** `AddAll` numbers the k-th line k + 1. */
  lemma {:induction false} AddAllNumbers(ws: seq<string>)
    requires AddAll(ws).Ok?
    ensures |AddAll(ws).value| == |ws|
    ensures forall k :: 0 <= k < |ws| ==> AdditionCommand(ws[k], k + 1) == Ok(AddAll(ws).value[k])
    decreases |ws|
  {
    if ws != [] {
      var n := |ws| - 1;
      assert AddAll(ws[..n]).Ok?;
      AddAllNumbers(ws[..n]);
      assert forall k :: 0 <= k < n ==> ws[..n][k] == ws[k];
    }
  }

  /** `RemoveAll` numbers the k-th line k + 1. */
  lemma {:induction false} RemoveAllNumbers(hs: seq<string>)
    requires RemoveAll(hs).Ok?
    ensures |RemoveAll(hs).value| == |hs|
    ensures forall k :: 0 <= k < |hs| ==> RemovalCommand(hs[k], k + 1) == Ok(RemoveAll(hs).value[k])
    decreases |hs|
  {
    if hs != [] {
      var n := |hs| - 1;
      assert RemoveAll(hs[..n]).Ok?;
      RemoveAllNumbers(hs[..n]);
      assert forall k :: 0 <= k < n ==> hs[..n][k] == hs[k];
    }
  }

  /** A diff of unchanged lines only gives no command in either pass. */
  lemma {:induction false} PassesOnUnchanged(d: seq<DiffLine>)
    requires forall i :: 0 <= i < |d| ==> d[i].Same?
    ensures Removals(d) == Ok([]) && Additions(d) == Ok([])
    decreases |d|
  {
    if d != [] {
      var n := |d| - 1;
      assert forall i :: 0 <= i < n ==> d[..n][i] == d[i];
      PassesOnUnchanged(d[..n]);
    }
  }

  lemma {:induction false} RemovalsPrefixErr(d: seq<DiffLine>, i: nat)
    requires i <= |d| && Removals(d[..i]).Err?
    ensures Removals(d) == Removals(d[..i])
    decreases |d| - i
  {
    if i < |d| {
      assert d[..i + 1][..i] == d[..i];
      RemovalsPrefixErr(d, i + 1);
    } else {
      assert d[..i] == d;
    }
  }

  lemma {:induction false} AdditionsPrefixErr(d: seq<DiffLine>, i: nat)
    requires i <= |d| && Additions(d[..i]).Err?
    ensures Additions(d) == Additions(d[..i])
    decreases |d| - i
  {
    if i < |d| {
      assert d[..i + 1][..i] == d[..i];
      AdditionsPrefixErr(d, i + 1);
    } else {
      assert d[..i] == d;
    }
  }

  /** The removal pass's body for one Differ line `cmd` with counter
      `lineNo`: the commands it appends and the counter after it. */
  method RemovalStep(e: DiffLine, lineNo: nat) returns (r: Result<seq<string>>, next: nat)
    ensures r == (if e.Removed? then Single(RemovalCommand(e.text, lineNo)) else Ok([]))
    ensures r.Ok? ==> next == lineNo + (if e.Same? || e.Removed? then 1 else 0)
  {
    var cmd := Line(e);
    var tokens := Split(cmd);
    LineTokens(e);
    r, next := Ok([]), lineNo;
    if tokens[0] == "-" {
      assert tokens[1..] == Split(e.text);
      if Contains(cmd, "line") {
        JoinSplit(e.text);
        r := Ok(["no " + Join(tokens[1..])]);
      } else {
        if |tokens| < 3 {
          return Err("IndexError"), next;
        }
        assert tokens[3..] == Split(e.text)[2..];
        r := Ok(["no " + Format(tokens[1], tokens[2], lineNo, Join(tokens[3..]))]);
      }
      next := lineNo + 1;
    } else if tokens[0] == "" {
      next := lineNo + 1;
    }
  }

  /** The addition pass's body for one Differ line. */
  method AdditionStep(e: DiffLine, lineNo: nat) returns (r: Result<seq<string>>, next: nat)
    ensures r == (if e.Added? then Single(AdditionCommand(e.text, lineNo)) else Ok([]))
    ensures r.Ok? ==> next == lineNo + (if e.Same? || e.Added? then 1 else 0)
  {
    var cmd := Line(e);
    var tokens := Split(cmd);
    LineTokens(e);
    r, next := Ok([]), lineNo;
    if tokens[0] == "+" {
      assert tokens[1..] == Split(e.text);
      if Contains(cmd, "line") {
        JoinSplit(e.text);
        r := Ok([Join(tokens[1..])]);
      } else {
        if |tokens| < 3 {
          return Err("IndexError"), next;
        }
        assert tokens[3..] == Split(e.text)[2..];
        r := Ok([Format(tokens[1], tokens[2], lineNo, Join(tokens[3..]))]);
      }
      next := lineNo + 1;
    } else if tokens[0] == "" {
      next := lineNo + 1;
    }
  }

  /** The removal pass as `_compare` runs it, on the Differ's text lines. */
  method RemovalPass(diff: seq<DiffLine>) returns (r: Result<seq<string>>)
    ensures r == Removals(diff)
  {
    var cmds: seq<string> := [];
    var lineNo: nat := 1;
    for i := 0 to |diff|
      invariant Removals(diff[..i]) == Ok(cmds)
      invariant lineNo == |OldSide(diff[..i])| + 1
    {
      assert diff[..i + 1][..i] == diff[..i];
      var out;
      out, lineNo := RemovalStep(diff[i], lineNo);
      if out.Err? {
        RemovalsPrefixErr(diff, i + 1);
        return out;
      }
      cmds := cmds + out.value;
    }
    assert diff[..|diff|] == diff;
    r := Ok(cmds);
  }

  /** The addition pass as `_compare` runs it, on the Differ's text lines. */
  method AdditionPass(diff: seq<DiffLine>) returns (r: Result<seq<string>>)
    ensures r == Additions(diff)
  {
    var cmds: seq<string> := [];
    var lineNo: nat := 1;
    for i := 0 to |diff|
      invariant Additions(diff[..i]) == Ok(cmds)
      invariant lineNo == |NewSide(diff[..i])| + 1
    {
      assert diff[..i + 1][..i] == diff[..i];
      var out;
      out, lineNo := AdditionStep(diff[i], lineNo);
      if out.Err? {
        AdditionsPrefixErr(diff, i + 1);
        return out;
      }
      cmds := cmds + out.value;
    }
    assert diff[..|diff|] == diff;
    r := Ok(cmds);
  }
}
