/** The output of `difflib.Differ().compare(have_cmds, want_cmds)` as the
    comparator sees it: a sequence of tagged lines. The Differ itself is a
    collaborator; a diff is only required to project back onto its two
    inputs and to be all unchanged lines when the inputs are equal. */
module Diff {
  import opened Text

  /** One Differ line: `"  " + s` for a line in both lists, `"- " + s` for
      one only in the first, `"+ " + s` for one only in the second, and a
      `"? "` hint line. */
  datatype DiffLine = Same(text: string) | Removed(text: string) | Added(text: string) | Hint(text: string)

  /** The text the Differ yields for a diff line. */
  function Line(e: DiffLine): string {
    match e
    case Same(s) => "  " + s
    case Removed(s) => "- " + s
    case Added(s) => "+ " + s
    case Hint(s) => "? " + s
  }

  /** The lines of the first input, `have_cmds`, read back from the diff. */
  function OldSide(d: seq<DiffLine>): seq<string>
    decreases |d|
  {
    if d == [] then []
    else
      var n := |d| - 1;
      OldSide(d[..n]) + (if d[n].Same? || d[n].Removed? then [d[n].text] else [])
  }

  /** The lines of the second input, `want_cmds`, read back from the diff. */
  function NewSide(d: seq<DiffLine>): seq<string>
    decreases |d|
  {
    if d == [] then []
    else
      var n := |d| - 1;
      NewSide(d[..n]) + (if d[n].Same? || d[n].Added? then [d[n].text] else [])
  }

  /** What the comparator relies on in a diff of `first` against `second`. */
  ghost predicate ValidDiff(first: seq<string>, second: seq<string>, d: seq<DiffLine>) {
    && OldSide(d) == first
    && NewSide(d) == second
    && (first == second ==> forall i :: 0 <= i < |d| ==> d[i].Same?)
  }

  /** The first token of a Differ line tells its tag apart, and the tokens
      after it are those of the text; the tag never adds a `"line"`. */
  lemma {:induction false} LineTokens(e: DiffLine)
    ensures var t := Split(Line(e));
      && (t[0] == "-" <==> e.Removed?)
      && (t[0] == "+" <==> e.Added?)
      && (t[0] == "" <==> e.Same?)
      && ((e.Removed? || e.Added?) ==> t[1..] == Split(e.text))
      && (Contains(Line(e), "line") <==> Contains(e.text, "line"))
  {
    var s := e.text;
    match e
    case Same(_) =>
      assert Line(e) == "  " + s;
      assert ("  " + s)[1..] == " " + s;
      assert (" " + s)[1..] == s;
      assert Split(Line(e)) == [[]] + ([[]] + Split(s));
      ContainsAfterPrefix("  ", s, "line");
    case Removed(_) =>
      assert Line(e) == "-" + " " + s;
      SplitAfterHead("-", s);
      ContainsAfterPrefix("- ", s, "line");
    case Added(_) =>
      assert Line(e) == "+" + " " + s;
      SplitAfterHead("+", s);
      ContainsAfterPrefix("+ ", s, "line");
    case Hint(_) =>
      assert Line(e) == "?" + " " + s;
      SplitAfterHead("?", s);
      ContainsAfterPrefix("? ", s, "line");
  }

  /** An unchanged or removed line at index `i` stands at 1-based position
      `|OldSide(d[..i])| + 1` of the first input. */
  lemma {:induction false} OldSideAt(d: seq<DiffLine>, i: nat)
    requires i < |d| && (d[i].Same? || d[i].Removed?)
    ensures |OldSide(d[..i])| < |OldSide(d)| && OldSide(d)[|OldSide(d[..i])|] == d[i].text
    decreases |d|
  {
    var n := |d| - 1;
    assert d[..n + 1] == d;
    if i < n {
      assert d[..n][..i] == d[..i];
      OldSideAt(d[..n], i);
    } else {
      assert d[..i] == d[..n];
    }
  }

  /** An unchanged or added line at index `i` stands at 1-based position
      `|NewSide(d[..i])| + 1` of the second input. */
  lemma {:induction false} NewSideAt(d: seq<DiffLine>, i: nat)
    requires i < |d| && (d[i].Same? || d[i].Added?)
    ensures |NewSide(d[..i])| < |NewSide(d)| && NewSide(d)[|NewSide(d[..i])|] == d[i].text
    decreases |d|
  {
    var n := |d| - 1;
    assert d[..n + 1] == d;
    if i < n {
      assert d[..n][..i] == d[..i];
      NewSideAt(d[..n], i);
    } else {
      assert d[..i] == d[..n];
    }
  }

  /** A diff that always exists: all unchanged lines for equal inputs,
      otherwise every line of the first removed and then every line of the second added. */
  function PlainDiff(first: seq<string>, second: seq<string>): seq<DiffLine> {
    if first == second then Tagged(first, 0) else Tagged(first, 1) + Tagged(second, 2)
  }

  /** The requirements on a diff can be met for any two inputs. */
  lemma {:induction false} PlainDiffValid(first: seq<string>, second: seq<string>)
    ensures ValidDiff(first, second, PlainDiff(first, second))
  {
    if first == second {
      TaggedSides(first, 0);
    } else {
      TaggedSides(first, 1);
      TaggedSides(second, 2);
      SidesAppend(Tagged(first, 1), Tagged(second, 2));
    }
  }

  /** The lines `s`, all with the same tag: 0 unchanged, 1 removed, 2 added. */
  function Tagged(s: seq<string>, tag: nat): seq<DiffLine>
    requires tag < 3
  {
    seq(|s|, i requires 0 <= i < |s| => if tag == 0 then Same(s[i]) else if tag == 1 then Removed(s[i]) else Added(s[i]))
  }

  lemma {:induction false} TaggedSides(s: seq<string>, tag: nat)
    requires tag < 3
    ensures OldSide(Tagged(s, tag)) == (if tag == 2 then [] else s)
    ensures NewSide(Tagged(s, tag)) == (if tag == 1 then [] else s)
    decreases |s|
  {
    if s != [] {
      var n := |s| - 1;
      assert Tagged(s, tag)[..n] == Tagged(s[..n], tag);
      TaggedSides(s[..n], tag);
      assert s == s[..n] + [s[n]];
    }
  }

  lemma {:induction false} SidesAppend(a: seq<DiffLine>, b: seq<DiffLine>)
    ensures OldSide(a + b) == OldSide(a) + OldSide(b)
    ensures NewSide(a + b) == NewSide(a) + NewSide(b)
  {
    OldSideAppend(a, b);
    NewSideAppend(a, b);
  }

  lemma {:induction false} OldSideAppend(a: seq<DiffLine>, b: seq<DiffLine>)
    ensures OldSide(a + b) == OldSide(a) + OldSide(b)
    decreases |b|
  {
    if b == [] {
      assert a + b == a;
    } else {
      var n := |b| - 1;
      var ab := a + b;
      assert ab[..|ab| - 1] == a + b[..n];
      assert ab[|ab| - 1] == b[n];
      OldSideAppend(a, b[..n]);
      var tail := if b[n].Same? || b[n].Removed? then [b[n].text] else [];
      assert OldSide(ab) == OldSide(a + b[..n]) + tail;
      assert OldSide(b) == OldSide(b[..n]) + tail;
    }
  }

  lemma {:induction false} NewSideAppend(a: seq<DiffLine>, b: seq<DiffLine>)
    ensures NewSide(a + b) == NewSide(a) + NewSide(b)
    decreases |b|
  {
    if b == [] {
      assert a + b == a;
    } else {
      var n := |b| - 1;
      var ab := a + b;
      assert ab[..|ab| - 1] == a + b[..n];
      assert ab[|ab| - 1] == b[n];
      NewSideAppend(a, b[..n]);
      var tail := if b[n].Same? || b[n].Added? then [b[n].text] else [];
      assert NewSide(ab) == NewSide(a + b[..n]) + tail;
      assert NewSide(b) == NewSide(b[..n]) + tail;
    }
  }
}
