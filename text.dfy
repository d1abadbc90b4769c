/** The string operations the command builder relies on: `str.split(" ")`,
    `" ".join(...)`, the substring test `pat in s`, `str.startswith` and the
    decimal rendering of a line number by `str.format`. */
module Text {

  /** `s.split(" ")`: cut at every single space, keeping empty pieces, so
      that a string with n spaces gives n + 1 tokens, none holding a space. */
  function Split(s: string): (r: seq<string>)
    ensures |r| >= 1
    ensures forall i :: 0 <= i < |r| ==> ' ' !in r[i]
    decreases |s|
  {
    if s == [] then [[]]
    else if s[0] == ' ' then [[]] + Split(s[1..])
    else
      var rest := Split(s[1..]);
      [[s[0]] + rest[0]] + rest[1..]
  }

  /** A string without a space is a single token. */
  lemma {:induction false} SplitNoSpace(s: string)
    requires ' ' !in s
    ensures Split(s) == [s]
    decreases |s|
  {
    if s != [] {
      assert ' ' !in s[1..];
      SplitNoSpace(s[1..]);
      assert s == [s[0]] + s[1..];
    }
  }

  /** `" ".join(ts)`. */
  function Join(ts: seq<string>): string
    decreases |ts|
  {
    if |ts| == 0 then []
    else if |ts| == 1 then ts[0]
    else ts[0] + " " + Join(ts[1..])
  }

  /** Joining the tokens of a split gives back the string. */
  lemma {:induction false} JoinSplit(s: string)
    ensures Join(Split(s)) == s
    decreases |s|
  {
    if s == [] {
    } else if s[0] == ' ' {
      JoinSplit(s[1..]);
      assert Split(s) == [[]] + Split(s[1..]);
      assert Split(s)[1..] == Split(s[1..]);
    } else {
      var rest := Split(s[1..]);
      JoinSplit(s[1..]);
      assert Split(s) == [[s[0]] + rest[0]] + rest[1..];
      if |rest| == 1 {
        assert Join(rest) == rest[0];
      } else {
        assert Split(s)[1..] == rest[1..];
        assert Join(rest) == rest[0] + " " + Join(rest[1..]);
      }
      assert s == [s[0]] + s[1..];
    }
  }

  /** A space splits the string into the tokens of either side. */
  lemma {:induction false} SplitAppend(a: string, b: string)
    ensures Split(a + " " + b) == Split(a) + Split(b)
    decreases |a|
  {
    var s := a + " " + b;
    if a == [] {
      assert s == " " + b;
      assert s[1..] == b;
    } else if a[0] == ' ' {
      assert s[0] == ' ';
      assert s[1..] == a[1..] + " " + b;
      SplitAppend(a[1..], b);
    } else {
      assert s[0] == a[0];
      assert s[1..] == a[1..] + " " + b;
      SplitAppend(a[1..], b);
      var ra, rb := Split(a[1..]), Split(b);
      var rs := Split(s[1..]);
      assert rs == ra + rb;
      assert Split(s) == [[a[0]] + rs[0]] + rs[1..];
      assert Split(a) == [[a[0]] + ra[0]] + ra[1..];
      assert rs[0] == ra[0];
      assert rs[1..] == ra[1..] + rb;
    }
  }

  /** Splitting the join of space-free tokens gives back the tokens. */
  lemma {:induction false} SplitJoin(ts: seq<string>)
    requires |ts| >= 1
    requires forall i :: 0 <= i < |ts| ==> ' ' !in ts[i]
    ensures Split(Join(ts)) == ts
    decreases |ts|
  {
    if |ts| == 1 {
      SplitNoSpace(ts[0]);
    } else {
      SplitJoin(ts[1..]);
      SplitAppend(ts[0], Join(ts[1..]));
      SplitNoSpace(ts[0]);
      assert Join(ts) == ts[0] + " " + Join(ts[1..]);
      assert ts == [ts[0]] + ts[1..];
    }
  }

  /** Joining space-free tokens and a last piece splits back into the
      tokens followed by the pieces of the last one. */
  lemma {:induction false} SplitJoinLast(ts: seq<string>, last: string)
    requires |ts| >= 1
    requires forall i :: 0 <= i < |ts| ==> ' ' !in ts[i]
    ensures Split(Join(ts + [last])) == ts + Split(last)
    decreases |ts|
  {
    var all := ts + [last];
    var rest := ts[1..];
    var tail := rest + [last];
    assert all[0] == ts[0] && all[1..] == tail && |all| >= 2;
    assert Join(all) == ts[0] + " " + Join(tail);
    if rest == [] {
      assert tail == [last];
      assert Join(tail) == last;
      SplitAfterHead(ts[0], last);
      assert ts == [ts[0]];
    } else {
      assert forall i :: 0 <= i < |rest| ==> ' ' !in rest[i] by {
        assert forall i :: 0 <= i < |rest| ==> rest[i] == ts[i + 1];
      }
      SplitJoinLast(rest, last);
      SplitAfterHead(ts[0], Join(tail));
      assert ts == [ts[0]] + rest;
      assert [ts[0]] + (rest + Split(last)) == ts + Split(last);
    }
  }

  /** A space-free head followed by a space is one token. */
  lemma {:induction false} SplitAfterHead(head: string, s: string)
    requires ' ' !in head
    ensures Split(head + " " + s) == [head] + Split(s)
  {
    SplitAppend(head, s);
    SplitNoSpace(head);
  }

  /** Python's `pat in s` for strings. */
  predicate Contains(s: string, pat: string)
    decreases |s|
  {
    pat <= s || (s != [] && Contains(s[1..], pat))
  }

  /** A prefix none of whose characters starts the pattern cannot hold an
      occurrence of it, nor start one. */
  lemma {:induction false} ContainsAfterPrefix(q: string, s: string, pat: string)
    requires pat != [] && pat[0] !in q
    ensures Contains(q + s, pat) == Contains(s, pat)
    decreases |q|
  {
    if q != [] {
      assert (q + s)[0] == q[0];
      assert (q + s)[1..] == q[1..] + s;
      ContainsAfterPrefix(q[1..], s, pat);
    } else {
      assert q + s == s;
    }
  }

  /** `s.startswith(p)`. */
  predicate StartsWith(s: string, p: string) {
    p <= s
  }

  predicate IsDigits(s: string) {
    forall i :: 0 <= i < |s| ==> '0' <= s[i] <= '9'
  }

  function Digit(d: nat): (c: char)
    requires d < 10
    ensures '0' <= c <= '9'
  {
    ('0' as int + d) as char
  }

  /** `"{}".format(n)` for a non-negative integer: its decimal digits. */
  function NatToString(n: nat): (r: string)
    ensures r != [] && IsDigits(r)
    ensures ' ' !in r
  {
    if n < 10 then [Digit(n)] else NatToString(n / 10) + [Digit(n % 10)]
  }

  /** The value of a string of decimal digits, the inverse of `NatToString`. */
  function ParseNat(s: string): nat
    requires IsDigits(s)
  {
    if s == [] then 0 else ParseNat(s[..|s| - 1]) * 10 + (s[|s| - 1] as int - '0' as int)
  }

  /** The synthesised line number reads back as the number it was made from. */
  lemma {:induction false} ParseNatToString(n: nat)
    ensures ParseNat(NatToString(n)) == n
  {
    if n >= 10 {
      var s := NatToString(n);
      assert s[..|s| - 1] == NatToString(n / 10);
      ParseNatToString(n / 10);
    }
  }
}
