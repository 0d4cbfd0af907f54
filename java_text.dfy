/**
  The few java.lang.String operations the loader relies on, as functions over
  `seq<char>`: `contains`, `split(",")` (which drops trailing empty strings),
  and the separator-joining that the SQL builders perform in loops.
 */
module JavaText {

  /** `s.contains(t)`: some window of `s` equals `t`. */
  ghost predicate ContainsAt(s: string, t: string, i: int)
  {
    0 <= i && i + |t| <= |s| && s[i..i + |t|] == t
  }

  /** Executable `String.contains`, scanning `s` from the left. */
  function Contains(s: string, t: string): (b: bool)
    ensures b <==> exists i :: ContainsAt(s, t, i)
    decreases |s|
  {
    if |t| > |s| then false
    else if s[..|t|] == t then (assert ContainsAt(s, t, 0); true)
    else
      var b := Contains(s[1..], t);
      assert b ==> exists i :: ContainsAt(s, t, i) by {
        if b {
          var i :| ContainsAt(s[1..], t, i);
          assert s[1..][i..i + |t|] == s[i + 1..i + 1 + |t|];
          assert ContainsAt(s, t, i + 1);
        }
      }
      assert (exists i :: ContainsAt(s, t, i)) ==> b by {
        if exists i :: ContainsAt(s, t, i) {
          var i :| ContainsAt(s, t, i);
          assert i != 0;
          assert s[1..][i - 1..i - 1 + |t|] == s[i..i + |t|];
          assert ContainsAt(s[1..], t, i - 1);
        }
      }
      b
  }

  /** Number of occurrences of character `c` in `s`. */
  function Count(c: char, s: string): nat
  {
    if |s| == 0 then 0 else Count(c, s[..|s| - 1]) + (if s[|s| - 1] == c then 1 else 0)
  }

  lemma {:induction false} CountAppend(c: char, a: string, b: string)
    ensures Count(c, a + b) == Count(c, a) + Count(c, b)
    decreases |b|
  {
    if |b| > 0 {
      assert (a + b)[..|a + b| - 1] == a + b[..|b| - 1];
      CountAppend(c, a, b[..|b| - 1]);
    } else {
      assert a + b == a;
    }
  }

  lemma CountAbsent(c: char, s: string)
    requires c !in s
    ensures Count(c, s) == 0
  {
    if |s| > 0 {
      assert s[..|s| - 1] + [s[|s| - 1]] == s;
      CountAbsent(c, s[..|s| - 1]);
    }
  }

  /** `xs[0] + sep + xs[1] + sep + ... + xs[n-1]`, built left to right as the source's loops do. */
  function Join(xs: seq<string>, sep: string): string
  {
    if |xs| == 0 then ""
    else if |xs| == 1 then xs[0]
    else Join(xs[..|xs| - 1], sep) + sep + xs[|xs| - 1]
  }

  /** Every separator between two joined items contributes its own occurrences of `c`. */
  lemma {:induction false} JoinCount(xs: seq<string>, sep: string, c: char)
    requires |xs| > 0
    requires forall k :: 0 <= k < |xs| ==> c !in xs[k]
    ensures Count(c, Join(xs, sep)) == (|xs| - 1) * Count(c, sep)
    decreases |xs|
  {
    if |xs| == 1 {
      CountAbsent(c, xs[0]);
    } else {
      var init := xs[..|xs| - 1];
      JoinCount(init, sep, c);
      CountAppend(c, Join(init, sep) + sep, xs[|xs| - 1]);
      CountAppend(c, Join(init, sep), sep);
      CountAbsent(c, xs[|xs| - 1]);
    }
  }

  /** `s.indexOf(d)` when `d` occurs: the position of its first occurrence. */
  function IndexOf(s: string, d: char): (i: nat)
    requires d in s
    ensures i < |s| && s[i] == d && d !in s[..i]
  {
    if s[0] == d then 0 else 1 + IndexOf(s[1..], d)
  }

  /** Java's `split` on one delimiter with no limit, before trailing empty strings are removed. */
  function SplitAll(s: string, d: char): (parts: seq<string>)
    ensures |parts| >= 1
    decreases |s|
  {
    if d !in s then [s]
    else
      var i := IndexOf(s, d);
      [s[..i]] + SplitAll(s[i + 1..], d)
  }

  /** Drops the empty strings at the end of `xs`. */
  function StripTrailingEmpty(xs: seq<string>): (r: seq<string>)
    ensures |r| <= |xs| && r == xs[..|r|]
    ensures |r| > 0 ==> r[|r| - 1] != ""
    ensures forall k :: |r| <= k < |xs| ==> xs[k] == ""
  {
    if |xs| > 0 && xs[|xs| - 1] == "" then StripTrailingEmpty(xs[..|xs| - 1]) else xs
  }

  /**
    `s.split(String.valueOf(d))` in Java: when the delimiter does not occur the
    result is `[s]` (even for the empty string); otherwise the pieces, with the
    trailing empty ones removed.
   */
  function JavaSplit(s: string, d: char): (parts: seq<string>)
    ensures d !in s ==> parts == [s]
    ensures d in s ==> |parts| == 0 || parts[|parts| - 1] != ""
  {
    if d !in s then [s] else StripTrailingEmpty(SplitAll(s, d))
  }

  lemma SplitAllPrefix(a: string, d: char, b: string)
    requires d !in a
    ensures SplitAll(a + [d] + b, d) == [a] + SplitAll(b, d)
  {
    var s := a + [d] + b;
    assert s[|a|] == d;
    var i := IndexOf(s, d);
    assert s[..i] == a && s[i + 1..] == b;
  }

  lemma {:induction false} JoinCons(x: string, xs: seq<string>, sep: string)
    requires |xs| > 0
    ensures Join([x] + xs, sep) == x + sep + Join(xs, sep)
    decreases |xs|
  {
    var ys := [x] + xs;
    if |xs| > 1 {
      assert ys[..|ys| - 1] == [x] + xs[..|xs| - 1];
      JoinCons(x, xs[..|xs| - 1], sep);
    } else {
      assert ys[..|ys| - 1] == [x];
    }
  }

  /** Splitting a delimiter-free list joined by its delimiter gives the list back. */
  lemma {:induction false} SplitAllJoin(xs: seq<string>, d: char)
    requires |xs| > 0
    requires forall k :: 0 <= k < |xs| ==> d !in xs[k]
    ensures SplitAll(Join(xs, [d]), d) == xs
    decreases |xs|
  {
    if |xs| > 1 {
      JoinCons(xs[0], xs[1..], [d]);
      assert [xs[0]] + xs[1..] == xs;
      SplitAllPrefix(xs[0], d, Join(xs[1..], [d]));
      SplitAllJoin(xs[1..], d);
    }
  }

  lemma JoinHasDelimiter(xs: seq<string>, d: char)
    requires |xs| > 1
    ensures d in Join(xs, [d])
  {
    var j := Join(xs[..|xs| - 1], [d]);
    assert Join(xs, [d]) == j + [d] + xs[|xs| - 1];
    assert Join(xs, [d])[|j|] == d;
  }

  /** `split` undoes a join of delimiter-free items whose last item is not empty. */
  lemma JavaSplitJoin(xs: seq<string>, d: char)
    requires |xs| > 0 && xs[|xs| - 1] != ""
    requires forall k :: 0 <= k < |xs| ==> d !in xs[k]
    ensures JavaSplit(Join(xs, [d]), d) == xs
  {
    SplitAllJoin(xs, d);
    if |xs| > 1 {
      JoinHasDelimiter(xs, d);
    }
  }

  /** With a trailing delimiter the empty last piece is dropped, so the same items come back. */
  lemma JavaSplitJoinTrailing(xs: seq<string>, d: char)
    requires |xs| > 0 && xs[|xs| - 1] != ""
    requires forall k :: 0 <= k < |xs| ==> d !in xs[k]
    ensures JavaSplit(Join(xs, [d]) + [d], d) == xs
  {
    var ys := xs + [""];
    assert ys[..|ys| - 1] == xs;
    assert Join(ys, [d]) == Join(xs, [d]) + [d] + "";
    assert Join(xs, [d]) + [d] + "" == Join(xs, [d]) + [d];
    SplitAllJoin(ys, d);
    JoinHasDelimiter(ys, d);
  }
}
