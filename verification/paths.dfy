/** Dotted navigation paths as plain strings: joining segments with ".",
    splitting a path back into segments, and dropping leading empty segments. */
module Paths {

  const Dot: char := '.'

  /** A navigation-property name as the C# compiler produces it: non-empty and dot-free. */
  predicate ValidSegment(s: string) {
    |s| > 0 && Dot !in s
  }

  predicate EndsWith(s: string, suffix: string) {
    |suffix| <= |s| && s[|s| - |suffix|..] == suffix
  }

  /** The segments separated by ".", left to right; every one of them is kept,
      empty ones included. */
  function Join(xs: seq<string>): (r: string)
    ensures |xs| == 0 ==> r == ""
    ensures |xs| > 0 ==> |xs[0]| <= |r| && r[..|xs[0]|] == xs[0]
  {
    if |xs| == 0 then ""
    else if |xs| == 1 then xs[0]
    else Join(xs[..|xs| - 1]) + [Dot] + xs[|xs| - 1]
  }

  lemma JoinAppend(xs: seq<string>, p: string)
    requires |xs| > 0
    ensures Join(xs + [p]) == Join(xs) + [Dot] + p
  {
    assert (xs + [p])[..|xs|] == xs;
  }

  /** The pieces of `s` between dots; `n` dots give `n + 1` pieces. */
  function Split(s: string): (r: seq<string>)
    ensures |r| >= 1
  {
    if |s| == 0 then [""]
    else
      var rest := Split(s[1..]);
      if s[0] == Dot then [""] + rest
      else
        assert s == [s[0]] + s[1..];
        [[s[0]] + rest[0]] + rest[1..]
  }

  /** `xs` without its leading empty strings. */
  function DropLeadingEmpty(xs: seq<string>): (r: seq<string>)
    ensures |r| <= |xs| && r == xs[|xs| - |r|..]
    ensures forall i :: 0 <= i < |xs| - |r| ==> xs[i] == ""
    ensures r == [] || r[0] != ""
  {
    if |xs| == 0 then []
    else if xs[0] == "" then DropLeadingEmpty(xs[1..])
    else xs
  }

  lemma {:induction false} SplitAroundDot(a: string, b: string)
    ensures Split(a + [Dot] + b) == Split(a) + Split(b)
    decreases |a|
  {
    var s := a + [Dot] + b;
    if |a| == 0 {
      assert s[0] == Dot && s[1..] == b;
    } else {
      assert s[0] == a[0];
      assert s[1..] == a[1..] + [Dot] + b;
      SplitAroundDot(a[1..], b);
    }
  }

  /** A dot-free string is a single segment. */
  lemma {:induction false} SplitWithoutDot(s: string)
    requires Dot !in s
    ensures Split(s) == [s]
    decreases |s|
  {
    if |s| > 0 {
      assert Dot !in s[1..];
      SplitWithoutDot(s[1..]);
      assert s == [s[0]] + s[1..];
    }
  }

  /** Splitting undoes joining when no segment holds a dot. */
  lemma {:induction false} SplitJoin(xs: seq<string>)
    requires |xs| > 0
    requires forall i :: 0 <= i < |xs| ==> Dot !in xs[i]
    ensures Split(Join(xs)) == xs
    decreases |xs|
  {
    if |xs| == 1 {
      SplitWithoutDot(xs[0]);
    } else {
      var init := xs[..|xs| - 1];
      SplitJoin(init);
      SplitAroundDot(Join(init), xs[|xs| - 1]);
      SplitWithoutDot(xs[|xs| - 1]);
      assert init + [xs[|xs| - 1]] == xs;
    }
  }

  /** Appending a piece either starts the kept part (when everything so far was
      empty) or extends it. */
  lemma {:induction false} DropLeadingEmptyAppend(xs: seq<string>, p: string)
    ensures DropLeadingEmpty(xs + [p])
         == if DropLeadingEmpty(xs) == [] then (if p == "" then [] else [p])
            else DropLeadingEmpty(xs) + [p]
    decreases |xs|
  {
    if |xs| > 0 {
      assert (xs + [p])[0] == xs[0];
      assert (xs + [p])[1..] == xs[1..] + [p];
      if xs[0] == "" {
        DropLeadingEmptyAppend(xs[1..], p);
      }
    } else {
      assert xs + [p] == [p];
    }
  }
}
