/** The `", ".join(...)` rendering of list cells, and its inverse. */
module Text {

  /** The separator `update_table` joins list cells with. */
  const Sep: string := ", "

  /** `", ".join(xs)`. Empty exactly when there is nothing to show. */
  function Join(xs: seq<string>): (s: string)
    ensures s == "" <==> xs == [] || xs == [""]
  {
    if |xs| == 0 then ""
    else if |xs| == 1 then
      assert xs == [xs[0]];
      xs[0]
    else xs[0] + Sep + Join(xs[1..])
  }

  /** The index of the first separator in `s`, or `|s|` when there is none. */
  function FindSep(s: string): (i: nat)
    ensures i <= |s|
    ensures i < |s| ==> i + 1 < |s| && s[i] == ',' && s[i + 1] == ' '
  {
    if |s| < 2 then |s|
    else if s[0] == ',' && s[1] == ' ' then 0
    else 1 + FindSep(s[1..])
  }

  /** `s.split(", ")`. */
  function Split(s: string): (parts: seq<string>)
    ensures |parts| > 0
    decreases |s|
  {
    var i := FindSep(s);
    if i == |s| then [s] else [s[..i]] + Split(s[i + 2..])
  }

  lemma {:induction false} FindSepAbsent(x: string)
    requires ',' !in x
    ensures FindSep(x) == |x|
  {
    if |x| >= 2 {
      assert x[0] in x;
      assert forall c :: c in x[1..] ==> c in x;
      FindSepAbsent(x[1..]);
    }
  }

  lemma {:induction false} FindSepAfter(x: string, y: string)
    requires ',' !in x
    ensures FindSep(x + Sep + y) == |x|
  {
    var s := x + Sep + y;
    if |x| > 0 {
      assert x[0] in x;
      assert forall c :: c in x[1..] ==> c in x;
      assert s[1..] == x[1..] + Sep + y;
      FindSepAfter(x[1..], y);
    }
  }

  /** Joining and splitting again gives back the list, provided no element
      contains a comma. */
  lemma {:induction false} SplitJoin(xs: seq<string>)
    requires |xs| > 0
    requires forall x :: x in xs ==> ',' !in x
    ensures Split(Join(xs)) == xs
  {
    if |xs| == 1 {
      FindSepAbsent(xs[0]);
    } else {
      var s := Join(xs);
      var rest := Join(xs[1..]);
      assert xs[0] in xs;
      FindSepAfter(xs[0], rest);
      assert s[..|xs[0]|] == xs[0];
      assert s[|xs[0]| + 2..] == rest;
      assert forall x :: x in xs[1..] ==> x in xs;
      SplitJoin(xs[1..]);
      assert xs == [xs[0]] + xs[1..];
    }
  }
}
