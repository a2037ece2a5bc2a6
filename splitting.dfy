/**
 * Splitting a string at every occurrence of a separator character, keeping
 * empty pieces, and joining the pieces back. The list matcher splits its key
 * on ' '; the remote-instance framing is split on '\n' (as `g_strsplit` does).
 */
module Separated {
  /** Index of the first `sep` in `k`, or `|k|` when there is none. */
  function SepIndex(k: seq<char>, sep: char): (i: nat)
    ensures i <= |k|
    ensures i < |k| ==> k[i] == sep
    ensures forall j :: 0 <= j < i ==> k[j] != sep
  {
    if k == [] || k[0] == sep then 0 else 1 + SepIndex(k[1..], sep)
  }

  /**
   * The pieces of `k` between separators: two adjacent separators give an
   * empty piece between them, a trailing separator an empty last piece.
   */
  function Split(k: seq<char>, sep: char): (ws: seq<seq<char>>)
    ensures |ws| >= 1
    decreases |k|
  {
    var i := SepIndex(k, sep);
    if i == |k| then [k] else [k[..i]] + Split(k[i + 1..], sep)
  }

  /** The inverse of `Split`: the pieces put back together with one separator between each. */
  function Joined(ws: seq<seq<char>>, sep: char): seq<char>
    requires |ws| >= 1
  {
    if |ws| == 1 then ws[0] else ws[0] + [sep] + Joined(ws[1..], sep)
  }

  predicate SepFree(w: seq<char>, sep: char) {
    forall j :: 0 <= j < |w| ==> w[j] != sep
  }

  /** How a loop that scans `key` from `s` to the next separator `e` walks `Split`: one piece per step. */
  lemma SplitStep(key: seq<char>, sep: char, s: nat, e: nat)
    requires s <= e <= |key|
    requires forall j :: s <= j < e ==> key[j] != sep
    requires e < |key| ==> key[e] == sep
    ensures Split(key[s..], sep) ==
      [key[s..e]] + (if e == |key| then [] else Split(key[e + 1..], sep))
  {
    var k := key[s..];
    var i := SepIndex(k, sep);
    assert i == e - s;
    assert k[..i] == key[s..e];
    if e < |key| {
      assert k[i + 1..] == key[e + 1..];
      assert Split(k, sep) == [k[..i]] + Split(k[i + 1..], sep);
    } else {
      assert k == key[s..e];
      assert Split(k, sep) == [k];
    }
  }

  /** Splitting a string and joining the pieces again gives back the string. */
  lemma {:induction false} JoinSplit(k: seq<char>, sep: char)
    ensures Joined(Split(k, sep), sep) == k
    decreases |k|
  {
    var i := SepIndex(k, sep);
    if i < |k| {
      var head, rest := k[..i], k[i + 1..];
      var tail := Split(rest, sep);
      var ws := [head] + tail;
      assert Split(k, sep) == ws;
      assert ws[1..] == tail;
      JoinSplit(rest, sep);
      assert Joined(ws, sep) == head + [sep] + Joined(tail, sep);
      assert k == head + [k[i]] + rest;
    } else {
      assert Split(k, sep) == [k];
    }
  }

  /** Joining separator-free pieces and splitting again gives back the pieces. */
  lemma {:induction false} SplitJoin(ws: seq<seq<char>>, sep: char)
    requires |ws| >= 1
    requires forall w :: w in ws ==> SepFree(w, sep)
    ensures Split(Joined(ws, sep), sep) == ws
    decreases |ws|
  {
    if |ws| > 1 {
      var k := Joined(ws, sep);
      var rest := Joined(ws[1..], sep);
      assert k == ws[0] + [sep] + rest;
      assert SepFree(ws[0], sep);
      assert k[|ws[0]|] == sep;
      assert forall j :: 0 <= j < |ws[0]| ==> k[j] == ws[0][j];
      assert SepIndex(k, sep) == |ws[0]|;
      assert k[..|ws[0]|] == ws[0];
      assert k[|ws[0]| + 1..] == rest;
      assert forall w :: w in ws[1..] ==> w in ws;
      SplitJoin(ws[1..], sep);
    } else {
      assert SepFree(ws[0], sep);
      assert SepIndex(ws[0], sep) == |ws[0]|;
    }
  }

  /** No piece of a split string holds the separator. */
  lemma {:induction false} SplitSepFree(k: seq<char>, sep: char)
    ensures forall w :: w in Split(k, sep) ==> SepFree(w, sep)
    decreases |k|
  {
    var i := SepIndex(k, sep);
    if i < |k| {
      SplitSepFree(k[i + 1..], sep);
    }
  }

  /** In `a + b` with `a` separator-free and `b` starting with the separator, the first separator ends `a`. */
  lemma FirstSepAfter(a: seq<char>, b: seq<char>, sep: char)
    requires SepFree(a, sep) && b != [] && b[0] == sep
    ensures SepIndex(a + b, sep) == |a|
  {
    var k := a + b;
    assert k[|a|] == sep;
    assert forall j :: 0 <= j < |a| ==> k[j] == a[j];
  }
}
