/**
 * The list dialog's search matcher (`matches` in src/textadept_gtk.c): a key of
 * space-separated words matches a list item when every word occurs in the item,
 * ignoring ASCII case, in key order, each searched for from the end of the
 * previous word's match.
 */
module ListSearch {
  import opened Wrappers
  import opened Separated

  /** ASCII case folding, as g_strncasecmp does it: only 'A'..'Z' change. */
  function Fold(c: char): char {
    if 'A' <= c <= 'Z' then (c as int + 32) as char else c
  }

  function FoldAll(s: seq<char>): (r: seq<char>)
    ensures |r| == |s| && forall i :: 0 <= i < |s| ==> r[i] == Fold(s[i])
  {
    if s == [] then [] else [Fold(s[0])] + FoldAll(s[1..])
  }

  /**
   * `g_strncasecmp(word, rest, |word|) == 0`. Neither C string holds a NUL, so
   * running out of `rest` before `|word|` characters is a mismatch.
   */
  predicate FoldPrefix(word: seq<char>, rest: seq<char>)
    ensures FoldPrefix(word, rest) ==> |word| <= |rest|
  {
    word == [] || (rest != [] && Fold(word[0]) == Fold(rest[0]) && FoldPrefix(word[1..], rest[1..]))
  }

  /** The compare succeeds exactly when every character of `word` agrees, folded, with the one in `rest`. */
  lemma {:induction false} FoldPrefixAgrees(word: seq<char>, rest: seq<char>)
    ensures FoldPrefix(word, rest) <==>
      |word| <= |rest| && forall i :: 0 <= i < |word| ==> Fold(word[i]) == Fold(rest[i])
  {
    if word != [] && rest != [] {
      FoldPrefixAgrees(word[1..], rest[1..]);
      if |word| <= |rest| && forall i :: 0 <= i < |word| ==> Fold(word[i]) == Fold(rest[i]) {
        assert forall i :: 0 <= i < |word[1..]| ==> Fold(word[1..][i]) == Fold(rest[1..][i]) by {
          forall i | 0 <= i < |word[1..]| ensures Fold(word[1..][i]) == Fold(rest[1..][i]) {
            assert word[1..][i] == word[i + 1] && rest[1..][i] == rest[i + 1];
          }
        }
      }
    }
  }

  /** `word` matches the item at position `q`. */
  predicate MatchAt(word: seq<char>, item: seq<char>, q: nat)
    requires q <= |item|
  {
    FoldPrefix(word, item[q..])
  }


  /**
   * The earliest position at or after `from` (and before the end of the item,
   * since the search loop needs a remaining character) where `word` matches;
   * `FindFromEarliest` states that it is the earliest.
   */
  function FindFrom(word: seq<char>, item: seq<char>, from: nat): (r: Option<nat>)
    requires from <= |item|
    ensures r.Some? ==> from <= r.value < |item| && r.value + |word| <= |item|
    decreases |item| - from
  {
    if from == |item| then None
    else if MatchAt(word, item, from) then
      Some(from)
    else FindFrom(word, item, from + 1)
  }

  /** `FindFrom` finds a match, and the first one, whenever there is one. */
  lemma {:induction false} FindFromEarliest(word: seq<char>, item: seq<char>, from: nat)
    requires from <= |item|
    ensures var r := FindFrom(word, item, from);
      && (r.Some? ==> MatchAt(word, item, r.value))
      && (r.Some? ==> forall q :: from <= q < r.value ==> !MatchAt(word, item, q))
      && (r.None? ==> forall q :: from <= q < |item| ==> !MatchAt(word, item, q))
    decreases |item| - from
  {
    if from < |item| && !MatchAt(word, item, from) {
      FindFromEarliest(word, item, from + 1);
    }
  }

  /** Every word in `ws` is found, in order, the first at or after `pos`. */
  predicate MatchWords(ws: seq<seq<char>>, item: seq<char>, pos: nat)
    requires pos <= |item|
    decreases |ws|
  {
    ws == [] ||
    var r := FindFrom(ws[0], item, pos);
    r.Some? && MatchWords(ws[1..], item, r.value + |ws[0]|)
  }

  /**
   * What `matches` decides: the empty key matches everything; any other key,
   * even one of spaces only, needs at least one character of the item.
   */
  predicate MatchesKey(key: seq<char>, item: seq<char>)
    ensures key != [] && MatchesKey(key, item) ==> item != []
  {
    key == [] || MatchWords(Split(key, ' '), item, 0)
  }

  /** `matches`, with its pointer loops over key and item; 0 means "matches", like strcmp. */
  method Matches(key: seq<char>, item: seq<char>) returns (r: int)
    ensures r == 0 || r == 1
    ensures r == 0 <==> MatchesKey(key, item)
  {
    if key == [] {
      return 0;
    }
    var matchPos: nat := 0;
    var s: nat := 0;
    var found, more := true, true;
    ghost var goal := MatchWords(Split(key[s..], ' '), item, matchPos);
    while found && more
      invariant s <= |key| && matchPos <= |item|
      invariant found && more ==> goal == MatchWords(Split(key[s..], ' '), item, matchPos)
      invariant !found ==> !goal
      invariant found && !more ==> goal
      decreases |key| - s, found, more
    {
      found, more, s, matchPos := NextWord(key, item, s, matchPos);
    }
    r := if found then 0 else 1;
    assert key[0..] == key;
  }

  /**
   * One iteration of `matches`' outer loop: find the word starting at `s`,
   * then either stop (not found, or the key is used up) or move past the space.
   */
  method NextWord(key: seq<char>, item: seq<char>, s: nat, matchPos: nat)
    returns (found: bool, more: bool, s': nat, matchPos': nat)
    requires s <= |key| && matchPos <= |item|
    ensures s' <= |key| && matchPos' <= |item|
    ensures more ==> found && s' > s
    ensures !more ==> s' == s
    ensures MatchWords(Split(key[s..], ' '), item, matchPos) ==
      (found && (!more || MatchWords(Split(key[s'..], ' '), item, matchPos')))
  {
    var e := WordEnd(key, s);
    var p := SearchWord(key[s..e], item, matchPos);
    MatchStep(key, item, s, e, matchPos, p);
    if p == |item| {
      found, more, s', matchPos' := false, false, s, matchPos;
    } else if e == |key| {
      found, more, s', matchPos' := true, false, s, p + (e - s);
    } else {
      found, more, s', matchPos' := true, true, e + 1, p + (e - s);
    }
  }

  /** The key loop `while (*e && *e != ' ') e++`: the end of the word starting at `s`. */
  method WordEnd(key: seq<char>, s: nat) returns (e: nat)
    requires s <= |key|
    ensures s <= e <= |key|
    ensures forall j :: s <= j < e ==> key[j] != ' '
    ensures e < |key| ==> key[e] == ' '
  {
    e := s;
    while e < |key| && key[e] != ' '
      invariant s <= e <= |key|
      invariant forall j :: s <= j < e ==> key[j] != ' '
    {
      e := e + 1;
    }
  }

  /**
   * The item loop `for (p = match_pos; *p; p++)`: the first position where
   * `word` matches, or the item's end when there is none.
   */
  method SearchWord(word: seq<char>, item: seq<char>, from: nat) returns (p: nat)
    requires from <= |item|
    ensures from <= p <= |item|
    ensures p < |item| ==> FindFrom(word, item, from) == Some(p)
    ensures p == |item| ==> FindFrom(word, item, from) == None
  {
    p := from;
    while p < |item| && !MatchAt(word, item, p)
      invariant from <= p <= |item|
      invariant forall q :: from <= q < p ==> !MatchAt(word, item, q)
    {
      p := p + 1;
    }
    FindFromEarliest(word, item, from);
  }

  /**
   * One iteration of the matcher's outer loop: the word `key[s..e]` is looked
   * for from `matchPos` and found at `p`, or not found when `p` is the end.
   */
  lemma MatchStep(key: seq<char>, item: seq<char>, s: nat, e: nat, matchPos: nat, p: nat)
    requires s <= e <= |key| && matchPos <= p <= |item|
    requires forall j :: s <= j < e ==> key[j] != ' '
    requires e < |key| ==> key[e] == ' '
    requires p < |item| ==> FindFrom(key[s..e], item, matchPos) == Some(p)
    requires p == |item| ==> FindFrom(key[s..e], item, matchPos) == None
    ensures p < |item| ==> p + (e - s) <= |item|
    ensures MatchWords(Split(key[s..], ' '), item, matchPos) ==
      if p == |item| then false
      else if e == |key| then true
      else MatchWords(Split(key[e + 1..], ' '), item, p + (e - s))
  {
    var word := key[s..e];
    SplitStep(key, ' ', s, e);
    var ws := Split(key[s..], ' ');
    MatchWordsUnfold(ws, item, matchPos);
    assert ws[0] == word && ws[1..] == (if e == |key| then [] else Split(key[e + 1..], ' '));
  }


  lemma FoldIdempotent(c: char)
    ensures Fold(Fold(c)) == Fold(c)
  {
  }

  lemma {:induction false} FoldPrefixFolded(word: seq<char>, rest: seq<char>)
    ensures FoldPrefix(word, rest) == FoldPrefix(word, FoldAll(rest))
  {
    if word != [] && rest != [] {
      FoldIdempotent(rest[0]);
      assert FoldAll(rest)[1..] == FoldAll(rest[1..]);
      FoldPrefixFolded(word[1..], rest[1..]);
    }
  }

  lemma {:induction false} FindFromFolded(word: seq<char>, item: seq<char>, from: nat)
    requires from <= |item|
    ensures FindFrom(word, item, from) == FindFrom(word, FoldAll(item), from)
    decreases |item| - from
  {
    if from < |item| {
      assert FoldAll(item)[from..] == FoldAll(item[from..]);
      FoldPrefixFolded(word, item[from..]);
      FindFromFolded(word, item, from + 1);
    }
  }

  lemma MatchWordsUnfold(ws: seq<seq<char>>, item: seq<char>, pos: nat)
    requires pos <= |item| && ws != []
    ensures var r := FindFrom(ws[0], item, pos);
      MatchWords(ws, item, pos) == (r.Some? && MatchWords(ws[1..], item, r.value + |ws[0]|))
  {
  }

  /** Two items on which every word search agrees match the same word lists. */
  lemma {:induction false} MatchWordsAgree(ws: seq<seq<char>>, a: seq<char>, b: seq<char>, pos: nat)
    requires pos <= |a| && |a| == |b|
    requires forall w, q :: 0 <= q <= |a| ==> FindFrom(w, a, q) == FindFrom(w, b, q)
    ensures MatchWords(ws, a, pos) == MatchWords(ws, b, pos)
    decreases |ws|
  {
    if ws != [] {
      MatchWordsUnfold(ws, a, pos);
      MatchWordsUnfold(ws, b, pos);
      var r := FindFrom(ws[0], a, pos);
      if r.Some? {
        MatchWordsAgree(ws[1..], a, b, r.value + |ws[0]|);
      }
    }
  }

  lemma MatchWordsFolded(ws: seq<seq<char>>, item: seq<char>, pos: nat)
    requires pos <= |item|
    ensures MatchWords(ws, item, pos) == MatchWords(ws, FoldAll(item), pos)
  {
    var f := FoldAll(item);
    forall w, q | 0 <= q <= |item| ensures FindFrom(w, item, q) == FindFrom(w, f, q) {
      FindFromFolded(w, item, q);
    }
    MatchWordsAgree(ws, item, f, pos);
  }

  /** The matcher ignores the ASCII case of the item. */
  lemma ItemCaseIgnored(key: seq<char>, item: seq<char>)
    ensures MatchesKey(key, item) == MatchesKey(key, FoldAll(item))
  {
    if key != [] {
      MatchWordsFolded(Split(key, ' '), item, 0);
    }
  }

  /**
   * A one-word key matches exactly when the word occurs somewhere in the
   * item, ignoring case, starting before the item's end.
   */
  lemma SingleWord(key: seq<char>, item: seq<char>)
    requires key != [] && SepFree(key, ' ')
    ensures MatchesKey(key, item) <==>
      exists q :: 0 <= q < |item| && MatchAt(key, item, q)
  {
    assert SepIndex(key, ' ') == |key|;
    assert Split(key, ' ') == [key];
    MatchWordsUnfold([key], item, 0);
    FindFromEarliest(key, item, 0);
    var r := FindFrom(key, item, 0);
    if r.Some? {
      assert MatchWords([key][1..], item, r.value + |key|);
    }
  }

  /**
   * The empty-word quirk: a trailing space adds an empty word, which needs a
   * character left in the item, so "ab " does not match "ab" but matches "abc".
   */
  lemma TrailingSpaceNeedsMore()
    ensures !MatchesKey("ab ", "ab")
    ensures MatchesKey("ab ", "abc")
    ensures MatchesKey("ab", "ab")
  {
    assert Split("ab ", ' ') == ["ab", ""] by {
      assert SepIndex("ab ", ' ') == 2;
      assert "ab "[..2] == "ab";
      assert "ab "[3..] == "";
    }
    assert Split("ab", ' ') == ["ab"] by {
      assert SepIndex("ab", ' ') == 2;
    }
    assert FindFrom("ab", "ab", 0) == Some(0) by {
      assert FoldPrefix("ab", "ab"[0..]);
    }
    assert FindFrom("ab", "abc", 0) == Some(0) by {
      assert FoldPrefix("ab", "abc"[0..]);
    }
    assert FindFrom("", "ab", 2) == None;
    assert FindFrom("", "abc", 2) == Some(2) by {
      assert FoldPrefix("", "abc"[2..]);
    }
  }
}
