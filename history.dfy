/**
 * The find and replace entries' history lists (`add_to_history` in
 * src/textadept_gtk.c): a list store of at most ten strings, oldest first,
 * that never gets the same text twice in a row.
 */
module FindHistory {

  /** The number of entries the store keeps. */
  const Capacity: nat := 10

  /** The history after `add_to_history(store, text)` on a store holding `h`. */
  function AddedToHistory(h: seq<string>, text: string): (r: seq<string>)
    ensures |h| <= Capacity ==> |r| <= Capacity
    ensures |r| > 0 && r[|r| - 1] == text
    ensures |r| == (if |h| > Capacity - 1 then |h| - 1 else |h|) +
                   (if h != [] && h[|h| - 1] == text then 0 else 1)
    ensures |h| <= Capacity - 1 ==> r[..|h|] == h
    ensures |h| > Capacity - 1 ==> r[..|h| - 1] == h[1..]
  {
    var kept := if |h| > Capacity - 1 then h[1..] else h;
    if kept != [] && kept[|kept| - 1] == text then kept else kept + [text]
  }

  /** No two neighbouring entries are equal. */
  predicate NoRepeats(h: seq<string>) {
    forall i :: 0 < i < |h| ==> h[i - 1] != h[i]
  }

  /** A history that never repeats an entry in a row keeps that property. */
  lemma AddKeepsNoRepeats(h: seq<string>, text: string)
    requires NoRepeats(h)
    ensures NoRepeats(AddedToHistory(h, text))
  {
    var kept := if |h| > Capacity - 1 then h[1..] else h;
    if |h| > Capacity - 1 {
      TailKeepsNoRepeats(h);
    }
    if !(kept != [] && kept[|kept| - 1] == text) {
      AppendKeepsNoRepeats(kept, text);
    }
  }

  lemma TailKeepsNoRepeats(h: seq<string>)
    requires NoRepeats(h) && h != []
    ensures NoRepeats(h[1..])
  {
    var t := h[1..];
    forall i | 0 < i < |t| ensures t[i - 1] != t[i] {
      assert t[i - 1] == h[i] && t[i] == h[i + 1];
    }
  }

  lemma AppendKeepsNoRepeats(h: seq<string>, text: string)
    requires NoRepeats(h) && (h == [] || h[|h| - 1] != text)
    ensures NoRepeats(h + [text])
  {
    var r := h + [text];
    forall i | 0 < i < |r| ensures r[i - 1] != r[i] {
      if i < |h| {
        assert r[i - 1] == h[i - 1] && r[i] == h[i];
      }
    }
  }

  /**
   * The oldest entry goes even when nothing is appended: adding the newest
   * text again to a full history shortens it to nine entries.
   */
  lemma RepeatOnFullHistoryShrinks(h: seq<string>, text: string)
    requires |h| == Capacity && h[Capacity - 1] == text
    ensures AddedToHistory(h, text) == h[1..]
  {
  }

  /** The find or replace history list store. */
  class HistoryStore {
    var entries: seq<string>

    ghost predicate Valid()
      reads this
    {
      |entries| <= Capacity && NoRepeats(entries)
    }

    constructor ()
      ensures Valid() && entries == []
    {
      entries := [];
    }

    /** `add_to_history`: drop the oldest of ten entries, then append `text` unless it is the last entry. */
    method Add(text: string)
      requires Valid()
      modifies this
      ensures Valid()
      ensures entries == AddedToHistory(old(entries), text)
    {
      AddKeepsNoRepeats(entries, text);
      var n := |entries|;
      if n > 9 {
        entries := entries[1..];
        n := n - 1;
      }
      var lastText: string := "";
      var hasLast := false;
      if n > 0 {
        lastText, hasLast := entries[n - 1], true;
      }
      if !hasLast || text != lastText {
        entries := entries + [text];
      }
    }
  }
}
