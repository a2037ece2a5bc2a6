/**
 * Two small key mappings of src/textadept_gtk.c: which find/replace button
 * Enter presses in the find box (`find_keypress`), and how a menu item's
 * Scintilla modifier flags become GDK accelerator modifiers (`read_menu`).
 */
module KeyBindings {
  import opened Wrappers

  datatype Entry = FindEntry | ReplaceEntry

  datatype FindButton = FindNext | FindPrev | Replace | ReplaceAll

  /**
   * `find_keypress`: only Enter is handled; Shift chooses the backward or
   * "all" button, and the entry with focus chooses find or replace.
   */
  function FindKeypress(isReturn: bool, shift: bool, entry: Entry): (button: Option<FindButton>)
    ensures button.None? <==> !isReturn
  {
    if !isReturn then None
    else if !shift then Some(if entry == FindEntry then FindNext else Replace)
    else Some(if entry == FindEntry then FindPrev else ReplaceAll)
  }

  /** The Enter press that reaches each button: whether Shift is held, and in which entry. */
  function KeysFor(button: FindButton): (bool, Entry) {
    match button
    case FindNext => (false, FindEntry)
    case Replace => (false, ReplaceEntry)
    case FindPrev => (true, FindEntry)
    case ReplaceAll => (true, ReplaceEntry)
  }

  /** Every button is reached by exactly one Enter press: `KeysFor` inverts `FindKeypress`. */
  lemma FindKeypressInverse(shift: bool, entry: Entry, button: FindButton)
    ensures FindKeypress(true, shift, entry) == Some(button) <==> KeysFor(button) == (shift, entry)
  {
  }

  /** The `SCMOD_*` flags set in a menu item's modifier field. */
  datatype SciMods = SciMods(shift: bool, ctrl: bool, alt: bool, super: bool, meta: bool)

  /** The GDK masks set in an accelerator's modifiers. */
  datatype GdkMods = GdkMods(shift: bool, control: bool, mod1: bool, meta: bool)

  /** `read_menu`'s translation: Shift, Ctrl, Alt and Meta map across; Super has no accelerator mask. */
  function ToGdk(mods: SciMods): (gdk: GdkMods)
    ensures gdk.shift == mods.shift && gdk.control == mods.ctrl
    ensures gdk.mod1 == mods.alt && gdk.meta == mods.meta
  {
    GdkMods(mods.shift, mods.ctrl, mods.alt, mods.meta)
  }

  /** The reverse translation, which cannot recover Super. */
  function ToSci(gdk: GdkMods): SciMods {
    SciMods(gdk.shift, gdk.control, gdk.mod1, false, gdk.meta)
  }

  /** No modifier is lost except Super: the translation is undone by `ToSci`. */
  lemma ToGdkRoundTrip(mods: SciMods)
    ensures ToSci(ToGdk(mods)) == mods.(super := false)
  {
  }

  /** Distinct flag sets without Super give distinct accelerators, and every mask set is reached. */
  lemma ToGdkBijective(mods: SciMods, gdk: GdkMods)
    ensures !mods.super ==> (ToGdk(mods) == gdk <==> mods == ToSci(gdk))
  {
  }

  /**
   * A menu item gets an accelerator only when its label is not empty (not a
   * separator) and its key code is positive.
   */
  function Accelerator(text: string, key: int, mods: SciMods): (accel: Option<(int, GdkMods)>)
    ensures accel.Some? <==> text != [] && key > 0
    ensures accel.Some? ==> accel.value.0 == key && ToSci(accel.value.1) == mods.(super := false)
  {
    if text != [] && key > 0 then Some((key, ToGdk(mods))) else None
  }
}
