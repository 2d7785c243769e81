/** The keyboard shortcuts (hooks/use-keyboard-shortcuts.ts): for one
    `keydown` event, which callback fires and whether the browser's default
    action is prevented. */
module KeyboardShortcuts {
  import opened Strings
  import opened Optional

  datatype Callback = SelectAll | Copy | Search | Escape

  /** The fields of the event and of the page that the handler reads;
      `activeTag` is the tag name of the focused element, if any. */
  datatype KeyEvent = KeyEvent(key: string, metaKey: bool, ctrlKey: bool,
                               platform: string, activeTag: Option<string>)

  /** What the handler does: at most one callback, and the default action
      prevented or not. */
  datatype Outcome = Outcome(fired: Option<Callback>, preventDefault: bool)

  /** `navigator.platform.toUpperCase().indexOf("MAC") >= 0` */
  predicate IsMac(platform: string) {
    Contains(Upper(platform), "MAC")
  }

  /** `metaKey` on a Mac, `ctrlKey` elsewhere. */
  predicate CmdOrCtrl(e: KeyEvent) {
    if IsMac(e.platform) then e.metaKey else e.ctrlKey
  }

  predicate InputFocused(e: KeyEvent) {
    e.activeTag == Some("INPUT") || e.activeTag == Some("TEXTAREA")
  }

  /** `handleKeyDown(e)` */
  function HandleKeyDown(e: KeyEvent): Outcome {
    if CmdOrCtrl(e) && e.key == "a" then
      if !InputFocused(e) then Outcome(Some(SelectAll), true) else Outcome(None, false)
    else if CmdOrCtrl(e) && e.key == "c" then
      if !InputFocused(e) then Outcome(Some(Copy), true) else Outcome(None, false)
    else if CmdOrCtrl(e) && e.key == "f" then Outcome(Some(Search), true)
    else if e.key == "Escape" then Outcome(Some(Escape), false)
    else Outcome(None, false)
  }

  /** Each callback fires exactly for its own combination: select-all and
      copy need the modifier and no focused text field, search needs the
      modifier only, and Escape needs nothing else; the default action is
      prevented exactly when select-all, copy or search fires. */
  lemma Dispatch(e: KeyEvent)
    ensures var o := HandleKeyDown(e);
      && (o.fired == Some(SelectAll) <==> CmdOrCtrl(e) && e.key == "a" && !InputFocused(e))
      && (o.fired == Some(Copy) <==> CmdOrCtrl(e) && e.key == "c" && !InputFocused(e))
      && (o.fired == Some(Search) <==> CmdOrCtrl(e) && e.key == "f")
      && (o.fired == Some(Escape) <==> e.key == "Escape")
      && (o.preventDefault <==> o.fired.Some? && o.fired != Some(Escape))
  {
    assert "Escape" != "a" && "Escape" != "c" && "Escape" != "f";
  }

  /** The modifier is the Command key on a Mac and Control elsewhere:
      Control-A on a Mac selects nothing. */
  lemma ControlOnMacIsNoShortcut(platform: string)
    requires IsMac(platform)
    ensures HandleKeyDown(KeyEvent("a", false, true, platform, None)).fired == None
  {
  }

  /** `MacIntel` counts as a Mac. */
  lemma MacIntelIsMac()
    ensures IsMac("MacIntel")
  {
    var u := Upper("MacIntel");
    assert u[..3] == "MAC";
    assert StartsWith(u, "MAC");
  }
}
