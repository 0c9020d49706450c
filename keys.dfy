/**
 * Classification of the key released in a search field (make_filterable.js:165-186
 * for the dropdown, 340-360 for the table). The key code is the event's `which`,
 * which jQuery fills in from `keyCode` when the browser leaves it unset.
 */
module Keys {
  const Tab := 9
  const Enter := 13
  const Shift := 16
  const Ctrl := 17
  const Alt := 18
  const Pause := 19
  const Escape := 27
  const ArrowUp := 38
  const ArrowDown := 40
  const LeftMeta := 91
  const RightMeta := 92

  /** Keys with a meaning of their own, which never re-run the filter. */
  const NavigationKeys: set<int> :=
    {Tab, Enter, Shift, Ctrl, Alt, Pause, ArrowUp, ArrowDown, LeftMeta, RightMeta}

  /** What a key-up in a search field does to the controller. */
  datatype KeyAction =
    | Toggle      // close (toggle) the dropdown
    | Ignore      // leave the pending filter pass as it is
    | Reschedule  // cancel the pending filter pass and schedule a new one

  /** The dropdown's `filterDropdown` switch. */
  function DropdownKeyAction(key: int): (a: KeyAction)
    ensures a == Toggle <==> key == Escape
    ensures a == Ignore <==> key in NavigationKeys
    ensures a == Reschedule <==> key != Escape && key !in NavigationKeys
  {
    match key
    case 27 => Toggle
    case 9 => Ignore
    case 13 => Ignore
    case 16 => Ignore
    case 17 => Ignore
    case 18 => Ignore
    case 19 => Ignore
    case 38 => Ignore
    case 40 => Ignore
    case 91 => Ignore
    case 92 => Ignore
    case _ => Reschedule
  }

  /** The table's `filterTable` switch: Escape is one more ignored key. */
  function TableKeyAction(key: int): (a: KeyAction)
    ensures a != Toggle
    ensures a == Ignore <==> key in NavigationKeys || key == Escape
  {
    match key
    case 9 => Ignore
    case 13 => Ignore
    case 16 => Ignore
    case 17 => Ignore
    case 18 => Ignore
    case 19 => Ignore
    case 27 => Ignore
    case 38 => Ignore
    case 40 => Ignore
    case 91 => Ignore
    case 92 => Ignore
    case _ => Reschedule
  }

  /** The two switches agree on every key but Escape, which closes the dropdown
      and is ignored by the table. */
  lemma KeyActionsDifferOnlyOnEscape(key: int)
    ensures key != Escape ==> TableKeyAction(key) == DropdownKeyAction(key)
    ensures DropdownKeyAction(Escape) == Toggle && TableKeyAction(Escape) == Ignore
  {
  }
}
