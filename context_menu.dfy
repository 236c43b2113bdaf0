/** The context-menu state of one window: whether it is open, where, and with which items. */
module ContextMenu {
  import opened Types
  import opened Actions

  /** Where the menu pops up and what it shows; the template is the menu's items. */
  datatype MenuData = MenuData(clientX: int, clientY: int, template: seq<Value>)

  datatype State = State(open: bool, data: MenuData)

  /** The state before any menu was shown. */
  function Initial(): (r: State)
    ensures !r.open
    ensures r.data.clientX == 0 && r.data.clientY == 0 && r.data.template == []
  {
    State(false, MenuData(0, 0, []))
  }

  /** `popupContextMenu`: open at the payload's position with the payload's template. */
  function Popup(s: State, clientX: int, clientY: int, template: seq<Value>): (r: State)
    ensures r.open
    ensures r.data.clientX == clientX && r.data.clientY == clientY && r.data.template == template
  {
    s.(data := MenuData(clientX, clientY, template), open := true)
  }

  /** `closeContextMenu`: close, keeping the last position and template. */
  function Close(s: State): (r: State)
    ensures !r.open
    ensures r.data == s.data
  {
    s.(open := false)
  }

  /** The context-menu reducer: every other action leaves the state as it is. */
  function Reduce(s: State, a: Action): (r: State)
    ensures !a.PopupContextMenu? && !a.CloseContextMenu? ==> r == s
    ensures a.PopupContextMenu? ==> r.open && r.data == MenuData(a.clientX, a.clientY, a.template)
    ensures a.CloseContextMenu? ==> !r.open && r.data == s.data
  {
    match a
    case PopupContextMenu(_, x, y, template) => Popup(s, x, y, template)
    case CloseContextMenu(_) => Close(s)
    case _ => s
  }

  /** Closing twice is closing once. */
  lemma CloseIdempotent(s: State)
    ensures Close(Close(s)) == Close(s)
  {
  }

  /** Closing after a popup keeps what the popup set. */
  lemma PopupThenClose(s: State, clientX: int, clientY: int, template: seq<Value>)
    ensures Close(Popup(s, clientX, clientY, template)) == State(false, MenuData(clientX, clientY, template))
  {
  }
}
