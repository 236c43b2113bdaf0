/**
 * The window multiplexer: window id to window state. It creates and deletes
 * windows, sends an action that names an existing window to that window only,
 * and broadcasts every other action to all windows.
 */
module Windows {
  import opened Wrappers
  import opened Types
  import opened Actions
  import TabInstanceStore
  import ContextMenu

  /** The sub-states of one window that this model composes. */
  datatype WindowState = WindowState(tabInstances: TabInstances, contextMenu: ContextMenu.State)

  type WindowsState = map<string, WindowState>

  /** The window state the composer starts from (`windowReducer(undefined, null)`). */
  function InitialWindow(): WindowState {
    WindowState(map[], ContextMenu.Initial())
  }

  /** What a window's sub-reducers require of an action so that none throws. */
  predicate Applicable(w: WindowState, a: Action) {
    TabInstanceStore.Applicable(w.tabInstances, a)
  }

  /** The window composer: every sub-reducer sees the action. */
  function ReduceWindow(w: WindowState, a: Action): (r: WindowState)
    requires Applicable(w, a)
    ensures a.Logout? ==> r.tabInstances == map[]
    ensures !a.PopupContextMenu? && !a.CloseContextMenu? ==> r.contextMenu == w.contextMenu
    ensures a.PopupContextMenu? || a.CloseContextMenu? || a.WindowClosed? || a.Other? ==> r.tabInstances == w.tabInstances
    ensures a.PopupContextMenu? ==> r.contextMenu.open
    ensures a.CloseContextMenu? ==> !r.contextMenu.open
  {
    WindowState(TabInstanceStore.Reduce(w.tabInstances, a), ContextMenu.Reduce(w.contextMenu, a))
  }

  /** Whether the action goes to the one window its payload names. */
  predicate Routed(s: WindowsState, a: Action) {
    !a.WindowOpened? && !a.WindowClosed? && TargetWindow(a) != "" && TargetWindow(a) in s
  }

  /** Every window the action reaches can take it. */
  predicate Deliverable(s: WindowsState, a: Action) {
    if a.WindowOpened? || a.WindowClosed? then true
    else if Routed(s, a) then Applicable(s[TargetWindow(a)], a)
    else forall k | k in s :: Applicable(s[k], a)
  }

  /**
   * The windows reducer. `None` stands for an undefined state and for a
   * missing action.
   */
  method Reduce(state: Option<WindowsState>, action: Option<Action>) returns (r: WindowsState)
    requires state.Some? && action.Some? ==> Deliverable(state.value, action.value)
    ensures state.None? ==> r == map[]
    ensures state.Some? && action.None? ==> r == state.value
    ensures state.Some? && action.Some? && action.value.WindowOpened? ==>
      var s, w := state.value, action.value.window;
      && r.Keys == s.Keys + {w}
      && (forall k | k in s && k != w :: r[k] == s[k])
      && r[w].contextMenu == ContextMenu.Initial()
      && r[w].tabInstances.Keys == {TabInstanceStore.InitialTab}
      && r[w].tabInstances[TabInstanceStore.InitialTab]
         == TabInstanceStore.FreshTab(Entry(Some(action.value.initialURL), None), map[])
    ensures state.Some? && action.Some? && action.value.WindowClosed? ==>
      && r.Keys == state.value.Keys - {action.value.window}
      && forall k | k in r :: r[k] == state.value[k]
    ensures state.Some? && action.Some? && Routed(state.value, action.value) ==>
      var s, w := state.value, TargetWindow(action.value);
      && r.Keys == s.Keys
      && (forall k | k in s && k != w :: r[k] == s[k])
      && r[w] == ReduceWindow(s[w], action.value)
    ensures state.Some? && action.Some? && !action.value.WindowOpened? && !action.value.WindowClosed?
            && !Routed(state.value, action.value) ==>
      && r.Keys == state.value.Keys
      && forall k | k in r :: r[k] == ReduceWindow(state.value[k], action.value)
    ensures state.Some? && action == Some(Logout) ==>
      r.Keys == state.value.Keys && forall k | k in r :: r[k].tabInstances == map[]
  {
    if state.None? {
      return map[];
    }
    var s := state.value;
    if action.None? {
      return s;
    }
    var a := action.value;
    if a.WindowOpened? {
      var w := ReduceWindow(InitialWindow(), a);
      return s[a.window := w];
    }
    if a.WindowClosed? {
      return s - {a.window};
    }
    if TargetWindow(a) != "" && TargetWindow(a) in s {
      return s[TargetWindow(a) := ReduceWindow(s[TargetWindow(a)], a)];
    }
    // broadcast: fill a fresh state window by window
    r := map[];
    var pending := s.Keys;
    while pending != {}
      invariant pending <= s.Keys
      invariant r.Keys == s.Keys - pending
      invariant forall k | k in r :: r[k] == ReduceWindow(s[k], a)
      decreases pending
    {
      var k :| k in pending;
      r := r[k := ReduceWindow(s[k], a)];
      pending := pending - {k};
    }
  }
}
