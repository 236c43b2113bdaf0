/** The closed set of actions the window/tab reducers react to. */
module Actions {
  import opened Wrappers
  import opened Types

  /**
   * An action with its payload. `window` is the payload's `window` field,
   * "" when the payload names no window (or a falsy one). `Other` stands for
   * every action none of these reducers handles.
   */
  datatype Action =
    | WindowOpened(window: string, initialURL: string)
    | WindowClosed(window: string)
    | OpenTab(window: string, tab: string, url: Option<string>, resource: Option<string>, data: TabData)
    | CloseTab(window: string, tab: string)
    | FocusTab(window: string, tab: string)
    | TabGotWebContents(window: string, tab: string, webContentsId: int)
    | TabDataFetched(window: string, tab: string, data: TabData, shallow: bool)
    | EvolveTab(window: string, tab: string, url: Option<string>, resource: Option<string>, data: TabData, replace: bool)
    | TabGoBack(window: string, tab: string)
    | TabGoForward(window: string, tab: string)
    | Logout
    | TabsRestored(window: string, items: seq<SavedTab>)
    | PopupContextMenu(window: string, clientX: int, clientY: int, template: seq<Value>)
    | CloseContextMenu(window: string)
    | Other(window: string)

  /** The window the payload names, "" when it names none. */
  function TargetWindow(a: Action): string {
    if a.Logout? then "" else a.window
  }

  /** Actions whose payload names a single tab. */
  predicate TabScoped(a: Action) {
    a.OpenTab? || a.CloseTab? || a.FocusTab? || a.TabGotWebContents? || a.TabDataFetched?
    || a.EvolveTab? || a.TabGoBack? || a.TabGoForward?
  }
}
