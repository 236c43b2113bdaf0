/**
 * The values the window/tab session state is made of: JSON-like tab data,
 * navigation entries, tab instances and the persisted snapshot items.
 */
module Types {
  import opened Wrappers

  /** A JSON-like JavaScript value, as stored in a tab's data buckets. */
  datatype Value =
    | Null
    | Bool(b: bool)
    | Num(n: int)
    | Str(s: string)
    | Arr(items: seq<Value>)
    | Obj(fields: map<string, Value>)

  /** A tab's data: named buckets (`users`, `games`, `web`, ...). */
  type TabData = map<string, Value>

  /** One entry of a tab's navigation history: `{ url, resource? }`. */
  datatype Entry = Entry(url: Option<string>, resource: Option<string>)

  /**
   * A tab instance. Every field is optional because the store also holds
   * placeholders (only `webContentsId`) and restored tabs copied verbatim.
   * `sleepy` is true when the `sleepy: true` key is present; `omit(.., "sleepy")`
   * makes it false.
   */
  datatype TabInstance = TabInstance(
    history: Option<seq<Entry>>,
    currentIndex: Option<int>,
    sleepy: bool,
    data: Option<TabData>,
    webContentsId: Option<int>)

  /** The tab instance store of one window: tab id to tab instance. */
  type TabInstances = map<string, TabInstance>

  /**
   * One item of a persisted snapshot. `NotAnObject` is a primitive item,
   * `NullItem` is `null` (whose `typeof` is "object"), `Saved` a record; an
   * `id` of "" stands for a missing or falsy id.
   */
  datatype SavedTab =
    | NotAnObject
    | NullItem
    | Saved(id: string, history: Option<seq<Entry>>, currentIndex: Option<int>, webContentsId: Option<int>)
}
