/**
 * What access we have to a game and what operation is running on it,
 * decided from the game, its caves, download keys, tasks and downloads.
 */
module GameStatus {
  import opened Wrappers

  /** Our access to a game. `NoAccess` is the enum member `None`. */
  datatype Access = Free | Pwyw | Demo | Press | Key | Edit | NoAccess

  datatype OperationType = Download | Task

  /** The game fields the decision reads; `minPrice` is in cents (absent reads as 0). */
  datatype Game = Game(id: int, minPrice: int, canBeBought: bool, inPressSystem: bool)

  datatype Cave = Cave(id: string)

  datatype DownloadKey = DownloadKey(id: int)

  datatype GameUpdate = GameUpdate(itemId: string)

  datatype GameTask = GameTask(name: string, progress: real, eta: Option<real>, bps: Option<real>, stage: Option<string>)

  datatype PendingDownload = PendingDownload(id: string, caveId: string, reason: string)

  datatype DownloadProgress = DownloadProgress(progress: real, eta: Option<real>, bps: Option<real>, stage: Option<string>)

  /** The running operation; `null` progress fields are `None`. */
  datatype Operation = Operation(
    kind: OperationType,
    name: Option<string>,
    id: Option<string>,
    reason: Option<string>,
    active: bool,
    paused: bool,
    progress: Option<real>,
    eta: Option<real>,
    bps: Option<real>,
    stage: Option<string>)

  datatype Status = Status(
    downloadKey: Option<DownloadKey>,
    cave: Option<Cave>,
    numCaves: int,
    access: Access,
    operation: Option<Operation>,
    update: Option<GameUpdate>,
    compatible: bool)

  /** The access decision: price first, then a download key, then the press system. */
  function AccessFor(game: Game, hasKey: bool, pressUser: bool): (r: Access)
    ensures !(game.minPrice > 0) ==> (r == Pwyw <==> game.canBeBought) && (r == Free <==> !game.canBeBought)
    ensures game.minPrice > 0 && hasKey ==> r == Key
    ensures r == Press <==> game.minPrice > 0 && !hasKey && game.inPressSystem && pressUser
    ensures r == NoAccess <==> game.minPrice > 0 && !hasKey && !(game.inPressSystem && pressUser)
    ensures r != Demo && r != Edit
  {
    if !(game.minPrice > 0) then
      if game.canBeBought then Pwyw else Free
    else if hasKey then Key
    else if game.inPressSystem && pressUser then Press
    else NoAccess
  }

  /** The operation: a task wins over a download; neither gives none. */
  function OperationFor(task: Option<GameTask>, download: Option<PendingDownload>,
                        downloadProgress: Option<DownloadProgress>,
                        isDownloadActive: bool, areDownloadsPaused: bool): (r: Option<Operation>)
    ensures r.None? <==> task.None? && download.None?
    ensures task.Some? ==>
      var t, op := task.value, r.value;
      && op.kind == Task && op.name == Some(t.name) && op.active && !op.paused
      && op.progress == Some(t.progress) && op.eta == t.eta && op.bps == t.bps && op.stage == t.stage
    ensures task.None? && download.Some? ==>
      var d, op := download.value, r.value;
      && op.kind == Download && op.id == Some(d.id) && op.reason == Some(d.reason)
      && op.active == isDownloadActive && op.paused == areDownloadsPaused
      && (downloadProgress.None? ==> op.progress.None? && op.eta.None? && op.bps.None? && op.stage.None?)
      && (downloadProgress.Some? ==>
            var p := downloadProgress.value;
            op.progress == Some(p.progress) && op.eta == p.eta && op.bps == p.bps && op.stage == p.stage)
  {
    if task.Some? then
      var t := task.value;
      Some(Operation(Task, Some(t.name), None, None, true, false, Some(t.progress), t.eta, t.bps, t.stage))
    else if download.Some? then
      var d := download.value;
      var (progress, eta, bps, stage) :=
        match downloadProgress
        case Some(p) => (Some(p.progress), p.eta, p.bps, p.stage)
        case None => (None, None, None, None);
      Some(Operation(Download, None, Some(d.id), Some(d.reason), isDownloadActive, areDownloadsPaused,
                     progress, eta, bps, stage))
    else None
  }

  /**
   * `rawGetGameStatus`. `compatible` is what the platform check answers for
   * the game; it is passed in.
   */
  function RawGetGameStatus(game: Game, cave: Option<Cave>, numCaves: int, downloadKey: Option<DownloadKey>,
                            pressUser: bool, task: Option<GameTask>, download: Option<PendingDownload>,
                            downloadProgress: Option<DownloadProgress>, update: Option<GameUpdate>,
                            isDownloadActive: bool, areDownloadsPaused: bool, compatible: bool): (r: Status)
    ensures r.cave == cave && r.numCaves == numCaves && r.downloadKey == downloadKey
    ensures r.update == update && r.compatible == compatible
    ensures r.access == AccessFor(game, downloadKey.Some?, pressUser)
    ensures r.operation == OperationFor(task, download, downloadProgress, isDownloadActive, areDownloadsPaused)
  {
    Status(downloadKey, cave,  numCaves, AccessFor(game, downloadKey.Some?, pressUser),
           OperationFor(task, download, downloadProgress, isDownloadActive, areDownloadsPaused),
           update, compatible)
  }

  /** The first element of a list, as `first` gives it. */
  function First<T>(xs: seq<T>): Option<T> {
    if xs == [] then None else Some(xs[0])
  }

  /**
   * Which cave the status is about and how many the game has: a given cave
   * id is looked up directly and counts none; otherwise the game's caves
   * (`gameCaves`, as looked up by id) are counted and the first is taken.
   */
  function PickCave(caveId: Option<string>, caves: map<string, Cave>, gameCaves: seq<Cave>): (r: (Option<Cave>, int))
    ensures Present(caveId) ==> r.1 == 0 && (r.0.Some? <==> caveId.value in caves)
    ensures Present(caveId) && caveId.value in caves ==> r.0 == Some(caves[caveId.value])
    ensures !Present(caveId) ==> r.1 == |gameCaves| && (r.0.Some? <==> gameCaves != [])
    ensures !Present(caveId) && gameCaves != [] ==> r.0 == Some(gameCaves[0])
  {
    if Present(caveId) then
      (if caveId.value in caves then Some(caves[caveId.value]) else None, 0)
    else (First(gameCaves), |gameCaves|)
  }

  /** The position of the first pending download for `caveId`, `|pending|` when there is none. */
  function FirstForCave(pending: seq<PendingDownload>, caveId: string): (i: nat)
    ensures i <= |pending|
    ensures forall j | 0 <= j < i :: pending[j].caveId != caveId
    ensures i < |pending| ==> pending[i].caveId == caveId
    decreases |pending|
  {
    if pending == [] || pending[0].caveId == caveId then 0
    else 1 + FirstForCave(pending[1..], caveId)
  }

  /** `findWhere(pending, { caveId })`: the first pending download for that cave. */
  function FindForCave(pending: seq<PendingDownload>, caveId: string): (r: Option<PendingDownload>)
    ensures r.None? <==> forall i | 0 <= i < |pending| :: pending[i].caveId != caveId
    ensures r.Some? ==> r.value in pending && r.value.caveId == caveId
    ensures r.Some? ==> exists i | 0 <= i < |pending| ::
      pending[i] == r.value && forall j | 0 <= j < i :: pending[j].caveId != caveId
  {
    var i := FirstForCave(pending, caveId);
    if i < |pending| then Some(pending[i]) else None
  }

  /**
   * `getGameStatus` over the results of the lookups it delegates: the game's
   * caves and download keys by id, its tasks, its pending downloads, the id
   * of the active download, whether downloads are paused, the progress
   * records, the updates by cave id and the platform check.
   */
  function GetGameStatus(game: Game, caveId: Option<string>, caves: map<string, Cave>, gameCaves: seq<Cave>,
                         downloadKeys: seq<DownloadKey>, pressUser: bool, tasks: seq<GameTask>,
                         pending: seq<PendingDownload>, activeDownloadId: string, downloadsPaused: bool,
                         progresses: map<string, DownloadProgress>, updates: map<string, GameUpdate>,
                         compatible: bool): (r: Status)
    ensures Present(caveId) ==> r.numCaves == 0
    ensures Present(caveId) ==> r.cave == (if caveId.value in caves then Some(caves[caveId.value]) else None)
    ensures !Present(caveId) ==> r.numCaves == |gameCaves| && r.cave == First(gameCaves)
    ensures r.downloadKey == First(downloadKeys)
    ensures r.update.Some? ==> r.cave.Some? && r.cave.value.id in updates && r.update == Some(updates[r.cave.value.id])
    ensures r.cave.Some? && r.cave.value.id in updates ==> r.update == Some(updates[r.cave.value.id])
    ensures tasks == [] && pending == [] ==> r.operation.None?
    ensures tasks != [] ==> r.operation.Some? && r.operation.value.name == Some(tasks[0].name)
    ensures tasks == [] && Present(caveId) && r.operation.Some? ==>
      var i := FirstForCave(pending, caveId.value);
      && i < |pending| && pending[i].caveId == caveId.value
      && (forall j | 0 <= j < i :: pending[j].caveId != caveId.value)
      && r.operation.value.kind == Download && r.operation.value.id == Some(pending[i].id)
      && r.operation.value.active == (pending[i].id == activeDownloadId)
      && r.operation.value.paused == downloadsPaused
    ensures tasks != [] ==> r.operation.Some? && r.operation.value.kind == Task
    ensures tasks == [] && Present(caveId) ==>
      (r.operation.None? <==> forall i | 0 <= i < |pending| :: pending[i].caveId != caveId.value)
    ensures tasks == [] && !Present(caveId) && pending != [] ==>
      && r.operation.Some? && r.operation.value.id == Some(pending[0].id)
      && r.operation.value.active == (pending[0].id == activeDownloadId)
      && r.operation.value.paused == downloadsPaused
  {
    var (cave, numCaves) := PickCave(caveId, caves, gameCaves);
    var download := if Present(caveId) then FindForCave(pending, caveId.value) else First(pending);
    var (isActive, paused, progress) :=
      if download.Some? then
        (download.value.id == activeDownloadId, downloadsPaused,
         if download.value.id in progresses then Some(progresses[download.value.id]) else None)
      else (false, false, None);
    var update := if cave.Some? && cave.value.id in updates then Some(updates[cave.value.id]) else None;
    RawGetGameStatus(game, cave, numCaves, First(downloadKeys), pressUser, First(tasks), download, progress,
                     update, isActive, paused, compatible)
  }
}
