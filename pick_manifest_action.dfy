/**
 * Asking the player which manifest action to launch: one big button per
 * action, a cancel button, and the index the dialog answers (or -1).
 */
module PickManifestAction {
  import opened Wrappers

  /** A manifest action; "" stands for a missing (or empty) name or icon. */
  datatype ManifestAction = ManifestAction(name: string, icon: string)

  /** The game fields the dialog shows. */
  datatype Game = Game(title: string, stillCoverUrl: Option<string>, coverUrl: Option<string>)

  /** A big button: its label key and default, the index its action carries, icon and class. */
  datatype BigButton = BigButton(labelKey: string, defaultValue: string, index: nat, icon: string, className: string)

  /** The dialog handed to the modal. */
  datatype Modal = Modal(window: string, title: string, stillCoverUrl: Option<string>, coverUrl: Option<string>,
                         message: string, bigButtons: seq<BigButton>, buttons: seq<string>)

  /** What the modal resolves to when the player picked a button. */
  datatype ModalResponse = ModalResponse(index: int)

  /** Either the error thrown for a nameless action, or the dialog shown and the index returned. */
  datatype Outcome = MissingName(actionIndex: nat) | Picked(modal: Modal, choice: int)

  /** The icon of a button: the action's own, else the default for its name, else "star". */
  function IconFor(action: ManifestAction, defaultIcons: map<string, string>): (r: string)
    ensures r != ""
    ensures action.icon != "" ==> r == action.icon
    ensures action.icon == "" && action.name in defaultIcons && defaultIcons[action.name] != "" ==>
      r == defaultIcons[action.name]
    ensures action.icon == "" && !(action.name in defaultIcons && defaultIcons[action.name] != "") ==> r == "star"
  {
    if action.icon != "" then action.icon
    else if action.name in defaultIcons && defaultIcons[action.name] != "" then defaultIcons[action.name]
    else "star"
  }

  /**
   * `pickManifestAction`. The modal is not shown here: `response` is what it
   * resolves to (`None` when it is dismissed).
   */
  method Pick(manifestActions: seq<ManifestAction>, game: Game, defaultIcons: map<string, string>,
              response: Option<ModalResponse>) returns (r: Outcome)
    ensures r.MissingName? <==> exists i | 0 <= i < |manifestActions| :: manifestActions[i].name == ""
    ensures r.MissingName? ==>
      && r.actionIndex < |manifestActions| && manifestActions[r.actionIndex].name == ""
      && forall j | 0 <= j < r.actionIndex :: manifestActions[j].name != ""
    ensures r.Picked? ==>
      var m := r.modal;
      && |m.bigButtons| == |manifestActions|
      && (forall i | 0 <= i < |manifestActions| ::
            var action, button := manifestActions[i], m.bigButtons[i];
            && button.index == i
            && button.labelKey == "action.name." + action.name
            && button.defaultValue == action.name
            && button.className == "action-" + action.name
            && button.icon != ""
            && (action.icon != "" ==> button.icon == action.icon)
            && (action.icon == "" && action.name in defaultIcons && defaultIcons[action.name] != "" ==>
                  button.icon == defaultIcons[action.name])
            && (action.icon == "" && !(action.name in defaultIcons && defaultIcons[action.name] != "") ==>
                  button.icon == "star"))
      && m.buttons == ["cancel"]
      && m.window == "root" && m.title == game.title && m.message == ""
      && m.stillCoverUrl == game.stillCoverUrl && m.coverUrl == game.coverUrl
    ensures r.Picked? ==> r.choice == if response.Some? then response.value.index else -1
  {
    var buttons: seq<string> := [];
    var bigButtons: seq<BigButton> := [];
    for index := 0 to |manifestActions|
      invariant |bigButtons| == index
      invariant forall j | 0 <= j < index :: manifestActions[j].name != ""
      invariant forall j | 0 <= j < index ::
        bigButtons[j] == BigButton("action.name." + manifestActions[j].name, manifestActions[j].name, j,
                                   IconFor(manifestActions[j], defaultIcons), "action-" + manifestActions[j].name)
    {
      var action := manifestActions[index];
      if action.name == "" {
        return MissingName(index);
      }
      var icon := IconFor(action, defaultIcons);
      bigButtons := bigButtons + [BigButton("action.name." + action.name, action.name, index, icon, "action-" + action.name)];
    }
    buttons := buttons + ["cancel"];
    var modal := Modal("root", game.title, game.stillCoverUrl, game.coverUrl, "", bigButtons, buttons);
    if response.Some? {
      return Picked(modal, response.value.index);
    }
    // a negative index means the launch is aborted
    return Picked(modal, -1);
  }
}
