/** The active tool list of a chat: toggling a tool, saving the list (to
    the chat and as the default for new chats) with a revert on failure,
    and loading it with its fallbacks. Backend calls are parameters:
    `None` when the call succeeds, `Some(e)` for the error it throws. */
module Tools {
  import opened Common

  /** `ids.filter(x => x !== id)` */
  function RemoveAll(ids: seq<string>, id: string): (r: seq<string>)
    ensures forall x :: x in r <==> x in ids && x != id
  {
    if ids == [] then [] else (if ids[0] == id then [] else [ids[0]]) + RemoveAll(ids[1..], id)
  }

  /** The list `toggleTool` shows right away. */
  function Toggle(ids: seq<string>, id: string): (r: seq<string>)
    ensures id in ids ==> id !in r
    ensures id !in ids ==> r == ids + [id]
    ensures forall x :: x != id ==> (x in r <==> x in ids)
  {
    if id in ids then RemoveAll(ids, id) else ids + [id]
  }

  lemma {:induction false} RemoveAllAbsent(ids: seq<string>, id: string)
    requires id !in ids
    ensures RemoveAll(ids, id) == ids
  {
    if ids != [] {
      RemoveAllAbsent(ids[1..], id);
      assert ids == [ids[0]] + ids[1..];
    }
  }

  lemma {:induction false} RemoveAllAppend(ids: seq<string>, id: string)
    ensures RemoveAll(ids + [id], id) == RemoveAll(ids, id)
  {
    if ids == [] {
      assert RemoveAll([id], id) == [] + RemoveAll([], id);
    } else {
      assert (ids + [id])[1..] == ids[1..] + [id];
      RemoveAllAppend(ids[1..], id);
    }
  }

  /** Toggling twice gives back the same tools: exactly the same list when
      the tool was off, and the same set (with the tool moved to the end)
      when it was on. */
  lemma ToggleTwice(ids: seq<string>, id: string)
    ensures forall x :: x in Toggle(Toggle(ids, id), id) <==> x in ids
    ensures id !in ids ==> Toggle(Toggle(ids, id), id) == ids
  {
    if id !in ids {
      RemoveAllAppend(ids, id);
      RemoveAllAbsent(ids, id);
    }
  }

  /** A save request `toggleTool` makes, in the order it makes them. */
  datatype Save = ChatTools(chatId: string, ids: seq<string>) | DefaultTools(ids: seq<string>)

  /** The result of a toggle: the list finally shown and the saves attempted. */
  datatype ToggleOutcome = ToggleOutcome(shown: seq<string>, saves: seq<Save>)

  /** `toggleTool`: show the toggled list, save it to the open chat (if any)
      and then as the default; if a save throws, show the old list again. */
  function ToggleTool(ids: seq<string>, chatId: string, id: string,
                      chatError: Option<string>, defaultError: Option<string>): (r: ToggleOutcome)
    ensures r.shown == ids || r.shown == Toggle(ids, id)
    ensures forall s :: s in r.saves ==> s.ids == Toggle(ids, id)
  {
    var next := Toggle(ids, id);
    if chatId != "" && chatError.Some? then ToggleOutcome(ids, [ChatTools(chatId, next)])
    else
      var chatSaves := if chatId != "" then [ChatTools(chatId, next)] else [];
      var saves := chatSaves + [DefaultTools(next)];
      if defaultError.Some? then ToggleOutcome(ids, saves) else ToggleOutcome(next, saves)
  }

  /** The toggled list stays exactly when every save it attempted succeeded;
      the chat save is attempted only for an open chat, and the default save
      follows unless the chat save threw. */
  lemma ToggleToolSaves(ids: seq<string>, chatId: string, id: string, chatError: Option<string>, defaultError: Option<string>)
    ensures var r := ToggleTool(ids, chatId, id, chatError, defaultError);
      var chatFailed := chatId != "" && chatError.Some?;
      (r.shown == Toggle(ids, id) || r.shown == ids) &&
      (!chatFailed && defaultError.None? ==> r.shown == Toggle(ids, id)) &&
      (chatFailed || defaultError.Some? ==> r.shown == ids) &&
      (ChatTools(chatId, Toggle(ids, id)) in r.saves <==> chatId != "") &&
      (DefaultTools(Toggle(ids, id)) in r.saves <==> !chatFailed) &&
      (r.saves != [] && r.saves[0].ChatTools? ==> chatId != "")
  {
  }

  /** What a list request returned: the ids (`None` when the field is
      missing, read as `[]`), or the error it threw. */
  type Fetched = Result<Option<seq<string>>, string>

  function IdsOr(f: Fetched): seq<string>
    requires f.Success?
  {
    f.value.GetOr([])
  }

  /** `loadActiveTools`: the defaults for a new chat; the chat's own list for
      an open chat, falling back to the defaults when that request throws;
      and `[]` when the defaults request throws. */
  function LoadActiveTools(chatId: string, chatConfig: Fetched, defaults: Fetched): (r: seq<string>)
    ensures chatId == "" ==> r == (if defaults.Success? then IdsOr(defaults) else [])
    ensures chatId != "" && chatConfig.Success? ==> r == IdsOr(chatConfig)
    ensures chatId != "" && chatConfig.Failure? ==> r == (if defaults.Success? then IdsOr(defaults) else [])
  {
    if chatId == "" then
      match defaults
      case Success(v) => v.GetOr([])
      case Failure(_) => []
    else
      match chatConfig
      case Success(v) => v.GetOr([])
      case Failure(_) =>
        match defaults
        case Success(v) => v.GetOr([])
        case Failure(_) => []
  }

  /** The loaded list always comes from a request that succeeded, or is
      empty; an open chat's own list wins whenever it loads. */
  lemma LoadedFromSomeSource(chatId: string, chatConfig: Fetched, defaults: Fetched)
    ensures var r := LoadActiveTools(chatId, chatConfig, defaults);
      r == [] ||
      (chatId != "" && chatConfig.Success? && r == IdsOr(chatConfig)) ||
      (defaults.Success? && r == IdsOr(defaults))
    ensures chatId == "" ==> LoadActiveTools(chatId, chatConfig, defaults) == LoadActiveTools(chatId, Failure(""), defaults)
  {
  }
}
