/** The command registry and its handlers (internal/daemon/commands.go). The
  * daemon's state is a command context and the workspaces; the values the
  * handlers read from the X server (the active window, the current desktop,
  * the number of desktops) are passed in as a `Live` value, and parsing a
  * client id is an abstract function. */
module Commands {
  import opened Wrappers
  import opened Types
  import opened TilingStore
  import opened Workspaces
  import Strconv
  import TilingStoreFacts

  /** The actions a keybinding can trigger, registered under their names. */
  datatype KeybindAction =
    | TileAction
    | UntileAction
    | MakeActiveWindowMaster
    | SwitchLayoutAction
    | IncreaseMasterAction
    | DecreaseMasterAction
    | NextWindowAction
    | PreviousWindowAction
    | IncrementMasterAction
    | DecrementMasterAction

  const KeybindActions: map<string, KeybindAction> := map[
    "tile" := TileAction,
    "untile" := UntileAction,
    "make_active_window_master" := MakeActiveWindowMaster,
    "switch_layout" := SwitchLayoutAction,
    "increase_master" := IncreaseMasterAction,
    "decrease_master" := DecreaseMasterAction,
    "next_window" := NextWindowAction,
    "previous_window" := PreviousWindowAction,
    "increment_master" := IncrementMasterAction,
    "decrement_master" := DecrementMasterAction]

  /** The body a registered command runs. */
  datatype Handler =
    | StartNewSequence
    | Swap
    | Keybind(action: KeybindAction)
    | SetLayout
    | QueryLayout
    | ForWindow
    | ForWorkspace

  /** `CommandWrap`: a handler with the bounds on its argument count. */
  datatype CommandWrap = CommandWrap(minIn: nat, maxIn: nat, fn: Handler)

  /** `Commands`: one registry per command kind. */
  datatype Registry = Registry(
    actions: map<string, CommandWrap>,
    setters: map<string, CommandWrap>,
    queries: map<string, CommandWrap>,
    fors: map<string, CommandWrap>)

  const StartSequenceName: string := "__start_new_command_sequence"

  /** `InitCommands`: the built-in commands. The keybinding actions are
    * registered with zero-valued bounds. */
  function InitCommands(): Registry
  {
    var keybinds := map name | name in KeybindActions :: CommandWrap(0, 0, Keybind(KeybindActions[name]));
    var actions := keybinds + map[
      StartSequenceName := CommandWrap(0, 0, StartNewSequence),
      "swap" := CommandWrap(1, 2, Swap)];
    Registry(
      actions,
      map["layout" := CommandWrap(1, 1, SetLayout)],
      map["layout" := CommandWrap(0, 0, QueryLayout)],
      map["window" := CommandWrap(1, 1, ForWindow), "workspace" := CommandWrap(1, 1, ForWorkspace)])
  }

  /** `ValidateArgCount`: no error exactly inside the bounds; the error names
    * one count when the bounds agree and a range otherwise. */
  function ValidateArgCount(w: CommandWrap, count: nat): (err: Option<Error>)
    ensures err == None <==> w.minIn <= count <= w.maxIn
    ensures err != None ==>
      err == Some(IncorrectNumberOfArgs(count, if w.minIn == w.maxIn then Exactly(w.minIn) else Between(w.minIn, w.maxIn)))
  {
    if w.minIn <= count <= w.maxIn then None
    else if w.minIn == w.maxIn then Some(IncorrectNumberOfArgs(count, Exactly(w.minIn)))
    else Some(IncorrectNumberOfArgs(count, Between(w.minIn, w.maxIn)))
  }

  /** `Map`: the registry of a kind; none for a kind that is not routed. */
  function MapOf(reg: Registry, kind: CommandType): Option<map<string, CommandWrap>>
  {
    if kind == ActionType then Some(reg.actions)
    else if kind == SetType then Some(reg.setters)
    else if kind == QueryType then Some(reg.queries)
    else if kind == ForType then Some(reg.fors)
    else None
  }

  predicate IsRoutedKind(kind: CommandType)
  {
    kind == ActionType || kind == SetType || kind == QueryType || kind == ForType
  }

  /** `GetByName`: the command registered under this kind and name, if any. */
  function GetByName(reg: Registry, kind: CommandType, name: string): (r: Option<CommandWrap>)
    ensures r.Some? <==> IsRoutedKind(kind) && name in MapOf(reg, kind).value
    ensures r.Some? ==> r.value == MapOf(reg, kind).value[name]
  {
    match MapOf(reg, kind)
    case None => None
    case Some(m) => if name in m then Some(m[name]) else None
  }

  /** The lookup half of `Do`: an unknown kind and an unknown name are
    * different errors. */
  function Route(reg: Registry, cmd: Command): (r: Result<CommandWrap, Error>)
    ensures r == Err(UnknownCommandType) <==> !IsRoutedKind(cmd.kind)
    ensures r == Err(CommandNotExists) <==> IsRoutedKind(cmd.kind) && cmd.name !in MapOf(reg, cmd.kind).value
    ensures r.Ok? <==> GetByName(reg, cmd.kind, cmd.name).Some?
    ensures r.Ok? ==> r.value == GetByName(reg, cmd.kind, cmd.name).value
  {
    match MapOf(reg, cmd.kind)
    case None => Err(UnknownCommandType)
    case Some(m) => if cmd.name in m then Ok(m[cmd.name]) else Err(CommandNotExists)
  }

  /** The handlers that read their first argument. */
  predicate NeedsArgument(h: Handler)
  {
    h.Swap? || h.SetLayout? || h.ForWindow? || h.ForWorkspace?
  }

  /** A command whose bounds let its handler find the arguments it reads. */
  predicate Callable(w: CommandWrap)
  {
    NeedsArgument(w.fn) ==> w.minIn >= 1
  }

  predicate RegistryCallable(reg: Registry)
  {
    && (forall n :: n in reg.actions ==> Callable(reg.actions[n]))
    && (forall n :: n in reg.setters ==> Callable(reg.setters[n]))
    && (forall n :: n in reg.queries ==> Callable(reg.queries[n]))
    && (forall n :: n in reg.fors ==> Callable(reg.fors[n]))
  }

  /** `CommandContext`: the window and workspace the commands of a sequence
    * address. */
  datatype CommandContext = CommandContext(
    targetCid: ClientId,
    targetWorkspaceNum: nat,
    queriedCid: ClientId,
    queriedWorkspaceNum: nat)

  /** What the handlers read from the X server: the active window, the
    * current desktop and the number of desktops. */
  datatype Live = Live(activeWin: ClientId, currentDesk: nat, deskCount: nat)

  /** The outcome of `ParseClientId`: the id it returns and whether it
    * succeeded. */
  datatype ParsedId = ParsedId(id: ClientId, ok: bool)

  /** The value of the daemon: the context and every workspace. */
  datatype DaemonView = DaemonView(ctx: CommandContext, workspaces: map<nat, WorkspaceView>)

  /** One workspace per desktop, each valid, and a context that addresses
    * one of them. */
  ghost predicate DInv(d: DaemonView, deskCount: nat)
  {
    && (forall k: nat :: k in d.workspaces <==> k < deskCount)
    && (forall k :: k in d.workspaces ==> WInv(d.workspaces[k]))
    && d.ctx.targetWorkspaceNum < deskCount
  }

  /** What the handlers may rely on. */
  ghost predicate Ready(d: DaemonView, live: Live)
  {
    DInv(d, live.deskCount) && live.currentDesk < live.deskCount
  }

  /** A handler's result without messages or error. */
  const Done: CommandResult := CommandResult([], None)

  function Fail(e: Error): CommandResult
  {
    CommandResult([], Some(e))
  }

  /** The daemon with workspace `k` replaced. */
  function WithWorkspace(d: DaemonView, k: nat, w: WorkspaceView): DaemonView
  {
    d.(workspaces := d.workspaces[k := w])
  }

  /** The sequence-reset action: the context addresses the active window and
    * the current desktop again. */
  function StartSequenceSpec(live: Live, d: DaemonView): (DaemonView, CommandResult)
  {
    (d.(ctx := d.ctx.(targetCid := live.activeWin, targetWorkspaceNum := live.currentDesk)), Done)
  }

  /** The parse error of one client-id argument, if it failed. */
  function IdError(p: ParsedId, arg: string): seq<Error>
  {
    if p.ok then [] else [ClientIdParse(arg)]
  }

  /** `swap ID [ID]`: the second id defaults to the context's window; parse
    * errors are joined and nothing happens; otherwise the two windows change
    * places in the target workspace's active layout, which is then tiled,
    * unless one was not found there. */
  function SwapSpec(args: seq<string>, parse: string -> ParsedId, live: Live, d: DaemonView): (DaemonView, CommandResult)
    requires Ready(d, live) && |args| >= 1
  {
    var first := parse(args[0]);
    var second := if |args| == 1 then ParsedId(d.ctx.targetCid, true) else parse(args[1]);
    var errs := IdError(first, args[0]) + (if |args| == 1 then [] else IdError(second, args[1]));
    if errs != [] then (d, Fail(Joined(errs)))
    else
      var k := d.ctx.targetWorkspaceNum;
      var w := d.workspaces[k];
      var (s, found) := Swapped(ActiveStore(w), second.id, first.id);
      if !found then (d, Fail(ClientNotFound(args[0])))
      else
        TilingStoreFacts.SwapExchanges(ActiveStore(w), second.id, first.id);
        WithActiveStoreValid(w, s);
        (WithWorkspace(d, k, Tiled(WithActiveStore(w, s))), Done)
  }

  /** A keybinding action, on the context's workspace except for
    * `make_active_window_master`, which uses the current desktop and the
    * active window. */
  function KeybindSpec(a: KeybindAction, live: Live, d: DaemonView): (DaemonView, CommandResult)
    requires Ready(d, live)
  {
    var k := if a == MakeActiveWindowMaster then live.currentDesk else d.ctx.targetWorkspaceNum;
    var w := d.workspaces[k];
    var store := ActiveStore(w);
    var name := ActiveName(w);
    var made := MadeMaster(store, live.activeWin).0;
    TilingStoreFacts.QuotaChangesKeepOrder(store);
    TilingStoreFacts.MakeMasterExchanges(store, live.activeWin);
    WithActiveStoreValid(w, made);
    WithActiveStoreValid(w, IncMastered(store));
    WithActiveStoreValid(w, MasterDecreased(store));
    var w' := match a
      case TileAction => Tiled(w.(isTiling := true))
      case UntileAction => Untiled(w)
      case MakeActiveWindowMaster => Tiled(WithActiveStore(w, made))
      case SwitchLayoutAction => LayoutSwitched(w)
      case IncreaseMasterAction => Tiled(WithActiveStore(w, IncMastered(store)))
      case DecreaseMasterAction => Tiled(WithActiveStore(w, MasterDecreased(store)))
      case NextWindowAction => Record(w, NextClient(name))
      case PreviousWindowAction => Record(w, PreviousClient(name))
      case IncrementMasterAction => Tiled(Record(w, IncrementMaster(name)))
      case DecrementMasterAction => Tiled(Record(w, DecrementMaster(name)));
    (WithWorkspace(d, k, w'), Done)
  }

  /** `set layout NAME` on the current desktop: "none" untiles, any other name
    * goes to `SetLayoutByName` and gives back its error. */
  function SetLayoutSpec(args: seq<string>, live: Live, d: DaemonView): (DaemonView, CommandResult)
    requires Ready(d, live) && |args| >= 1
  {
    var k := live.currentDesk;
    var w := d.workspaces[k];
    if args[0] == "none" then (WithWorkspace(d, k, Untiled(w)), Done)
    else
      var (w', err) := LayoutSet(w, args[0]);
      (WithWorkspace(d, k, w'), CommandResult([], err))
  }

  /** `query layout` on the current desktop: the active layout's name while
    * tiling, "none" otherwise. */
  function QueryLayoutSpec(live: Live, d: DaemonView): (DaemonView, CommandResult)
    requires Ready(d, live)
  {
    var w := d.workspaces[live.currentDesk];
    (d, CommandResult(if w.isTiling then [ActiveName(w)] else ["none"], None))
  }

  /** `for window ID`: the context's window becomes whatever the parse gave,
    * even when it failed; the failure is still reported. */
  function ForWindowSpec(args: seq<string>, parse: string -> ParsedId, d: DaemonView): (DaemonView, CommandResult)
    requires |args| >= 1
  {
    var p := parse(args[0]);
    (d.(ctx := d.ctx.(targetCid := p.id)), CommandResult([], if p.ok then None else Some(ClientIdParse(args[0]))))
  }

  /** The error `for workspace N` reports, if any. */
  function WorkspaceNumberError(arg: string, deskCount: nat): Option<Error>
  {
    var (n, err) := Strconv.ParseUint(arg);
    if err.Some? then Some(WorkspaceNumberParse(arg))
    else if n >= deskCount then Some(WorkspaceNumberOutOfRange(arg))
    else None
  }

  /** `for workspace N` as written: the context's workspace becomes the
    * parsed number even when parsing failed (0, or 2^64 - 1 on overflow) or
    * the number is not a desktop. */
  function ForWorkspaceAsWritten(args: seq<string>, live: Live, d: DaemonView): (DaemonView, CommandResult)
    requires |args| >= 1
  {
    var (n, _) := Strconv.ParseUint(args[0]);
    (d.(ctx := d.ctx.(targetWorkspaceNum := n)), CommandResult([], WorkspaceNumberError(args[0], live.deskCount)))
  }

  /** `for workspace N` as evidently intended: the context changes only for
    * the number of an existing desktop; otherwise the error is reported and
    * nothing changes. */
  function ForWorkspaceSpec(args: seq<string>, live: Live, d: DaemonView): (DaemonView, CommandResult)
    requires |args| >= 1
  {
    var err := WorkspaceNumberError(args[0], live.deskCount);
    if err.Some? then (d, CommandResult([], err))
    else (d.(ctx := d.ctx.(targetWorkspaceNum := Strconv.ParseUint(args[0]).0)), Done)
  }

  /** What a handler does with its arguments. */
  function HandleSpec(h: Handler, args: seq<string>, parse: string -> ParsedId, live: Live, d: DaemonView): (DaemonView, CommandResult)
    requires Ready(d, live)
    requires NeedsArgument(h) ==> |args| >= 1
  {
    match h
    case StartNewSequence => StartSequenceSpec(live, d)
    case Swap => SwapSpec(args, parse, live, d)
    case Keybind(a) => KeybindSpec(a, live, d)
    case SetLayout => SetLayoutSpec(args, live, d)
    case QueryLayout => QueryLayoutSpec(live, d)
    case ForWindow => ForWindowSpec(args, parse, d)
    case ForWorkspace => ForWorkspaceSpec(args, live, d)
  }

  /** `Call`: the handler runs only on an argument count inside the bounds. */
  function CallSpec(w: CommandWrap, args: seq<string>, parse: string -> ParsedId, live: Live, d: DaemonView): (DaemonView, CommandResult)
    requires Ready(d, live) && Callable(w)
  {
    var err := ValidateArgCount(w, |args|);
    if err.Some? then (d, CommandResult([], err)) else HandleSpec(w.fn, args, parse, live, d)
  }

  /** `Do`: look the command up, then call it. */
  function DoSpec(reg: Registry, cmd: Command, parse: string -> ParsedId, live: Live, d: DaemonView): (DaemonView, CommandResult)
    requires Ready(d, live) && RegistryCallable(reg)
  {
    match Route(reg, cmd)
    case Err(e) => (d, Fail(e))
    case Ok(w) => CallSpec(w, cmd.args, parse, live, d)
  }
}
