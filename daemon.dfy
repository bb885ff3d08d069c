/** The command registry at run time (internal/daemon/commands.go): the
  * context the handlers change, the workspace of every desktop, and `Do`
  * with the handlers of `InitCommands`, each proved to do what its
  * specification in module Commands says. */
module CommandRuntime {
  import opened Wrappers
  import opened Types
  import opened TilingStore
  import opened Workspaces
  import opened Commands
  import Strconv
  import TilingStoreFacts
  import CommandFacts

  class Daemon {
    /** The command context the handlers address and change. */
    var ctx: CommandContext
    /** The workspace of every desktop, as its value. */
    var workspaces: map<nat, WorkspaceView>
    const commands: Registry
    /** The number of desktops when the workspaces were created. */
    const deskCount: nat

    function View(): DaemonView
      reads this
    {
      DaemonView(ctx, workspaces)
    }

    /** The value keeps the daemon's invariant and every command can be
      * called. */
    ghost predicate Valid()
      reads this
    {
      DInv(View(), deskCount) && RegistryCallable(commands)
    }

    /** The live values agree with the desktops the daemon was built for. */
    predicate Current(live: Live)
    {
      live.deskCount == deskCount && live.currentDesk < deskCount
    }

    /** `InitCommands` over the tracker's workspaces: the context addresses
      * the active window on the current desktop, and the registry holds the
      * built-in commands. */
    constructor (live: Live, tracked: map<nat, WorkspaceView>)
      requires live.currentDesk < live.deskCount
      requires forall k: nat :: k in tracked <==> k < live.deskCount
      requires forall k :: k in tracked ==> WInv(tracked[k])
      ensures Valid() && Current(live) && commands == InitCommands()
      ensures View() == DaemonView(CommandContext(live.activeWin, live.currentDesk, 0, 0), tracked)
    {
      commands := InitCommands();
      workspaces := tracked;
      deskCount := live.deskCount;
      ctx := CommandContext(live.activeWin, live.currentDesk, 0, 0);
      new;
      CommandFacts.BuiltinsCallable();
    }

    /** `__start_new_command_sequence`. */
    method StartNewSequence(live: Live) returns (res: CommandResult)
      requires Valid() && Current(live)
      modifies this
      ensures Valid()
      ensures (View(), res) == StartSequenceSpec(live, old(View()))
    {
      ctx := ctx.(targetCid := live.activeWin, targetWorkspaceNum := live.currentDesk);
      res := Done;
    }

    /** `for window ID`. */
    method ForWindow(args: seq<string>, parse: string -> ParsedId) returns (res: CommandResult)
      requires Valid() && |args| >= 1
      modifies this
      ensures Valid()
      ensures (View(), res) == ForWindowSpec(args, parse, old(View()))
    {
      var p := parse(args[0]);
      var err := if p.ok then None else Some(ClientIdParse(args[0]));
      ctx := ctx.(targetCid := p.id);
      res := CommandResult([], err);
    }

    /** `for workspace N`, changing the context only for an existing desktop. */
    method ForWorkspace(args: seq<string>, live: Live) returns (res: CommandResult)
      requires Valid() && Current(live) && |args| >= 1
      modifies this
      ensures Valid()
      ensures (View(), res) == ForWorkspaceSpec(args, live, old(View()))
    {
      var (n, perr) := Strconv.ParseUint(args[0]);
      if perr.Some? {
        return Fail(WorkspaceNumberParse(args[0]));
      } else if n >= live.deskCount {
        return Fail(WorkspaceNumberOutOfRange(args[0]));
      }
      ctx := ctx.(targetWorkspaceNum := n);
      res := Done;
    }

    /** `query layout`: changes nothing. */
    method QueryLayout(live: Live) returns (res: CommandResult)
      requires Valid() && Current(live)
      ensures res == QueryLayoutSpec(live, View()).1
    {
      var w := workspaces[live.currentDesk];
      if w.isTiling {
        res := CommandResult([ActiveName(w)], None);
      } else {
        res := CommandResult(["none"], None);
      }
    }

    /** `set layout NAME` on the current desktop. */
    method SetLayout(args: seq<string>, live: Live) returns (res: CommandResult)
      requires Valid() && Current(live) && |args| >= 1
      modifies this
      ensures Valid()
      ensures (View(), res) == SetLayoutSpec(args, live, old(View()))
    {
      var k := live.currentDesk;
      var w := workspaces[k];
      if args[0] == "none" {
        workspaces := workspaces[k := Untiled(w)];
        res := Done;
      } else {
        var (w', err) := LayoutSet(w, args[0]);
        SetLayoutSelects(w, args[0]);
        workspaces := workspaces[k := w'];
        res := CommandResult([], err);
      }
    }

    /** `swap ID [ID]` on the active layout of the context's workspace. */
    method Swap(args: seq<string>, parse: string -> ParsedId, live: Live) returns (res: CommandResult)
      requires Valid() && Current(live) && 1 <= |args|
      modifies this
      ensures Valid()
      ensures (View(), res) == SwapSpec(args, parse, live, old(View()))
    {
      var first := parse(args[0]);
      var second := if |args| == 1 then ParsedId(ctx.targetCid, true) else parse(args[1]);
      var errs := IdError(first, args[0]) + (if |args| == 1 then [] else IdError(second, args[1]));
      if errs != [] {
        return Fail(Joined(errs));
      }
      var k := ctx.targetWorkspaceNum;
      var w := workspaces[k];
      var (s, success) := Swapped(ActiveStore(w), second.id, first.id);
      if !success {
        return Fail(ClientNotFound(args[0]));
      }
      TilingStoreFacts.SwapExchanges(ActiveStore(w), second.id, first.id);
      WithActiveStoreValid(w, s);
      CommandFacts.WithWorkspaceKeepsInvariant(View(), deskCount, k, Tiled(WithActiveStore(w, s)));
      workspaces := workspaces[k := Tiled(WithActiveStore(w, s))];
      res := Done;
    }

    /** A keybinding action: on the context's workspace, except
      * `make_active_window_master`, which acts on the current desktop and
      * the active window. */
    method Keybind(a: KeybindAction, live: Live) returns (res: CommandResult)
      requires Valid() && Current(live)
      modifies this
      ensures Valid()
      ensures (View(), res) == KeybindSpec(a, live, old(View()))
    {
      var k := if a == MakeActiveWindowMaster then live.currentDesk else ctx.targetWorkspaceNum;
      var w := workspaces[k];
      var store := ActiveStore(w);
      var name := ActiveName(w);
      var w': WorkspaceView;
      match a {
      case TileAction =>
        w' := Tiled(w.(isTiling := true));
      case UntileAction =>
        w' := Untiled(w);
      case MakeActiveWindowMaster =>
        var (made, _) := MadeMaster(store, live.activeWin);
        TilingStoreFacts.MakeMasterExchanges(store, live.activeWin);
        WithActiveStoreValid(w, made);
        w' := Tiled(WithActiveStore(w, made));
      case SwitchLayoutAction =>
        w' := LayoutSwitched(w);
      case IncreaseMasterAction =>
        TilingStoreFacts.QuotaChangesKeepOrder(store);
        WithActiveStoreValid(w, IncMastered(store));
        w' := Tiled(WithActiveStore(w, IncMastered(store)));
      case DecreaseMasterAction =>
        TilingStoreFacts.QuotaChangesKeepOrder(store);
        WithActiveStoreValid(w, MasterDecreased(store));
        w' := Tiled(WithActiveStore(w, MasterDecreased(store)));
      case NextWindowAction =>
        w' := Record(w, NextClient(name));
      case PreviousWindowAction =>
        w' := Record(w, PreviousClient(name));
      case IncrementMasterAction =>
        w' := Tiled(Record(w, IncrementMaster(name)));
      case DecrementMasterAction =>
        w' := Tiled(Record(w, DecrementMaster(name)));
      }
      CommandFacts.WithWorkspaceKeepsInvariant(View(), deskCount, k, w');
      workspaces := workspaces[k := w'];
      res := Done;
    }

    /** The handler of a registered command, on arguments it can read. */
    method Handle(h: Handler, args: seq<string>, parse: string -> ParsedId, live: Live) returns (res: CommandResult)
      requires Valid() && Current(live)
      requires NeedsArgument(h) ==> |args| >= 1
      modifies this
      ensures Valid()
      ensures (View(), res) == HandleSpec(h, args, parse, live, old(View()))
    {
      match h
      case StartNewSequence => res := StartNewSequence(live);
      case Swap => res := Swap(args, parse, live);
      case Keybind(a) => res := Keybind(a, live);
      case SetLayout => res := SetLayout(args, live);
      case QueryLayout => res := QueryLayout(live);
      case ForWindow => res := ForWindow(args, parse);
      case ForWorkspace => res := ForWorkspace(args, live);
    }

    /** `Call`: the argument count is checked before the handler runs. */
    method Call(w: CommandWrap, args: seq<string>, parse: string -> ParsedId, live: Live) returns (res: CommandResult)
      requires Valid() && Current(live) && Callable(w)
      modifies this
      ensures Valid()
      ensures (View(), res) == CallSpec(w, args, parse, live, old(View()))
    {
      var err := ValidateArgCount(w, |args|);
      if err.Some? {
        return CommandResult([], err);
      }
      res := Handle(w.fn, args, parse, live);
    }

    /** `Do`: the command is looked up by kind and name, then called. */
    method Do(cmd: Command, parse: string -> ParsedId, live: Live) returns (res: CommandResult)
      requires Valid() && Current(live)
      modifies this
      ensures Valid()
      ensures (View(), res) == DoSpec(commands, cmd, parse, live, old(View()))
    {
      var m := MapOf(commands, cmd.kind);
      if m.None? {
        return Fail(UnknownCommandType);
      }
      if cmd.name !in m.value {
        return Fail(CommandNotExists);
      }
      res := Call(m.value[cmd.name], cmd.args, parse, live);
    }
  }
}
