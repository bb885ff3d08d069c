/** What the registry and the handlers promise, proved about their
  * specifications in module Commands. */
module CommandFacts {
  import opened Wrappers
  import opened Types
  import opened TilingStore
  import opened Workspaces
  import opened Commands
  import Strconv
  import TilingStoreFacts

  /** Each keybinding action is registered under its name. */
  lemma KeybindsRegistered()
    ensures forall name :: name in KeybindActions ==>
      name in InitCommands().actions && InitCommands().actions[name] == CommandWrap(0, 0, Keybind(KeybindActions[name]))
  {
    var reg := InitCommands();
    forall name | name in KeybindActions
      ensures name in reg.actions && reg.actions[name] == CommandWrap(0, 0, Keybind(KeybindActions[name]))
    {
      assert name != StartSequenceName && name != "swap";
    }
  }

  /** Every built-in command's bounds let its handler read what it reads. */
  lemma BuiltinsCallable()
    ensures RegistryCallable(InitCommands())
  {
    var keybinds := map name | name in KeybindActions :: CommandWrap(0, 0, Keybind(KeybindActions[name]));
    var others := map[StartSequenceName := CommandWrap(0, 0, StartNewSequence), "swap" := CommandWrap(1, 2, Swap)];
    assert InitCommands().actions == keybinds + others;
    forall name | name in keybinds + others ensures Callable((keybinds + others)[name]) {
      if name in others {
        assert others[name].fn.StartNewSequence? || others[name] == CommandWrap(1, 2, Swap);
      } else {
        assert (keybinds + others)[name] == keybinds[name];
      }
    }
  }

  /** A keybinding action is found under its name with zero bounds, and so
    * accepts exactly zero arguments. */
  lemma KeybindsTakeNoArguments(name: string, n: nat)
    requires name in KeybindActions
    ensures GetByName(InitCommands(), ActionType, name) == Some(CommandWrap(0, 0, Keybind(KeybindActions[name])))
    ensures ValidateArgCount(InitCommands().actions[name], n) == None <==> n == 0
  {
    KeybindsRegistered();
  }

  /** A command that is not found, or whose argument count is out of bounds,
    * changes nothing and reports why: an unrouted kind, an unregistered name
    * and a bad count are told apart. */
  lemma DoRejects(reg: Registry, cmd: Command, parse: string -> ParsedId, live: Live, d: DaemonView)
    requires Ready(d, live) && RegistryCallable(reg)
    ensures !IsRoutedKind(cmd.kind) ==> DoSpec(reg, cmd, parse, live, d) == (d, Fail(UnknownCommandType))
    ensures IsRoutedKind(cmd.kind) && GetByName(reg, cmd.kind, cmd.name).None? ==>
      DoSpec(reg, cmd, parse, live, d) == (d, Fail(CommandNotExists))
    ensures GetByName(reg, cmd.kind, cmd.name).Some? ==>
      var w := GetByName(reg, cmd.kind, cmd.name).value;
      !(w.minIn <= |cmd.args| <= w.maxIn) ==>
        DoSpec(reg, cmd, parse, live, d) == (d, CommandResult([], ValidateArgCount(w, |cmd.args|)))
    ensures DoSpec(reg, cmd, parse, live, d).1.err == Some(UnknownCommandType) ==> !IsRoutedKind(cmd.kind)
  {
    match Route(reg, cmd)
    case Err(e) =>
    case Ok(w) =>
      assert Callable(w) by {
        if cmd.kind == ActionType { assert cmd.name in reg.actions; }
        else if cmd.kind == SetType { assert cmd.name in reg.setters; }
        else if cmd.kind == QueryType { assert cmd.name in reg.queries; }
        else { assert cmd.name in reg.fors; }
      }
      if w.minIn <= |cmd.args| <= w.maxIn {
        HandleResultNotUnknownType(w.fn, cmd.args, parse, live, d);
      }
  }

  /** No handler reports an unknown command type. */
  lemma HandleResultNotUnknownType(h: Handler, args: seq<string>, parse: string -> ParsedId, live: Live, d: DaemonView)
    requires Ready(d, live) && (NeedsArgument(h) ==> |args| >= 1)
    ensures HandleSpec(h, args, parse, live, d).1.err != Some(UnknownCommandType)
  {
    if h.SetLayout? && args[0] != "none" {
      var w := d.workspaces[live.currentDesk];
      SetLayoutSelects(w, args[0]);
    }
  }

  /** Replacing one desktop's workspace by a valid one keeps the daemon's
    * invariant. */
  lemma WithWorkspaceKeepsInvariant(d: DaemonView, deskCount: nat, k: nat, w: WorkspaceView)
    requires DInv(d, deskCount) && k in d.workspaces && WInv(w)
    ensures DInv(WithWorkspace(d, k, w), deskCount)
  {
  }

  /** Every keybinding action keeps the daemon's invariant. */
  lemma KeybindKeepsInvariant(a: KeybindAction, live: Live, d: DaemonView)
    requires Ready(d, live)
    ensures Ready(KeybindSpec(a, live, d).0, live)
  {
    var k := if a == MakeActiveWindowMaster then live.currentDesk else d.ctx.targetWorkspaceNum;
    var d' := KeybindSpec(a, live, d).0;
    assert d' == WithWorkspace(d, k, d'.workspaces[k]);
    WithWorkspaceKeepsInvariant(d, live.deskCount, k, d'.workspaces[k]);
  }

  /** `swap` keeps the daemon's invariant. */
  lemma SwapKeepsInvariant(args: seq<string>, parse: string -> ParsedId, live: Live, d: DaemonView)
    requires Ready(d, live) && |args| >= 1
    ensures Ready(SwapSpec(args, parse, live, d).0, live)
  {
  }

  /** `set layout` keeps the daemon's invariant. */
  lemma SetLayoutKeepsInvariant(args: seq<string>, live: Live, d: DaemonView)
    requires Ready(d, live) && |args| >= 1
    ensures Ready(SetLayoutSpec(args, live, d).0, live)
  {
    if args[0] != "none" {
      SetLayoutSelects(d.workspaces[live.currentDesk], args[0]);
    }
  }

  /** `for workspace` keeps the daemon's invariant. */
  lemma ForWorkspaceKeepsInvariant(args: seq<string>, live: Live, d: DaemonView)
    requires Ready(d, live) && |args| >= 1
    ensures Ready(ForWorkspaceSpec(args, live, d).0, live)
  {
    Strconv.ParseUintAccepts(args[0]);
  }

  /** Every handler keeps the daemon's invariant: a valid workspace per
    * desktop, and a context addressing one. */
  lemma HandleKeepsInvariant(h: Handler, args: seq<string>, parse: string -> ParsedId, live: Live, d: DaemonView)
    requires Ready(d, live) && (NeedsArgument(h) ==> |args| >= 1)
    ensures DInv(HandleSpec(h, args, parse, live, d).0, live.deskCount)
  {
    match h
    case StartNewSequence =>
    case Swap => SwapKeepsInvariant(args, parse, live, d);
    case Keybind(a) => KeybindKeepsInvariant(a, live, d);
    case SetLayout => SetLayoutKeepsInvariant(args, live, d);
    case QueryLayout =>
    case ForWindow =>
    case ForWorkspace => ForWorkspaceKeepsInvariant(args, live, d);
  }

  /** `Do` keeps the daemon's invariant, so every later command finds the
    * workspace its context addresses. */
  lemma DoKeepsInvariant(reg: Registry, cmd: Command, parse: string -> ParsedId, live: Live, d: DaemonView)
    requires Ready(d, live) && RegistryCallable(reg)
    ensures DInv(DoSpec(reg, cmd, parse, live, d).0, live.deskCount)
  {
    match Route(reg, cmd)
    case Err(e) =>
    case Ok(w) =>
      assert Callable(w) by {
        if cmd.kind == ActionType { assert cmd.name in reg.actions; }
        else if cmd.kind == SetType { assert cmd.name in reg.setters; }
        else if cmd.kind == QueryType { assert cmd.name in reg.queries; }
        else { assert cmd.name in reg.fors; }
      }
      if w.minIn <= |cmd.args| <= w.maxIn {
        HandleKeepsInvariant(w.fn, cmd.args, parse, live, d);
      }
  }

  /** `swap`: a parse failure is reported as a joined error; otherwise the
    * swap succeeds exactly when the two ids differ and both are in the
    * target workspace's active layout, where they then change places. Any
    * failure changes nothing. */
  lemma SwapOutcome(args: seq<string>, parse: string -> ParsedId, live: Live, d: DaemonView)
    requires Ready(d, live) && 1 <= |args| <= 2
    ensures var (d', res) := SwapSpec(args, parse, live, d);
      var first := parse(args[0]);
      var second := if |args| == 1 then d.ctx.targetCid else parse(args[1]).id;
      var k := d.ctx.targetWorkspaceNum;
      var store := ActiveStore(d.workspaces[k]);
      && (res.err != None ==> d' == d)
      && (!first.ok || (|args| == 2 && !parse(args[1]).ok) ==> res.err.Some? && res.err.value.Joined?)
      && (first.ok && (|args| == 1 || parse(args[1]).ok) ==>
            && (res.err == None <==> second != first.id && second in store.All() && first.id in store.All())
            && (res.err != None ==> res.err == Some(ClientNotFound(args[0])))
            && (res.err == None ==>
                  && d'.ctx == d.ctx
                  && ActiveStore(d'.workspaces[k]) == Swapped(store, second, first.id).0
                  && (forall j :: j in d.workspaces && j != k ==> d'.workspaces[j] == d.workspaces[j])))
  {
    var first := parse(args[0]);
    var second := if |args| == 1 then d.ctx.targetCid else parse(args[1]).id;
    var k := d.ctx.targetWorkspaceNum;
    var w := d.workspaces[k];
    TilingStoreFacts.SwapExchanges(ActiveStore(w), second, first.id);
    var (s, found) := Swapped(ActiveStore(w), second, first.id);
    if found {
      WithActiveStoreValid(w, s);
    }
  }

  /** A successful `swap` with two arguments had both ids parse and found
    * both windows. */
  lemma SwapSucceeded(args: seq<string>, parse: string -> ParsedId, live: Live, d: DaemonView)
    requires Ready(d, live) && |args| == 2
    requires SwapSpec(args, parse, live, d).1.err == None
    ensures parse(args[0]).ok && parse(args[1]).ok
    ensures Swapped(ActiveStore(d.workspaces[d.ctx.targetWorkspaceNum]), parse(args[1]).id, parse(args[0]).id).1
  {
  }

  /** When both ids parse and the swap finds both windows, `swap` succeeds
    * and the target workspace's active store becomes the swapped one. */
  lemma SwapStores(args: seq<string>, parse: string -> ParsedId, live: Live, d: DaemonView)
    requires Ready(d, live) && |args| == 2 && parse(args[0]).ok && parse(args[1]).ok
    requires Swapped(ActiveStore(d.workspaces[d.ctx.targetWorkspaceNum]), parse(args[1]).id, parse(args[0]).id).1
    ensures var k := d.ctx.targetWorkspaceNum;
      var w := d.workspaces[k];
      var (d', res) := SwapSpec(args, parse, live, d);
      && res.err == None && Ready(d', live) && d'.ctx == d.ctx
      && d'.workspaces[k].stores
         == w.stores[ActiveName(w) := Swapped(ActiveStore(w), parse(args[1]).id, parse(args[0]).id).0]
      && ActiveName(d'.workspaces[k]) == ActiveName(w)
  {
    HandleKeepsInvariant(Swap, args, parse, live, d);
    var k := d.ctx.targetWorkspaceNum;
    var w := d.workspaces[k];
    var sw := Swapped(ActiveStore(w), parse(args[1]).id, parse(args[0]).id);
    TilingStoreFacts.SwapExchanges(ActiveStore(w), parse(args[1]).id, parse(args[0]).id);
    WithActiveStoreValid(w, sw.0);
  }

  /** Writing an entry and then its old value back leaves the map as it was. */
  lemma RestoreEntry<K, V>(m: map<K, V>, k: K, v: V)
    requires k in m
    ensures m[k := v][k := m[k]] == m
  {
  }

  /** Swapping the same two windows twice gives every layout its clients back
    * in their places, provided the active layout holds no window twice. */
  lemma SwapTwiceRestoresLayouts(args: seq<string>, parse: string -> ParsedId, live: Live, d: DaemonView)
    requires Ready(d, live) && |args| == 2
    requires Distinct(ActiveStore(d.workspaces[d.ctx.targetWorkspaceNum]).All())
    requires SwapSpec(args, parse, live, d).1.err == None
    ensures var once := SwapSpec(args, parse, live, d).0;
      && Ready(once, live)
      && SwapSpec(args, parse, live, once).1.err == None
      && SwapSpec(args, parse, live, once).0.workspaces[d.ctx.targetWorkspaceNum].stores
         == d.workspaces[d.ctx.targetWorkspaceNum].stores
  {
    var k := d.ctx.targetWorkspaceNum;
    var w := d.workspaces[k];
    var first := parse(args[0]).id;
    var second := parse(args[1]).id;
    var store := ActiveStore(w);
    var name := ActiveName(w);
    SwapSucceeded(args, parse, live, d);
    var s := Swapped(store, second, first).0;
    var once := SwapSpec(args, parse, live, d).0;
    assert Ready(once, live) && once.ctx == d.ctx && ActiveStore(once.workspaces[k]) == s
        && once.workspaces[k].stores == w.stores[name := s] by {
      SwapStores(args, parse, live, d);
    }
    assert Swapped(s, second, first) == (store, true) by {
      TilingStoreFacts.SwapTwiceRestores(store, second, first);
    }
    SwapStores(args, parse, live, once);
    var twice := SwapSpec(args, parse, live, once).0;
    assert twice.workspaces[k].stores == w.stores[name := s][name := store];
    RestoreEntry(w.stores, name, s);
  }

  /** `set layout` followed by `query layout` on the same desktop answers with
    * the layout just set, or "none" after `set layout none`; a name that is
    * not a layout is an error and leaves the workspace as it was. */
  lemma SetThenQuery(name: string, live: Live, d: DaemonView)
    requires Ready(d, live)
    ensures var (d', res) := SetLayoutSpec([name], live, d);
      var w := d.workspaces[live.currentDesk];
      && Ready(d', live)
      && (name == "none" || name in w.layoutOrder <==> res.err == None)
      && (res.err != None ==> d' == d && res.err == Some(LayoutNotFound(name)))
      && (res.err == None ==> QueryLayoutSpec(live, d').1.messages == [name])
  {
    var w := d.workspaces[live.currentDesk];
    if name != "none" {
      SetLayoutSelects(w, name);
    }
    HandleKeepsInvariant(SetLayout, [name], (s: string) => ParsedId(0, false), live, d);
    if name != "none" && name !in w.layoutOrder {
      assert d.workspaces[live.currentDesk := w] == d.workspaces;
    }
  }

  /** The sequence reset addresses the active window on the current desktop;
    * `for window` then changes only the window, whether or not its argument
    * parsed. */
  lemma ResetThenForWindow(arg: string, parse: string -> ParsedId, live: Live, d: DaemonView)
    requires Ready(d, live)
    ensures var reset := StartSequenceSpec(live, d).0;
      && Ready(reset, live)
      && reset.ctx.targetCid == live.activeWin && reset.ctx.targetWorkspaceNum == live.currentDesk
      && reset.workspaces == d.workspaces
      && var (d', res) := ForWindowSpec([arg], parse, reset);
         && d'.ctx.targetCid == parse(arg).id
         && d'.ctx.targetWorkspaceNum == live.currentDesk
         && d'.workspaces == d.workspaces
         && (res.err == None <==> parse(arg).ok)
  {
  }

  /** `for workspace N` addresses desktop N exactly when N is written in
    * decimal and names an existing desktop; otherwise it reports the error
    * and changes nothing. */
  lemma ForWorkspaceSelects(arg: string, live: Live, d: DaemonView)
    requires Ready(d, live) && live.deskCount <= Strconv.MaxUint64
    ensures var (d', res) := ForWorkspaceSpec([arg], live, d);
      && Ready(d', live)
      && d'.workspaces == d.workspaces
      && (res.err == None <==>
            arg != [] && Strconv.AllDigits(arg) && Strconv.DecimalValue(arg) < live.deskCount)
      && (res.err == None ==> d'.ctx.targetWorkspaceNum == Strconv.DecimalValue(arg))
      && (res.err != None ==> d' == d)
  {
    Strconv.ParseUintAccepts(arg);
  }

  /** Writing the number of an existing desktop in decimal selects it. */
  lemma ForWorkspaceOfItoa(n: nat, live: Live, d: DaemonView)
    requires Ready(d, live) && n < live.deskCount <= Strconv.MaxUint64
    ensures ForWorkspaceSpec([Strconv.Itoa(n)], live, d) == (d.(ctx := d.ctx.(targetWorkspaceNum := n)), Done)
  {
    Strconv.ItoaDigits(n);
    ForWorkspaceSelects(Strconv.Itoa(n), live, d);
  }

  /** As written, `for workspace 7` on a two-desktop daemon reports the error
    * but still makes the context address desktop 7, which has no workspace:
    * the next command on the context's workspace (`tile`, say) would find
    * none. */
  lemma ForWorkspaceAsWrittenEscapes(live: Live, d: DaemonView)
    requires Ready(d, live) && live.deskCount == 2
    ensures var (d', res) := ForWorkspaceAsWritten(["7"], live, d);
      && res.err == Some(WorkspaceNumberOutOfRange("7"))
      && d'.ctx.targetWorkspaceNum == 7
      && 7 !in d'.workspaces
      && !DInv(d', live.deskCount)
  {
    Strconv.ParseUintItoa(7);
    assert Strconv.Itoa(7) == "7";
  }

  /** As written, an argument that does not parse makes the context address
    * desktop 0, whatever it addressed before. */
  lemma ForWorkspaceAsWrittenResets(live: Live, d: DaemonView)
    requires Ready(d, live)
    ensures var (d', res) := ForWorkspaceAsWritten(["x"], live, d);
      && res.err == Some(WorkspaceNumberParse("x"))
      && d'.ctx.targetWorkspaceNum == 0
  {
    assert Strconv.Scan("x") == Strconv.ScanStep(Strconv.Scan([]), 'x');
  }
}
