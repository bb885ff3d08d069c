# zentile command pipeline, modelled in Dafny

zentile is a tiling window manager for X11. A command line such as
`zentile set layout vertical, swap 5 7` is parsed into commands. The
commands travel over a Unix socket to the daemon. The daemon runs each one
against its command registry, and the handlers change the tiling state.

This project models the core of that pipeline and proves what it promises:

- **Tiling store** (`store.dfy`, `store_lemmas.dfy`). Every layout owns one
  master/slave store of clients with a master quota. `class Store` does the
  operations in place on its `masters`, `slaves` and `allowedMasters`
  fields. Each method is proved equal to a function on the store's value
  (`StoreView`). The lemmas then show what each operation keeps and
  changes, and that any sequence of operations from a fresh store holds
  exactly the clients added and not removed, when no window is added while
  it is already held.
- **Workspace** (`workspace.dfy`). A workspace is a fixed cycle of named
  layouts, each modelled by its store, plus a tiling flag. `class Workspace`
  changes its flag and active index in place. The `Do`/`Undo` geometry
  calls on a layout are recorded as ghost events.
- **Command registry and handlers** (`commands.dfy`, `commands_facts.dfy`,
  `daemon.dfy`). Argument-count checking, lookup by kind and name, and the
  built-in handlers: the sequence reset, `swap`, the keybinding actions,
  `set layout`, `query layout`, `for window` and `for workspace`. Each handler
  is a function on the daemon's value; `class Daemon` runs them in place and
  is proved to agree.
- **Command parser** (`command_parser.dfy`). The re-split of the words at
  `,`, the pull of at most `MaxIn` arguments, and the all-or-nothing parse.
  The round trip is proved: a written command line parses back to its
  commands.
- **Wire framing** (`socket_util.dfy`, `socket_conn.dfy`). The record
  splitter cuts a connection's reads at the NUL byte, with a 512-byte record
  cap. The envelope codec writes and reads `Kind NUL count NUL arg NUL …`.
  Both round trips are proved, however the bytes fall into reads: `Write`
  then `Read`, and `Send` then `Receive`.
- **Legacy keybindings** (`config.dfy`). Old `name -> chord` bindings are
  turned into `chord -> name` ones.
- `strconv.dfy` models the three conversions of Go's `strconv` that the
  core relies on. `wrappers.dfy` holds `Option`, `Result` and
  `slices.Index`.

A client is modelled as its window id. The values the handlers read from
the X server (the active window, the current desktop, the number of
desktops) are passed in as a `Live` parameter. The client-id parser is a
function parameter.

## Model

| member | source | states |
|---|---|---|
| Wrappers.IndexOf | internal/daemon/workspace.go:63-66 | `slices.Index`: the first position holding the element, or -1 exactly when it is absent |
| Wrappers.LastIndexOf | internal/daemon/store.go:95-115 | the last position holding the element, or -1 exactly when it is absent: what a scan that overwrites its index on every match ends with |
| Strconv.ParseUint | internal/daemon/commands.go:245 | the value given back never exceeds 2^64 - 1; with a syntax error it is 0, and with a range error it is 2^64 - 1 |
| Strconv.ScanAccepts | internal/daemon/commands.go:245 | the digit loop is still running exactly when every character so far is a digit and their value fits in 64 bits, and its value is then theirs |
| Strconv.ParseUintAccepts | internal/daemon/commands.go:245-250 | `ParseUint(s, 10, 64)` succeeds exactly on a non-empty string of decimal digits whose value fits in 64 bits, and gives that value |
| Strconv.ItoaDigits | internal/socket/conn.go:59 | `Itoa` writes at least one decimal digit, their value is the number, and there is no leading zero |
| Strconv.ParseUintItoa | internal/daemon/commands.go:245 | `ParseUint` reads back every 64-bit value `Itoa` writes |
| Strconv.AtoiItoa | internal/socket/conn.go:86-89 | `Atoi` reads back every non-negative `int` that `Itoa` wrote as the argument count |
| Strconv.AtoiNegative | internal/socket/conn.go:86-91 | `Atoi` accepts a leading minus sign, so a count record can hold a negative number |
| TilingStore.RemoveElement | internal/daemon/store.go:48-50 | `removeElement`: one element shorter, the elements before `i` in place, those after it moved down by one, and exactly one copy of `s[i]` gone |
| TilingStore.LastIndexOfAppend | internal/daemon/store.go:95-115 | the scan of the slaves overrides the scan of the masters: the last position of an id in `masters + slaves` is its last position among the slaves, shifted, or else its last among the masters |
| TilingStore.Store.constructor | internal/daemon/store.go:12-17 | `buildStore`: quota 1, no masters, no slaves, and the store invariant holds |
| TilingStore.Store.Add | internal/daemon/store.go:19-25 | the new value is `Added` of the old one and the invariant is kept |
| TilingStore.Store.Remove | internal/daemon/store.go:27-46 | the two scans and their in-place updates give `Removed` of the old value, and the invariant is kept |
| TilingStore.Store.IncMaster | internal/daemon/store.go:52-58 | the new value is `IncMastered` of the old one and the invariant is kept |
| TilingStore.Store.DecreaseMaster | internal/daemon/store.go:60-67 | the new value is `MasterDecreased` of the old one and the invariant is kept |
| TilingStore.Store.MakeMasterById | internal/daemon/store.go:73-81 | the scan over the slaves and the in-place exchange give `MadeMaster` of the old value, with its found flag |
| TilingStore.Store.Locate | internal/daemon/store.go:95-115 | the two scans of `SwapById` find `thisId` at its last position in `All()`, and `thatId` at its last position unless it equals `thisId` (then -1, since `thisId` is matched first) |
| TilingStore.Store.SwapById | internal/daemon/store.go:87-123 | the in-place exchange, across or within the two lists, gives `Swapped` of the old value and its success flag |
| TilingStore.Store.Next | internal/daemon/store.go:129-144 | the client after the first occurrence of the active window in `All()`, wrapping to the first; none when absent; the store is unchanged |
| TilingStore.Store.Previous | internal/daemon/store.go:146-161 | the client before the first occurrence of the active window in `All()`, wrapping to the last; none when absent; the store is unchanged |
| TilingStoreFacts.ExchangeKeepsContents | internal/daemon/store.go:121 | exchanging two positions keeps the multiset of clients and keeps them free of repetitions |
| TilingStoreFacts.DistinctRemoveElement | internal/daemon/store.go:48-50 | removing an element of a list without repetitions leaves a list without repetitions that no longer holds it |
| TilingStoreFacts.AddPlacesClient | internal/daemon/store.go:19-25 | `Add` keeps the invariant and the quota, puts the client among the masters exactly when the quota has room, adds exactly one client, and adds no repetition for a new client |
| TilingStoreFacts.AddedOrder | internal/daemon/store.go:19-25 | `Add` appends the client to the masters when there is room and otherwise to the end of the priority order |
| TilingStoreFacts.RemoveMasterWithSlave | internal/daemon/store.go:29-33 | a removed master replaced by the first slave: exactly one copy of it is dropped, and without repetitions it is gone |
| TilingStoreFacts.RemoveAt | internal/daemon/store.go:34-43 | deleting a client where it stands drops exactly one copy, and without repetitions it is gone |
| TilingStoreFacts.RemoveMaster | internal/daemon/store.go:28-37 | removing a master keeps the invariant, never grows the masters and drops exactly that client |
| TilingStoreFacts.RemoveSlave | internal/daemon/store.go:40-45 | removing a slave keeps the invariant and the masters, and drops exactly that client |
| TilingStoreFacts.RemoveDropsClient | internal/daemon/store.go:27-46 | `Remove` keeps the invariant, never grows the masters, drops exactly one occurrence of the client, and changes nothing when the client is absent |
| TilingStoreFacts.QuotaChangesKeepOrder | internal/daemon/store.go:52-67 | `IncMaster` and `DecreaseMaster` keep the invariant and the priority order; the quota moves exactly when there are at least two slaves, resp. two masters |
| TilingStoreFacts.IncThenDecreaseRestores | internal/daemon/store.go:52-67 | raising the master count and lowering it again restores the store |
| TilingStoreFacts.DecreaseThenIncRestores | internal/daemon/store.go:52-67 | lowering the master count and raising it again restores the store when a slave brings the master back |
| TilingStoreFacts.MakeMasterExchanges | internal/daemon/store.go:73-81 | `MakeMasterById` succeeds exactly for an id among the slaves; the client then leads the masters and the old first master takes its place; a failure (also for an id already a master) changes nothing; the invariant and the clients are kept |
| TilingStoreFacts.SwapExchanges | internal/daemon/store.go:87-123 | `SwapById` succeeds exactly when the ids differ and both are present; then the two clients change places and nothing else changes; both lengths, the quota and the clients are kept; a failure changes nothing |
| TilingStoreFacts.SwapTwiceRestores | internal/daemon/store.go:87-123 | swapping the same two clients twice restores a store without repetitions |
| TilingStoreFacts.NextPreviousInverse | internal/daemon/store.go:129-161 | on clients without repetitions, `Previous` undoes `Next` and `Next` undoes `Previous`, both wrapping |
| TilingStoreFacts.NavigationExample | internal/daemon/store.go:129-161 | with masters `[m1, m2]` and slaves `[s1, s2]`: after `m2` comes `s1`, before `m2` is `m1`, and before `m1` wraps round to `s2` |
| TilingStoreTraces.Step | internal/daemon/store.go:19-123 | every store operation keeps the invariant: a positive quota the masters respect, and no slave without a master |
| TilingStoreTraces.Run | internal/daemon/store.go:12-17 | any sequence of operations from `buildStore` keeps the invariant |
| TilingStoreTraces.AddHoldsPresentClients | internal/daemon/store.go:19-25 | adding a client that is not present makes the store hold exactly the present clients and it, once each |
| TilingStoreTraces.RemoveHoldsPresentClients | internal/daemon/store.go:27-46 | removing a client makes the store hold exactly the other present clients, once each |
| TilingStoreTraces.StepHoldsPresentClients | internal/daemon/store.go:19-123 | every operation keeps "no client held twice, and exactly the present clients held" |
| TilingStoreTraces.RunHoldsPresentClients | internal/daemon/store.go:12-123 | after any sequence of operations from a fresh store, with each window added only while absent, the masters respect the quota, no client is held twice or in both lists, and the store holds exactly the clients added and not removed since |
| Workspaces.CreateLayouts | internal/daemon/workspace.go:34-60 | `createLayouts`: one fresh, empty, valid store per known layout name of the list, no two names sharing one; unknown names get none |
| Workspaces.LayoutCount | internal/daemon/workspace.go:88-91 | there are as many layouts as ordered names, so the index taken modulo `len(layouts)` stays inside the order |
| Workspaces.ActiveName | internal/daemon/workspace.go:79-81 | the active layout's name names a layout and is found back at the active index |
| Workspaces.WithActiveStoreValid | internal/daemon/workspace.go:83-85 | changing the active layout's store in place keeps the workspace valid and the same layout active |
| Workspaces.Record | internal/daemon/commands.go:122-139 | a geometry call on the active layout keeps the workspace valid and the same layout active |
| Workspaces.LayoutSwitched | internal/daemon/workspace.go:88-91 | switching keeps the workspace valid |
| Workspaces.SwitchedFields | internal/daemon/workspace.go:88-91 | `SwitchLayout` writes only the active index, moved on by one modulo the number of layouts, and applies that layout |
| Workspaces.Tiled | internal/daemon/workspace.go:108-112 | `Tile` keeps the flag, the stores and the active layout, and does nothing while not tiling |
| Workspaces.Untiled | internal/daemon/workspace.go:115-118 | `Untile` turns tiling off and keeps the stores and the active layout |
| Workspaces.InitialWorkspaceValid | internal/daemon/workspace.go:17-32 | a new workspace is valid, with three layouts and "vertical" active |
| Workspaces.SetLayoutSelects | internal/daemon/workspace.go:62-73 | `SetLayoutByName` succeeds exactly for a name of the order; it then makes that layout active, turns tiling on, applies that layout and changes no store; an unknown name reports its error and changes nothing |
| Workspaces.SwitchedTimes | internal/daemon/workspace.go:88-91 | any number of switches keeps the workspace valid |
| Workspaces.SwitchKeepsLayouts | internal/daemon/workspace.go:88-91 | switching never changes the stores, the tiling flag or the order |
| Workspaces.SwitchOnceMore | internal/daemon/workspace.go:88-91 | one more switch moves the active index one step round the cycle |
| Workspaces.SwitchSteps | internal/daemon/workspace.go:88-91 | `k` switches take `k` single steps round the cycle |
| Workspaces.SwitchAdvances | internal/daemon/workspace.go:88-91 | `k` switches move the active index to `(index + k) mod len(layouts)` |
| Workspaces.SwitchFullCycle | internal/daemon/workspace.go:88-91 | after as many switches as there are layouts the same layout is active again |
| Workspaces.UntileIdempotent | internal/daemon/workspace.go:115-118 | untiling twice gives the same state, apart from one more recorded `Undo`, and keeps the active index; once untiled, `Tile` does nothing |
| Workspaces.AddThenRemoveClient | internal/daemon/workspace.go:94-105 | adding a client to every layout and removing it again gives every layout back the clients it had |
| Workspaces.AddedKeepsWInv | internal/daemon/workspace.go:94-98 | adding a client to every layout keeps the workspace valid |
| Workspaces.RemovedKeepsWInv | internal/daemon/workspace.go:101-105 | removing a client from every layout keeps the workspace valid |
| Workspaces.AddToEach | internal/daemon/workspace.go:94-98 | the loop over the layouts, in any order, adds the client to every layout's store and to no other object |
| Workspaces.RemoveFromEach | internal/daemon/workspace.go:101-105 | the loop over the layouts, in any order, removes the client from every layout's store and from no other object |
| Workspaces.Workspace.constructor | internal/daemon/workspace.go:22-26 | a workspace that is not tiling, with the default order and fresh empty stores, is the initial workspace value |
| Workspaces.Workspace.ActiveLayoutName | internal/daemon/workspace.go:79-81 | the name at the active index |
| Workspaces.Workspace.ActiveLayout | internal/daemon/workspace.go:83-85 | the store kept under the active name, whose value is the active store |
| Workspaces.Workspace.SetLayoutByName | internal/daemon/workspace.go:62-73 | the new value and the error are those of `LayoutSet` on the old value |
| Workspaces.Workspace.SwitchLayout | internal/daemon/workspace.go:88-91 | the new value is `LayoutSwitched` of the old one, with the index taken modulo the size of the layout map |
| Workspaces.Workspace.AddClient | internal/daemon/workspace.go:94-98 | every layout's store gets the client; the workspace stays valid |
| Workspaces.Workspace.RemoveClient | internal/daemon/workspace.go:101-105 | every layout's store loses the client; the workspace stays valid |
| Workspaces.Workspace.Tile | internal/daemon/workspace.go:108-112 | the new value is `Tiled` of the old one |
| Workspaces.Workspace.Called | internal/daemon/commands.go:122-139 | a geometry call is recorded on the active layout and nothing else changes |
| Workspaces.Workspace.Untile | internal/daemon/workspace.go:115-118 | the new value is `Untiled` of the old one |
| Workspaces.NewWorkspace | internal/daemon/workspace.go:22-28 | one new workspace of fresh objects, in its initial state; the workspaces made before it keep their values |
| Workspaces.CreateWorkspaces | internal/daemon/workspace.go:17-32 | one new, valid, initial workspace for each desktop `0 .. deskCount-1`, and for no other key, no two sharing an object |
| Commands.ValidateArgCount | internal/daemon/commands.go:33-49 | no error exactly when `minIn <= count <= maxIn`; the error names one count when the bounds agree and a range otherwise |
| Commands.GetByName | internal/daemon/commands.go:275-297 | a command is found exactly for a routed kind and a name registered under it, and it is the registered one |
| Commands.Route | internal/daemon/commands.go:299-308 | the lookup of `Do`: `UnknownCommandType` exactly for a kind that is not routed, `CommandNotExists` exactly for an unregistered name, and otherwise what `GetByName` finds |
| CommandFacts.KeybindsRegistered | internal/daemon/commands.go:193-197 | every keybinding action is registered under its name with zero bounds |
| CommandFacts.BuiltinsCallable | internal/daemon/commands.go:142-257 | every built-in command's bounds let its handler read the arguments it reads |
| CommandFacts.KeybindsTakeNoArguments | internal/daemon/commands.go:193-197 | a keybinding action is found by `GetByName` with zero bounds and accepts exactly zero arguments |
| CommandFacts.DoRejects | internal/daemon/commands.go:299-311 | `Do` on an unrouted kind, an unregistered name or an argument count out of bounds changes nothing and reports `UnknownCommandType`, `CommandNotExists` or the count error; `UnknownCommandType` comes only from an unrouted kind |
| CommandFacts.HandleResultNotUnknownType | internal/daemon/commands.go:142-257 | no handler reports `UnknownCommandType` |
| CommandFacts.WithWorkspaceKeepsInvariant | internal/daemon/commands.go:93-140 | replacing one desktop's workspace by a valid one keeps the daemon's invariant |
| CommandFacts.KeybindKeepsInvariant | internal/daemon/commands.go:93-140 | every keybinding action keeps the daemon's invariant |
| CommandFacts.SwapKeepsInvariant | internal/daemon/commands.go:152-189 | `swap` keeps the daemon's invariant |
| CommandFacts.SetLayoutKeepsInvariant | internal/daemon/commands.go:199-214 | `set layout` keeps the daemon's invariant |
| CommandFacts.ForWorkspaceKeepsInvariant | internal/daemon/commands.go:242-256 | the corrected `for workspace` keeps the daemon's invariant |
| CommandFacts.HandleKeepsInvariant | internal/daemon/commands.go:142-257 | every handler, with `for workspace` in its corrected form (see ## Findings), keeps one valid workspace per desktop and a context addressing one of them |
| CommandFacts.DoKeepsInvariant | internal/daemon/commands.go:299-311 | `Do`, with `for workspace` in its corrected form (see ## Findings), keeps the daemon's invariant, so the next command finds the workspace its context addresses |
| CommandFacts.SwapOutcome | internal/daemon/commands.go:152-189 | with one argument the second id is the context's window; a parse failure gives a joined error; otherwise the swap succeeds exactly when the ids differ and both are in the target workspace's active layout, where they change places and no other workspace changes; a failure reports the first argument as not found; every failure changes nothing |
| CommandFacts.SwapSucceeded | internal/daemon/commands.go:152-189 | a successful two-argument `swap` had both ids parse and found both windows |
| CommandFacts.SwapStores | internal/daemon/commands.go:176-185 | when both ids parse and both windows are found, `swap` succeeds, only the target workspace's active store changes, to the swapped one, and the same layout stays active |
| CommandFacts.SwapTwiceRestoresLayouts | internal/daemon/commands.go:152-189 | the same `swap` twice gives every layout of the target workspace its clients back in their places, when the active layout holds no window twice |
| CommandFacts.SetThenQuery | internal/daemon/commands.go:199-227 | `set layout NAME` succeeds exactly for "none" or a name of the order, and `query layout` then answers with that name; a failure reports the unknown layout and changes nothing |
| CommandFacts.ResetThenForWindow | internal/daemon/commands.go:144-241 | the sequence reset addresses the active window on the current desktop and touches no workspace; `for window` then sets only the window, to whatever was parsed, and reports an error exactly when the parse failed |
| CommandFacts.ForWorkspaceSelects | internal/daemon/commands.go:242-256 | the corrected `for workspace N` addresses desktop N exactly when N is written in decimal and names an existing desktop; otherwise it reports the error and changes nothing |
| CommandFacts.ForWorkspaceOfItoa | internal/daemon/commands.go:242-256 | the decimal number of an existing desktop selects that desktop and reports no error |
| CommandFacts.ForWorkspaceAsWrittenEscapes | internal/daemon/commands.go:242-256 | as written, `for workspace 7` on two desktops reports the error yet makes the context address desktop 7, which has no workspace, so the daemon's invariant breaks |
| CommandFacts.ForWorkspaceAsWrittenResets | internal/daemon/commands.go:242-256 | as written, an argument that does not parse makes the context address desktop 0 |
| CommandRuntime.Daemon.constructor | internal/daemon/commands.go:78-91 | `InitCommands` with a tracker: the context addresses the active window on the current desktop, the registry holds the built-in commands, and the invariant holds |
| CommandRuntime.Daemon.StartNewSequence | internal/daemon/commands.go:144-151 | the new state and result are those of the sequence-reset specification; the invariant is kept |
| CommandRuntime.Daemon.ForWindow | internal/daemon/commands.go:229-241 | the new state and result are those of `ForWindowSpec`; the invariant is kept |
| CommandRuntime.Daemon.ForWorkspace | internal/daemon/commands.go:242-256 | the new state and result are those of the corrected `ForWorkspaceSpec`; the invariant is kept |
| CommandRuntime.Daemon.QueryLayout | internal/daemon/commands.go:215-227 | the result is that of `QueryLayoutSpec`, and nothing changes |
| CommandRuntime.Daemon.SetLayout | internal/daemon/commands.go:199-214 | the new state and result are those of `SetLayoutSpec`; the invariant is kept |
| CommandRuntime.Daemon.Swap | internal/daemon/commands.go:152-189 | the new state and result are those of `SwapSpec`; the invariant is kept |
| CommandRuntime.Daemon.Keybind | internal/daemon/commands.go:93-140 | the new state and result are those of `KeybindSpec`; the invariant is kept |
| CommandRuntime.Daemon.Handle | internal/daemon/commands.go:142-257 | the handler's new state and result are those of `HandleSpec`, with `for workspace` in its corrected form (see ## Findings); the invariant is kept |
| CommandRuntime.Daemon.Call | internal/daemon/commands.go:51-57 | the argument count is checked before the handler runs; the new state and result are those of `CallSpec` |
| CommandRuntime.Daemon.Do | internal/daemon/commands.go:299-312 | the new state and result are those of `DoSpec`: lookup by kind, then by name, then `Call`, with `for workspace` in its corrected form (see ## Findings); the invariant is kept |
| CommandParser.SplitAtSeq | internal/command_parser/command_parser.go:140-170 | the loop of `splitAtSeq` yields exactly the pieces `SplitAt` gives |
| CommandParser.SplitStep | internal/command_parser/command_parser.go:148-167 | one turn of the loop: the piece before the first separator if it is not empty, then the separator, then the split of the rest |
| CommandParser.SplitJoins | internal/command_parser/command_parser.go:137-170 | the pieces, concatenated, give the input |
| CommandParser.SplitPieces | internal/command_parser/command_parser.go:137-170 | every piece is the separator alone or a non-empty string without it |
| CommandParser.TokenSplitsToItself | internal/command_parser/command_parser.go:140-170 | the separator alone, or a non-empty word without it, splits into itself |
| CommandParser.SplitExample | internal/command_parser/command_parser.go:137-139 | three one-letter words each followed by the separator split into the six tokens: each letter, then the separator alone, in turn |
| CommandParser.ResplitAppend | internal/command_parser/command_parser.go:124-135 | resplitting is the in-order flattening over the words: resplitting a concatenation concatenates the results |
| CommandParser.ResplitTokens | internal/command_parser/command_parser.go:124-135 | resplitting keeps every character in order and gives only tokens |
| CommandParser.ResplitOfTokens | internal/command_parser/command_parser.go:124-135 | words that are already tokens are left as they are |
| CommandParser.UpperCased | internal/command_parser/command_parser.go:84-86 | the kind is the word with every ASCII letter in upper case, of the same length; only the three kind words `set`, `query` and `action` reach it |
| CommandParser.KindWords | internal/command_parser/command_parser.go:84-86 | `action`, `set` and `query` give the kinds `ACTION`, `SET` and `QUERY` |
| CommandParser.Pull | internal/command_parser/command_parser.go:110-122 | at most `count` words are taken, no more consumed than the input holds, and the flag is set exactly when `count` were taken |
| CommandParser.PullTakesFront | internal/command_parser/command_parser.go:110-122 | the words taken are the front of the input and none is the separator; a separator that stopped the pull is consumed and not taken |
| CommandParser.PullStep | internal/command_parser/command_parser.go:112-118 | taking one word that is not the separator and pulling one fewer from the next position |
| CommandParser.PullUntilSepOrN | internal/command_parser/command_parser.go:110-122 | the loop of `pullUntilSepOrN` takes and consumes what `Pull` says |
| CommandParser.PullStops | internal/command_parser/command_parser.go:112-121 | the pull ends when `count` words were taken, the input ran out, or the separator came, which is then consumed |
| CommandParser.ParseCommandSpec | internal/command_parser/command_parser.go:88-108 | `parseCommand` consumes no more words than there are |
| CommandParser.Clause | internal/command_parser/command_parser.go:49-72 | a clause takes at least its first word and no more than there are |
| CommandParser.ParseCommand | internal/command_parser/command_parser.go:88-108 | the lookup and the argument pull from the current position give what `ParseCommandSpec` says |
| CommandParser.ParseAtSeparator | internal/command_parser/command_parser.go:50-51 | a separator where a clause would start is skipped |
| CommandParser.ParseAtClause | internal/command_parser/command_parser.go:49-78 | a failing clause ends the whole parse with its error; a clause that succeeds is followed by the parse of what it leaves |
| CommandParser.ClauseNameMissing | internal/command_parser/command_parser.go:57-63 | `set` or `query` at the end of input or before a separator is `TooFewArguments` |
| CommandParser.ClauseAt | internal/command_parser/command_parser.go:52-72 | `set NAME` and `query NAME` look the name up under their kind; any other word is looked up as an action, its arguments following it |
| CommandParser.TakeClause | internal/command_parser/command_parser.go:74-78 | the loop invariant survives a clause: its command is appended and parsing goes on after it |
| CommandParser.ClauseFails | internal/command_parser/command_parser.go:74-76 | an error in any clause discards the commands parsed before it |
| CommandParser.ReadClause | internal/command_parser/command_parser.go:52-72 | the loop body reads a clause and stops where `Clause` says, or fails with its error |
| CommandParser.Parse | internal/command_parser/command_parser.go:31-82 | `Parse` gives what `Parsed` says for the resplit words |
| CommandParser.ParseClauses | internal/command_parser/command_parser.go:39-81 | the loop over the token iterator gives what `ParseTokens` says |
| CommandParser.ClauseWellFormed | internal/command_parser/command_parser.go:88-107 | a clause that succeeds gives a command of a kind the grammar spells, registered under that name, whose argument count is within the bounds and whose arguments hold no separator |
| CommandParser.ParsedWellFormed | internal/command_parser/command_parser.go:39-81 | every command of a successful parse is well formed, and there are no more commands than tokens |
| CommandParser.PullRendered | internal/command_parser/command_parser.go:110-122 | pulling from arguments written before a separator gives them back |
| CommandParser.SpecOfRendered | internal/command_parser/command_parser.go:88-108 | `parseCommand` on a well-formed command's own arguments gives the command back |
| CommandParser.RenderedClause | internal/command_parser/command_parser.go:49-72 | the words a command is written as read back as a clause giving that command, stopping before or after the separator |
| CommandParser.ParseRenderedOne | internal/command_parser/command_parser.go:40-79 | a written command parses back to itself, before whatever follows |
| CommandParser.ParseRendered | internal/command_parser/command_parser.go:31-82 | the tokens of a written command line parse back to its commands, in order |
| CommandParser.RenderedTokens | internal/command_parser/command_parser.go:124-170 | every word of a written command line is already a token |
| CommandParser.RenderThenParse | internal/command_parser/command_parser.go:31-82 | round trip: the written command line of well-formed commands, given as words, parses back to the commands |
| CommandParser.UnknownActionFails | internal/command_parser/command_parser.go:67-96 | a first word that is not a separator or a kind word is an action name, and an unregistered one ends the parse with `UnknownCommand` |
| CommandParser.ForIsAnAction | internal/command_parser/command_parser.go:67-71 | `for` is read as the name of an action, which is not registered, so any line starting with it fails |
| CommandParser.ForUnregistered | internal/daemon/commands.go:142-197 | no action of the built-in registry is called `for` |
| CommandParser.ForWindowFails | internal/command_parser/command_parser.go:67-76 | `for window 5` does not parse |
| SocketSplit.PiecesJoin | internal/socket/util.go:35 | the pieces, joined with the separator, give the bytes read |
| SocketSplit.PiecesFree | internal/socket/util.go:35 | no piece holds the separator |
| SocketSplit.PiecesLen | internal/socket/util.go:35-36 | the byte counter subtracts exactly one byte more than was read, so it goes negative at the last piece only |
| SocketSplit.Take | internal/socket/util.go:35-57 | the record buffer kept for the next read never holds more than 512 bytes |
| SocketSplit.Scan | internal/socket/util.go:35-57 | the byte-at-a-time reference splitter never keeps more than 512 bytes |
| SocketSplit.TakeScan | internal/socket/util.go:35-57 | the loop over the pieces of a read does what scanning its bytes one at a time does |
| SocketSplit.TakeStep | internal/socket/util.go:36-51 | one piece of the inner loop: too long stops the splitter; the last piece is kept; any other piece ends a record |
| SocketSplit.ScanAppend | internal/socket/util.go:44-51 | scanning `a + b` scans `a`, then `b` from the record `a` left unfinished |
| SocketSplit.RunScan | internal/socket/util.go:26-58 | reads without errors are split as their bytes are scanned however the bytes fall into reads, so a record spanning several reads is reassembled |
| SocketSplit.ScanFrame | internal/socket/util.go:35-57 | separator-terminated records of at most 512 bytes are given back in order, with an empty buffer after them |
| SocketSplit.ReadFramed | internal/socket/util.go:16-60 | records come out in order, without separators, empty ones kept and one of exactly 512 bytes accepted, however the bytes fall into reads; bytes after the last separator are not yielded |
| SocketSplit.ReadErrorForwarded | internal/socket/util.go:28-33 | a read error after framed records is passed on once they are delivered |
| SocketSplit.TooLongAfterEarlier | internal/socket/util.go:38-42 | a record longer than 512 bytes gives `SplitTooLongError` after every earlier record was delivered, whatever follows |
| SocketSplit.TakeShape | internal/socket/util.go:38-57 | the events of one read are all records unless the splitter stopped, and then only the last is the error |
| SocketSplit.RunSettles | internal/socket/util.go:26-58 | reads that end in an error give records and then exactly one error, last |
| SocketSplit.SplitRead | internal/socket/util.go:35-57 | the inner loop, with its byte counter and buffer reset after each record, yields what `Take` says |
| SocketSplit.ReadSplitSeq | internal/socket/util.go:16-60 | the outer loop yields what `ReadSplit` says: one `InvalidSeparatorError` for an empty separator, a read error passed on, and the records of each read |
| SocketConn.Next | internal/socket/conn.go:40-44 | `Read` gives the next record, or the error the splitter stopped at with an empty string, and that error again on every later read |
| SocketConn.ReadArgs | internal/socket/conn.go:91-97 | the argument loop reads exactly `n` records when no error comes |
| SocketConn.ReceiveSpec | internal/socket/conn.go:75-103 | any error gives back the empty message; a message consumes its kind, its count and its arguments |
| SocketConn.Conn.constructor | internal/socket/conn.go:24-32 | `NewSocketConn`: the reads to come are the splitter's events over the connection with the NUL separator, and nothing is written yet |
| SocketConn.Conn.Write | internal/socket/conn.go:46-51 | the string's bytes and one NUL are written; the reads are untouched |
| SocketConn.Conn.Read | internal/socket/conn.go:40-44 | the record and the error are those of `Next`, which also gives the reads left |
| SocketConn.Conn.Send | internal/socket/conn.go:53-69 | the buffer built field by field and written is the envelope: kind, NUL, decimal count, NUL, then each argument and a NUL |
| SocketConn.Conn.SendMessage | internal/socket/conn.go:71-73 | the message's envelope is written |
| SocketConn.Conn.Receive | internal/socket/conn.go:75-103 | the message, the error and the reads left are those of `ReceiveSpec` |
| SocketConn.Conn.ReadArguments | internal/socket/conn.go:91-97 | the loop filling an array of `argc` arguments reads what `ReadArgs` says |
| SocketConn.ReadArgsRecords | internal/socket/conn.go:91-97 | reading `n` arguments from `n` records gives exactly those records |
| SocketConn.CountFits | internal/socket/conn.go:59 | the decimal count of a Go slice's length holds no NUL and fits a record |
| SocketConn.ReceiveHeader | internal/socket/conn.go:76-97 | after the kind and count records, a count that is not a number, or is negative, is an error; otherwise that many arguments are read |
| SocketConn.ReceiveEnvelope | internal/socket/conn.go:53-103 | the records of one envelope are received as its message |
| SocketConn.EnvelopesFrame | internal/socket/conn.go:53-69 | back-to-back envelopes are the NUL framing of their fields |
| SocketConn.ReceiveEnvelopes | internal/socket/conn.go:75-103 | the records of back-to-back envelopes are received as their messages, in order, then the error that ends the reads |
| SocketConn.SendThenReceive | internal/socket/conn_test.go:69-114 | round trip: encodable messages sent back to back, whose bytes arrive in any split into reads, are received as themselves (an empty kind or empty arguments included), in order, then the error that closed the connection |
| SocketConn.ReadAllRecords | internal/socket/conn.go:40-44 | reading framed records gives them, in order, then the error |
| SocketConn.WriteThenRead | internal/socket/conn_test.go:12-67 | round trip: strings written one after another, without NULs and no longer than a record, are read back in order however their bytes are split into reads |
| SocketConn.BadCount | internal/socket/conn.go:86-89 | a count record that is not a number ends `Receive` with the number error and the empty message |
| SocketConn.NegativeCountRefused | internal/socket/conn.go:86-91 | a negative count ends `Receive` with an error and the empty message |
| Config.Binder | internal/config/config.go:41-49 | the legacy name whose chord the migrated table keeps: bound to that chord, and when there is none, no legacy name is bound to it |
| Config.Config.constructor | internal/config/config.go:12-13 | the table holds the decoded keybindings |
| Config.Config.HandleLegacyKeybindings | internal/config/config.go:41-49 | the loop over the legacy names, inserting and deleting in place, leaves the table `Normalised` of the old one |
| Config.MigrateEffect | internal/config/config.go:43-47 | one migration binds the chord to the name and deletes the name's key (so a name bound to itself is lost); every other key keeps its value; an unbound name changes nothing |
| Config.NormalisedTable | internal/config/config.go:41-49 | with distinct names and no chord that is itself a legacy name: no legacy name is left as a key, a chord some legacy name was bound to is bound to the last such name in the fixed order, and every other key keeps its value |
| Config.NothingToMigrate | internal/config/config.go:42-44 | a table without legacy names is left as it is |
| Config.LegacyDistinct | internal/config/config.go:28-39 | the legacy names are distinct |
| Config.LaterNameWins | internal/config/config.go:28-49 | two legacy names bound to one chord: the later name in the fixed order keeps it |
| Config.SelfBindingLost | internal/config/config.go:45-46 | a legacy name bound to itself is deleted, not kept |

## Left out

- Sockets, the X server and the geometry of the layouts. The `net.Conn` layer is a sequence of reads, each giving bytes or an error. Written bytes are a sequence. `Close`, dialling and listening are not modelled. The geometry calls `Do`, `Undo`, `NextClient`, `PreviousClient`, `IncrementMaster` and `DecrementMaster` are recorded as ghost events, because they only talk to the X server.
- Write errors: `Write` and `Send` always succeed in the model, because a failing `net.Conn.Write` belongs to the operating system.
- Bytes are modelled as `char`, one character per byte. No encoding is modelled.
- SocketSplit.ReadSplitSeq: only separators of zero or one byte are modelled. The connection uses the one-byte NUL separator, and the splitter is called with nothing else. A multi-byte separator is not modelled.
- SocketSplit.ReadSplitSeq: the events are the values the Go iterator yields, gathered into one sequence. They end at the first error. The Go iterator could be pulled again after `SplitTooLongError` or a read error, but every consumer stops there. After an over-long record, the buffer's capacity growth is not modelled.
- SocketConn.Conn.Receive: a negative argument count is reported as `NegativeCount`. In Go, `make` panics on it. The model shows that `Atoi` lets such a count through (`SocketConn.NegativeCountRefused`).
- Strconv: `Itoa`, `Atoi` and `ParseUint(s, 10, 64)` are modelled for a 64-bit `int`, and only for the inputs the core gives them. Go's error values are modelled as constructors, without their messages.
- Error messages: every `errors.New`, `fmt.Errorf` and `errors.Join` is a constructor of `Types.Error` that carries its arguments. The formatted text is not modelled.
- TilingStore.Store.Next: the Go methods give back a zero `Client` when the active window is not in the store. The model gives `None`. `Remove`, `Next` and `Previous` compare `window.Id`, while `SwapById` and `MakeMasterById` compare `Id`. Both are the one client id here.
- TilingStoreTraces.RunHoldsPresentClients: it is proved only for sequences that never add a window already held. Go's `Add` does not refuse a duplicate, and `Remove` then drops only one copy. So after adding 5 twice and removing it once, the store still holds 5.
- CommandParser.ParseCommandType: it upper-cases ASCII letters only, where `strings.ToUpper` handles all of Unicode. The parser only ever passes it `set`, `query` and `action`.
- TilingStore: `MakeMaster`, `Swap` and `All` only pass the client's id to `MakeMasterById`, `SwapById` and the concatenation. They are not modelled separately. The debug printing of a store is left out.
- Workspaces.AddToEach: Go ranges over the layout map in an unspecified order. The model picks the names in an arbitrary order, and it proves the result for every order.
- CommandRuntime.Daemon: the daemon keeps each workspace as its value (`WorkspaceView`), not as a shared `*Workspace`. Aliasing between the daemon's map and other holders of a workspace is not modelled. `class Workspace` models the in-place object on its own.
- CommandRuntime.Daemon.Keybind: for `make_active_window_master`, the tracker lookup `tracker.clients[state.ActiveWin]` is modelled as the active window's id. When the window is not tracked, the model leaves the store unchanged. Go would use a nil client there.
- CommandRuntime.Daemon.Keybind: `switch_layout` calls only `SwitchLayout`, which applies the new layout even while not tiling. The model does the same (`Workspaces.LayoutSwitched`).
- CommandRuntime.Daemon: `for workspace` runs the corrected handler (`Commands.ForWorkspaceSpec`), which leaves the context unchanged on an error. So the daemon's invariant is proved for the corrected handler, not for the code as written at internal/daemon/commands.go:242-256 (see ## Findings).
- The tracker, the client-id parser and the live X state are not modelled as code. The parser is a function parameter. The active window, the current desktop and the number of desktops are a `Live` parameter.
- The `QueriedCid` and `QueriedWokspaceNum` fields of the command context are never read in the core. They are not modelled.
- CommandParser: `for window N` and `for workspace N` are meant as command prefixes, but the parser has no keyword for them. It reads `for` as an action name, and no action has that name, so such a line fails to parse (`CommandParser.ForIsAnAction`). The model follows the code.
- Config: only the keybinding table and its legacy migration are modelled. The other configuration fields, TOML decoding and the configuration file are left out.

## Findings

| source | as written | input that shows it | evidently intended | confidence | as-written member | corrected member |
|---|---|---|---|---|---|---|
| internal/daemon/commands.go:242-256 | `for workspace N` stores the parsed number in the context even when it reports an error. It stores 0 when the argument does not parse, 2^64 - 1 when it overflows, and N itself when N is not below the number of desktops (modelled by `Commands.ForWorkspaceAsWritten`). | `for workspace 7` on a screen with two desktops reports the range error, and the context now addresses desktop 7. A later `tile` that runs before the next sequence reset looks up a workspace that does not exist, and uses a nil `*Workspace`. | On an error, leave the context as it was. Only a number below the desktop count selects a desktop (`Commands.ForWorkspaceSpec`, which the daemon uses). | not executed | CommandFacts.ForWorkspaceAsWrittenEscapes | CommandFacts.ForWorkspaceSelects |
