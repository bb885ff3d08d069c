/** A workspace: a fixed cycle of named layouts, each with its own store, and
  * a tiling flag (internal/daemon/workspace.go). A layout is modelled by its
  * store; the geometry it computes is not, and the calls that would place
  * windows on screen are recorded as ghost events. */
module Workspaces {
  import opened Wrappers
  import opened Types
  import opened TilingStore
  import TilingStoreFacts

  const DefaultLayoutOrder: seq<string> := ["vertical", "horizontal", "fullscreen"]

  /** The layout names `createLayouts` knows how to build. */
  predicate IsKnownLayout(name: string)
  {
    name == "vertical" || name == "horizontal" || name == "fullscreen"
  }

  /** A call on a layout whose effect is on screen geometry only. */
  datatype LayoutEvent =
    | Do(layout: string)
    | Undo(layout: string)
    | NextClient(layout: string)
    | PreviousClient(layout: string)
    | IncrementMaster(layout: string)
    | DecrementMaster(layout: string)

  /** The names of a sequence, as a set. */
  function Names(s: seq<string>): set<string>
  {
    set n | n in s
  }

  /** A list of names without repetitions has as many distinct names as entries. */
  lemma {:induction false} DistinctNamesCount(s: seq<string>)
    requires Distinct(s)
    ensures |Names(s)| == |s|
  {
    if s != [] {
      var t := s[..|s| - 1];
      assert Distinct(t);
      DistinctNamesCount(t);
      assert s == t + [s[|s| - 1]];
      assert s[|s| - 1] !in t;
      assert Names(s) == Names(t) + {s[|s| - 1]};
    }
  }

  /** `createLayouts`: one fresh, empty store per known name of the list;
    * unknown names are skipped. */
  method CreateLayouts(layoutList: seq<string>) returns (layouts: map<string, Store>)
    ensures layouts.Keys == set n | n in layoutList && IsKnownLayout(n)
    ensures forall n :: n in layouts ==> fresh(layouts[n]) && layouts[n].Valid()
    ensures forall n :: n in layouts ==> layouts[n].View() == StoreView(1, [], [])
    ensures forall a, b :: a in layouts && b in layouts && a != b ==> layouts[a] != layouts[b]
  {
    layouts := map[];
    var i := 0;
    while i < |layoutList|
      invariant 0 <= i <= |layoutList|
      invariant layouts.Keys == set n | n in layoutList[..i] && IsKnownLayout(n)
      invariant forall n :: n in layouts ==> fresh(layouts[n]) && layouts[n].Valid()
      invariant forall n :: n in layouts ==> layouts[n].View() == StoreView(1, [], [])
      invariant forall a, b :: a in layouts && b in layouts && a != b ==> layouts[a] != layouts[b]
    {
      var name := layoutList[i];
      assert layoutList[..i + 1] == layoutList[..i] + [name];
      if IsKnownLayout(name) {
        var store := new Store();
        layouts := layouts[name := store];
      }
      i := i + 1;
    }
    assert layoutList[..i] == layoutList;
  }

  /** The value of a workspace: its flag, active index, layout order, the
    * value of each layout's store, and the geometry calls made so far. */
  datatype WorkspaceView = WorkspaceView(
    isTiling: bool,
    activeLayoutNum: nat,
    layoutOrder: seq<string>,
    stores: map<string, StoreView>,
    events: seq<LayoutEvent>)

  /** One layout per ordered name, an active index inside the order, and
    * every store keeping its own invariant. */
  predicate WInv(w: WorkspaceView)
  {
    && |w.layoutOrder| > 0
    && Distinct(w.layoutOrder)
    && w.stores.Keys == Names(w.layoutOrder)
    && w.activeLayoutNum < |w.layoutOrder|
    && (forall n :: n in w.stores ==> Inv(w.stores[n]))
  }

  /** There are as many layouts as ordered names. */
  lemma LayoutCount(w: WorkspaceView)
    requires WInv(w)
    ensures |w.stores| == |w.layoutOrder|
  {
    DistinctNamesCount(w.layoutOrder);
    assert w.stores.Keys == Names(w.layoutOrder);
  }

  /** `ActiveLayoutName`: the name at the active index; it names a layout
    * and is found back at that index. */
  function ActiveName(w: WorkspaceView): (name: string)
    requires WInv(w)
    ensures name in w.stores
    ensures IndexOf(w.layoutOrder, name) == w.activeLayoutNum
  {
    DistinctIndexOf(w.layoutOrder, w.activeLayoutNum);
    w.layoutOrder[w.activeLayoutNum]
  }

  /** The store of the active layout. */
  function ActiveStore(w: WorkspaceView): StoreView
    requires WInv(w)
  {
    w.stores[ActiveName(w)]
  }

  /** The workspace with the active layout's store replaced. */
  function WithActiveStore(w: WorkspaceView, v: StoreView): WorkspaceView
    requires WInv(w)
  {
    w.(stores := w.stores[ActiveName(w) := v])
  }

  /** The workspace with its active store replaced keeps its invariant. */
  lemma WithActiveStoreValid(w: WorkspaceView, v: StoreView)
    requires WInv(w) && Inv(v)
    ensures WInv(WithActiveStore(w, v))
    ensures ActiveName(WithActiveStore(w, v)) == ActiveName(w)
    ensures ActiveStore(WithActiveStore(w, v)) == v
  {
  }

  /** A geometry call on the active layout. */
  function Record(w: WorkspaceView, e: LayoutEvent): (r: WorkspaceView)
    ensures WInv(w) ==> WInv(r) && ActiveName(r) == ActiveName(w)
  {
    w.(events := w.events + [e])
  }

  /** A freshly created workspace. */
  function InitialWorkspace(): WorkspaceView
  {
    WorkspaceView(false, 0, DefaultLayoutOrder,
      map["vertical" := StoreView(1, [], []), "horizontal" := StoreView(1, [], []), "fullscreen" := StoreView(1, [], [])],
      [])
  }

  /** `SetLayoutByName`. */
  function LayoutSet(w: WorkspaceView, layoutName: string): (WorkspaceView, Option<Error>)
  {
    var layoutNum := IndexOf(w.layoutOrder, layoutName);
    if layoutNum == -1 then (w, Some(LayoutNotFound(layoutName)))
    else (Record(w.(activeLayoutNum := layoutNum, isTiling := true), Do(layoutName)), None)
  }

  /** `SwitchLayout`: the index moves on modulo the number of layouts. */
  function LayoutSwitched(w: WorkspaceView): (r: WorkspaceView)
    requires WInv(w)
    ensures WInv(r)
  {
    LayoutCount(w);
    var next := (w.activeLayoutNum + 1) % |w.stores|;
    w.(activeLayoutNum := next, events := w.events + [Do(w.layoutOrder[next])])
  }

  /** The fields `SwitchLayout` writes: the next index and the event that
    * applies its layout. */
  lemma SwitchedFields(w: WorkspaceView, next: nat)
    requires WInv(w) && next == (w.activeLayoutNum + 1) % |w.layoutOrder|
    ensures LayoutSwitched(w) == w.(activeLayoutNum := next, events := w.events + [Do(w.layoutOrder[next])])
  {
    LayoutCount(w);
  }

  /** `AddClient`: every layout's store gets the client. */
  function ClientAdded(w: WorkspaceView, c: ClientId): WorkspaceView
  {
    w.(stores := map n | n in w.stores :: Added(w.stores[n], c))
  }

  /** `RemoveClient`: every layout's store loses the client. */
  function ClientRemoved(w: WorkspaceView, c: ClientId): WorkspaceView
  {
    w.(stores := map n | n in w.stores :: Removed(w.stores[n], c))
  }

  /** `Tile`. */
  function Tiled(w: WorkspaceView): (r: WorkspaceView)
    requires WInv(w)
    ensures WInv(r) && r.isTiling == w.isTiling && ActiveName(r) == ActiveName(w) && r.stores == w.stores
    ensures !w.isTiling ==> r == w
  {
    if w.isTiling then Record(w, Do(ActiveName(w))) else w
  }

  /** `Untile`. */
  function Untiled(w: WorkspaceView): (r: WorkspaceView)
    requires WInv(w)
    ensures WInv(r) && !r.isTiling && ActiveName(r) == ActiveName(w) && r.stores == w.stores
  {
    Record(w.(isTiling := false), Undo(ActiveName(w)))
  }

  /** A new workspace is valid, not tiling, with "vertical" active and three
    * empty layouts. */
  lemma InitialWorkspaceValid()
    ensures WInv(InitialWorkspace())
    ensures ActiveName(InitialWorkspace()) == "vertical"
    ensures |InitialWorkspace().stores| == 3
  {
    var w := InitialWorkspace();
    assert Distinct(DefaultLayoutOrder);
    assert w.stores.Keys == Names(DefaultLayoutOrder);
    LayoutCount(w);
  }

  /** `SetLayoutByName` succeeds exactly for a name of the order; the named
    * layout then becomes the active one, tiling is turned on and that layout
    * is tiled, and no store changes. An unknown name changes nothing. */
  lemma SetLayoutSelects(w: WorkspaceView, layoutName: string)
    requires WInv(w)
    ensures var (r, err) := LayoutSet(w, layoutName);
      && WInv(r)
      && (err == None <==> layoutName in w.layoutOrder)
      && (err != None ==> r == w && err == Some(LayoutNotFound(layoutName)))
      && (err == None ==>
            && ActiveName(r) == layoutName
            && r.isTiling
            && r.stores == w.stores
            && r.events == w.events + [Do(layoutName)])
  {
  }

  /** `SwitchLayout` applied `k` times. */
  function SwitchedTimes(w: WorkspaceView, k: nat): (r: WorkspaceView)
    requires WInv(w)
    ensures WInv(r)
  {
    if k == 0 then w else LayoutSwitched(SwitchedTimes(w, k - 1))
  }

  /** Switching never touches the stores, the flag or the order. */
  lemma {:induction false} SwitchKeepsLayouts(w: WorkspaceView, k: nat)
    requires WInv(w)
    ensures SwitchedTimes(w, k).stores == w.stores
    ensures SwitchedTimes(w, k).isTiling == w.isTiling
    ensures SwitchedTimes(w, k).layoutOrder == w.layoutOrder
  {
    if k > 0 {
      SwitchKeepsLayouts(w, k - 1);
    }
  }

  /** One more switch advances the active index by one round the cycle. */
  lemma SwitchOnceMore(w: WorkspaceView, k: nat)
    requires WInv(w)
    ensures SwitchedTimes(w, k + 1).activeLayoutNum
      == (SwitchedTimes(w, k).activeLayoutNum + 1) % |w.layoutOrder|
  {
    SwitchKeepsLayouts(w, k);
    LayoutCount(SwitchedTimes(w, k));
  }

  /** `k` steps of one round a cycle of length `m`, from `a`. */
  function Stepped(a: nat, k: nat, m: nat): nat
    requires m > 0
  {
    if k == 0 then a else (Stepped(a, k - 1, m) + 1) % m
  }

  /** `k` single steps round a cycle land where one jump of `k` does. */
  lemma {:induction false} SteppedJump(a: nat, k: nat, m: nat)
    requires a < m
    ensures Stepped(a, k, m) == (a + k) % m
  {
    if k == 0 {
      ModSmall(a, m);
    } else {
      var x := a + (k - 1);
      var p := Stepped(a, k - 1, m);
      assert p == x % m by {
        SteppedJump(a, k - 1, m);
      }
      assert (x % m + 1) % m == (x + 1) % m by {
        ModSucc(x, m);
      }
      assert x + 1 == a + k;
    }
  }

  /** Switching `k` times takes `k` steps round the cycle. */
  lemma {:induction false} SwitchSteps(w: WorkspaceView, k: nat)
    requires WInv(w)
    ensures SwitchedTimes(w, k).activeLayoutNum == Stepped(w.activeLayoutNum, k, |w.layoutOrder|)
  {
    if k > 0 {
      var m := |w.layoutOrder|;
      var p := SwitchedTimes(w, k - 1).activeLayoutNum;
      assert p == Stepped(w.activeLayoutNum, k - 1, m) by {
        SwitchSteps(w, k - 1);
      }
      assert SwitchedTimes(w, k).activeLayoutNum == (p + 1) % m by {
        SwitchOnceMore(w, k - 1);
      }
    }
  }

  /** Switching `k` times advances the active index by `k` round the cycle. */
  lemma SwitchAdvances(w: WorkspaceView, k: nat)
    requires WInv(w)
    ensures SwitchedTimes(w, k).activeLayoutNum == (w.activeLayoutNum + k) % |w.layoutOrder|
  {
    SwitchSteps(w, k);
    SteppedJump(w.activeLayoutNum, k, |w.layoutOrder|);
  }

  /** After as many switches as there are layouts, the same layout is active again. */
  lemma SwitchFullCycle(w: WorkspaceView)
    requires WInv(w)
    ensures ActiveName(SwitchedTimes(w, |w.layoutOrder|)) == ActiveName(w)
  {
    var m := |w.layoutOrder|;
    var a := w.activeLayoutNum;
    var r := SwitchedTimes(w, m);
    SwitchAdvances(w, m);
    SwitchKeepsLayouts(w, m);
    ModShift(a, m);
    ModSmall(a, m);
    assert r.activeLayoutNum == a;
    assert r.layoutOrder == w.layoutOrder;
  }

  /** Taking one more step round a cycle of length `m`. */
  lemma {:induction false} ModSucc(x: nat, m: nat)
    requires m > 0
    ensures (x % m + 1) % m == (x + 1) % m
    decreases x
  {
    if x >= m {
      ModShift(x - m, m);
      ModShift(x + 1 - m, m);
      ModSucc(x - m, m);
    } else {
      ModSmall(x, m);
      if x + 1 < m {
        ModSmall(x + 1, m);
      }
    }
  }

  lemma ModSmall(x: nat, m: nat)
    requires x < m
    ensures x % m == x
  {
  }

  lemma ModShift(x: nat, m: nat)
    requires m > 0
    ensures (x + m) % m == x % m
  {
    ModUnique(x + m, m, x / m + 1, x % m);
  }

  /** The remainder is the only one in range. */
  lemma ModUnique(y: int, m: int, q: int, r: int)
    requires m > 0 && 0 <= r < m && y == m * q + r
    ensures y % m == r
  {
    var q', r' := y / m, y % m;
    assert y == m * q' + r';
    assert m * (q - q') == r' - r;
    if q - q' >= 1 {
      MulAtLeast(q - q', m);
    } else if q' - q >= 1 {
      MulAtLeast(q' - q, m);
    }
  }

  lemma MulAtLeast(a: int, m: int)
    requires m > 0 && a >= 1
    ensures m * a >= m
  {
  }

  /** `Untile` keeps the active layout, and untiling again changes nothing
    * but recording one more untile call; once untiled, `Tile` does nothing. */
  lemma UntileIdempotent(w: WorkspaceView)
    requires WInv(w)
    ensures var u := Untiled(w);
      && WInv(u)
      && !u.isTiling && u.activeLayoutNum == w.activeLayoutNum && u.stores == w.stores
      && Untiled(u) == Record(u, Undo(ActiveName(w)))
      && Tiled(u) == u
  {
  }

  /** Adding a client to every layout and removing it again gives every
    * layout back the clients it had. */
  lemma AddThenRemoveClient(w: WorkspaceView, c: ClientId)
    requires WInv(w)
    ensures forall n :: n in w.stores ==>
      multiset(ClientRemoved(ClientAdded(w, c), c).stores[n].All()) == multiset(w.stores[n].All())
  {
    forall n | n in w.stores
      ensures multiset(ClientRemoved(ClientAdded(w, c), c).stores[n].All()) == multiset(w.stores[n].All())
    {
      var v := w.stores[n];
      TilingStoreFacts.AddPlacesClient(v, c);
      TilingStoreFacts.RemoveDropsClient(Added(v, c), c);
    }
  }

  lemma AddedKeepsWInv(w: WorkspaceView, c: ClientId)
    requires WInv(w)
    ensures WInv(ClientAdded(w, c))
  {
    forall n | n in w.stores ensures Inv(Added(w.stores[n], c)) {
      TilingStoreFacts.AddPlacesClient(w.stores[n], c);
    }
  }

  lemma RemovedKeepsWInv(w: WorkspaceView, c: ClientId)
    requires WInv(w)
    ensures WInv(ClientRemoved(w, c))
  {
    forall n | n in w.stores ensures Inv(Removed(w.stores[n], c)) {
      TilingStoreFacts.RemoveDropsClient(w.stores[n], c);
    }
  }

  /** The loop of `AddClient`: every layout's store, visited in the map's
    * unspecified order, gets the client added. */
  method AddToEach(layouts: map<string, Store>, c: ClientId)
    requires forall a, b :: a in layouts && b in layouts && a != b ==> layouts[a] != layouts[b]
    requires forall n :: n in layouts ==> layouts[n].Valid()
    modifies layouts.Values
    ensures forall n :: n in layouts ==> layouts[n].Valid() && layouts[n].View() == Added(old(layouts[n].View()), c)
  {
    ghost var before := map n | n in layouts :: layouts[n].View();
    var pending := layouts.Keys;
    while pending != {}
      invariant pending <= layouts.Keys
      invariant forall n :: n in layouts ==>
        layouts[n].Valid() && layouts[n].View() == if n in pending then before[n] else Added(before[n], c)
      decreases pending
    {
      var name :| name in pending;
      var store := layouts[name];
      store.Add(c);
      pending := pending - {name};
    }
  }

  /** The loop of `RemoveClient`: every layout's store, visited in the map's
    * unspecified order, has the client removed. */
  method RemoveFromEach(layouts: map<string, Store>, c: ClientId)
    requires forall a, b :: a in layouts && b in layouts && a != b ==> layouts[a] != layouts[b]
    requires forall n :: n in layouts ==> layouts[n].Valid()
    modifies layouts.Values
    ensures forall n :: n in layouts ==> layouts[n].Valid() && layouts[n].View() == Removed(old(layouts[n].View()), c)
  {
    ghost var before := map n | n in layouts :: layouts[n].View();
    var pending := layouts.Keys;
    while pending != {}
      invariant pending <= layouts.Keys
      invariant forall n :: n in layouts ==>
        layouts[n].Valid() && layouts[n].View() == if n in pending then before[n] else Removed(before[n], c)
      decreases pending
    {
      var name :| name in pending;
      var store := layouts[name];
      store.Remove(c);
      pending := pending - {name};
    }
  }

  class Workspace {
    var isTiling: bool
    var activeLayoutNum: nat
    const layoutOrder: seq<string>
    const layouts: map<string, Store>
    /** The geometry calls made on this workspace's layouts, in order. */
    ghost var events: seq<LayoutEvent>

    /** The objects this workspace owns. */
    ghost function Repr(): set<object>
    {
      {this} + layouts.Values
    }

    /** The value of every layout's store. */
    ghost function StoreViews(): map<string, StoreView>
      reads layouts.Values
    {
      map n | n in layouts :: layouts[n].View()
    }

    ghost function View(): WorkspaceView
      reads this, layouts.Values
    {
      WorkspaceView(isTiling, activeLayoutNum, layoutOrder, StoreViews(), events)
    }

    /** No two layouts share a store. */
    ghost predicate OwnStores()
    {
      forall a, b :: a in layouts && b in layouts && a != b ==> layouts[a] != layouts[b]
    }

    /** Every layout has a store of its own, and the value keeps `WInv`. */
    ghost predicate Valid()
      reads this, layouts.Values
    {
      && OwnStores()
      && layouts.Keys == Names(layoutOrder)
      && WInv(View())
    }

    /** One workspace of `CreateWorkspaces`. */
    constructor ()
      ensures Valid() && fresh(layouts.Values)
      ensures View() == InitialWorkspace()
    {
      isTiling := false;
      activeLayoutNum := 0;
      layoutOrder := DefaultLayoutOrder;
      var built := CreateLayouts(DefaultLayoutOrder);
      assert built.Keys == Names(DefaultLayoutOrder);
      layouts := built;
      events := [];
      new;
      assert View().stores == InitialWorkspace().stores;
    }

    function ActiveLayoutName(): (name: string)
      reads this, layouts.Values
      requires Valid()
      ensures name == ActiveName(View())
    {
      layoutOrder[activeLayoutNum]
    }

    /** `ActiveLayout`: the layout stored under the active name. */
    function ActiveLayout(): (store: Store)
      reads this, layouts.Values
      requires Valid()
      ensures store in layouts.Values && store == layouts[ActiveName(View())]
      ensures store.View() == ActiveStore(View())
    {
      layouts[layoutOrder[activeLayoutNum]]
    }

    method SetLayoutByName(layoutName: string) returns (err: Option<Error>)
      requires Valid()
      modifies this
      ensures Valid()
      ensures (View(), err) == LayoutSet(old(View()), layoutName)
    {
      var layoutNum := IndexOf(layoutOrder, layoutName);
      if layoutNum == -1 {
        return Some(LayoutNotFound(layoutName));
      }
      ghost var w := View();
      activeLayoutNum := layoutNum;
      isTiling := true;
      events := events + [Do(layoutName)];
      assert StoreViews() == w.stores;
      return None;
    }

    method SwitchLayout()
      requires Valid()
      modifies this
      ensures Valid()
      ensures View() == LayoutSwitched(old(View()))
    {
      ghost var w := View();
      assert |layouts| == |w.layoutOrder| by {
        LayoutCount(w);
        assert layouts.Keys == w.stores.Keys;
      }
      activeLayoutNum := (activeLayoutNum + 1) % |layouts|;
      events := events + [Do(layoutOrder[activeLayoutNum])];
      SwitchedFields(w, activeLayoutNum);
      assert StoreViews() == w.stores;
    }

    method AddClient(c: ClientId)
      requires Valid()
      modifies layouts.Values
      ensures Valid()
      ensures View() == ClientAdded(old(View()), c)
    {
      ghost var w := View();
      AddToEach(layouts, c);
      assert StoreViews() == ClientAdded(w, c).stores;
      AddedKeepsWInv(w, c);
    }

    method RemoveClient(c: ClientId)
      requires Valid()
      modifies layouts.Values
      ensures Valid()
      ensures View() == ClientRemoved(old(View()), c)
    {
      ghost var w := View();
      RemoveFromEach(layouts, c);
      assert StoreViews() == ClientRemoved(w, c).stores;
      RemovedKeepsWInv(w, c);
    }

    method Tile()
      requires Valid()
      modifies this
      ensures Valid()
      ensures View() == Tiled(old(View()))
    {
      ghost var w := View();
      if isTiling {
        events := events + [Do(layoutOrder[activeLayoutNum])];
      }
      assert StoreViews() == w.stores;
    }

    /** A geometry call on the active layout (`NextClient`, `PreviousClient`,
      * `IncrementMaster`, `DecrementMaster`), kept only as an event. */
    ghost method Called(e: LayoutEvent)
      requires Valid()
      modifies this
      ensures Valid()
      ensures View() == Record(old(View()), e)
    {
      ghost var w := View();
      events := events + [e];
      assert StoreViews() == w.stores;
    }

    method Untile()
      requires Valid()
      modifies this
      ensures Valid()
      ensures View() == Untiled(old(View()))
    {
      ghost var w := View();
      isTiling := false;
      events := events + [Undo(layoutOrder[activeLayoutNum])];
      assert StoreViews() == w.stores;
    }
  }

  /** A workspace whose objects are none of those already owned can join
    * a family of workspaces that own disjoint objects. */
  lemma JoinApart(workspaces: map<nat, Workspace>, i: nat, ws: Workspace, used: set<object>, joined: map<nat, Workspace>)
    requires forall k, j :: k in workspaces && j in workspaces && k != j ==> workspaces[k].Repr() !! workspaces[j].Repr()
    requires forall k :: k in workspaces ==> workspaces[k].Repr() <= used
    requires i !in workspaces && ws.Repr() !! used && joined == workspaces[i := ws]
    ensures forall k, j :: k in joined && j in joined && k != j ==> joined[k].Repr() !! joined[j].Repr()
  {
  }

  /** One workspace of `CreateWorkspaces`: new objects only, so the
    * workspaces made before it keep their values. */
  method NewWorkspace(ghost made: map<nat, Workspace>, ghost used: set<object>) returns (ws: Workspace)
    requires forall k :: k in made ==> made[k].Repr() <= used
    ensures fresh(ws.Repr()) && ws.Valid() && ws.View() == InitialWorkspace() && ws.Repr() !! used
    ensures forall k :: k in made ==> (made[k].Valid() <==> old(made[k].Valid())) && made[k].View() == old(made[k].View())
  {
    ws := new Workspace();
  }

  /** `CreateWorkspaces`: one new workspace per desktop `0 .. deskCount-1`,
    * none sharing an object with another. */
  method CreateWorkspaces(deskCount: nat) returns (workspaces: map<nat, Workspace>)
    ensures forall k: nat :: k in workspaces <==> k < deskCount
    ensures forall k :: k in workspaces ==>
      fresh(workspaces[k].Repr()) && workspaces[k].Valid() && workspaces[k].View() == InitialWorkspace()
    ensures forall k, j :: k in workspaces && j in workspaces && k != j ==> workspaces[k].Repr() !! workspaces[j].Repr()
  {
    workspaces := map[];
    ghost var used: set<object> := {};
    var i := 0;
    while i < deskCount
      invariant 0 <= i <= deskCount
      invariant forall k: nat :: k in workspaces <==> k < i
      invariant forall k :: k in workspaces ==> fresh(workspaces[k].Repr())
      invariant forall k :: k in workspaces ==> workspaces[k].Valid()
      invariant forall k :: k in workspaces ==> workspaces[k].View() == InitialWorkspace()
      invariant forall k :: k in workspaces ==> workspaces[k].Repr() <= used
      invariant forall k, j :: k in workspaces && j in workspaces && k != j ==> workspaces[k].Repr() !! workspaces[j].Repr()
    {
      var ws := NewWorkspace(workspaces, used);
      JoinApart(workspaces, i, ws, used, workspaces[i := ws]);
      workspaces := workspaces[i := ws];
      used := used + ws.Repr();
      i := i + 1;
    }
  }
}
