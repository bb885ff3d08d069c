/** The legacy keybinding table of the configuration
  * (internal/config/config.go). Old configurations bound an action name to a
  * key chord; the current format binds a chord to an action name. On load,
  * every legacy action name found as a key is turned round: its chord
  * becomes the key and the name its value. */
module Config {
  import opened Wrappers

  /** `legacyKeybindings`: the action names of the old format, in the order
    * they are migrated. */
  const LegacyKeybindings: seq<string> := [
    "tile",
    "untile",
    "make_active_window_master",
    "increase_master",
    "decrease_master",
    "switch_layout",
    "next_window",
    "previous_window",
    "increment_master",
    "decrement_master"
  ]

  /** One turn of the migration loop: a binding `name -> chord` becomes
    * `chord -> name`, and the `name` key is then deleted. */
  function Migrate(m: map<string, string>, name: string): map<string, string>
  {
    if name in m then (m[m[name] := name]) - {name} else m
  }

  /** The whole loop, over the names in order. */
  function Normalised(m: map<string, string>, names: seq<string>): map<string, string>
    decreases |names|
  {
    if names == [] then m else Normalised(Migrate(m, names[0]), names[1..])
  }

  /** The last name of `names` that `m` binds to the chord `k`: the binding
    * the migrated table keeps for `k`. */
  function Binder(m: map<string, string>, names: seq<string>, k: string): (r: Option<string>)
    ensures r.Some? ==> r.value in names && r.value in m && m[r.value] == k
    ensures r.None? ==> forall n :: n in names && n in m ==> m[n] != k
    decreases |names|
  {
    if names == [] then None
    else
      var later := Binder(m, names[1..], k);
      if later.Some? then later
      else if names[0] in m && m[names[0]] == k then Some(names[0])
      else None
  }

  /** No chord bound to a name of `names` is itself one of the names. */
  predicate ChordsApart(m: map<string, string>, names: seq<string>)
  {
    forall n :: n in names && n in m ==> m[n] !in names
  }

  class Config {
    /** `Keybindings`: the chord to action table, as decoded. */
    var keybindings: map<string, string>

    constructor (decoded: map<string, string>)
      ensures keybindings == decoded
    {
      keybindings := decoded;
    }

    /** `handleLegacyKeybindings`: migrates each legacy name in turn. */
    method HandleLegacyKeybindings()
      modifies this
      ensures keybindings == Normalised(old(keybindings), LegacyKeybindings)
    {
      for i := 0 to |LegacyKeybindings|
        invariant Normalised(keybindings, LegacyKeybindings[i..]) == Normalised(old(keybindings), LegacyKeybindings)
      {
        var command := LegacyKeybindings[i];
        assert LegacyKeybindings[i..][0] == command && LegacyKeybindings[i..][1..] == LegacyKeybindings[i + 1..];
        if command in keybindings {
          var keybind := keybindings[command];
          keybindings := keybindings[keybind := command];
          keybindings := keybindings - {command};
        }
      }
      assert LegacyKeybindings[|LegacyKeybindings|..] == [];
    }
  }

  /** One migration: the chord is bound to the name and the name's own key
    * is gone (so a name bound to itself is lost); every other key keeps its
    * value; a name without a binding changes nothing. */
  lemma MigrateEffect(m: map<string, string>, name: string)
    ensures name !in Migrate(m, name)
    ensures name in m && m[name] != name ==> m[name] in Migrate(m, name) && Migrate(m, name)[m[name]] == name
    ensures name !in m ==> Migrate(m, name) == m
    ensures forall k :: k != name && (name !in m || k != m[name]) ==>
              (k in Migrate(m, name) <==> k in m) && (k in m ==> Migrate(m, name)[k] == m[k])
  {
  }

  /** The loop's first turn. */
  lemma NormalisedStep(m: map<string, string>, names: seq<string>)
    requires names != []
    ensures Normalised(m, names) == Normalised(Migrate(m, names[0]), names[1..])
  {
  }

  /** The binder of a chord depends only on how the names are bound. */
  lemma {:induction false} BinderAgrees(m: map<string, string>, m': map<string, string>, names: seq<string>, k: string)
    requires forall n :: n in names ==> (n in m <==> n in m') && (n in m ==> m[n] == m'[n])
    ensures Binder(m, names, k) == Binder(m', names, k)
    decreases |names|
  {
    if names != [] {
      assert names[0] in names;
      forall n | n in names[1..] ensures (n in m <==> n in m') && (n in m ==> m[n] == m'[n]) {
        assert n in names;
      }
      BinderAgrees(m, m', names[1..], k);
    }
  }

  /** The migrated table: when no legacy name is bound to a chord that is
    * itself a legacy name, and each name occurs once, no name is left as a
    * key; a chord some name was bound to is bound to the last such name;
    * every other key keeps its value, and no other key appears. */
  lemma {:induction false} NormalisedTable(m: map<string, string>, names: seq<string>)
    requires Distinct(names) && ChordsApart(m, names)
    ensures forall n :: n in names ==> n !in Normalised(m, names)
    ensures forall k :: k !in names && Binder(m, names, k).Some? ==>
              k in Normalised(m, names) && Normalised(m, names)[k] == Binder(m, names, k).value
    ensures forall k :: k !in names && Binder(m, names, k).None? ==>
              (k in Normalised(m, names) <==> k in m) && (k in m ==> Normalised(m, names)[k] == m[k])
    decreases |names|
  {
    if names != [] {
      var name, rest := names[0], names[1..];
      var m' := Migrate(m, name);
      var r := Normalised(m', rest);
      assert r == Normalised(m, names);
      assert name !in rest by {
        forall j | 0 <= j < |rest| ensures rest[j] != name {
          assert names[0] != names[j + 1];
        }
      }
      MigrateEffect(m, name);
      assert name in m ==> m[name] !in names;
      // the names still to come are bound in m' as in m
      forall n | n in rest ensures (n in m <==> n in m') && (n in m ==> m[n] == m'[n]) {
        assert n in names;
      }
      forall n | n in rest && n in m' ensures m'[n] !in rest {
        assert n in names;
      }
      assert Distinct(rest) by {
        forall i, j | 0 <= i < j < |rest| ensures rest[i] != rest[j] {
          assert names[i + 1] != names[j + 1];
        }
      }
      NormalisedTable(m', rest);
      forall n | n in names ensures n !in r {
        if n == name {
          BinderAgrees(m, m', rest, name);
        }
      }
      forall k | k !in names
        ensures Binder(m, names, k).Some? ==> k in r && r[k] == Binder(m, names, k).value
        ensures Binder(m, names, k).None? ==> (k in r <==> k in m) && (k in m ==> r[k] == m[k])
      {
        BinderAgrees(m, m', rest, k);
      }
    }
  }

  /** A table without legacy names is left as it is. */
  lemma {:induction false} NothingToMigrate(m: map<string, string>, names: seq<string>)
    requires forall n :: n in names ==> n !in m
    ensures Normalised(m, names) == m
    decreases |names|
  {
    if names != [] {
      assert names[0] in names;
      forall n | n in names[1..] ensures n !in m {
        assert n in names;
      }
      NothingToMigrate(m, names[1..]);
    }
  }

  /** The legacy names are distinct. */
  lemma LegacyDistinct()
    ensures Distinct(LegacyKeybindings)
  {
  }

  /** Two legacy names bound to the same chord: the later one in the legacy
    * order keeps it. */
  lemma LaterNameWins(chord: string)
    requires chord !in LegacyKeybindings
    ensures Normalised(map["tile" := chord, "untile" := chord], LegacyKeybindings) == map[chord := "untile"]
  {
    var m := map["tile" := chord, "untile" := chord];
    var m1 := Migrate(m, "tile");
    assert m1 == map["untile" := chord, chord := "tile"];
    var m2 := Migrate(m1, "untile");
    assert m2 == map[chord := "untile"];
    var later := LegacyKeybindings[1..];
    assert LegacyKeybindings[0] == "tile" && later[0] == "untile" && later[1..] == LegacyKeybindings[2..];
    NormalisedStep(m, LegacyKeybindings);
    NormalisedStep(m1, later);
    assert chord !in LegacyKeybindings[2..];
    NothingToMigrate(m2, LegacyKeybindings[2..]);
  }

  /** A name bound to itself is dropped, not kept. */
  lemma SelfBindingLost()
    ensures Normalised(map["tile" := "tile"], LegacyKeybindings) == map[]
  {
    var m := map["tile" := "tile"];
    assert Migrate(m, "tile") == map[];
    NothingToMigrate(map[], LegacyKeybindings[1..]);
  }
}
