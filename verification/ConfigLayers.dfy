/** Layered configuration: `diff_toml_values`, `strip_persona_fields`, the `merge` family,
    `save_workspace_file` and `load_for_workspace` of `crates/common/src/config.rs`. A
    configuration is the TOML tree it serializes to; an unset optional field is a missing key. */
module ConfigLayers {
  import opened Text

  datatype Toml = Leaf(value: string) | Table(entries: map<string, Toml>)

  // ----- the diff that is saved -----

  /** `diff_toml_values`: the entries of `current` that differ from `base`, if any. */
  function Diff(current: Toml, base: Toml): Option<Toml>
    decreases current
  {
    if current == base then None
    else if current.Table? && base.Table? then
      var d := map k |
        k in current.entries && (k in base.entries ==> Diff(current.entries[k], base.entries[k]).Some?) ::
        if k in base.entries then Diff(current.entries[k], base.entries[k]).value else current.entries[k];
      if d == map[] then None else Some(Table(d))
    else Some(current)
  }

  // ----- the merge that loads it -----

  /** How a part of the configuration merges: replaced whole, merged at every depth, or field
      by field with its own rule for each field. */
  datatype Shape = Whole | Deep | Fields(named: map<string, Shape>, others: Shape)

  function Sub(shape: Shape, key: string): Shape {
    match shape
    case Fields(named, others) => if key in named then named[key] else others
    case _ => shape
  }

  function Merge(shape: Shape, base: Toml, patch: Toml): Toml
    decreases patch
  {
    if shape.Whole? || !base.Table? || !patch.Table? then patch
    else
      Table(map k | k in base.entries.Keys + patch.entries.Keys ::
        if k !in patch.entries then base.entries[k]
        else if k !in base.entries then patch.entries[k]
        else Merge(Sub(shape, k), base.entries[k], patch.entries[k]))
  }

  function Overlay(base: Toml, patch: Toml): Toml {
    Merge(Deep, base, patch)
  }

  /** `NcaConfig::merge`: every section field by field, but the alias table of a model and the
      entries of a plan as wholes. */
  const NCA_SHAPE := Fields(map["model" := Fields(map["aliases" := Whole], Deep),
                                "plans" := Fields(map[], Fields(map[], Whole))], Deep)

  /** Loading a layer that may be missing. */
  function Apply(shape: Shape, base: Toml, patch: Option<Toml>): Toml {
    match patch
    case None => base
    case Some(p) => Merge(shape, base, p)
  }

  // ----- diff against overlay -----

  lemma DiffCases(c: Toml, b: Toml)
    requires c != b && c.Table? && b.Table?
    ensures match Diff(c, b)
            case None => forall k :: k in c.entries ==> k in b.entries && Diff(c.entries[k], b.entries[k]).None?
            case Some(d) =>
              && d.Table? && d.entries != map[]
              && (forall k :: k in d.entries <==>
                    k in c.entries && (k in b.entries ==> Diff(c.entries[k], b.entries[k]).Some?))
              && (forall k :: k in d.entries && k !in b.entries ==> d.entries[k] == c.entries[k])
              && (forall k :: k in d.entries && k in b.entries ==>
                    Some(d.entries[k]) == Diff(c.entries[k], b.entries[k]))
  {
    var d := map k | k in c.entries && (k in b.entries ==> Diff(c.entries[k], b.entries[k]).Some?) ::
      if k in b.entries then Diff(c.entries[k], b.entries[k]).value else c.entries[k];
    if d == map[] {
      forall k | k in c.entries ensures k in b.entries && Diff(c.entries[k], b.entries[k]).None? {
        assert k !in d;
      }
    }
  }

  /** Overlaying the diff is overlaying the whole; there is no diff exactly when the whole
      adds nothing. */
  lemma {:induction false} DiffReplays(current: Toml, base: Toml)
    ensures match Diff(current, base)
            case None => Overlay(base, current) == base
            case Some(d) => Overlay(base, d) == Overlay(base, current) && Overlay(base, current) != base
    decreases current
  {
    if current.Table? && base.Table? {
      forall k | k in current.entries && k in base.entries
        ensures match Diff(current.entries[k], base.entries[k])
                case None => Overlay(base.entries[k], current.entries[k]) == base.entries[k]
                case Some(d) => Overlay(base.entries[k], d) == Overlay(base.entries[k], current.entries[k])
                                && Overlay(base.entries[k], current.entries[k]) != base.entries[k]
      {
        DiffReplays(current.entries[k], base.entries[k]);
      }
      if current == base {
        assert Overlay(base, current).entries == base.entries;
      } else {
        DiffCases(current, base);
        match Diff(current, base)
        case None =>
          assert Overlay(base, current).entries == base.entries;
        case Some(d) =>
          assert Overlay(base, d).entries == Overlay(base, current).entries;
          var k :| k in d.entries;
          assert k in Overlay(base, current).entries;
      }
    }
  }

  /** `a` asks for no more than `b` does: its entries are among those of `b`, at every depth. */
  predicate Within(a: Toml, b: Toml)
    decreases a
  {
    if a.Table? && b.Table? then
      forall k :: k in a.entries ==> k in b.entries && Within(a.entries[k], b.entries[k])
    else a == b
  }

  lemma {:induction false} WithinItself(a: Toml)
    ensures Within(a, a)
    decreases a
  {
    if a.Table? {
      forall k | k in a.entries ensures Within(a.entries[k], a.entries[k]) {
        WithinItself(a.entries[k]);
      }
    }
  }

  /** The diff is the least patch: any patch with the same effect contains it. */
  lemma {:induction false} DiffIsLeast(current: Toml, base: Toml, patch: Toml)
    requires Overlay(base, patch) == Overlay(base, current)
    ensures match Diff(current, base) case None => true case Some(d) => Within(d, patch)
    decreases current
  {
    if Diff(current, base).Some? {
      var d := Diff(current, base).value;
      if current.Table? && base.Table? {
        DiffCases(current, base);
        assert patch.Table?;
        forall k | k in d.entries ensures k in patch.entries && Within(d.entries[k], patch.entries[k]) {
          assert Overlay(base, patch).entries[k] == Overlay(base, current).entries[k];
          if k in base.entries {
            DiffReplays(current.entries[k], base.entries[k]);
            DiffIsLeast(current.entries[k], base.entries[k], patch.entries[k]);
          } else {
            WithinItself(current.entries[k]);
          }
        }
      } else {
        WithinItself(current);
        NotTables(base, current, patch);
      }
    }
  }

  lemma NotTables(base: Toml, current: Toml, patch: Toml)
    requires !(current.Table? && base.Table?) && Overlay(base, patch) == Overlay(base, current)
    ensures patch == current
  {
  }

  /** No entry of `c` agrees with the entry of `b` under the same key, at any depth. */
  predicate NothingShared(b: Toml, c: Toml)
    decreases c
  {
    if c.Table? && b.Table? then
      c.entries != map[] && forall k :: k in c.entries && k in b.entries ==> NothingShared(b.entries[k], c.entries[k])
    else c != b
  }

  /** Nothing is shared exactly when the diff keeps everything. */
  lemma {:induction false} NothingSharedIs(b: Toml, c: Toml)
    ensures Diff(c, b) == Some(c) <==> NothingShared(b, c)
    decreases c
  {
    if c.Table? && b.Table? {
      forall k | k in c.entries && k in b.entries
        ensures Diff(c.entries[k], b.entries[k]) == Some(c.entries[k]) <==> NothingShared(b.entries[k], c.entries[k])
      {
        NothingSharedIs(b.entries[k], c.entries[k]);
      }
      if c == b {
        if c.entries != map[] {
          var k :| k in c.entries;
          assert Diff(c.entries[k], b.entries[k]).None?;
        }
      } else {
        DiffCases(c, b);
        if NothingShared(b, c) {
          var k :| k in c.entries;
          assert Diff(c, b).Some?;
          assert Diff(c, b).value.entries == c.entries;
        }
      }
    }
  }

  /** The diff holds no entry that already agrees. */
  lemma {:induction false} DiffSharesNothing(current: Toml, base: Toml)
    ensures match Diff(current, base) case None => true case Some(d) => NothingShared(base, d)
    decreases current
  {
    if current != base && current.Table? && base.Table? && Diff(current, base).Some? {
      DiffCases(current, base);
      var d := Diff(current, base).value;
      forall k | k in d.entries && k in base.entries ensures NothingShared(base.entries[k], d.entries[k]) {
        DiffSharesNothing(current.entries[k], base.entries[k]);
      }
    }
  }

  // ----- what a save and a load make of a configuration -----

  /** The configuration that comes back when `current` is saved over `base` and loaded. */
  function Reloaded(shape: Shape, base: Toml, current: Toml): Toml {
    Apply(shape, base, Diff(current, base))
  }

  /** Entry by entry, except where a table is replaced whole. */
  lemma ReloadedEntries(shape: Shape, b: Toml, c: Toml)
    requires !shape.Whole?
    ensures !(b.Table? && c.Table?) ==> Reloaded(shape, b, c) == c
    ensures b.Table? && c.Table? ==>
      var r := Reloaded(shape, b, c);
      && r.Table? && r.entries.Keys == b.entries.Keys + c.entries.Keys
      && forall k :: k in r.entries ==>
           r.entries[k] == if k !in c.entries then b.entries[k]
                           else if k !in b.entries then c.entries[k]
                           else Reloaded(Sub(shape, k), b.entries[k], c.entries[k])
  {
    if b.Table? && c.Table? && b != c {
      DiffCases(c, b);
      var r := Reloaded(shape, b, c);
      assert forall k :: k in r.entries <==> k in b.entries || k in c.entries;
      assert r.entries.Keys == b.entries.Keys + c.entries.Keys;
    } else if b.Table? && c.Table? {
      assert b.entries.Keys + c.entries.Keys == b.entries.Keys;
    }
  }

  /** Loading a diff and taking the diff again gives that diff, however the tables merge. */
  lemma {:induction false} ResaveIsStable(shape: Shape, b: Toml, c: Toml)
    ensures Diff(Reloaded(shape, b, c), b) == Diff(c, b)
    decreases c
  {
    SameIsNoDiff(b);
    if shape.Whole? {
      if Diff(c, b).Some? {
        DiffSharesNothing(c, b);
        NothingSharedIs(b, Diff(c, b).value);
      }
    } else if b.Table? && c.Table? && b != c {
      ReloadedEntries(shape, b, c);
      var r := Reloaded(shape, b, c);
      forall k | k in b.entries && k in c.entries
        ensures Diff(r.entries[k], b.entries[k]) == Diff(c.entries[k], b.entries[k])
      {
        ResaveIsStable(Sub(shape, k), b.entries[k], c.entries[k]);
      }
      SameEntriesSameDiff(r, c, b);
    } else {
      ReloadedEntries(shape, b, c);
    }
  }

  lemma SameIsNoDiff(t: Toml)
    ensures Diff(t, t).None?
  {
  }

  /** The diff looks at the entries one by one; entries that are the base's own do not count. */
  lemma {:induction false} SameEntriesSameDiff(r: Toml, c: Toml, b: Toml)
    requires r.Table? && c.Table? && b.Table? && c.entries.Keys <= r.entries.Keys <= c.entries.Keys + b.entries.Keys
    requires forall k :: k in r.entries && k !in c.entries ==> r.entries[k] == b.entries[k]
    requires forall k :: k in c.entries && k !in b.entries ==> r.entries[k] == c.entries[k]
    requires forall k :: k in c.entries && k in b.entries ==>
               Diff(r.entries[k], b.entries[k]) == Diff(c.entries[k], b.entries[k])
    ensures Diff(r, b) == Diff(c, b)
  {
    DiffTables(r, b);
    DiffTables(c, b);
    forall k | k in r.entries && k !in c.entries ensures Diff(r.entries[k], b.entries[k]).None? {
      SameIsNoDiff(b.entries[k]);
    }
    assert DiffEntries(r, b) == DiffEntries(c, b);
  }

  function DiffEntries(c: Toml, b: Toml): map<string, Toml>
    requires c.Table? && b.Table?
  {
    map k | k in c.entries && (k in b.entries ==> Diff(c.entries[k], b.entries[k]).Some?) ::
      if k in b.entries then Diff(c.entries[k], b.entries[k]).value else c.entries[k]
  }

  lemma DiffTables(c: Toml, b: Toml)
    requires c.Table? && b.Table?
    ensures Diff(c, b) == if DiffEntries(c, b) == map[] then None else Some(Table(DiffEntries(c, b)))
  {
    if c == b {
      forall k | k in c.entries ensures Diff(c.entries[k], b.entries[k]).None? {
        SameIsNoDiff(b.entries[k]);
      }
      assert DiffEntries(c, b) == map[];
    }
  }

  /** No key of the lower layers is missing, and every table that is replaced whole either
      stayed as it is in the lower layers or shares no entry with them. */
  predicate Survives(shape: Shape, b: Toml, c: Toml)
    decreases c
  {
    if shape.Whole? then c == b || NothingShared(b, c)
    else if b.Table? && c.Table? then
      forall k :: k in b.entries ==> k in c.entries && Survives(Sub(shape, k), b.entries[k], c.entries[k])
    else true
  }

  /** A configuration survives saving and loading exactly under that condition. */
  lemma {:induction false} ReloadRestores(shape: Shape, b: Toml, c: Toml)
    ensures Reloaded(shape, b, c) == c <==> Survives(shape, b, c)
    decreases c
  {
    if shape.Whole? {
      NothingSharedIs(b, c);
    } else {
      ReloadedEntries(shape, b, c);
      if b.Table? && c.Table? {
        var r := Reloaded(shape, b, c);
        forall k | k in b.entries && k in c.entries
          ensures Reloaded(Sub(shape, k), b.entries[k], c.entries[k]) == c.entries[k]
                  <==> Survives(Sub(shape, k), b.entries[k], c.entries[k])
        {
          ReloadRestores(Sub(shape, k), b.entries[k], c.entries[k]);
        }
        if r == c {
          forall k | k in b.entries
            ensures k in c.entries && Survives(Sub(shape, k), b.entries[k], c.entries[k])
          {
            assert k in r.entries;
          }
        }
        if Survives(shape, b, c) {
          assert r.entries == c.entries;
        }
      }
    }
  }

  /** What goes wrong in a table that is replaced whole: as soon as it differs from the lower
      layers, the entries it has in common with them are gone. */
  lemma SharedEntryIsLost(b: Toml, c: Toml, k: string)
    requires b.Table? && c.Table? && k in b.entries && k in c.entries && b.entries[k] == c.entries[k]
    requires Diff(c, b).Some?
    ensures var r := Reloaded(Whole, b, c); r.Table? && k !in r.entries && r != c
  {
    DiffCases(c, b);
  }

  // ----- a configuration path by path -----

  /** What stands at a path, if anything does. */
  function At(t: Toml, path: seq<string>): Option<Toml> {
    if path == [] then Some(t)
    else if t.Table? && path[0] in t.entries then At(t.entries[path[0]], path[1..])
    else None
  }

  /** The tree says what stands at the path: it has something there, or a plain value in the way. */
  predicate Decides(t: Toml, path: seq<string>) {
    path == [] || t.Leaf? || (path[0] in t.entries && Decides(t.entries[path[0]], path[1..]))
  }

  /** The aliases of a model, and each entry of a plan, are replaced as wholes. */
  predicate IsWhole(path: seq<string>) {
    path == ["model", "aliases"] || (|path| == 3 && path[0] == "plans")
  }

  /** The path leads to no table that is replaced whole, nor into one. */
  predicate FieldByField(path: seq<string>) {
    !(["model", "aliases"] <= path) && !(|path| >= 3 && path[0] == "plans")
  }

  /** The plain value at a path. */
  function ValueAt(t: Toml, path: seq<string>): Option<string> {
    match At(t, path)
    case Some(Leaf(value)) => Some(value)
    case _ => None
  }

  /** How the part of the configuration under a path merges. */
  function ShapeAt(shape: Shape, path: seq<string>): Shape {
    if path == [] then shape else ShapeAt(Sub(shape, path[0]), path[1..])
  }

  /** No proper prefix of the path is replaced whole. */
  predicate Reaches(shape: Shape, path: seq<string>) {
    path == [] || (!shape.Whole? && Reaches(Sub(shape, path[0]), path[1..]))
  }

  lemma {:induction false} UndecidedIsNothing(t: Toml, path: seq<string>)
    ensures At(t, path).Some? ==> Decides(t, path)
  {
    if path != [] && t.Table? && path[0] in t.entries {
      UndecidedIsNothing(t.entries[path[0]], path[1..]);
    }
  }

  /** The upper layer is looked at first, wherever it decides. */
  lemma {:induction false} MergeTakesUpper(shape: Shape, base: Toml, patch: Toml, path: seq<string>)
    requires Reaches(shape, path)
    ensures
      var m := Merge(shape, base, patch);
      && ValueAt(m, path) == ValueAt(if Decides(patch, path) then patch else base, path)
      && (ShapeAt(shape, path).Whole? ==> At(m, path) == At(if Decides(patch, path) then patch else base, path))
    decreases |path|
  {
    UndecidedIsNothing(patch, path);
    if path != [] && base.Table? && patch.Table? {
      var k := path[0];
      if k in base.entries && k in patch.entries {
        MergeTakesUpper(Sub(shape, k), base.entries[k], patch.entries[k], path[1..]);
      }
    }
  }

  // ----- persona fields -----

  const PERSONA := {"system_prompt", "system_prompt_append", "description"}

  function StripProfile(profile: Toml): Toml {
    if profile.Table? then Table(profile.entries - PERSONA) else profile
  }

  function StripAgents(agents: Toml): Toml {
    if agents.Table? then Table(map n | n in agents.entries :: StripProfile(agents.entries[n])) else agents
  }

  function Strip(config: Toml): Toml {
    if config.Table? && "agents" in config.entries then
      Table(config.entries["agents" := StripAgents(config.entries["agents"])])
    else config
  }

  /** The path leads to a persona field of an agent, or into one. */
  predicate InPersona(path: seq<string>) {
    |path| >= 3 && path[0] == "agents" && path[2] in {"system_prompt", "system_prompt_append", "description"}
  }

  lemma ProfileLosesPersona(profile: Toml, path: seq<string>)
    ensures ValueAt(StripProfile(profile), path)
         == if path != [] && path[0] in PERSONA then None else ValueAt(profile, path)
  {
  }

  lemma AgentsLosePersona(agents: Toml, path: seq<string>)
    ensures ValueAt(StripAgents(agents), path)
         == if |path| >= 2 && path[1] in PERSONA then None else ValueAt(agents, path)
  {
    if path != [] && agents.Table? && path[0] in agents.entries {
      ProfileLosesPersona(agents.entries[path[0]], path[1..]);
    }
  }

  /** What lies in a persona field is gone, and every other value stays. */
  lemma StripTakesPersona(config: Toml, path: seq<string>)
    ensures ValueAt(Strip(config), path) == if InPersona(path) then None else ValueAt(config, path)
  {
    hide StripAgents;
    if path != [] && config.Table? && path[0] == "agents" && path[0] in config.entries {
      AgentsLosePersona(config.entries["agents"], path[1..]);
    }
  }

  /** `strip_persona_fields`, agent by agent in any order. */
  method StripPersonaFields(config: Toml) returns (result: Toml)
    ensures result == Strip(config)
    ensures forall path :: ValueAt(result, path) == if InPersona(path) then None else ValueAt(config, path)
  {
    forall path ensures ValueAt(Strip(config), path) == if InPersona(path) then None else ValueAt(config, path) {
      StripTakesPersona(config, path);
    }
    if !config.Table? || "agents" !in config.entries || !config.entries["agents"].Table? {
      StripNothing(config);
      return config;
    }
    var agents := config.entries["agents"].entries;
    var names := agents.Keys;
    ghost var all := agents;
    while names != {}
      invariant agents.Keys == all.Keys && names <= all.Keys
      invariant forall n :: n in all ==> agents[n] == if n in names then all[n] else StripProfile(all[n])
      decreases names
    {
      var name :| name in names;
      var profile := agents[name];
      names := names - {name};
      if !profile.Table? {
        continue;
      }
      agents := agents[name := Table(profile.entries - PERSONA)];
    }
    assert agents == StripAgents(config.entries["agents"]).entries;
    result := Table(config.entries["agents" := Table(agents)]);
  }

  lemma StripNothing(config: Toml)
    requires !config.Table? || "agents" !in config.entries || !config.entries["agents"].Table?
    ensures Strip(config) == config
  {
    if config.Table? && "agents" in config.entries {
      assert config.entries["agents" := config.entries["agents"]] == config.entries;
    }
  }

  lemma StripTwice(config: Toml)
    ensures Strip(Strip(config)) == Strip(config)
  {
    if config.Table? && "agents" in config.entries {
      var agents := config.entries["agents"];
      if agents.Table? {
        forall n | n in agents.entries
          ensures StripProfile(StripProfile(agents.entries[n])) == StripProfile(agents.entries[n])
        {
          var p := agents.entries[n];
          if p.Table? {
            assert (p.entries - PERSONA) - PERSONA == p.entries - PERSONA;
          }
        }
        assert StripAgents(StripAgents(agents)).entries == StripAgents(agents).entries;
      }
      var e := config.entries["agents" := StripAgents(agents)];
      assert e["agents" := StripAgents(StripAgents(agents))] == e;
    }
  }

  lemma StripReloadedProfile(b: Toml, c: Toml)
    requires StripProfile(c) == c
    ensures StripProfile(Reloaded(Deep, b, c)) == Reloaded(Deep, StripProfile(b), c)
  {
    hide Reloaded;
    ReloadedEntries(Deep, b, c);
    ReloadedEntries(Deep, StripProfile(b), c);
    if b.Table? && c.Table? {
      var l, r := StripProfile(Reloaded(Deep, b, c)), Reloaded(Deep, StripProfile(b), c);
      forall k ensures k in l.entries <==> k in r.entries {
        assert k in c.entries ==> k in (c.entries - PERSONA);
      }
      assert l.entries == r.entries;
    }
  }

  lemma StripReloadedAgents(b: Toml, c: Toml)
    requires StripAgents(c) == c
    ensures StripAgents(Reloaded(Deep, b, c)) == Reloaded(Deep, StripAgents(b), c)
  {
    hide StripProfile, Reloaded;
    ReloadedEntries(Deep, b, c);
    ReloadedEntries(Deep, StripAgents(b), c);
    if b.Table? && c.Table? {
      var l, r := StripAgents(Reloaded(Deep, b, c)), Reloaded(Deep, StripAgents(b), c);
      assert l.entries.Keys == r.entries.Keys;
      forall n | n in l.entries ensures l.entries[n] == r.entries[n] {
        if n in c.entries {
          assert StripAgents(c).entries[n] == c.entries[n];
          if n in b.entries {
            StripReloadedProfile(b.entries[n], c.entries[n]);
          }
        }
      }
      assert l.entries == r.entries;
    }
  }

  /** Stripping the reloaded configuration is reloading over the stripped base. */
  lemma StripReloaded(b: Toml, c: Toml)
    requires Strip(c) == c
    ensures Strip(Reloaded(NCA_SHAPE, b, c)) == Reloaded(NCA_SHAPE, Strip(b), c)
  {
    hide StripAgents, Reloaded;
    ReloadedEntries(NCA_SHAPE, b, c);
    ReloadedEntries(NCA_SHAPE, Strip(b), c);
    if b.Table? && c.Table? {
      var l, r := Strip(Reloaded(NCA_SHAPE, b, c)), Reloaded(NCA_SHAPE, Strip(b), c);
      assert l.entries.Keys == r.entries.Keys;
      AgentsEntry(b, c);
      forall k | k in l.entries ensures l.entries[k] == r.entries[k] {
        if k != "agents" {
          assert k in b.entries ==> Strip(b).entries[k] == b.entries[k];
        }
      }
      assert l.entries == r.entries;
    }
  }

  lemma AgentsEntry(b: Toml, c: Toml)
    requires Strip(c) == c && b.Table? && c.Table?
    ensures Sub(NCA_SHAPE, "agents") == Deep
    ensures "agents" in c.entries ==> StripAgents(c.entries["agents"]) == c.entries["agents"]
    ensures "agents" in c.entries && "agents" in b.entries ==>
      StripAgents(Reloaded(Deep, b.entries["agents"], c.entries["agents"]))
      == Reloaded(Deep, StripAgents(b.entries["agents"]), c.entries["agents"])
  {
    hide StripAgents, Reloaded;
    if "agents" in c.entries {
      assert Strip(c).entries["agents"] == c.entries["agents"];
      if "agents" in b.entries {
        StripReloadedAgents(b.entries["agents"], c.entries["agents"]);
      }
    }
  }

  /** The persona an agent has after loading is the one the lower layers give it. */
  lemma PersonaStaysWithBase(b: Toml, c: Toml, agent: string, field: string)
    requires Strip(c) == c && b.Table? && c.Table? && "agents" in b.entries && "agents" in c.entries
    requires b.entries["agents"].Table? && c.entries["agents"].Table?
    requires agent in b.entries["agents"].entries && agent in c.entries["agents"].entries
    requires b.entries["agents"].entries[agent].Table? && c.entries["agents"].entries[agent].Table?
    requires field in PERSONA
    ensures
      var r := Reloaded(NCA_SHAPE, b, c);
      var mine := b.entries["agents"].entries[agent].entries;
      && r.Table? && "agents" in r.entries && r.entries["agents"].Table? && agent in r.entries["agents"].entries
      && r.entries["agents"].entries[agent].Table?
      && var loaded := r.entries["agents"].entries[agent].entries;
         (field in loaded <==> field in mine) && (field in mine ==> loaded[field] == mine[field])
  {
    ReloadedEntries(NCA_SHAPE, b, c);
    assert Sub(NCA_SHAPE, "agents") == Deep;
    var ba, ca := b.entries["agents"], c.entries["agents"];
    ReloadedEntries(Deep, ba, ca);
    ReloadedEntries(Deep, ba.entries[agent], ca.entries[agent]);
    assert Strip(c).entries["agents"] == ca;
    assert StripAgents(ca).entries[agent] == ca.entries[agent];
    assert field !in ca.entries[agent].entries - PERSONA;
  }

  // ----- the configuration files -----

  /** A file that cannot be read or parsed is an error, a missing one is not. */
  datatype LayerFile = Missing | Malformed | Layer(toml: Toml)

  function LoadLayer(base: Toml, file: LayerFile): Option<Toml> {
    match file
    case Missing => Some(base)
    case Malformed => None
    case Layer(patch) => Some(Merge(NCA_SHAPE, base, patch))
  }

  /** The defaults and the global file, with nothing set in the environment; `None` is an error. */
  function GlobalConfig(defaults: Toml, global: LayerFile): Option<Toml> {
    LoadLayer(defaults, global)
  }

  function LayeredConfig(defaults: Toml, global: LayerFile, local: LayerFile): Option<Toml> {
    match GlobalConfig(defaults, global)
    case None => None
    case Some(base) => LoadLayer(base, local)
  }

  /** What a workspace file is written against: the defaults alone when the global file is
      malformed. */
  function SaveBase(defaults: Toml, global: LayerFile): Toml {
    match GlobalConfig(defaults, global)
    case Some(base) => base
    case None => defaults
  }

  /** Without overrides there is no file. */
  function SavedFile(defaults: Toml, global: LayerFile, current: Toml): LayerFile {
    match Diff(Strip(current), SaveBase(defaults, global))
    case None => Missing
    case Some(diff) => Layer(diff)
  }

  /** Writing or removing the workspace file: a failed write may leave anything in it, a failed
      removal leaves it as it is. */
  datatype SaveIo = Works | Refused | Torn(left: LayerFile)

  /** The uppermost layer that decides what stands at the path. */
  function TopLayer(defaults: Toml, global: LayerFile, local: LayerFile, path: seq<string>): Toml {
    if local.Layer? && Decides(local.toml, path) then local.toml
    else if global.Layer? && Decides(global.toml, path) then global.toml
    else defaults
  }

  /** Every plain value, and every table that is replaced whole, is that of the uppermost layer
      that decides it. */
  ghost predicate ShowsLayers(config: Toml, defaults: Toml, global: LayerFile, local: LayerFile) {
    forall path ::
      && (FieldByField(path) ==> ValueAt(config, path) == ValueAt(TopLayer(defaults, global, local, path), path))
      && (IsWhole(path) ==> At(config, path) == At(TopLayer(defaults, global, local, path), path))
  }

  lemma {:induction false} DeepReaches(path: seq<string>)
    ensures Reaches(Deep, path)
  {
    if path != [] {
      DeepReaches(path[1..]);
    }
  }

  /** The tables replaced whole are the aliases of a model and the entries of a plan. */
  lemma NcaPaths(path: seq<string>)
    ensures FieldByField(path) ==> Reaches(NCA_SHAPE, path)
    ensures IsWhole(path) ==> Reaches(NCA_SHAPE, path) && ShapeAt(NCA_SHAPE, path).Whole?
  {
    if path == [] {
    } else if |path| == 1 {
      assert path[1..] == [];
    } else {
      var below, entry := path[2..], Sub(Sub(NCA_SHAPE, path[0]), path[1]);
      assert path[1..][1..] == below;
      assert path[0] == "model" && path[1] == "aliases" ==> ["model", "aliases"] <= path;
      assert Reaches(NCA_SHAPE, path) <==> Reaches(entry, below);
      assert ShapeAt(NCA_SHAPE, path) == ShapeAt(entry, below);
      DeepReaches(below);
      if path[0] == "plans" {
        assert entry == Fields(map[], Whole);
        assert |below| == 1 ==> below[1..] == [] && Reaches(entry, below) && ShapeAt(entry, below).Whole?;
      }
    }
  }

  lemma LayersInOrder(defaults: Toml, global: LayerFile, local: LayerFile)
    ensures match LayeredConfig(defaults, global, local)
            case None => global.Malformed? || local.Malformed?
            case Some(config) => ShowsLayers(config, defaults, global, local)
  {
    hide Merge, ValueAt, At, Decides;
    forall path | FieldByField(path) || IsWhole(path)
      ensures Reaches(NCA_SHAPE, path)
    {
      NcaPaths(path);
    }
    var base := if global.Layer? then Merge(NCA_SHAPE, defaults, global.toml) else defaults;
    var config := if local.Layer? then Merge(NCA_SHAPE, base, local.toml) else base;
    forall path | FieldByField(path) || IsWhole(path)
      ensures
        var top := TopLayer(defaults, global, local, path);
        ValueAt(config, path) == ValueAt(top, path) && (IsWhole(path) ==> At(config, path) == At(top, path))
    {
      NcaPaths(path);
      if global.Layer? {
        MergeTakesUpper(NCA_SHAPE, defaults, global.toml, path);
      }
      if local.Layer? {
        MergeTakesUpper(NCA_SHAPE, base, local.toml, path);
      }
    }
  }

  class ConfigFiles {
    const defaults: Toml
    var globalFile: LayerFile
    var localFile: LayerFile

    constructor (defaults: Toml, globalFile: LayerFile, localFile: LayerFile)
      ensures this.defaults == defaults && this.globalFile == globalFile && this.localFile == localFile
    {
      this.defaults, this.globalFile, this.localFile := defaults, globalFile, localFile;
    }

    method LoadGlobalFile() returns (config: Option<Toml>)
      ensures config == GlobalConfig(defaults, globalFile)
      ensures config.None? <==> globalFile.Malformed?
      ensures config.Some? ==> ShowsLayers(config.value, defaults, globalFile, Missing)
    {
      LayersInOrder(defaults, globalFile, Missing);
      if globalFile.Malformed? {
        return None;
      }
      if globalFile.Layer? {
        return Some(Merge(NCA_SHAPE, defaults, globalFile.toml));
      }
      return Some(defaults);
    }

    method LoadForWorkspace() returns (config: Option<Toml>)
      ensures config == LayeredConfig(defaults, globalFile, localFile)
      ensures config.None? <==> globalFile.Malformed? || localFile.Malformed?
      ensures config.Some? ==> ShowsLayers(config.value, defaults, globalFile, localFile)
    {
      hide Merge, ShowsLayers;
      LayersInOrder(defaults, globalFile, localFile);
      var layers := defaults;
      if globalFile.Malformed? {
        return None;
      }
      if globalFile.Layer? {
        layers := Merge(NCA_SHAPE, layers, globalFile.toml);
      }
      if localFile.Malformed? {
        return None;
      }
      if localFile.Layer? {
        layers := Merge(NCA_SHAPE, layers, localFile.toml);
      }
      return Some(layers);
    }

    method SaveWorkspaceFile(current: Toml, io: SaveIo) returns (ok: bool)
      modifies this`localFile
      ensures var target := SavedFile(defaults, globalFile, current);
              && (ok <==> io.Works? || (target.Missing? && old(localFile).Missing?))
              && localFile == if ok then target else if target.Layer? && io.Torn? then io.left else old(localFile)
    {
      hide Merge, Diff, Strip;
      var global := LoadGlobalFile();
      var base := if global.Some? then global.value else defaults;
      var stripped := StripPersonaFields(current);
      var diff := Diff(stripped, base);
      if diff.None? {
        if !localFile.Missing? {
          if !io.Works? {
            return false;
          }
          localFile := Missing;
        }
        return true;
      }
      match io
      case Works =>
        localFile := Layer(diff.value);
        return true;
      case Refused =>
        return false;
      case Torn(left) =>
        localFile := left;
        return false;
    }
  }

  /** Saving and loading gives the configuration back, persona fields aside, exactly when it
      removes no key of the lower layers and every table replaced whole is either unchanged or
      shares nothing with them. Only a malformed global file keeps it from loading at all. */
  lemma SaveThenLoad(defaults: Toml, global: LayerFile, current: Toml)
    ensures
      match LayeredConfig(defaults, global, SavedFile(defaults, global, current))
      case None => global.Malformed?
      case Some(loaded) =>
        Strip(loaded) == Strip(current) <==> Survives(NCA_SHAPE, Strip(SaveBase(defaults, global)), Strip(current))
  {
    hide Strip, Merge;
    var base := SaveBase(defaults, global);
    StripTwice(current);
    StripReloaded(base, Strip(current));
    ReloadRestores(NCA_SHAPE, Strip(base), Strip(current));
  }

  /** There is a workspace file after saving exactly when the configuration, persona fields aside,
      adds something to the lower layers. */
  lemma FileOnlyForOverrides(defaults: Toml, global: LayerFile, current: Toml)
    ensures
      var base := SaveBase(defaults, global);
      && !SavedFile(defaults, global, current).Malformed?
      && (SavedFile(defaults, global, current).Missing? <==> Overlay(base, Strip(current)) == base)
  {
    hide Strip, Overlay;
    DiffReplays(Strip(current), SaveBase(defaults, global));
  }

  /** A file saved while the global one was malformed leaves out what agrees with the defaults.
      Once the global file is repaired, its value shows there, not the one that was saved. */
  lemma RepairedGlobalWins(defaults: Toml, repaired: Toml, current: Toml, k: string)
    requires defaults.Table? && repaired.Table? && Strip(current).Table?
    requires k in Strip(current).entries && k in defaults.entries && Strip(current).entries[k] == defaults.entries[k]
    ensures
      var base := SaveBase(defaults, Layer(repaired));
      var loaded := LayeredConfig(defaults, Layer(repaired), SavedFile(defaults, Malformed, current));
      && loaded.Some? && loaded.value.Table? && base.Table? && k in base.entries && k in loaded.value.entries
      && loaded.value.entries[k] == base.entries[k]
  {
    hide Strip, Diff;
    SameIsNoDiff(Strip(current));
    SameIsNoDiff(Strip(current).entries[k]);
    if Strip(current) != defaults {
      DiffCases(Strip(current), defaults);
    }
  }

  // ----- saving again -----

  /** Entries a configuration does not have are of no account in the base: here the persona of
      one agent, of all agents, and of the whole configuration. */
  lemma PersonaIsNoDiff(c: Toml, b: Toml)
    requires StripProfile(c) == c
    ensures Diff(c, b) == Diff(c, StripProfile(b))
  {
    if c.Table? && b.Table? {
      assert forall k :: k in c.entries ==> k in c.entries - PERSONA;
      DiffTables(c, b);
      DiffTables(c, StripProfile(b));
      assert DiffEntries(c, b) == DiffEntries(c, StripProfile(b));
    }
  }

  lemma PersonasAreNoDiff(c: Toml, b: Toml)
    requires StripAgents(c) == c
    ensures Diff(c, b) == Diff(c, StripAgents(b))
  {
    hide StripProfile;
    if c.Table? && b.Table? {
      forall n | n in c.entries && n in b.entries
        ensures Diff(c.entries[n], b.entries[n]) == Diff(c.entries[n], StripAgents(b).entries[n])
      {
        assert StripAgents(c).entries[n] == c.entries[n];
        PersonaIsNoDiff(c.entries[n], b.entries[n]);
      }
      DiffTables(c, b);
      DiffTables(c, StripAgents(b));
      assert DiffEntries(c, b) == DiffEntries(c, StripAgents(b));
    }
  }

  lemma {:induction false} StrippedBaseSameDiff(c: Toml, b: Toml)
    requires Strip(c) == c
    ensures Diff(c, b) == Diff(c, Strip(b))
  {
    hide StripAgents;
    if c.Table? && b.Table? {
      hide Diff;
      AgentsEntry(b, c);
      if "agents" in c.entries && "agents" in b.entries {
        PersonasAreNoDiff(c.entries["agents"], b.entries["agents"]);
      }
      DiffTables(c, b);
      DiffTables(c, Strip(b));
      assert DiffEntries(c, b) == DiffEntries(c, Strip(b));
    }
  }

  /** Saving what was loaded leaves the workspace file as it was saved. */
  lemma SavedAgain(defaults: Toml, global: LayerFile, current: Toml)
    ensures
      var saved := SavedFile(defaults, global, current);
      match LayeredConfig(defaults, global, saved)
      case None => global.Malformed?
      case Some(loaded) => SavedFile(defaults, global, loaded) == saved
  {
    hide Strip, Merge, Diff;
    var base := SaveBase(defaults, global);
    var c := Strip(current);
    var again := Strip(Reloaded(NCA_SHAPE, base, c));
    StripTwice(current);
    StripTwice(Reloaded(NCA_SHAPE, base, c));
    StripReloaded(base, c);
    StrippedBaseSameDiff(again, base);
    StrippedBaseSameDiff(c, base);
    ResaveIsStable(NCA_SHAPE, Strip(base), c);
  }
}
