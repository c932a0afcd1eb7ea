/** Seeding the built-in skills: `seed_into` of `crates/common/src/builtin_skills.rs`. */
module SkillSeeder {
  import opened Text

  /** A content hash; different contents have different hashes. */
  datatype Digest = Digest(content: string)

  type SeedState = map<string, Digest>

  /** An embedded skill: its name and the content this version ships. */
  datatype Skill = Skill(name: string, content: string)

  /** A failed write may leave the file alone or leave anything in it. */
  datatype WriteOutcome = Written | Refused | Torn(left: string)

  /** The fate of the file operations on one skill. */
  datatype SkillIo = SkillIo(mkdirFails: bool, readFails: bool, write: WriteOutcome)

  /** A torn manifest is malformed and reads as no manifest. */
  datatype SaveOutcome = Saved | SaveRefused | SaveTorn

  /** The manifest in one run: it may stay unread though it is there, and saving it may fail. */
  datatype ManifestIo = ManifestIo(loadFails: bool, save: SaveOutcome)

  /** The skills directory: the SKILL.md files by skill name, and the manifest when there is
      a readable, well-formed one. */
  datatype Disk = Disk(files: map<string, string>, manifest: Option<SeedState>)

  /** The loop's variables next to the files it changes. */
  datatype Progress = Progress(files: map<string, string>, state: SeedState, written: nat, dirty: bool)

  // ----- one skill -----

  function WriteSkill(p: Progress, s: Skill, outcome: WriteOutcome): Progress {
    match outcome
    case Written => Progress(p.files[s.name := s.content], p.state[s.name := Digest(s.content)], p.written + 1, true)
    case Refused => p
    case Torn(left) => p.(files := p.files[s.name := left])
  }

  function SeedOne(p: Progress, s: Skill, io: SkillIo): Progress {
    if s.name !in p.files then
      if io.mkdirFails then p else WriteSkill(p, s, io.write)
    else if s.name !in p.state || io.readFails then p
    else if Digest(p.files[s.name]) != p.state[s.name] then p
    else if Digest(s.content) == p.state[s.name] then p
    else WriteSkill(p, s, io.write)
  }

  function SeedFrom(p: Progress, skills: seq<Skill>, ios: seq<SkillIo>): Progress
    requires |ios| == |skills|
    decreases |skills|
  {
    if skills == [] then p else SeedFrom(SeedOne(p, skills[0], ios[0]), skills[1..], ios[1..])
  }

  function LoadSeedState(manifest: Option<SeedState>): SeedState {
    match manifest case Some(state) => state case None => map[]
  }

  function SaveSeedState(manifest: Option<SeedState>, state: SeedState, save: SaveOutcome): Option<SeedState> {
    match save
    case Saved => Some(state)
    case SaveRefused => manifest
    case SaveTorn => None
  }

  function Begin(d: Disk, loadFails: bool): Progress {
    Progress(d.files, Seen(d, loadFails), 0, false)
  }

  /** The recorded hashes a run goes by. */
  function Seen(d: Disk, loadFails: bool): SeedState {
    if loadFails then map[] else LoadSeedState(d.manifest)
  }

  /** One run: the directory afterwards and the number returned. */
  function Seeded(d: Disk, skills: seq<Skill>, ios: seq<SkillIo>, m: ManifestIo): (Disk, nat)
    requires |ios| == |skills|
  {
    var p := SeedFrom(Begin(d, m.loadFails), skills, ios);
    (Disk(p.files, if p.dirty then SaveSeedState(d.manifest, p.state, m.save) else d.manifest), p.written)
  }

  class SkillsRoot {
    var files: map<string, string>
    var manifest: Option<SeedState>

    constructor (d: Disk)
      ensures files == d.files && manifest == d.manifest
    {
      files, manifest := d.files, d.manifest;
    }

    /** `fs::write` of one SKILL.md. */
    method WriteFile(name: string, content: string, outcome: WriteOutcome) returns (ok: bool)
      modifies this`files
      ensures ok == outcome.Written?
      ensures files == match outcome
                       case Written => old(files)[name := content]
                       case Refused => old(files)
                       case Torn(left) => old(files)[name := left]
    {
      match outcome
      case Written =>
        files := files[name := content];
        return true;
      case Refused =>
        return false;
      case Torn(left) =>
        files := files[name := left];
        return false;
    }

    method SeedInto(skills: seq<Skill>, ios: seq<SkillIo>, m: ManifestIo) returns (written: nat)
      requires |ios| == |skills|
      modifies this
      ensures (Disk(files, manifest), written) == Seeded(Disk(old(files), old(manifest)), skills, ios, m)
    {
      var state := if m.loadFails then map[] else LoadSeedState(manifest);
      var stateDirty := false;
      written := 0;
      ghost var goal := SeedFrom(Begin(Disk(files, manifest), m.loadFails), skills, ios);
      assert skills[0..] == skills && ios[0..] == ios;
      for k := 0 to |skills|
        invariant manifest == old(manifest)
        invariant SeedFrom(Progress(files, state, written, stateDirty), skills[k..], ios[k..]) == goal
      {
        var Skill(name, content) := skills[k];
        var io := ios[k];
        assert skills[k..][0] == skills[k] && skills[k..][1..] == skills[k + 1..];
        assert ios[k..][0] == io && ios[k..][1..] == ios[k + 1..];
        var embeddedHash := Digest(content);
        if name !in files {
          if io.mkdirFails {
            continue;
          }
          var ok := WriteFile(name, content, io.write);
          if ok {
            written, state, stateDirty := written + 1, state[name := embeddedHash], true;
          }
          continue;
        }
        if name !in state {
          continue;
        }
        var recorded := state[name];
        if io.readFails {
          continue;
        }
        var existing := files[name];
        if Digest(existing) != recorded {
          continue;
        }
        if embeddedHash == recorded {
          continue;
        }
        var ok := WriteFile(name, content, io.write);
        if ok {
          written, state, stateDirty := written + 1, state[name := embeddedHash], true;
        }
      }
      assert skills[|skills|..] == [] && ios[|skills|..] == [];
      if stateDirty {
        manifest := SaveSeedState(manifest, state, m.save);
      }
    }
  }

  // ----- what one run may change -----

  predicate DistinctNames(skills: seq<Skill>) {
    forall i, j :: 0 <= i < j < |skills| ==> skills[i].name != skills[j].name
  }

  /** The recorded hash is that of the file. */
  predicate Unmodified(files: map<string, string>, state: SeedState, name: string) {
    name in files && name in state && state[name] == Digest(files[name])
  }

  function SameEntry<T(==)>(a: map<string, T>, b: map<string, T>, k: string): bool {
    (k in a <==> k in b) && (k in a ==> a[k] == b[k])
  }

  lemma {:induction false} OthersUntouched(p: Progress, skills: seq<Skill>, ios: seq<SkillIo>, name: string)
    requires |ios| == |skills| && forall k :: 0 <= k < |skills| ==> skills[k].name != name
    ensures var q := SeedFrom(p, skills, ios); SameEntry(p.files, q.files, name) && SameEntry(p.state, q.state, name)
    decreases |skills|
  {
    if skills != [] {
      OthersUntouched(SeedOne(p, skills[0], ios[0]), skills[1..], ios[1..], name);
    }
  }

  /** The whole run does to one name what its single turn does. */
  lemma {:induction false} OneTurnPerName(p: Progress, skills: seq<Skill>, ios: seq<SkillIo>, k: nat)
    requires |ios| == |skills| && DistinctNames(skills) && k < |skills|
    ensures
      var name := skills[k].name;
      var one, all := SeedOne(p, skills[k], ios[k]), SeedFrom(p, skills, ios);
      SameEntry(one.files, all.files, name) && SameEntry(one.state, all.state, name)
    decreases |skills|
  {
    hide SeedOne;
    var q := SeedOne(p, skills[0], ios[0]);
    if k == 0 {
      OthersUntouched(q, skills[1..], ios[1..], skills[0].name);
    } else {
      OneTurnPerName(q, skills[1..], ios[1..], k - 1);
      OtherTurn(p, skills[0], ios[0], skills[k].name);
      SameTurn(p, q, skills[k], ios[k]);
    }
  }

  lemma OtherTurn(p: Progress, s: Skill, io: SkillIo, name: string)
    requires s.name != name
    ensures var q := SeedOne(p, s, io); SameEntry(p.files, q.files, name) && SameEntry(p.state, q.state, name)
  {
  }

  /** A turn looks only at its own entries. */
  lemma SameTurn(p: Progress, q: Progress, s: Skill, io: SkillIo)
    requires SameEntry(p.files, q.files, s.name) && SameEntry(p.state, q.state, s.name)
    ensures var p', q' := SeedOne(p, s, io), SeedOne(q, s, io);
            SameEntry(p'.files, q'.files, s.name) && SameEntry(p'.state, q'.state, s.name)
  {
  }

  /** A run changes an existing file only if its bytes are what the manifest records for it,
      and never removes one. */
  lemma OnlyUnmodifiedChange(
    d: Disk, skills: seq<Skill>, ios: seq<SkillIo>, m: ManifestIo, name: string)
    requires |ios| == |skills| && DistinctNames(skills) && name in d.files
    ensures var d' := Seeded(d, skills, ios, m).0;
            && name in d'.files
            && (d'.files[name] != d.files[name] ==> Unmodified(d.files, LoadSeedState(d.manifest), name))
  {
    if k :| 0 <= k < |skills| && skills[k].name == name {
      OneTurnPerName(Begin(d, m.loadFails), skills, ios, k);
    } else {
      OthersUntouched(Begin(d, m.loadFails), skills, ios, name);
    }
  }

  // ----- every sequence of runs, edits and losses -----

  datatype Event =
    | Run(skills: seq<Skill>, ios: seq<SkillIo>, m: ManifestIo)
    | UserEdit(name: string, content: Option<string>)
    | ManifestLost

  predicate ValidEvent(e: Event) {
    e.Run? ==> |e.ios| == |e.skills| && DistinctNames(e.skills)
  }

  function Happens(d: Disk, e: Event): Disk
    requires ValidEvent(e)
  {
    match e
    case Run(skills, ios, m) => Seeded(d, skills, ios, m).0
    case UserEdit(name, Some(content)) => d.(files := d.files[name := content])
    case UserEdit(name, None) => d.(files := d.files - {name})
    case ManifestLost => d.(manifest := None)
  }

  function AfterEvents(d: Disk, es: seq<Event>): Disk
    requires forall k :: 0 <= k < |es| ==> ValidEvent(es[k])
    decreases |es|
  {
    if es == [] then d else AfterEvents(Happens(d, es[0]), es[1..])
  }

  /** The contents some version in `es` shipped under their names. */
  function Shipped(es: seq<Event>): set<Skill> {
    if es == [] then {}
    else (if es[0].Run? then (set s | s in es[0].skills) else {}) + Shipped(es[1..])
  }

  /** The manifest records only contents that were shipped under the name. */
  ghost predicate RecordsShipped(state: SeedState, shipped: set<Skill>) {
    forall name :: name in state ==> Skill(name, state[name].content) in shipped
  }

  lemma {:induction false} RunRecordsShipped(p: Progress, skills: seq<Skill>, ios: seq<SkillIo>, shipped: set<Skill>)
    requires |ios| == |skills| && RecordsShipped(p.state, shipped)
    requires forall k :: 0 <= k < |skills| ==> skills[k] in shipped
    ensures RecordsShipped(SeedFrom(p, skills, ios).state, shipped)
    decreases |skills|
  {
    if skills != [] {
      var q := SeedOne(p, skills[0], ios[0]);
      assert skills[0] == Skill(skills[0].name, skills[0].content);
      RunRecordsShipped(q, skills[1..], ios[1..], shipped);
    }
  }

  lemma {:induction false} EventsRecordShipped(d: Disk, es: seq<Event>, shipped: set<Skill>)
    requires forall k :: 0 <= k < |es| ==> ValidEvent(es[k])
    requires RecordsShipped(LoadSeedState(d.manifest), shipped)
    ensures RecordsShipped(LoadSeedState(AfterEvents(d, es).manifest), shipped + Shipped(es))
    decreases |es|
  {
    hide SeedFrom;
    if es != [] {
      var d' := Happens(d, es[0]);
      var now := shipped + (if es[0].Run? then (set s | s in es[0].skills) else {});
      if es[0].Run? {
        RunRecordsShipped(Begin(d, es[0].m.loadFails), es[0].skills, es[0].ios, now);
      }
      EventsRecordShipped(d', es[1..], now);
      assert now + Shipped(es[1..]) == shipped + Shipped(es);
    }
  }

  /** Whatever happened before, starting without a manifest: bytes that no earlier version
      shipped under a name are never overwritten by a run. */
  lemma ForeignBytesAreSafe(
    d: Disk, es: seq<Event>, skills: seq<Skill>, ios: seq<SkillIo>, m: ManifestIo, name: string)
    requires d.manifest.None? && forall k :: 0 <= k < |es| ==> ValidEvent(es[k])
    requires |ios| == |skills| && DistinctNames(skills) && name in AfterEvents(d, es).files
    ensures
      var before := AfterEvents(d, es);
      var after := Seeded(before, skills, ios, m).0;
      && name in after.files
      && (Skill(name, before.files[name]) !in Shipped(es) ==> after.files[name] == before.files[name])
  {
    hide Seeded;
    EventsRecordShipped(d, es, {});
    OnlyUnmodifiedChange(AfterEvents(d, es), skills, ios, m, name);
    assert {} + Shipped(es) == Shipped(es);
  }

  // ----- files out of the seeder's reach -----

  /** The file exists and the manifest does not vouch for its bytes. */
  predicate Foreign(d: Disk, name: string) {
    name in d.files && !Unmodified(d.files, LoadSeedState(d.manifest), name)
  }

  /** No event edits or removes the file of this name. */
  predicate Unedited(es: seq<Event>, name: string) {
    forall k :: 0 <= k < |es| && es[k].UserEdit? ==> es[k].name != name
  }

  /** Once foreign, a file nobody edits stays as it is through anything that follows. */
  lemma {:induction false} ForeignStays(d: Disk, es: seq<Event>, name: string)
    requires forall k :: 0 <= k < |es| ==> ValidEvent(es[k])
    requires Unedited(es, name) && Foreign(d, name)
    ensures var d' := AfterEvents(d, es); Foreign(d', name) && d'.files[name] == d.files[name]
    decreases |es|
  {
    hide Seeded;
    if es != [] {
      if es[0].Run? {
        ForeignAfterRun(d, es[0].skills, es[0].ios, es[0].m, name);
      }
      ForeignStays(Happens(d, es[0]), es[1..], name);
    }
  }

  lemma ForeignAfterRun(
    d: Disk, skills: seq<Skill>, ios: seq<SkillIo>, m: ManifestIo, name: string)
    requires |ios| == |skills| && DistinctNames(skills) && Foreign(d, name)
    ensures var d' := Seeded(d, skills, ios, m).0; Foreign(d', name) && d'.files[name] == d.files[name]
  {
    if k :| 0 <= k < |skills| && skills[k].name == name {
      OneTurnPerName(Begin(d, m.loadFails), skills, ios, k);
    } else {
      OthersUntouched(Begin(d, m.loadFails), skills, ios, name);
    }
  }

  predicate Reachable(d: Disk, name: string) {
    name !in d.files || Unmodified(d.files, LoadSeedState(d.manifest), name)
  }

  // ----- how a file gets out of reach -----

  /** The seeder tries to write the file of the skill. */
  predicate Attempts(files: map<string, string>, state: SeedState, s: Skill, io: SkillIo) {
    if s.name in files then !io.readFails && Unmodified(files, state, s.name) && s.content != files[s.name]
    else !io.mkdirFails
  }

  predicate Writes(files: map<string, string>, state: SeedState, s: Skill, io: SkillIo) {
    Attempts(files, state, s, io) && io.write.Written?
  }

  predicate AnyWritten(d: Disk, skills: seq<Skill>, ios: seq<SkillIo>, loadFails: bool)
    requires |ios| == |skills|
  {
    exists k :: 0 <= k < |skills| && Writes(d.files, Seen(d, loadFails), skills[k], ios[k])
  }

  /** The content the manifest records for the name. */
  function Recorded(d: Disk, name: string): Option<string> {
    var state := LoadSeedState(d.manifest);
    if name in state then Some(state[name].content) else None
  }

  /** Saving the manifest destroys it, or replaces one that was not read. */
  predicate RecordsLost(d: Disk, skills: seq<Skill>, ios: seq<SkillIo>, m: ManifestIo)
    requires |ios| == |skills|
  {
    AnyWritten(d, skills, ios, m.loadFails) && (m.save == SaveTorn || (m.save == Saved && m.loadFails))
  }

  /** A run strands a skill when it writes bytes that the manifest does not record afterwards,
      or loses the records while the file is there. */
  predicate Strands(d: Disk, skills: seq<Skill>, ios: seq<SkillIo>, m: ManifestIo, k: nat)
    requires |ios| == |skills| && k < |skills|
  {
    var s, io := skills[k], ios[k];
    if !Attempts(d.files, Seen(d, m.loadFails), s, io) then
      s.name in d.files && RecordsLost(d, skills, ios, m)
    else
      match io.write
      case Written => m.save == SaveTorn || (m.save == SaveRefused && Recorded(d, s.name) != Some(s.content))
      case Refused => s.name in d.files && RecordsLost(d, skills, ios, m)
      case Torn(left) => Recorded(d, s.name) != Some(left) || RecordsLost(d, skills, ios, m)
  }

  lemma WritesMakesDirty(p: Progress, s: Skill, io: SkillIo)
    ensures SeedOne(p, s, io).dirty <==> p.dirty || Writes(p.files, p.state, s, io)
  {
  }

  lemma OtherWrites(p: Progress, q: Progress, s: Skill, io: SkillIo)
    requires SameEntry(p.files, q.files, s.name) && SameEntry(p.state, q.state, s.name)
    ensures Writes(p.files, p.state, s, io) <==> Writes(q.files, q.state, s, io)
  {
  }

  /** The manifest is saved exactly when some skill is written. */
  lemma {:induction false} DirtyIs(p: Progress, skills: seq<Skill>, ios: seq<SkillIo>)
    requires |ios| == |skills| && DistinctNames(skills)
    ensures SeedFrom(p, skills, ios).dirty <==>
      p.dirty || exists k :: 0 <= k < |skills| && Writes(p.files, p.state, skills[k], ios[k])
    decreases |skills|
  {
    hide SeedOne, Writes, SameEntry;
    if skills != [] {
      var q := SeedOne(p, skills[0], ios[0]);
      var rest, restIos := skills[1..], ios[1..];
      WritesMakesDirty(p, skills[0], ios[0]);
      forall k | 0 <= k < |rest|
        ensures Writes(q.files, q.state, rest[k], restIos[k]) <==> Writes(p.files, p.state, skills[k + 1], ios[k + 1])
      {
        OtherTurn(p, skills[0], ios[0], rest[k].name);
        OtherWrites(p, q, rest[k], restIos[k]);
      }
      DirtyIs(q, rest, restIos);
      if k :| 0 <= k < |rest| && Writes(q.files, q.state, rest[k], restIos[k]) {
        assert Writes(p.files, p.state, skills[k + 1], ios[k + 1]);
      }
      if k :| 0 <= k < |skills| && Writes(p.files, p.state, skills[k], ios[k]) {
        assert k > 0 ==> Writes(q.files, q.state, rest[k - 1], restIos[k - 1]);
      }
    }
  }

  /** A run puts a file out of the seeder's reach exactly when it strands it: for an absent, a
      current and an outdated skill alike, and whatever fails. */
  lemma StrandedExactly(d: Disk, skills: seq<Skill>, ios: seq<SkillIo>, m: ManifestIo, k: nat)
    requires |ios| == |skills| && DistinctNames(skills) && k < |skills| && Reachable(d, skills[k].name)
    ensures Foreign(Seeded(d, skills, ios, m).0, skills[k].name) <==> Strands(d, skills, ios, m, k)
  {
    hide SeedFrom, DistinctNames;
    OneTurnPerName(Begin(d, m.loadFails), skills, ios, k);
    DirtyIs(Begin(d, m.loadFails), skills, ios);
    WritesMakesDirty(Begin(d, m.loadFails), skills[k], ios[k]);
    CleanState(Begin(d, m.loadFails), skills, ios);
  }

  /** Without a write the loop leaves the recorded hashes alone. */
  lemma CleanState(p: Progress, skills: seq<Skill>, ios: seq<SkillIo>)
    requires |ios| == |skills|
    ensures !SeedFrom(p, skills, ios).dirty ==> SeedFrom(p, skills, ios).state == p.state
  {
    if !SeedFrom(p, skills, ios).dirty {
      CleanStateKept(p, skills, ios);
    }
  }

  predicate Ships(skills: seq<Skill>, name: string) {
    exists k :: 0 <= k < |skills| && skills[k].name == name
  }

  /** A skill that is no longer shipped is stranded only with the records. */
  lemma UnshippedStranded(
    d: Disk, skills: seq<Skill>, ios: seq<SkillIo>, m: ManifestIo, name: string)
    requires |ios| == |skills| && DistinctNames(skills) && !Ships(skills, name) && Reachable(d, name)
    ensures Foreign(Seeded(d, skills, ios, m).0, name) <==> name in d.files && RecordsLost(d, skills, ios, m)
  {
    hide SeedFrom, DistinctNames;
    OthersUntouched(Begin(d, m.loadFails), skills, ios, name);
    DirtyIs(Begin(d, m.loadFails), skills, ios);
    CleanState(Begin(d, m.loadFails), skills, ios);
  }

  /** The event strands the file of the name. */
  predicate StrandedBy(d: Disk, e: Event, name: string)
    requires ValidEvent(e)
  {
    match e
    case Run(skills, ios, m) =>
      if Ships(skills, name) then
        exists k :: 0 <= k < |skills| && skills[k].name == name && Strands(d, skills, ios, m, k)
      else name in d.files && RecordsLost(d, skills, ios, m)
    case UserEdit(_, _) => false
    case ManifestLost => name in d.files
  }

  lemma EventStrands(d: Disk, e: Event, name: string)
    requires ValidEvent(e) && (e.UserEdit? ==> e.name != name) && Reachable(d, name)
    ensures Reachable(Happens(d, e), name) <==> !StrandedBy(d, e, name)
  {
    hide Seeded, Strands, DistinctNames, AnyWritten;
    if e.Run? {
      if k :| 0 <= k < |e.skills| && e.skills[k].name == name {
        StrandedExactly(d, e.skills, e.ios, e.m, k);
        SameSkill(e.skills, name, k);
      } else {
        UnshippedStranded(d, e.skills, e.ios, e.m, name);
      }
    }
  }

  lemma SameSkill(skills: seq<Skill>, name: string, k: nat)
    requires DistinctNames(skills) && k < |skills| && skills[k].name == name
    ensures forall j :: 0 <= j < |skills| && skills[j].name == name ==> j == k
  {
  }

  /** No event of the history strands the file. */
  predicate NeverStranded(d: Disk, es: seq<Event>, name: string)
    requires forall k :: 0 <= k < |es| ==> ValidEvent(es[k])
    decreases |es|
  {
    es == [] || (!StrandedBy(d, es[0], name) && NeverStranded(Happens(d, es[0]), es[1..], name))
  }

  lemma {:induction false} ReachableAfter(d: Disk, es: seq<Event>, name: string)
    requires forall k :: 0 <= k < |es| ==> ValidEvent(es[k])
    requires Unedited(es, name) && Reachable(d, name)
    ensures Reachable(AfterEvents(d, es), name) <==> NeverStranded(d, es, name)
    decreases |es|
  {
    hide Happens, StrandedBy;
    if es != [] {
      EventStrands(d, es[0], name);
      if Reachable(Happens(d, es[0]), name) {
        ReachableAfter(Happens(d, es[0]), es[1..], name);
      } else {
        ForeignStays(Happens(d, es[0]), es[1..], name);
      }
    }
  }

  /** Over every history of runs, manifest losses and edits of other files: a failure-free run
      brings an unedited skill up to date exactly when nothing stranded it before; otherwise
      its old bytes stay. */
  lemma UpgradeArrives(
    d: Disk, es: seq<Event>, skills: seq<Skill>, ios: seq<SkillIo>, m: ManifestIo, k: nat)
    requires forall j :: 0 <= j < |es| ==> ValidEvent(es[j])
    requires |ios| == |skills| && DistinctNames(skills) && NoFailures(ios, m) && k < |skills|
    requires Unedited(es, skills[k].name) && Reachable(d, skills[k].name)
    ensures
      var name := skills[k].name;
      var before := AfterEvents(d, es);
      var after := Seeded(before, skills, ios, m).0;
      && name in after.files
      && (Reachable(after, name) <==> NeverStranded(d, es, name))
      && (if NeverStranded(d, es, name) then after.files[name] == skills[k].content
          else name in before.files && after.files[name] == before.files[name])
  {
    hide Seeded, NeverStranded, AfterEvents;
    ReachableAfter(d, es, skills[k].name);
    CleanRunDelivers(AfterEvents(d, es), skills, ios, m, k);
  }

  /** No refresh has to fail for that: the first seeding of a skill is written but not
      recorded, and the next version never arrives. */
  lemma UnrecordedSeedExample()
    ensures
      var fine := [SkillIo(false, false, Written)];
      var seeded := Seeded(Disk(map[], None), [Skill("a", "one")], fine, ManifestIo(false, SaveRefused)).0;
      var upgraded := Seeded(seeded, [Skill("a", "two")], fine, ManifestIo(false, Saved)).0;
      "a" in upgraded.files && upgraded.files["a"] == "one"
  {
    var fine := [SkillIo(false, false, Written)];
    var seeded := Seeded(Disk(map[], None), [Skill("a", "one")], fine, ManifestIo(false, SaveRefused)).0;
    StrandedExactly(Disk(map[], None), [Skill("a", "one")], fine, ManifestIo(false, SaveRefused), 0);
    assert seeded.files == map["a" := "one"];
    CleanRunDelivers(seeded, [Skill("a", "two")], fine, ManifestIo(false, Saved), 0);
  }

  lemma {:induction false} DirtyStays(p: Progress, skills: seq<Skill>, ios: seq<SkillIo>)
    requires |ios| == |skills| && p.dirty
    ensures SeedFrom(p, skills, ios).dirty
    decreases |skills|
  {
    if skills != [] {
      DirtyStays(SeedOne(p, skills[0], ios[0]), skills[1..], ios[1..]);
    }
  }

  lemma {:induction false} WrittenIsDirty(p: Progress, skills: seq<Skill>, ios: seq<SkillIo>, k: nat)
    requires |ios| == |skills| && DistinctNames(skills) && k < |skills|
    requires SeedOne(p, skills[k], ios[k]).written > p.written
    ensures SeedFrom(p, skills, ios).dirty
    decreases |skills|
  {
    if k == 0 {
      DirtyStays(SeedOne(p, skills[0], ios[0]), skills[1..], ios[1..]);
    } else {
      WrittenIsDirty(SeedOne(p, skills[0], ios[0]), skills[1..], ios[1..], k - 1);
    }
  }

  // ----- runs without failures -----

  predicate NoFailures(ios: seq<SkillIo>, m: ManifestIo) {
    m == ManifestIo(false, Saved) && forall k :: 0 <= k < |ios| ==> ios[k] == SkillIo(false, false, Written)
  }

  /** After a failure-free run every absent or unmodified skill holds what is shipped, under
      a matching record, and every other file is as it was. */
  lemma CleanRunDelivers(d: Disk, skills: seq<Skill>, ios: seq<SkillIo>, m: ManifestIo, k: nat)
    requires |ios| == |skills| && DistinctNames(skills) && NoFailures(ios, m) && k < |skills|
    ensures
      var d' := Seeded(d, skills, ios, m).0;
      var name := skills[k].name;
      if Reachable(d, name) then
        Unmodified(d'.files, LoadSeedState(d'.manifest), name) && d'.files[name] == skills[k].content
      else Foreign(d', name) && d'.files[name] == d.files[name]
  {
    OneTurnPerName(Begin(d, m.loadFails), skills, ios, k);
    var p := SeedFrom(Begin(d, m.loadFails), skills, ios);
    if SeedOne(Begin(d, m.loadFails), skills[k], ios[k]).written > 0 {
      WrittenIsDirty(Begin(d, m.loadFails), skills, ios, k);
    }
    if !p.dirty {
      CleanStateKept(Begin(d, m.loadFails), skills, ios);
    }
  }

  lemma {:induction false} CleanStateKept(p: Progress, skills: seq<Skill>, ios: seq<SkillIo>)
    requires |ios| == |skills| && !SeedFrom(p, skills, ios).dirty
    ensures SeedFrom(p, skills, ios).state == p.state && SeedFrom(p, skills, ios).written == p.written
    decreases |skills|
  {
    if skills != [] {
      var q := SeedOne(p, skills[0], ios[0]);
      if q.dirty {
        DirtyStays(q, skills[1..], ios[1..]);
      }
      CleanStateKept(q, skills[1..], ios[1..]);
    }
  }

  /** A second run of the same version finds nothing to do, whatever would have failed in it. */
  lemma SecondRunIsIdle(
    d: Disk, skills: seq<Skill>, ios: seq<SkillIo>, m: ManifestIo, ios2: seq<SkillIo>, m2: ManifestIo)
    requires |ios| == |skills| == |ios2| && DistinctNames(skills) && NoFailures(ios, m)
    ensures var d' := Seeded(d, skills, ios, m).0; Seeded(d', skills, ios2, m2) == (d', 0)
  {
    hide Seeded, DistinctNames;
    var d' := Seeded(d, skills, ios, m).0;
    forall k | 0 <= k < |skills| ensures Settled(Begin(d', m2.loadFails), skills[k]) {
      CleanRunDelivers(d, skills, ios, m, k);
    }
    IdleFrom(Begin(d', m2.loadFails), skills, ios2);
    IdleRun(d', skills, ios2, m2);
  }

  lemma IdleRun(d: Disk, skills: seq<Skill>, ios: seq<SkillIo>, m: ManifestIo)
    requires |ios| == |skills| && SeedFrom(Begin(d, m.loadFails), skills, ios) == Begin(d, m.loadFails)
    ensures Seeded(d, skills, ios, m) == (d, 0)
  {
  }

  /** The skill is current, or not the seeder's to change. */
  predicate Settled(p: Progress, s: Skill) {
    s.name in p.files && (Unmodified(p.files, p.state, s.name) ==> p.files[s.name] == s.content)
  }

  lemma {:induction false} IdleFrom(p: Progress, skills: seq<Skill>, ios: seq<SkillIo>)
    requires |ios| == |skills| && forall k :: 0 <= k < |skills| ==> Settled(p, skills[k])
    ensures SeedFrom(p, skills, ios) == p
    decreases |skills|
  {
    if skills != [] {
      assert Settled(p, skills[0]);
      IdleFrom(p, skills[1..], ios[1..]);
    }
  }

  /** How many of the skills have another content, or a content at all, afterwards. */
  function ChangedCount(before: map<string, string>, after: map<string, string>, skills: seq<Skill>): nat {
    if skills == [] then 0
    else (if SameEntry(before, after, skills[0].name) then 0 else 1) + ChangedCount(before, after, skills[1..])
  }

  lemma {:induction false} CountFrom(p: Progress, skills: seq<Skill>, ios: seq<SkillIo>, before: map<string, string>)
    requires |ios| == |skills| && DistinctNames(skills) && NoFailures(ios, ManifestIo(false, Saved))
    requires forall k :: 0 <= k < |skills| ==> SameEntry(before, p.files, skills[k].name)
    ensures SeedFrom(p, skills, ios).written
         == p.written + ChangedCount(before, SeedFrom(p, skills, ios).files, skills)
    decreases |skills|
  {
    if skills != [] {
      var q := SeedOne(p, skills[0], ios[0]);
      OthersUntouched(q, skills[1..], ios[1..], skills[0].name);
      assert forall k :: 0 <= k < |skills[1..]| ==> skills[1..][k] == skills[k + 1] && ios[1..][k] == ios[k + 1];
      CountFrom(q, skills[1..], ios[1..], before);
    }
  }

  /** The number returned by a failure-free run is the number of skill files it changed. */
  lemma CountIsChanges(d: Disk, skills: seq<Skill>, ios: seq<SkillIo>, m: ManifestIo)
    requires |ios| == |skills| && DistinctNames(skills) && NoFailures(ios, m)
    ensures var (d', written) := Seeded(d, skills, ios, m); written == ChangedCount(d.files, d'.files, skills)
  {
    CountFrom(Begin(d, m.loadFails), skills, ios, d.files);
  }
}
