/** The bounded workspace walk behind `@` completion: `discover_workspace_files` of
    `crates/cli/src/file_mentions.rs`. */
module WorkspaceFiles {
  import opened Text
  import opened Sorting

  const MAX_FILES := 4000
  const MAX_DEPTH := 12

  /** A directory may be unreadable; symbolic links and special files are `Other`. */
  datatype Node = File | Other | Dir(readable: bool, entries: seq<Entry>)
  datatype Entry = Entry(name: string, node: Node)

  predicate SkipDirName(name: string) {
    || name == ".git" || name == "target" || name == "node_modules"
    || name == ".nca" || name == "dist" || name == "build"
  }

  // ----- displayed paths -----

  function JoinNames(names: seq<string>): string {
    if names == [] then ""
    else if |names| == 1 then names[0]
    else JoinNames(names[..|names| - 1]) + "/" + names[|names| - 1]
  }

  function Display(names: seq<string>): string {
    ReplaceChar(JoinNames(names), '\\', '/')
  }

  predicate Listed(shown: string) {
    shown != "" && !("../" <= shown)
  }

  // ----- which files there are, without any walking order -----

  /** Some file is reached from `node` by descending through the directories `names`. */
  ghost predicate FileAt(node: Node, names: seq<string>)
    decreases |names|, 1
  {
    && node.Dir? && node.readable && names != []
    && exists k :: 0 <= k < |node.entries| && Leads(node.entries[k], names)
  }

  ghost predicate Leads(e: Entry, names: seq<string>)
    requires names != []
    decreases |names|, 0
  {
    e.name == names[0] && (if |names| == 1 then e.node.File? else FileAt(e.node, names[1..]))
  }

  /** No skipped name on the way and the containing directory no deeper than the limit. */
  predicate Admitted(prefix: seq<string>, names: seq<string>) {
    && |prefix| + |names| <= MAX_DEPTH + 1
    && (forall k :: 0 <= k < |names| ==> !SkipDirName(names[k]))
    && Listed(Display(prefix + names))
  }

  ghost predicate Shows(prefix: seq<string>, node: Node, names: seq<string>, p: string) {
    FileAt(node, names) && Admitted(prefix, names) && p == Display(prefix + names)
  }

  // ----- the same files, counted as the walk meets them -----

  function DirBag(prefix: seq<string>, node: Node): multiset<string>
    decreases node, 1
  {
    if |prefix| > MAX_DEPTH || !node.Dir? || !node.readable then multiset{}
    else EntriesBag(prefix, node.entries)
  }

  function EntriesBag(prefix: seq<string>, entries: seq<Entry>): multiset<string>
    decreases entries, 1
  {
    if entries == [] then multiset{}
    else EntryBag(prefix, entries[0]) + EntriesBag(prefix, entries[1..])
  }

  function EntryBag(prefix: seq<string>, e: Entry): multiset<string>
    decreases e, 0
  {
    if SkipDirName(e.name) then multiset{}
    else
      match e.node
      case Dir(_, _) => DirBag(prefix + [e.name], e.node)
      case File => if Listed(Display(prefix + [e.name])) then multiset{Display(prefix + [e.name])} else multiset{}
      case Other => multiset{}
  }

  lemma DirBagShows(prefix: seq<string>, node: Node, p: string)
    ensures p in DirBag(prefix, node) <==> exists names :: Shows(prefix, node, names, p)
    decreases node, 1
  {
    hide Display;
    if node.Dir? && node.readable {
      var es := node.entries;
      if |prefix| <= MAX_DEPTH {
        EntriesBagShows(prefix, es, p);
        if p in DirBag(prefix, node) {
          var k, names :| 0 <= k < |es| && names != [] && Leads(es[k], names) && Admitted(prefix, names)
                          && p == Display(prefix + names);
          assert Shows(prefix, node, names, p);
        }
      }
      if names :| Shows(prefix, node, names, p) {
        var k :| 0 <= k < |es| && Leads(es[k], names);
      }
    }
  }

  lemma {:induction false} EntriesBagShows(prefix: seq<string>, es: seq<Entry>, p: string)
    requires |prefix| <= MAX_DEPTH
    ensures p in EntriesBag(prefix, es) <==>
      exists k, names :: 0 <= k < |es| && names != [] && Leads(es[k], names) && Admitted(prefix, names)
                         && p == Display(prefix + names)
    decreases es, 1
  {
    hide Display, Leads, Admitted;
    if es != [] {
      EntryBagShows(prefix, es[0], p);
      EntriesBagShows(prefix, es[1..], p);
      if p in EntryBag(prefix, es[0]) {
        var names :| names != [] && Leads(es[0], names) && Admitted(prefix, names) && p == Display(prefix + names);
      } else if p in EntriesBag(prefix, es[1..]) {
        var k, names :| 0 <= k < |es[1..]| && names != [] && Leads(es[1..][k], names) && Admitted(prefix, names)
                        && p == Display(prefix + names);
        assert es[k + 1] == es[1..][k];
      }
      if k, names :| 0 <= k < |es| && names != [] && Leads(es[k], names) && Admitted(prefix, names)
                     && p == Display(prefix + names) {
        assert k > 0 ==> es[k] == es[1..][k - 1];
      }
    }
  }

  lemma EntryBagShows(prefix: seq<string>, e: Entry, p: string)
    requires |prefix| <= MAX_DEPTH
    ensures p in EntryBag(prefix, e) <==>
      exists names :: names != [] && Leads(e, names) && Admitted(prefix, names) && p == Display(prefix + names)
    decreases e, 0
  {
    hide Display, SkipDirName;
    var deeper := prefix + [e.name];
    if e.node.Dir? {
      DirBagShows(deeper, e.node, p);
      if p in EntryBag(prefix, e) {
        var rest :| Shows(deeper, e.node, rest, p);
        var names := [e.name] + rest;
        assert names[1..] == rest && prefix + names == deeper + rest;
        assert Leads(e, names) && Admitted(prefix, names);
      }
      if names :| names != [] && Leads(e, names) && Admitted(prefix, names) && p == Display(prefix + names) {
        var rest := names[1..];
        assert names == [e.name] + rest && prefix + names == deeper + rest;
        assert forall k :: 0 <= k < |rest| ==> rest[k] == names[k + 1];
        assert Shows(deeper, e.node, rest, p);
        assert !SkipDirName(names[0]);
      }
    } else if e.node.File? {
      if p in EntryBag(prefix, e) {
        var names := [e.name];
        assert Leads(e, names) && Admitted(prefix, names);
      }
      if names :| names != [] && Leads(e, names) && Admitted(prefix, names) && p == Display(prefix + names) {
        assert |names| > 1 ==> !FileAt(e.node, names[1..]);
        assert names == [e.name] && !SkipDirName(names[0]);
      }
    } else {
      assert forall names :: names != [] ==> !Leads(e, names);
    }
  }

  // ----- sorting and removing duplicates -----

  /** Byte order on UTF-8 strings is code point order. */
  predicate Leq(a: string, b: string) {
    a == "" || (b != "" && (a[0] < b[0] || (a[0] == b[0] && Leq(a[1..], b[1..]))))
  }

  lemma {:induction false} LeqTotal(a: string, b: string)
    ensures Leq(a, b) || Leq(b, a)
    ensures Leq(a, b) && Leq(b, a) ==> a == b
  {
    if a != "" && b != "" {
      LeqTotal(a[1..], b[1..]);
      assert a == [a[0]] + a[1..] && b == [b[0]] + b[1..];
    }
  }

  lemma {:induction false} LeqTransitive(a: string, b: string, c: string)
    requires Leq(a, b) && Leq(b, c)
    ensures Leq(a, c)
  {
    if a != "" && a[0] == b[0] && b[0] == c[0] {
      LeqTransitive(a[1..], b[1..], c[1..]);
    }
  }

  /** The first place at which the strings differ. */
  predicate DiffersAt(a: string, b: string, k: nat) {
    k < |a| && k < |b| && a[k] != b[k] && a[..k] == b[..k]
  }

  predicate SmallerAt(a: string, b: string, k: nat) {
    DiffersAt(a, b, k) && a[k] < b[k]
  }

  lemma SmallerCons(c: char, a: string, b: string, k: nat)
    ensures SmallerAt([c] + a, [c] + b, k + 1) <==> SmallerAt(a, b, k)
  {
    var x, y := [c] + a, [c] + b;
    if k < |a| && k < |b| {
      assert x[..k + 1] == [c] + a[..k] && y[..k + 1] == [c] + b[..k];
      assert x[..k + 1] == y[..k + 1] ==> a[..k] == x[..k + 1][1..] == y[..k + 1][1..] == b[..k];
    }
  }

  /** The order is that of dictionaries: a proper prefix comes first, otherwise the first
      difference decides. */
  lemma {:induction false} LeqIsDictionary(a: string, b: string)
    ensures Leq(a, b) <==> a <= b || exists k: nat :: SmallerAt(a, b, k)
  {
    if a != "" && b != "" && a[0] == b[0] {
      LeqIsDictionary(a[1..], b[1..]);
      assert a == [a[0]] + a[1..] && b == [a[0]] + b[1..];
      if k: nat :| SmallerAt(a, b, k) {
        SmallerCons(a[0], a[1..], b[1..], k - 1);
      }
      if k: nat :| SmallerAt(a[1..], b[1..], k) {
        SmallerCons(a[0], a[1..], b[1..], k);
      }
      assert a <= b <==> a[1..] <= b[1..];
    } else if a != "" && b != "" {
      assert a[..0] == b[..0] == "";
      assert SmallerAt(a, b, 0) <==> a[0] < b[0];
      assert forall k: nat :: k > 0 && k < |a| && k < |b| ==> a[..k][0] == a[0] && b[..k][0] == b[0];
      assert !(a <= b);
    }
  }

  /** In order, duplicates allowed. */
  predicate Sorted(s: seq<string>) {
    Ordered(Leq, s)
  }

  /** In order and free of duplicates. */
  ghost predicate StrictlySorted(s: seq<string>) {
    forall i, j :: 0 <= i < j < |s| ==> Leq(s[i], s[j]) && s[i] != s[j]
  }

  /** `Vec::dedup`: of neighbouring equal elements the first stays. */
  function Dedup(s: seq<string>): seq<string>
    decreases |s|
  {
    if |s| <= 1 then s
    else if s[0] == s[1] then Dedup([s[0]] + s[2..])
    else [s[0]] + Dedup(s[1..])
  }

  lemma SortSorts(s: seq<string>)
    ensures Sorted(SortBy(Leq, s)) && multiset(SortBy(Leq, s)) == multiset(s)
  {
    hide Leq, SortBy;
    forall a, b ensures Leq(a, b) || Leq(b, a) {
      LeqTotal(a, b);
    }
    Sorting.SortSorts(Leq, s);
  }

  lemma {:induction false} FirstIsLeast(s: seq<string>, j: nat)
    requires Sorted(s) && j < |s|
    ensures Leq(s[0], s[j])
  {
    hide Leq;
    if j == 0 {
      LeqTotal(s[0], s[0]);
    } else {
      FirstIsLeast(s, j - 1);
      LeqTransitive(s[0], s[j - 1], s[j]);
    }
  }

  lemma {:induction false} DedupKeeps(s: seq<string>)
    requires Sorted(s)
    ensures |Dedup(s)| <= |s|
    ensures forall p :: p in Dedup(s) <==> p in s
    ensures StrictlySorted(Dedup(s))
    decreases |s|
  {
    hide Leq;
    if |s| > 1 {
      if s[0] == s[1] {
        var t := [s[0]] + s[2..];
        assert forall i :: 0 < i < |t| ==> t[i - 1] == s[i] && t[i] == s[i + 1];
        DedupKeeps(t);
        forall p ensures p in t <==> p in s {
          assert s == [s[0]] + ([s[1]] + s[2..]);
        }
      } else {
        DedupKeeps(s[1..]);
        var d := Dedup(s[1..]);
        forall j | 0 <= j < |d| ensures Leq(s[0], d[j]) && s[0] != d[j] {
          assert d[j] in s[1..];
          var k :| 0 <= k < |s[1..]| && s[1..][k] == d[j];
          FirstIsLeast(s, k + 1);
          FirstIsLeast(s[1..], k);
          LeqTotal(s[0], s[1]);
        }
        assert s == [s[0]] + s[1..];
      }
    }
  }

  // ----- the walk -----

  datatype Pending = Pending(dir: seq<string>, node: Node, depth: nat)

  /** A measure of the tree still to be walked. */
  function Size(node: Node): nat
    decreases node, 1
  {
    if node.Dir? then 1 + SizeOf(node.entries) else 1
  }

  function SizeOf(entries: seq<Entry>): nat
    decreases entries, 1
  {
    if entries == [] then 0 else SizeOfEntry(entries[0]) + SizeOf(entries[1..])
  }

  function SizeOfEntry(e: Entry): nat
    decreases e, 0
  {
    Size(e.node)
  }

  function StackSize(stack: seq<Pending>): nat {
    if stack == [] then 0 else Size(stack[|stack| - 1].node) + StackSize(stack[..|stack| - 1])
  }

  function StackBag(stack: seq<Pending>): multiset<string> {
    if stack == [] then multiset{}
    else DirBag(stack[|stack| - 1].dir, stack[|stack| - 1].node) + StackBag(stack[..|stack| - 1])
  }

  predicate DepthsMatch(stack: seq<Pending>) {
    forall k :: 0 <= k < |stack| ==> stack[k].depth == |stack[k].dir|
  }

  lemma Pushed(stack: seq<Pending>, x: Pending)
    ensures StackBag(stack + [x]) == DirBag(x.dir, x.node) + StackBag(stack)
    ensures StackSize(stack + [x]) == Size(x.node) + StackSize(stack)
  {
    assert (stack + [x])[..|stack|] == stack;
  }

  lemma NoEntries(dir: seq<string>)
    ensures EntriesBag(dir, []) == multiset{} && SizeOf([]) == 0
  {
  }

  /** What one entry contributes to the files and to the measure. */
  lemma OneEntry(dir: seq<string>, entries: seq<Entry>, k: nat)
    requires k < |entries|
    ensures
      var e, rest := entries[k], entries[k + 1..];
      var path := dir + [e.name];
      && SizeOf(entries[k..]) == Size(e.node) + SizeOf(rest)
      && EntriesBag(dir, entries[k..]) == EntriesBag(dir, rest) +
         if SkipDirName(e.name) || e.node.Other? then multiset{}
         else if e.node.Dir? then DirBag(path, e.node)
         else if Listed(Display(path)) then multiset{Display(path)} else multiset{}
  {
    hide Display, SkipDirName, DirBag, Size;
    assert entries[k..] == [entries[k]] + entries[k + 1..];
  }

  /** One listing: every file found is recorded, every subdirectory is put on the stack. */
  method ReadListing(dir: seq<string>, entries: seq<Entry>, depth: nat, out0: seq<string>, stack0: seq<Pending>)
    returns (out: seq<string>, stack: seq<Pending>)
    requires depth == |dir| && DepthsMatch(stack0) && |out0| < MAX_FILES
    ensures DepthsMatch(stack) && |out| <= MAX_FILES
    ensures StackSize(stack) <= StackSize(stack0) + SizeOf(entries)
    ensures multiset(out) + StackBag(stack) <= multiset(out0) + StackBag(stack0) + EntriesBag(dir, entries)
    ensures |out| < MAX_FILES ==>
              multiset(out) + StackBag(stack) == multiset(out0) + StackBag(stack0) + EntriesBag(dir, entries)
  {
    hide Display, SkipDirName, StackBag, StackSize, DirBag, Size, EntriesBag, SizeOf, EntryBag, SizeOfEntry;
    NoEntries(dir);
    out, stack := out0, stack0;
    ghost var total := multiset(out0) + StackBag(stack0) + EntriesBag(dir, entries);
    assert entries[0..] == entries;
    var k := 0;
    while k < |entries|
      invariant 0 <= k <= |entries|
      invariant DepthsMatch(stack) && |out| <= MAX_FILES
      invariant StackSize(stack) + SizeOf(entries[k..]) <= StackSize(stack0) + SizeOf(entries)
      invariant multiset(out) + StackBag(stack) + EntriesBag(dir, entries[k..]) == total
      decreases |entries| - k
    {
      if |out| >= MAX_FILES {
        break;
      }
      var ent := entries[k];
      OneEntry(dir, entries, k);
      k := k + 1;
      if SkipDirName(ent.name) {
        continue;
      }
      var path := dir + [ent.name];
      match ent.node
      case Dir(_, _) =>
        Pushed(stack, Pending(path, ent.node, depth + 1));
        stack := stack + [Pending(path, ent.node, depth + 1)];
      case File =>
        var s := Display(path);
        if Listed(s) {
          out := out + [s];
        }
      case Other =>
    }
    assert k == |entries| ==> entries[k..] == [];
  }

  ghost predicate IsListOf(files: seq<string>, met: multiset<string>) {
    forall p :: p in files <==> p in met
  }

  /** Up to the cap all files come back; above it, exactly the paths of 4000 files met. */
  method DiscoverWorkspaceFiles(workspace: Node) returns (files: seq<string>)
    ensures StrictlySorted(files) && |files| <= MAX_FILES
    ensures forall p :: p in files ==> p != "" && !("../" <= p) && exists names :: Shows([], workspace, names, p)
    ensures |DirBag([], workspace)| <= MAX_FILES ==>
              forall p :: p in files <==> exists names :: Shows([], workspace, names, p)
    ensures |DirBag([], workspace)| > MAX_FILES ==>
              exists met :: met <= DirBag([], workspace) && |met| == MAX_FILES && IsListOf(files, met)
  {
    hide Display, DirBag, StackBag, StackSize, Shows, Sorted, StrictlySorted, SortBy, Dedup, IsListOf;
    var out: seq<string> := [];
    var stack := [Pending([], workspace, 0)];
    ghost var total := DirBag([], workspace);
    StackOfOne(workspace);
    while stack != []
      invariant DepthsMatch(stack) && |out| <= MAX_FILES
      invariant multiset(out) + StackBag(stack) <= total
      invariant |out| < MAX_FILES ==> multiset(out) + StackBag(stack) == total
      decreases StackSize(stack)
    {
      var Pending(dir, node, depth) := stack[|stack| - 1];
      assert stack == stack[..|stack| - 1] + [Pending(dir, node, depth)];
      Pushed(stack[..|stack| - 1], Pending(dir, node, depth));
      stack := stack[..|stack| - 1];
      NothingThere(dir, node);
      if |out| >= MAX_FILES {
        break;
      }
      if depth > MAX_DEPTH {
        continue;
      }
      if !node.Dir? || !node.readable {
        continue;
      }
      out, stack := ReadListing(dir, node.entries, depth, out, stack);
    }
    StackEmpty();
    files := Dedup(SortBy(Leq, out));
    FilesMet(workspace, out);
  }

  /** What the list made of the paths met holds. */
  lemma FilesMet(workspace: Node, out: seq<string>)
    requires multiset(out) <= DirBag([], workspace) && |out| <= MAX_FILES
    requires |out| < MAX_FILES ==> multiset(out) == DirBag([], workspace)
    ensures
      var files := Dedup(SortBy(Leq, out));
      && StrictlySorted(files) && |files| <= MAX_FILES
      && (forall p :: p in files ==> p != "" && !("../" <= p) && exists names :: Shows([], workspace, names, p))
      && (|DirBag([], workspace)| <= MAX_FILES ==>
            forall p :: p in files <==> exists names :: Shows([], workspace, names, p))
      && (|DirBag([], workspace)| > MAX_FILES ==>
            exists met :: met <= DirBag([], workspace) && |met| == MAX_FILES && IsListOf(files, met))
  {
    hide DirBag, Shows, StrictlySorted, SortBy, Dedup;
    AllFound(out, DirBag([], workspace));
    SortThenDedup(out);
    var files := Dedup(SortBy(Leq, out));
    assert |multiset(out)| == |out| && IsListOf(files, multiset(out));
    forall p ensures p in DirBag([], workspace) <==> exists names :: Shows([], workspace, names, p) {
      DirBagShows([], workspace, p);
    }
    forall p | p in files ensures p != "" && !("../" <= p) {
      var names :| Shows([], workspace, names, p);
      ShownIsListed(workspace, names, p);
    }
  }

  lemma ShownIsListed(workspace: Node, names: seq<string>, p: string)
    requires Shows([], workspace, names, p)
    ensures p != "" && !("../" <= p)
  {
    hide FileAt, Display;
    assert [] + names == names;
  }

  /** Below the cap nothing was cut off. */
  lemma AllFound(out: seq<string>, total: multiset<string>)
    requires multiset(out) <= total && |out| <= MAX_FILES
    requires |out| < MAX_FILES ==> multiset(out) == total
    ensures |total| <= MAX_FILES ==> multiset(out) == total
  {
    if |out| == MAX_FILES && |total| <= MAX_FILES {
      var rest := total - multiset(out);
      assert total == multiset(out) + rest;
      assert |rest| == 0;
    }
  }

  lemma SortThenDedup(out: seq<string>)
    ensures var r := Dedup(SortBy(Leq, out));
            StrictlySorted(r) && |r| <= |out| && forall p :: p in r <==> p in multiset(out)
  {
    hide Sorted, StrictlySorted, SortBy, Dedup;
    SortSorts(out);
    var sorted := SortBy(Leq, out);
    assert |sorted| == |multiset(sorted)| == |out|;
    DedupKeeps(sorted);
    forall p ensures p in Dedup(sorted) <==> p in multiset(out) {
      assert p in sorted <==> p in multiset(sorted);
    }
  }

  lemma StackOfOne(workspace: Node)
    ensures StackBag([Pending([], workspace, 0)]) == DirBag([], workspace)
  {
    assert StackBag([]) == multiset{};
    Pushed([], Pending([], workspace, 0));
    assert [] + [Pending([], workspace, 0)] == [Pending([], workspace, 0)];
  }

  lemma StackEmpty()
    ensures StackBag([]) == multiset{}
  {
  }

  /** What one popped directory contributes, and that it counts in the measure. */
  lemma NothingThere(dir: seq<string>, node: Node)
    ensures Size(node) > 0 && (node.Dir? ==> Size(node) > SizeOf(node.entries))
    ensures |dir| > MAX_DEPTH || !node.Dir? || !node.readable ==> DirBag(dir, node) == multiset{}
    ensures !(|dir| > MAX_DEPTH || !node.Dir? || !node.readable) ==> DirBag(dir, node) == EntriesBag(dir, node.entries)
  {
  }
}
