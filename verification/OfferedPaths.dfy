/** The paths that completion offers, read back by the expander: `discover_workspace_files`
    against `normalize_join`, both of `crates/cli/src/file_mentions.rs`. */
module OfferedPaths {
  import opened Text
  import opened Expansion
  import opened WorkspaceFiles

  /** A name a directory entry can have. */
  predicate IsName(name: string) {
    name != "" && name != "." && name != ".." && '/' !in name
  }

  lemma {:induction false} JoinFront(names: seq<string>)
    requires |names| >= 2
    ensures JoinNames(names) == names[0] + (['/'] + JoinNames(names[1..]))
    decreases |names|
  {
    var n := |names| - 1;
    if n > 1 {
      JoinFront(names[..n]);
      assert names[..n][1..] == names[1..][..n - 1];
      var a, b, c := names[0], JoinNames(names[1..][..n - 1]), names[n];
      assert names[1..][n - 1] == c;
      assert a + (['/'] + b) + "/" + c == a + (['/'] + (b + "/" + c));
    } else {
      assert names[..1] == [names[0]] && names[1..] == [names[1]];
    }
  }

  /** Splitting a joined path gives the names back. */
  lemma {:induction false} SplitJoined(names: seq<string>)
    requires names != [] && forall k :: 0 <= k < |names| ==> '/' !in names[k]
    ensures Split(JoinNames(names), '/') == names
    decreases |names|
  {
    hide Split, JoinNames;
    if |names| == 1 {
      JoinOne(names);
      SplitNone(names[0], '/');
    } else {
      JoinFront(names);
      SplitJoined(names[1..]);
      SplitOnce(names[0], '/', JoinNames(names[1..]));
    }
  }

  lemma JoinOne(names: seq<string>)
    requires |names| == 1
    ensures JoinNames(names) == names[0] && names == [names[0]]
  {
  }

  lemma {:induction false} NamesStay(names: seq<string>)
    requires forall k :: 0 <= k < |names| ==> IsName(names[k])
    ensures NamedParts(names) == names
  {
    if names != [] {
      NamesStay(names[1..]);
    }
  }

  lemma NoBackslash(s: string)
    requires '\\' !in s
    ensures ReplaceChar(s, '\\', '/') == s
  {
  }

  lemma {:induction false} JoinedHasNone(names: seq<string>)
    requires forall k :: 0 <= k < |names| ==> '\\' !in names[k]
    ensures '\\' !in JoinNames(names)
  {
    if |names| > 1 {
      JoinedHasNone(names[..|names| - 1]);
    }
  }

  lemma StartOfName(first: string, rest: string)
    requires IsName(first)
    ensures var p := first + rest; p != "" && !("./" <= p) && !("/" <= p) && !("../" <= p)
  {
    var p := first + rest;
    assert first[0] != '/' && p[0] == first[0];
    if |first| == 1 {
      assert first == [first[0]];
      assert p[0] != '.';
    } else {
      assert p[1] == first[1] && first[1] != '/';
      if |first| == 2 {
        assert first == [first[0], first[1]];
        assert !(p[0] == '.' && p[1] == '.');
      } else {
        assert p[2] == first[2] && first[2] != '/';
      }
    }
  }

  lemma StartOfJoined(names: seq<string>)
    requires names != [] && forall k :: 0 <= k < |names| ==> IsName(names[k])
    ensures var p := JoinNames(names); !("./" <= p) && !("/" <= p) && p != "" && !("../" <= p)
  {
    hide JoinNames, IsName;
    if |names| > 1 {
      JoinFront(names);
      StartOfName(names[0], ['/'] + JoinNames(names[1..]));
    } else {
      JoinOne(names);
      StartOfName(names[0], "");
      assert names[0] + "" == names[0];
    }
  }

  /** A file the walk finds is listed, its path is safe, and the expander reads that very file,
      unless a name on its way holds a backslash. */
  lemma OfferedIsRead(names: seq<string>)
    requires names != [] && forall k :: 0 <= k < |names| ==> IsName(names[k]) && '\\' !in names[k]
    ensures var p := Display(names); Listed(p) && SafePath(p) && Components(StripDotSlash(p)) == names
  {
    hide JoinNames, Split;
    JoinedHasNone(names);
    NoBackslash(JoinNames(names));
    StartOfJoined(names);
    SplitJoined(names);
    NamesStay(names);
    assert ".." !in names;
  }

  /** A backslash in a name becomes a slash, and another file is read. */
  lemma BackslashExample()
    ensures Display(["a\\b"]) == Display(["a", "b"]) == "a/b"
    ensures Components(StripDotSlash(Display(["a\\b"]))) == ["a", "b"]
  {
    JoinOne(["a\\b"]);
    JoinFront(["a", "b"]);
    assert ["a", "b"][1..] == ["b"];
    JoinOne(["b"]);
    assert ReplaceChar("a\\b", '\\', '/') == "a/b" && ReplaceChar("a/b", '\\', '/') == "a/b";
    assert "a" + (['/'] + "b") == "a/b";
    OfferedIsRead(["a", "b"]);
  }
}
