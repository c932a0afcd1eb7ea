/** The recency list of models: `track_recent_model` of `crates/common/src/config.rs`. */
module RecentModels {

  const MAX_RECENT := 8

  function Without(s: seq<string>, m: string): seq<string> {
    if s == [] then [] else (if s[0] == m then [] else [s[0]]) + Without(s[1..], m)
  }

  /** `Vec::truncate`. */
  function Take(s: seq<string>, n: nat): seq<string> {
    if |s| <= n then s else s[..n]
  }

  function Tracked(list: seq<string>, m: string): seq<string> {
    Take([m] + Without(list, m), MAX_RECENT)
  }

  class ModelConfig {
    var recentModels: seq<string>

    constructor ()
      ensures recentModels == []
    {
      recentModels := [];
    }

    method TrackRecentModel(model: string)
      modifies this
      ensures recentModels == Tracked(old(recentModels), model)
    {
      recentModels := Without(recentModels, model);
      recentModels := [model] + recentModels;
      recentModels := Take(recentModels, MAX_RECENT);
    }
  }

  function TrackAll(list: seq<string>, history: seq<string>): seq<string>
    decreases |history|
  {
    if history == [] then list
    else Tracked(TrackAll(list, history[..|history| - 1]), history[|history| - 1])
  }

  // ----- the reference: distinct models, latest first -----

  function Reversed(s: seq<string>): seq<string> {
    if s == [] then [] else [s[|s| - 1]] + Reversed(s[..|s| - 1])
  }

  /** Of equal elements only the first. */
  function FirstOccurrences(s: seq<string>): seq<string> {
    if s == [] then [] else [s[0]] + Without(FirstOccurrences(s[1..]), s[0])
  }

  predicate Distinct(s: seq<string>) {
    forall i, j :: 0 <= i < j < |s| ==> s[i] != s[j]
  }

  lemma {:induction false} WithoutKeeps(s: seq<string>, m: string)
    ensures forall x :: x in Without(s, m) <==> x in s && x != m
    ensures Distinct(s) ==> Distinct(Without(s, m))
    ensures m !in s ==> Without(s, m) == s
  {
    if s != [] {
      WithoutKeeps(s[1..], m);
      assert s == [s[0]] + s[1..];
      if Distinct(s) {
        assert Distinct(s[1..]) && s[0] !in s[1..];
      }
    }
  }

  lemma {:induction false} FirstOccurrencesAre(s: seq<string>)
    ensures Distinct(FirstOccurrences(s))
    ensures forall x :: x in FirstOccurrences(s) <==> x in s
  {
    if s != [] {
      FirstOccurrencesAre(s[1..]);
      WithoutKeeps(FirstOccurrences(s[1..]), s[0]);
      assert s == [s[0]] + s[1..];
    }
  }

  /** Cutting the list before the next model is added loses nothing that would be shown. */
  lemma {:induction false} CutFirst(s: seq<string>, m: string, n: nat)
    requires Distinct(s) && n >= 1
    ensures Take(Without(Take(s, n), m), n - 1) == Take(Without(s, m), n - 1)
  {
    hide Without, Distinct, Take;
    TakeFits(s, n);
    if |s| > n {
      var x, rest := s[0], s[1..];
      assert s == [x] + rest;
      DistinctTail(s);
      TakeCons(x, rest, n);
      var cut := Take(rest, n - 1);
      WithoutCons(x, rest, m);
      WithoutCons(x, cut, m);
      if x == m {
        TakeIsPrefix(rest, n - 1);
        WithoutKeeps(rest, m);
        WithoutKeeps(cut, m);
        TakeFits(cut, n - 1);
        assert [] + rest == rest && [] + cut == cut;
      } else if n > 1 {
        CutFirst(rest, m, n - 1);
        TakeCons(x, Without(cut, m), n - 1);
        TakeCons(x, Without(rest, m), n - 1);
      } else {
        TakeNone(Without(Take(s, n), m));
        TakeNone(Without(s, m));
      }
    }
  }

  lemma WithoutCons(x: string, s: seq<string>, m: string)
    ensures Without([x] + s, m) == (if x == m then [] else [x]) + Without(s, m)
  {
    assert ([x] + s)[1..] == s;
  }

  lemma DistinctTail(s: seq<string>)
    requires s != [] && Distinct(s)
    ensures Distinct(s[1..]) && s[0] !in s[1..]
  {
  }

  lemma TakeFits(s: seq<string>, n: nat)
    ensures |s| <= n ==> Take(s, n) == s
    ensures |Take(s, n)| <= n
  {
  }

  lemma TakeIsPrefix(s: seq<string>, n: nat)
    ensures forall x :: x in Take(s, n) ==> x in s
  {
  }

  lemma TakeNone(s: seq<string>)
    ensures Take(s, 0) == []
  {
  }

  lemma TakeCons(x: string, s: seq<string>, n: nat)
    requires n >= 1
    ensures Take([x] + s, n) == [x] + Take(s, n - 1)
  {
  }

  /** Whatever models are tracked in whatever order, the list holds the first eight distinct
      entries of the reversed history. */
  lemma {:induction false} ListIsLatestDistinct(history: seq<string>)
    ensures TrackAll([], history) == Take(FirstOccurrences(Reversed(history)), MAX_RECENT)
    decreases |history|
  {
    if history != [] {
      var before, m := history[..|history| - 1], history[|history| - 1];
      ListIsLatestDistinct(before);
      var all := FirstOccurrences(Reversed(before));
      FirstOccurrencesAre(Reversed(before));
      CutFirst(all, m, MAX_RECENT);
      TakeCons(m, Without(Take(all, MAX_RECENT), m), MAX_RECENT);
      TakeCons(m, Without(all, m), MAX_RECENT);
      assert Reversed(history)[1..] == Reversed(before);
    }
  }
}
