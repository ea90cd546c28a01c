/**
 * Small worked histories: HEAD `c0` with first parent `c1`, whose first parent is the
 * root `c2`; `c1` also has a second (merge) parent `m`, itself tagged, which the
 * first-parent walk never visits.
 */
module Scenarios {
  import opened Wrappers
  import opened Strings
  import opened History
  import opened Tags
  import opened JGitDescribe

  const Repo: Graph := map["c0" := ["c1"], "c1" := ["c2", "m"], "c2" := [], "m" := ["c2"]]
  const Generations: map<CommitId, nat> := map["c0" := 3, "c1" := 2, "m" := 1, "c2" := 0]

  function Lightweight(name: string, commit: CommitId): RefWithTagName {
    RefWithTagName(Ref(commit, None), name)
  }

  function Annotated(name: string, tagObject: CommitId, commit: CommitId): RefWithTagName {
    RefWithTagName(Ref(tagObject, Some(commit)), name)
  }

  /** The walk follows first parents only: the merge parent `m` is not in the history. */
  lemma FirstParentHistory()
    ensures Ranked(Repo, Generations)
    ensures Walk(Repo, Generations, "c0") == Some(["c0", "c1", "c2"])
  {
    assert Repo["c1"][0] == "c2" && Repo["c0"][0] == "c1";
    assert Walk(Repo, Generations, "c2") == Some(["c2"]);
    assert ["c1"] + ["c2"] == ["c1", "c2"];
    assert Walk(Repo, Generations, "c1") == Some(["c1", "c2"]);
    assert ["c0"] + ["c1", "c2"] == ["c0", "c1", "c2"];
  }

  /** A tag two first-parent steps back gives `v1.0-2-g<abbreviated c0>`; the tag on `m` does not shorten it. */
  lemma TagTwoCommitsBack(less: (RefWithTagName, RefWithTagName) -> bool, abbrev: CommitId -> string)
    ensures Ranked(Repo, Generations) && Walk(Repo, Generations, "c0").Some?
    ensures Description(Walk(Repo, Generations, "c0").value,
                        IndexOf(less, [Annotated("v1.0", "t1", "c2"), Lightweight("v1.1", "m")]), "v", OtherModel, abbrev)
            == "v1.0-2-g" + abbrev("c0")
  {
    FirstParentHistory();
    var index := IndexOf(less, [Annotated("v1.0", "t1", "c2"), Lightweight("v1.1", "m")]);
    assert index == map["c2" := Annotated("v1.0", "t1", "c2"), "m" := Lightweight("v1.1", "m")];
    NearestMatchAtDistance(["c0", "c1", "c2"], index, "v", OtherModel, abbrev, 2);
    assert NatToString(2) == "2";
  }

  /** In release-branch mode a ".0" tag on HEAD itself still gets the long form. */
  lemma ReleaseBranchDotZeroOnHead(less: (RefWithTagName, RefWithTagName) -> bool, abbrev: CommitId -> string)
    ensures Description(["c0", "c1", "c2"], IndexOf(less, [Lightweight("v1.0", "c0")]), "v", ReleaseBranch, abbrev)
            == "v1.0-0-g" + abbrev("c0")
    ensures Description(["c0", "c1", "c2"], IndexOf(less, [Lightweight("v1.0", "c0")]), "v", OtherModel, abbrev)
            == "v1.0"
  {
    var index := IndexOf(less, [Lightweight("v1.0", "c0")]);
    assert index == map["c0" := Lightweight("v1.0", "c0")];
    assert EndsWith("v1.0", ".0");
    ExactMatchOnHead(["c0", "c1", "c2"], index, "v", ReleaseBranch, abbrev);
  }

  /**
   * The nearest tag, on HEAD, does not start with the prefix: the scan goes on and
   * reports the matching tag one commit further back.
   */
  lemma NonMatchingNearestTagIsSkipped(less: (RefWithTagName, RefWithTagName) -> bool, abbrev: CommitId -> string)
    ensures Description(["c0", "c1", "c2"], IndexOf(less, [Lightweight("rc", "c0"), Lightweight("v2", "c1")]),
                        "v", OtherModel, abbrev)
            == "v2-1-g" + abbrev("c0")
  {
    var index := IndexOf(less, [Lightweight("rc", "c0"), Lightweight("v2", "c1")]);
    assert index == map["c0" := Lightweight("rc", "c0"), "c1" := Lightweight("v2", "c1")];
    assert "rc"[0] != "v"[0];
    NearestMatchAtDistance(["c0", "c1", "c2"], index, "v", OtherModel, abbrev, 1);
    assert NatToString(1) == "1";
  }

  /** A comparator under which the tag `rc` is smaller than every other tag, and no other pair is ordered. */
  function PrefersRc(a: RefWithTagName, b: RefWithTagName): bool {
    a.tag == "rc" && b.tag != "rc"
  }

  /**
   * The comparator chooses among a commit's tags before the prefix is applied: HEAD carries
   * both `v1` and `rc`, the index keeps `rc`, so HEAD does not match `v` and its parent's
   * `v0` decides the result.
   */
  lemma TieBreakHidesMatchingTag(abbrev: CommitId -> string)
    ensures Description(["c0", "c1", "c2"],
                        IndexOf(PrefersRc, [Lightweight("v1", "c0"), Lightweight("rc", "c0"), Lightweight("v0", "c1")]),
                        "v", OtherModel, abbrev)
            == "v0-1-g" + abbrev("c0")
  {
    var index := IndexOf(PrefersRc, [Lightweight("v1", "c0"), Lightweight("rc", "c0"), Lightweight("v0", "c1")]);
    var v1, rc, v0 := Lightweight("v1", "c0"), Lightweight("rc", "c0"), Lightweight("v0", "c1");
    assert [v1, rc, v0][..2] == [v1, rc] && [v1, rc][..1] == [v1];
    assert IndexOf(PrefersRc, [v1]) == map["c0" := v1];
    assert PrefersRc(rc, v1);
    assert IndexOf(PrefersRc, [v1, rc]) == map["c0" := rc];
    assert index == map["c0" := Lightweight("rc", "c0"), "c1" := Lightweight("v0", "c1")];
    assert "rc"[0] != "v"[0];
    NearestMatchAtDistance(["c0", "c1", "c2"], index, "v", OtherModel, abbrev, 1);
    assert NatToString(1) == "1";
  }

  /** Without any tag the result is HEAD's abbreviated id, whatever the prefix. */
  lemma NoTagsGivesAbbreviatedHead(less: (RefWithTagName, RefWithTagName) -> bool, abbrev: CommitId -> string,
                                   prefix: string, model: ReleasingModel)
    ensures Description(["c0", "c1", "c2"], IndexOf(less, []), prefix, model, abbrev) == abbrev("c0")
  {
  }
}
