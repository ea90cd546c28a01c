/**
 * `describe`: `git describe --tags --first-parent --match=<prefix>*` computed over the
 * first-parent history of HEAD and the commit-to-tag index.
 */
module JGitDescribe {
  import opened Wrappers
  import opened Strings
  import opened History
  import opened Tags

  /** Only whether the releasing model is RELEASE_BRANCH affects the result. */
  datatype ReleasingModel = ReleaseBranch | OtherModel

  /** The commit `rev` carries an indexed tag that starts with `prefix`. */
  predicate Matches(index: TagIndex, rev: CommitId, prefix: string) {
    rev in index && StartsWith(index[rev].tag, prefix)
  }

  /** The smallest depth in `revs` whose commit carries a matching tag, if any. */
  function FirstMatch(revs: seq<CommitId>, index: TagIndex, prefix: string): (r: Option<nat>)
    ensures r.Some? ==> r.value < |revs| && Matches(index, revs[r.value], prefix)
    ensures r.Some? ==> forall e :: 0 <= e < r.value ==> !Matches(index, revs[e], prefix)
    ensures r.None? ==> forall d :: 0 <= d < |revs| ==> !Matches(index, revs[d], prefix)
  {
    if revs == [] then None
    else if Matches(index, revs[0], prefix) then Some(0)
    else
      match FirstMatch(revs[1..], index, prefix)
      case None => None
      case Some(d) => Some(d + 1)
  }

  /** `longDescription`: `<tag>-<depth>-g<abbreviated HEAD>`. */
  function LongDescription(revs: seq<CommitId>, depth: nat, exactTag: string,
                           abbrev: CommitId -> string): (r: string)
    requires |revs| > 0
    ensures StartsWith(r, exactTag) && EndsWith(r, abbrev(revs[0]))
  {
    exactTag + "-" + NatToString(depth) + "-g" + abbrev(revs[0])
  }

  /** Reads `<tag>-<digits>-g<hash>` back into the depth and the hash, given the tag. */
  function ParseLongDescription(tag: string, s: string): Option<(nat, string)> {
    if !StartsWith(s, tag) || |s| == |tag| || s[|tag|] != '-' then None
    else
      var rest := s[|tag| + 1..];
      var k := DigitRun(rest);
      if k == 0 || !StartsWith(rest[k..], "-g") then None
      else Some((DigitsValue(rest[..k]), rest[k + 2..]))
  }

  /** The long form is unambiguous: the depth and HEAD's abbreviation can be read back from it. */
  lemma LongDescriptionRoundTrip(revs: seq<CommitId>, depth: nat, tag: string, abbrev: CommitId -> string)
    requires |revs| > 0
    ensures ParseLongDescription(tag, LongDescription(revs, depth, tag, abbrev)) == Some((depth, abbrev(revs[0])))
  {
    var digits := NatToString(depth);
    var hash := abbrev(revs[0]);
    var s := LongDescription(revs, depth, tag, abbrev);
    assert s == tag + ("-" + (digits + ("-g" + hash)));
    assert s[..|tag|] == tag;
    var rest := s[|tag| + 1..];
    assert rest == digits + ("-g" + hash);
    DigitRunStopsAtSeparator(digits, "-g" + hash);
    assert rest[..|digits|] == digits;
    assert rest[|digits|..] == "-g" + hash;
    DecimalRoundTrip(depth);
    assert rest[|digits| + 2..] == hash;
  }

  /**
   * The result of the scan over `revs` (HEAD first) as a definition: the nearest commit
   * with a matching tag decides; without one, HEAD's abbreviated id.
   */
  function Description(revs: seq<CommitId>, index: TagIndex, prefix: string,
                       model: ReleasingModel, abbrev: CommitId -> string): string
    requires |revs| > 0
  {
    match FirstMatch(revs, index, prefix)
    case None => abbrev(revs[0])
    case Some(depth) =>
      var exactTag := index[revs[depth]].tag;
      if depth == 0 && !(model == ReleaseBranch && EndsWith(exactTag, ".0")) then exactTag
      else LongDescription(revs, depth, exactTag, abbrev)
  }

  /** No commit in the history carries a matching tag: HEAD's abbreviated id. */
  lemma NoMatchingTag(revs: seq<CommitId>, index: TagIndex, prefix: string,
                      model: ReleasingModel, abbrev: CommitId -> string)
    requires |revs| > 0
    requires forall d :: 0 <= d < |revs| ==> !Matches(index, revs[d], prefix)
    ensures Description(revs, index, prefix, model, abbrev) == abbrev(revs[0])
  {
  }

  /** The nearest commit with a matching tag decides the result. */
  lemma NearestMatchDecides(revs: seq<CommitId>, index: TagIndex, prefix: string,
                            model: ReleasingModel, abbrev: CommitId -> string, d: nat)
    requires d < |revs| && Matches(index, revs[d], prefix)
    requires forall e :: 0 <= e < d ==> !Matches(index, revs[e], prefix)
    ensures var t := index[revs[d]].tag;
            Description(revs, index, prefix, model, abbrev)
            == if d == 0 && !(model == ReleaseBranch && EndsWith(t, ".0")) then t
               else LongDescription(revs, d, t, abbrev)
  {
    var m := FirstMatch(revs, index, prefix);
    assert m.Some? && m.value == d;
  }

  /**
   * HEAD itself carries a matching tag `T`: the result is `T`, except in release-branch
   * mode with `T` ending in ".0", where it is `T-0-g<abbreviated HEAD>`.
   */
  lemma ExactMatchOnHead(revs: seq<CommitId>, index: TagIndex, prefix: string,
                         model: ReleasingModel, abbrev: CommitId -> string)
    requires |revs| > 0 && Matches(index, revs[0], prefix)
    ensures var t := index[revs[0]].tag;
            Description(revs, index, prefix, model, abbrev)
            == if model == ReleaseBranch && EndsWith(t, ".0") then t + "-0-g" + abbrev(revs[0]) else t
  {
  }

  /**
   * The nearest commit with a matching tag `T` is at depth `d > 0`: the result is
   * `T-d-g<abbreviated HEAD>`, with HEAD's hash, not the tagged commit's.
   */
  lemma NearestMatchAtDistance(revs: seq<CommitId>, index: TagIndex, prefix: string,
                               model: ReleasingModel, abbrev: CommitId -> string, d: nat)
    requires 0 < d < |revs| && Matches(index, revs[d], prefix)
    requires forall e :: 0 <= e < d ==> !Matches(index, revs[e], prefix)
    ensures Description(revs, index, prefix, model, abbrev)
            == index[revs[d]].tag + "-" + NatToString(d) + "-g" + abbrev(revs[0])
  {
    var m := FirstMatch(revs, index, prefix);
    assert m.Some? && m.value == d;
  }

  /** The index with the tags that do not start with `prefix` dropped. */
  function MatchingOnly(index: TagIndex, prefix: string): (r: TagIndex)
    ensures forall k :: k in r <==> Matches(index, k, prefix)
    ensures forall k :: k in r ==> k in index && r[k] == index[k]
  {
    map k | k in index && StartsWith(index[k].tag, prefix) :: index[k]
  }

  /**
   * A tagged commit whose tag does not match is skipped, not a stopping point: dropping
   * every non-matching tag from the index leaves the result unchanged.
   */
  lemma NonMatchingTagsIgnored(revs: seq<CommitId>, index: TagIndex, prefix: string,
                                model: ReleasingModel, abbrev: CommitId -> string)
    requires |revs| > 0
    ensures Description(revs, index, prefix, model, abbrev)
            == Description(revs, MatchingOnly(index, prefix), prefix, model, abbrev)
  {
  }

  /**
   * The scan stops at the nearest matching tag: history beyond it does not affect the
   * result, so the walk could stop there.
   */
  lemma HistoryBeyondMatchIrrelevant(revs: seq<CommitId>, index: TagIndex, prefix: string,
                                     model: ReleasingModel, abbrev: CommitId -> string, d: nat)
    requires d < |revs| && Matches(index, revs[d], prefix)
    ensures Description(revs, index, prefix, model, abbrev)
            == Description(revs[..d + 1], index, prefix, model, abbrev)
  {
    var m := FirstMatch(revs, index, prefix);
    var n := FirstMatch(revs[..d + 1], index, prefix);
    assert n.Some?;
    assert m.Some? && m.value <= d;
    assert n.value == m.value;
  }

  /**
   * With a strict total order for the comparator, the result does not depend on the order
   * in which the repository enumerates its tags.
   */
  lemma DescriptionIndependentOfTagOrder(revs: seq<CommitId>, a: seq<RefWithTagName>, b: seq<RefWithTagName>,
                                         less: (RefWithTagName, RefWithTagName) -> bool, prefix: string,
                                         model: ReleasingModel, abbrev: CommitId -> string)
    requires |revs| > 0 && StrictTotalOrder(less)
    requires forall u :: u in a <==> u in b
    ensures Description(revs, IndexOf(less, a), prefix, model, abbrev)
            == Description(revs, IndexOf(less, b), prefix, model, abbrev)
  {
    IndexOrderIndependent(less, a, b);
  }

  /**
   * `describe(prefix)`: resolve HEAD, walk its first-parent history, index the tags, then
   * scan by increasing depth. Any failure on the way (HEAD not resolvable, a commit that
   * cannot be parsed, the tags unreadable) yields None, the `null` that `describe` returns.
   * `head` is what resolving HEAD gives; `tags` the peeled tag refs, None when listing or
   * peeling them fails; `less` the tag comparator; `abbrev` the hash abbreviation.
   */
  method Describe(g: Graph, ghost gen: map<CommitId, nat>, head: Option<CommitId>,
                  tags: Option<seq<RefWithTagName>>, less: (RefWithTagName, RefWithTagName) -> bool,
                  abbrev: CommitId -> string, model: ReleasingModel, prefix: string)
    returns (r: Option<string>)
    requires Ranked(g, gen)
    ensures r.None? <==> head.None? || tags.None? || Walk(g, gen, head.value).None?
    ensures r.Some? ==>
              && head.Some? && tags.Some? && Walk(g, gen, head.value).Some?
              && r.value == Description(Walk(g, gen, head.value).value, IndexOf(less, tags.value), prefix, model, abbrev)
  {
    if head.None? {
      return None;
    }
    var revList := RevList(g, gen, head.value);
    if revList.None? {
      return None;
    }
    var revs := revList.value;
    if tags.None? {
      return None;
    }
    var commitHashToTag := MapCommitsToTags(tags.value, less);

    // Walk back commit ancestors looking for a tagged one.
    for depth := 0 to |revs|
      invariant forall d :: 0 <= d < depth ==> !Matches(commitHashToTag, revs[d], prefix)
    {
      var rev := revs[depth];
      if rev in commitHashToTag {
        var exactTag := commitHashToTag[rev].tag;
        if StartsWith(exactTag, prefix) {
          NearestMatchDecides(revs, commitHashToTag, prefix, model, abbrev, depth);
          var longDescription := LongDescription(revs, depth, exactTag, abbrev);
          if depth == 0 {
            if model == ReleaseBranch && EndsWith(exactTag, ".0") {
              return Some(longDescription);
            } else {
              return Some(exactTag);
            }
          } else {
            return Some(longDescription);
          }
        }
      }
    }

    // No matching tag: HEAD's abbreviated id.
    NoMatchingTag(revs, commitHashToTag, prefix, model, abbrev);
    return Some(abbrev(head.value));
  }
}
