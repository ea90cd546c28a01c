/**
 * The commit graph and `revList`, the walk `git rev-list --first-parent <commit>`
 * performs: from a start commit, follow first parents until a root commit.
 */
module History {
  import opened Wrappers

  /** A commit's identifier as the code keys it: the object id's hexadecimal name. */
  type CommitId = string

  /**
   * The commits a `RevWalk` can parse, each with its ordered parent list (first parent
   * first; a root commit has none). An id absent from the map cannot be parsed.
   */
  type Graph = map<CommitId, seq<CommitId>>

  /**
   * `gen` is a generation numbering of the graph: every parsable commit has one, and a
   * parsable first parent has a smaller one than its child. Such a numbering exists exactly
   * when following first parents never cycles, which is what makes `revList` terminate.
   */
  predicate Ranked(g: Graph, gen: map<CommitId, nat>) {
    && (forall c :: c in g ==> c in gen)
    && (forall c :: c in g && g[c] != [] && g[c][0] in g ==> gen[g[c][0]] < gen[c])
  }

  /**
   * `revs` is the first-parent history of `head`: it starts at `head`, every entry is a
   * parsable commit, each next entry is the first parent of the one before, and the last
   * entry is a root commit.
   */
  predicate IsRevList(g: Graph, head: CommitId, revs: seq<CommitId>) {
    && |revs| > 0
    && revs[0] == head
    && (forall i :: 0 <= i < |revs| ==> revs[i] in g)
    && (forall i :: 0 <= i < |revs| - 1 ==> g[revs[i]] != [] && revs[i + 1] == g[revs[i]][0])
    && g[revs[|revs| - 1]] == []
  }

  function Prepend(prefix: seq<CommitId>, o: Option<seq<CommitId>>): Option<seq<CommitId>> {
    match o
    case None => None
    case Some(rest) => Some(prefix + rest)
  }

  /**
   * The outcome of `revList(c)` as a recursive definition: None when some commit on the
   * first-parent path cannot be parsed (the IOException the walk throws).
   */
  ghost function Walk(g: Graph, gen: map<CommitId, nat>, c: CommitId): (r: Option<seq<CommitId>>)
    requires Ranked(g, gen)
    ensures r.Some? ==> |r.value| > 0 && r.value[0] == c
    decreases if c in g then gen[c] + 1 else 0
  {
    if c !in g then None
    else if g[c] == [] then Some([c])
    else Prepend([c], Walk(g, gen, g[c][0]))
  }

  /** Soundness: what the walk returns is the first-parent history of its start commit. */
  lemma {:induction false} WalkIsRevList(g: Graph, gen: map<CommitId, nat>, c: CommitId)
    requires Ranked(g, gen)
    requires Walk(g, gen, c).Some?
    ensures IsRevList(g, c, Walk(g, gen, c).value)
    decreases if c in g then gen[c] + 1 else 0
  {
    if g[c] != [] {
      var p := g[c][0];
      WalkIsRevList(g, gen, p);
      var rest := Walk(g, gen, p).value;
      var revs := Walk(g, gen, c).value;
      assert revs == [c] + rest;
      forall i | 0 <= i < |revs| - 1
        ensures g[revs[i]] != [] && revs[i + 1] == g[revs[i]][0]
      {
        if i > 0 { assert revs[i] == rest[i - 1] && revs[i + 1] == rest[i]; }
      }
    }
  }

  /** Completeness: when the start commit has a first-parent history, the walk returns it. */
  lemma {:induction false} WalkComplete(g: Graph, gen: map<CommitId, nat>, c: CommitId, revs: seq<CommitId>)
    requires Ranked(g, gen)
    requires IsRevList(g, c, revs)
    ensures Walk(g, gen, c) == Some(revs)
    decreases |revs|
  {
    if |revs| > 1 {
      var rest := revs[1..];
      assert IsRevList(g, revs[1], rest) by {
        forall i | 0 <= i < |rest| - 1
          ensures g[rest[i]] != [] && rest[i + 1] == g[rest[i]][0]
        {
          assert rest[i] == revs[i + 1] && rest[i + 1] == revs[i + 2];
        }
      }
      WalkComplete(g, gen, revs[1], rest);
      assert g[c] != [] && g[c][0] == revs[1];
      assert revs == [c] + rest;
    } else {
      assert revs == [c];
    }
  }

  /** The walk's outcome is exactly the first-parent history, when there is one, and None otherwise. */
  lemma WalkCharacterized(g: Graph, gen: map<CommitId, nat>, c: CommitId)
    requires Ranked(g, gen)
    ensures forall revs :: IsRevList(g, c, revs) <==> Walk(g, gen, c) == Some(revs)
  {
    forall revs | IsRevList(g, c, revs)
      ensures Walk(g, gen, c) == Some(revs)
    {
      WalkComplete(g, gen, c, revs);
    }
    if Walk(g, gen, c).Some? {
      WalkIsRevList(g, gen, c);
    }
  }

  /** Along a first-parent history generation numbers strictly decrease. */
  lemma {:induction false} RevListGenerationsDecrease(g: Graph, gen: map<CommitId, nat>, revs: seq<CommitId>, i: nat, j: nat)
    requires Ranked(g, gen)
    requires |revs| > 0 && IsRevList(g, revs[0], revs)
    requires i < j < |revs|
    ensures gen[revs[j]] < gen[revs[i]]
    decreases j - i
  {
    assert gen[revs[i + 1]] < gen[revs[i]];
    if i + 1 < j {
      RevListGenerationsDecrease(g, gen, revs, i + 1, j);
    }
  }

  /** A first-parent history never repeats a commit. */
  lemma WalkHasNoDuplicates(g: Graph, gen: map<CommitId, nat>, c: CommitId)
    requires Ranked(g, gen)
    requires Walk(g, gen, c).Some?
    ensures forall i, j :: 0 <= i < j < |Walk(g, gen, c).value| ==>
              Walk(g, gen, c).value[i] != Walk(g, gen, c).value[j]
  {
    var revs := Walk(g, gen, c).value;
    WalkIsRevList(g, gen, c);
    forall i, j | 0 <= i < j < |revs|
      ensures revs[i] != revs[j]
    {
      RevListGenerationsDecrease(g, gen, revs, i, j);
    }
  }

  /**
   * `revList`: parse the start commit, then repeatedly record the current commit and move
   * to its first parent until a root commit is recorded. A commit that cannot be parsed
   * ends the walk with None.
   */
  method RevList(g: Graph, ghost gen: map<CommitId, nat>, initial: CommitId) returns (r: Option<seq<CommitId>>)
    requires Ranked(g, gen)
    ensures r == Walk(g, gen, initial)
    ensures forall revs :: IsRevList(g, initial, revs) <==> r == Some(revs)
  {
    if initial !in g {
      return None;
    }
    var revs: seq<CommitId> := [];
    var head := initial;
    WalkCharacterized(g, gen, initial);
    match Walk(g, gen, initial) {
      case None =>
      case Some(all) => assert [] + all == all;
    }
    while true
      invariant head in g
      invariant Walk(g, gen, initial) == Prepend(revs, Walk(g, gen, head))
      decreases gen[head]
    {
      ghost var before := revs;
      revs := revs + [head];
      var parents := g[head];
      if parents == [] {
        break;
      }
      if parents[0] !in g {
        return None;
      }
      match Walk(g, gen, parents[0]) {
        case None =>
        case Some(rest) => assert before + ([head] + rest) == revs + rest;
      }
      head := parents[0];
    }
    r := Some(revs);
  }
}
