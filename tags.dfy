/**
 * `mapCommitsToTags` and `updateCommitHashMap`: index every tag by the commit it targets,
 * keeping for each commit the tag that is smallest under the injected comparator.
 */
module Tags {
  import opened Wrappers
  import opened History

  /**
   * A tag ref after peeling: `objectId` is what the ref names (the commit for a lightweight
   * tag, the tag object for an annotated one) and `peeledObjectId` the commit an annotated
   * tag points to (None for a lightweight tag).
   */
  datatype Ref = Ref(objectId: CommitId, peeledObjectId: Option<CommitId>)

  /** A peeled ref together with the tag's short name, as the index stores it. */
  datatype RefWithTagName = RefWithTagName(ref: Ref, tag: string)

  /** The commit hash map stored for each tag: the peeled id if there is one, else the ref's own id. */
  function Target(t: RefWithTagName): CommitId {
    match t.ref.peeledObjectId
    case Some(peeled) => peeled
    case None => t.ref.objectId
  }

  /** Commit hash -> the single tag chosen for that commit. */
  type TagIndex = map<CommitId, RefWithTagName>

  /** The comparator's "compare(a, b) < 0", when it is a strict total order. */
  ghost predicate StrictTotalOrder(less: (RefWithTagName, RefWithTagName) -> bool) {
    && (forall a :: !less(a, a))
    && (forall a, b, c :: less(a, b) && less(b, c) ==> less(a, c))
    && (forall a, b :: a != b ==> less(a, b) || less(b, a))
  }

  /** `t` is the comparator-least of the tags in `tags` that target `id`. */
  ghost predicate IsLeastFor(less: (RefWithTagName, RefWithTagName) -> bool, t: RefWithTagName,
                             tags: seq<RefWithTagName>, id: CommitId) {
    && t in tags
    && Target(t) == id
    && forall u :: u in tags && Target(u) == id && u != t ==> less(t, u)
  }

  function TargetsOf(tags: seq<RefWithTagName>): set<CommitId> {
    set t | t in tags :: Target(t)
  }

  /**
   * `updateCommitHashMap`: store `ref` under `id` unless `id` already holds a tag and `ref`
   * is not strictly smaller than it.
   */
  function UpdateCommitHashMap(m: TagIndex, less: (RefWithTagName, RefWithTagName) -> bool,
                               id: CommitId, ref: RefWithTagName): (r: TagIndex)
    ensures r.Keys == m.Keys + {id}
    ensures forall k :: k in m && k != id ==> r[k] == m[k]
    ensures id !in m ==> r[id] == ref
    ensures id in m ==> (r[id] == ref && less(ref, m[id])) || (r[id] == m[id] && !less(ref, m[id]))
  {
    if id in m then
      if less(ref, m[id]) then m[id := ref] else m
    else
      m[id := ref]
  }

  /** The tag an update leaves under `id` stays the least one once `ref` joins the candidates. */
  lemma UpdateKeepsLeast(m: TagIndex, less: (RefWithTagName, RefWithTagName) -> bool,
                         seen: seq<RefWithTagName>, ref: RefWithTagName)
    requires StrictTotalOrder(less)
    requires Target(ref) in m ==> IsLeastFor(less, m[Target(ref)], seen, Target(ref))
    requires Target(ref) !in m ==> forall u :: u in seen ==> Target(u) != Target(ref)
    ensures IsLeastFor(less, UpdateCommitHashMap(m, less, Target(ref), ref)[Target(ref)], seen + [ref], Target(ref))
  {
    var id := Target(ref);
    var r := UpdateCommitHashMap(m, less, id, ref);
    if id in m {
      var prev := m[id];
      forall u | u in seen + [ref] && Target(u) == id && u != r[id]
        ensures less(r[id], u)
      {
        if u == ref {
          assert r[id] == prev && !less(ref, prev) && ref != prev;
        } else if r[id] != prev {
          assert r[id] == ref && less(ref, prev);
          if u != prev {
            assert less(prev, u);
          }
        }
      }
    }
  }

  /** The index after enumerating `tags` in order: the specification of `mapCommitsToTags`. */
  function IndexOf(less: (RefWithTagName, RefWithTagName) -> bool, tags: seq<RefWithTagName>): TagIndex
    decreases |tags|
  {
    if tags == [] then map[]
    else
      var last := tags[|tags| - 1];
      UpdateCommitHashMap(IndexOf(less, tags[..|tags| - 1]), less, Target(last), last)
  }

  /**
   * Whatever the comparator, the index has an entry for exactly the commits some tag
   * targets, and each entry is one of the tags and targets the commit it is stored under.
   */
  lemma {:induction false} IndexKeys(less: (RefWithTagName, RefWithTagName) -> bool, tags: seq<RefWithTagName>)
    ensures IndexOf(less, tags).Keys == TargetsOf(tags)
    ensures forall k :: k in IndexOf(less, tags) ==>
              IndexOf(less, tags)[k] in tags && Target(IndexOf(less, tags)[k]) == k
    decreases |tags|
  {
    if tags != [] {
      var init, last := tags[..|tags| - 1], tags[|tags| - 1];
      assert tags == init + [last];
      IndexKeys(less, init);
      assert TargetsOf(tags) == TargetsOf(init) + {Target(last)};
    }
  }

  /** With a strict total order, each entry is the least of the tags targeting its commit. */
  lemma {:induction false} IndexLeast(less: (RefWithTagName, RefWithTagName) -> bool, tags: seq<RefWithTagName>)
    requires StrictTotalOrder(less)
    ensures forall k :: k in IndexOf(less, tags) ==> IsLeastFor(less, IndexOf(less, tags)[k], tags, k)
    decreases |tags|
  {
    if tags != [] {
      var init, last := tags[..|tags| - 1], tags[|tags| - 1];
      assert tags == init + [last];
      IndexLeast(less, init);
      IndexKeys(less, init);
      var m := IndexOf(less, init);
      var id := Target(last);
      if id !in m {
        assert id !in TargetsOf(init);
      }
      UpdateKeepsLeast(m, less, init, last);
      forall k | k in IndexOf(less, tags) && k != id
        ensures IsLeastFor(less, IndexOf(less, tags)[k], tags, k)
      {
        assert IsLeastFor(less, m[k], init, k);
      }
    }
  }

  /** Two tags that are both least for one commit are the same tag. */
  lemma LeastIsUnique(less: (RefWithTagName, RefWithTagName) -> bool, a: seq<RefWithTagName>,
                      b: seq<RefWithTagName>, id: CommitId, s: RefWithTagName, t: RefWithTagName)
    requires StrictTotalOrder(less)
    requires forall u :: u in a <==> u in b
    requires IsLeastFor(less, s, a, id) && IsLeastFor(less, t, b, id)
    ensures s == t
  {
  }

  /**
   * With a strict total order the index does not depend on the order in which the tags
   * are enumerated (nor on repeats): only the set of tags matters.
   */
  lemma IndexOrderIndependent(less: (RefWithTagName, RefWithTagName) -> bool,
                              a: seq<RefWithTagName>, b: seq<RefWithTagName>)
    requires StrictTotalOrder(less)
    requires forall u :: u in a <==> u in b
    ensures IndexOf(less, a) == IndexOf(less, b)
  {
    var ma, mb := IndexOf(less, a), IndexOf(less, b);
    IndexKeys(less, a);
    IndexKeys(less, b);
    assert TargetsOf(a) == TargetsOf(b);
    assert ma.Keys == mb.Keys;
    forall k | k in ma
      ensures ma[k] == mb[k]
    {
      IndexLeastAt(less, a, k);
      IndexLeastAt(less, b, k);
      LeastIsUnique(less, a, b, k, ma[k], mb[k]);
    }
  }

  lemma IndexLeastAt(less: (RefWithTagName, RefWithTagName) -> bool, tags: seq<RefWithTagName>, k: CommitId)
    requires StrictTotalOrder(less)
    requires k in IndexOf(less, tags)
    ensures IsLeastFor(less, IndexOf(less, tags)[k], tags, k)
  {
    IndexLeast(less, tags);
  }

  /**
   * `mapCommitsToTags`: enumerate the peeled tag refs and fold each into a fresh hash map
   * under the commit it targets.
   */
  method MapCommitsToTags(tags: seq<RefWithTagName>, less: (RefWithTagName, RefWithTagName) -> bool)
    returns (commitHashToTag: TagIndex)
    ensures commitHashToTag == IndexOf(less, tags)
    ensures commitHashToTag.Keys == TargetsOf(tags)
    ensures forall k :: k in commitHashToTag ==> commitHashToTag[k] in tags && Target(commitHashToTag[k]) == k
    ensures StrictTotalOrder(less) ==>
              forall k :: k in commitHashToTag ==> IsLeastFor(less, commitHashToTag[k], tags, k)
  {
    commitHashToTag := map[];
    for i := 0 to |tags|
      invariant commitHashToTag == IndexOf(less, tags[..i])
    {
      var refWithTagName := tags[i];
      assert tags[..i + 1][..i] == tags[..i];
      commitHashToTag := UpdateCommitHashMap(commitHashToTag, less, Target(refWithTagName), refWithTagName);
    }
    assert tags[..|tags|] == tags;
    IndexKeys(less, tags);
    if StrictTotalOrder(less) {
      IndexLeast(less, tags);
    }
  }
}
