# First-parent `git describe` (JGitDescribe)

A Dafny model of `JGitDescribe`, the gradle-git-version class that computes
`git describe --tags --first-parent --match=<prefix>*` through JGit instead of running git.
It has three parts:

- **`revList`** walks the history of HEAD along first parents only and stops at a root
  commit (module `History`, file `history.dfy`).
- **`mapCommitsToTags` / `updateCommitHashMap`** index every tag by the commit it targets
  after peeling. When several tags target one commit, the index keeps the one that is smallest
  under the tag comparator (module `Tags`, file `tags.dfy`).
- **`describe` / `longDescription`** scan that history by increasing depth. The first commit
  whose indexed tag (the one the comparator chose) starts with the prefix decides the result. At depth 0 the result is the
  bare tag, except in RELEASE_BRANCH mode with a tag ending in `.0`. Otherwise the result is
  `<tag>-<depth>-g<abbreviated HEAD>`. With no matching tag it is HEAD's abbreviated id
  (module `JGitDescribe`, file `describe.dfy`).

Supporting modules:

- `Wrappers` holds `Option`, which stands for Java's `null`.
- `Strings` holds `startsWith`, `endsWith` and the decimal rendering of the depth.
- `Scenarios` holds small worked histories.

How the repository is represented:

- The repository is a `Graph`: a map from each parsable commit id to its ordered parent
  list. An id missing from the map is a commit that JGit cannot parse.
- `revList` only terminates when first parents never cycle. The operations therefore take a
  ghost generation numbering `gen` that strictly decreases along first-parent edges
  (`History.Ranked`).
- The tag comparator is a parameter `less`, read as "`compare(a, b) < 0`". The operations
  make no assumption about it. The lemmas about least elements and enumeration order assume it
  is a strict total order.
- `GitUtils.abbrevHash` is a parameter `abbrev`.
- Failures are `None`: HEAD does not resolve, a commit on the walk cannot be parsed, or the
  tags cannot be listed or peeled. This is the `null` that the `catch` at lines 65-68 returns.

A commit whose tag does not start with the prefix does not stop the scan. The `if` at line 48
simply falls through and the `for` loop goes on to deeper commits. So a non-matching tag is
skipped and a matching tag further back still wins. `JGitDescribe.NonMatchingTagsIgnored`
and `Scenarios.NonMatchingNearestTagIsSkipped` state this behaviour.

The index keeps one tag per commit, chosen by the comparator before the prefix is applied
(lines 45-48, 129-131). So a non-matching tag that wins the tie-break hides a matching tag on
the same commit, and that commit does not decide the result. `Scenarios.TieBreakHidesMatchingTag`
shows this.

## Model

| member | source | states |
|---|---|---|
| `Strings.NatToString` | src/main/java/com/palantir/gradle/gitversion/JGitDescribe.java:72 | The depth is rendered as a non-empty string of decimal digits with no leading zero; depth 0 is exactly `"0"` |
| `Strings.DecimalRoundTrip` | src/main/java/com/palantir/gradle/gitversion/JGitDescribe.java:72 | Reading the rendered digits back yields the depth |
| `Strings.NatToStringInjective` | src/main/java/com/palantir/gradle/gitversion/JGitDescribe.java:72 | Two different depths are never rendered as the same text |
| `History.Walk` | src/main/java/com/palantir/gradle/gitversion/JGitDescribe.java:76-97 | When the walk succeeds, its list is non-empty and starts with the start commit |
| `History.WalkIsRevList` | src/main/java/com/palantir/gradle/gitversion/JGitDescribe.java:76-97 | The walk's list starts at the start commit. Every entry is parsable, each next entry is the first parent of the one before, and the last entry has no parents |
| `History.WalkComplete` | src/main/java/com/palantir/gradle/gitversion/JGitDescribe.java:76-97 | Any list with those properties is exactly what the walk returns |
| `History.WalkCharacterized` | src/main/java/com/palantir/gradle/gitversion/JGitDescribe.java:76-97 | The walk succeeds with `revs` if and only if `revs` is the first-parent history. It fails exactly when no such history exists, i.e. some commit on the path cannot be parsed |
| `History.RevListGenerationsDecrease` | src/main/java/com/palantir/gradle/gitversion/JGitDescribe.java:84-93 | Generation numbers strictly decrease along the history |
| `History.WalkHasNoDuplicates` | src/main/java/com/palantir/gradle/gitversion/JGitDescribe.java:76-97 | The first-parent history never lists a commit twice |
| `History.RevList` | src/main/java/com/palantir/gradle/gitversion/JGitDescribe.java:76-97 | The loop that appends the current commit and moves to its first parent returns the walk's outcome. Its result is Some(revs) exactly for the first-parent history `revs`, and None when a commit cannot be parsed |
| `Tags.UpdateCommitHashMap` | src/main/java/com/palantir/gradle/gitversion/JGitDescribe.java:124-136 | An absent key receives `ref`. A present key gets `ref` only when `ref` is strictly smaller than the old value and otherwise keeps the old value. All other keys are unchanged and no key is removed |
| `Tags.UpdateKeepsLeast` | src/main/java/com/palantir/gradle/gitversion/JGitDescribe.java:124-136 | Under a strict total order, if the key held the least tag among those seen, after the update it holds the least tag among those plus `ref` |
| `Tags.IndexKeys` | src/main/java/com/palantir/gradle/gitversion/JGitDescribe.java:100-122 | The index's keys are exactly the tags' targets: the peeled id of an annotated tag and the object id of a lightweight one. Each value is one of the tags and targets its key |
| `Tags.IndexLeast` | src/main/java/com/palantir/gradle/gitversion/JGitDescribe.java:100-122 | Under a strict total order, each value is the comparator-least tag among those targeting its key |
| `Tags.LeastIsUnique` | src/main/java/com/palantir/gradle/gitversion/JGitDescribe.java:124-136 | Two least tags for the same commit over the same set of tags are equal |
| `Tags.IndexOrderIndependent` | src/main/java/com/palantir/gradle/gitversion/JGitDescribe.java:100-122 | Under a strict total order, the index depends only on the set of tags and not on the enumeration order |
| `Tags.MapCommitsToTags` | src/main/java/com/palantir/gradle/gitversion/JGitDescribe.java:100-122 | The loop over the tags builds the index. Its keys are exactly the targets and each value targets its key. Under a strict total order, each value is the least tag for its key |
| `JGitDescribe.FirstMatch` | src/main/java/com/palantir/gradle/gitversion/JGitDescribe.java:43-61 | Returns the smallest depth whose commit has an indexed tag starting with the prefix. Shallower commits, tagged or not, do not match. None means no commit matches |
| `JGitDescribe.LongDescription` | src/main/java/com/palantir/gradle/gitversion/JGitDescribe.java:71-73 | The long form starts with the tag and ends with HEAD's abbreviated id, never the tagged commit's |
| `JGitDescribe.LongDescriptionRoundTrip` | src/main/java/com/palantir/gradle/gitversion/JGitDescribe.java:71-73 | From `<tag>-<depth>-g<hash>` and the tag, the depth and HEAD's abbreviated id can be read back |
| `JGitDescribe.NoMatchingTag` | src/main/java/com/palantir/gradle/gitversion/JGitDescribe.java:43-64 | If no commit in the history has a matching tag, the result is `abbrev(HEAD)` |
| `JGitDescribe.ExactMatchOnHead` | src/main/java/com/palantir/gradle/gitversion/JGitDescribe.java:50-55 | A matching tag `T` on HEAD gives `T`. In RELEASE_BRANCH mode with `T` ending in `.0` it gives `T-0-g<abbrev(HEAD)>` |
| `JGitDescribe.NearestMatchDecides` | src/main/java/com/palantir/gradle/gitversion/JGitDescribe.java:43-61 | The smallest depth whose commit has a matching tag decides the result: the bare tag at depth 0 unless RELEASE_BRANCH mode and a `.0` suffix, otherwise the long form at that depth |
| `JGitDescribe.NearestMatchAtDistance` | src/main/java/com/palantir/gradle/gitversion/JGitDescribe.java:56-58 | A nearest matching tag `T` at depth `d > 0` gives `T-d-g<abbrev(HEAD)>` |
| `JGitDescribe.NonMatchingTagsIgnored` | src/main/java/com/palantir/gradle/gitversion/JGitDescribe.java:43-61 | Dropping every non-matching tag from the index (the helper `MatchingOnly`) leaves the result unchanged, so a non-matching tag never stops the scan |
| `JGitDescribe.HistoryBeyondMatchIrrelevant` | src/main/java/com/palantir/gradle/gitversion/JGitDescribe.java:43-61 | History beyond a commit with a matching tag does not affect the result, because the scan returns at the nearest match |
| `JGitDescribe.DescriptionIndependentOfTagOrder` | src/main/java/com/palantir/gradle/gitversion/JGitDescribe.java:40-61 | Under a strict total order, the result does not depend on the tag enumeration order |
| `JGitDescribe.Describe` | src/main/java/com/palantir/gradle/gitversion/JGitDescribe.java:33-69 | The result is None exactly when HEAD does not resolve, the walk fails or the tags cannot be read. Otherwise it is the description of HEAD's first-parent history under the tag index, found by the loop over depths with its early returns |
| `Scenarios.FirstParentHistory` | src/main/java/com/palantir/gradle/gitversion/JGitDescribe.java:84-93 | In a history with a merge, the walk follows first parents only |
| `Scenarios.TagTwoCommitsBack` | src/main/java/com/palantir/gradle/gitversion/JGitDescribe.java:38-58 | An annotated `v1.0` two first-parent steps back gives `v1.0-2-g<abbrev(c0)>`. A tag reachable only through the merge parent is ignored |
| `Scenarios.ReleaseBranchDotZeroOnHead` | src/main/java/com/palantir/gradle/gitversion/JGitDescribe.java:50-55 | `v1.0` on HEAD gives `v1.0-0-g<abbrev(c0)>` in RELEASE_BRANCH mode and `v1.0` otherwise |
| `Scenarios.TieBreakHidesMatchingTag` | src/main/java/com/palantir/gradle/gitversion/JGitDescribe.java:45-48 | HEAD carries `v1` and `rc`, its parent `v0`. With a comparator that prefers `rc`, the index holds `rc` for HEAD, and prefix `v` gives `v0-1-g<abbrev(c0)>` |
| `Scenarios.NonMatchingNearestTagIsSkipped` | src/main/java/com/palantir/gradle/gitversion/JGitDescribe.java:43-61 | `rc` on HEAD and `v2` on its parent give `v2-1-g<abbrev(c0)>` for prefix `v` |
| `Scenarios.NoTagsGivesAbbreviatedHead` | src/main/java/com/palantir/gradle/gitversion/JGitDescribe.java:63-64 | With no tags, the result is HEAD's abbreviated id for any prefix and mode |

## Left out

- JGit repository access is not modelled: `Repository.resolve`, `RevWalk.parseCommit`, `getTags`
  and `peel` (lines 36, 80-92, 106-108). They are replaced by the `Graph`, the resolved HEAD id
  (`Option`) and the list of peeled tag refs (`Option`, None when listing or peeling throws).
  Building `RefWithTagName` from a map entry (line 109) is folded into that list.
- `getParents()` returning `null` is treated the same as an empty parent list (line 88).
- `RefWithTagNameComparator` (line 101) is not part of this model. It is the parameter `less`,
  and only the lemmas that need a strict total order assume one.
- `GitUtils.abbrevHash` (lines 64, 72) is not part of this model. It is the parameter `abbrev`.
- `ReleasingModel` is not part of this model beyond whether it is RELEASE_BRANCH
  (`ReleaseBranch` vs `OtherModel`).
- SLF4J logging (lines 24, 66) and the closing of the `RevWalk` (line 80) are side effects or
  resource management only.
- Exception types are not distinguished. Every failure becomes None.
- The `HashMap` is modelled as a map value threaded through the loop and not as a shared
  mutable object. The code creates it fresh in `mapCommitsToTags` and never aliases it.
- The depth is an unbounded `nat`. A Java `int` cannot overflow here, because a history longer
  than an `ArrayList` can hold cannot be built.
- Histories whose first-parent edges form a cycle (on which `revList` would loop forever) are
  excluded by the `Ranked` precondition.
