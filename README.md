# Rebuild: partitioning posts and reconstructing their threads

This project models the core of `src/data_process/rebuild.py` of a Weibo
data-preparation pipeline and proves properties of that model in Dafny.
The script reads crawled posts, each carrying its comments (with one level
of nested sub-comments, or deeper) and its reposts. It does four things:

- It finds a global anchor time: the latest parseable `created_at`.
- It routes every dated post by its age into an evaluation buffer or the
  training stream, or drops it.
- It shuffles the evaluation buffer and cuts it into validation and test
  candidates.
- For every candidate, it first counts the interactions (root author,
  commenter or reposter) into its partition's counter, and then keeps the
  candidate with a fixed probability.

Each kept post is rebuilt as a tree. The post is the root. Its children are
the non-image top-level comments, each with its replies attached under the
comment they answer, followed by the non-image reposts.

The files:

- `records.dfy` (`Records`): the already-parsed input records.
  - A post, its comments and reposts.
  - A text value that is either a string or something else.
  - The profile map.
- `text_filter.dfy` (`TextFilter`): `is_image_comment`.
  - Python's `str.strip` over the whitespace characters Python's `str`
    recognises.
  - The prefix test for the marker `图片评论`.
- `interactions.dfy` (`Interactions`): the interaction counter.
  - A class over a map from `(root author, interactor)` to a count that
    defaults to 0.
  - The recursive counting of `_count_interactions_in_post` as mutually
    recursive methods.
  - The specification functions those methods are proved against.
- `thread.dfy` (`Thread`): `build_comment_hierarchy`, `attach`,
  `process_reposts` and `process_single_post`.
  - Each is written imperatively: loops that fill the `nodes` and
    `children` indexes and the counter, and a recursive `attach`.
  - Each is proved equal to a functional description of the tree it
    returns.
- `thread_props.dfy` (`ThreadProps`): properties of the rebuilt trees.
  - Depths, the order of the replies, and every node coming from a built
    comment.
  - Which sub-comments get attached, and which never appear.
- `partition.dfy` (`Partition`): the non-I/O logic of `main`.
  - The anchor scan, `in_range` and the routing.
  - The shuffle and the cut at `len // 2`.
  - The count-then-sample passes.
  - `Run`, which ties them together and is proved equal to the function
    `Partitioned`.
- `seqs.dfy` (`Seqs`): generic sequence facts used by the proofs.

Randomness and time are inputs:

- `draw(k)` is the k-th value `random.random()` returns during the training
  pass.
- `shuffle` is the permutation `random.shuffle` applies to the buffer.
  - Lemmas that need it to be a permutation require `Permutes(shuffle)`.
- The draws that follow the shuffle are a second stream, `evalDraw`. This is
  because the shuffle itself consumes the generator.
  - Validation candidate `i` uses `evalDraw(i)`.
  - Test candidate `j` uses `evalDraw(mid + j)`.
- A post's `created` is what the timestamp parser returned, in seconds.
- Ages in days are exact rationals.

## Model

| member | source | states |
|---|---|---|
| TextFilter.IsImageComment | src/data_process/rebuild.py:99-100 | `is_image_comment` holds only of a string, and only of one long enough to hold the marker; a non-string is never an image comment (what it means for a string is stated by ImageIffTrimmedPrefix) |
| TextFilter.Strip | src/data_process/rebuild.py:100 | `str.strip()`: the result is the part of the text after its leading whitespace run and before its trailing whitespace run, and it neither starts nor ends with whitespace |
| TextFilter.ImageIffTrimmedPrefix | src/data_process/rebuild.py:99-100 | a string is an image comment exactly when, after leading whitespace is removed, it starts with the marker (trailing whitespace never matters) |
| TextFilter.LeadingWhitespaceIgnored | src/data_process/rebuild.py:100 | prefixing any run of whitespace to a text does not change whether it is an image comment |
| TextFilter.MarkerOpensImage | src/data_process/rebuild.py:100 | every text that begins with the marker is an image comment, whatever follows |
| TextFilter.TrimLeftSpec | src/data_process/rebuild.py:100 | left stripping removes exactly the maximal whitespace prefix: the result is a suffix, it does not start with whitespace, and everything cut was whitespace |
| TextFilter.TrimRightSpec | src/data_process/rebuild.py:100 | right stripping removes exactly the maximal whitespace suffix |
| TextFilter.MarkerSurvivesTrimRight | src/data_process/rebuild.py:100 | right stripping neither creates nor destroys a leading marker |
| Interactions.Counter.constructor | src/data_process/rebuild.py:301-303 | a fresh partition counter is empty |
| Interactions.Counter.Increment | src/data_process/rebuild.py:196 | `+= 1` on a defaulting dictionary: the key's count becomes its old value (0 if absent) plus one, every other key unchanged |
| Interactions.Counter.ReadOrInit | src/data_process/rebuild.py:115 | `d[k] = d.get(k, 0)`: returns the old count (0 if absent) and stores it back, so no count changes |
| Interactions.AddAllGet | src/data_process/rebuild.py:191-205 | counting a list of interactors under a root adds, for each key with that root, the number of times its interactor occurs; keys with another root are unchanged |
| Interactions.AddAllKeys | src/data_process/rebuild.py:196 | counting adds exactly the keys (root, interactor) of the listed interactors |
| Interactions.AddAllAppend | src/data_process/rebuild.py:193-198 | counting two lists one after the other is counting their concatenation |
| Interactions.InitZerosGet | src/data_process/rebuild.py:115 | initialising keys to their current value or 0 never changes the count read at any key |
| Interactions.InitZerosKeys | src/data_process/rebuild.py:115 | the only change initialisation makes is to insert the keys (root, interactor) of the listed interactors |
| Interactions.CountCommentsRecursive | src/data_process/rebuild.py:192-198 | `count_comments_recursive` adds one per non-image comment at any depth, skipping an image comment together with everything nested under it |
| Interactions.CountComment | src/data_process/rebuild.py:195-198 | one non-image comment counts its commenter and then its nested comments recursively |
| Interactions.CountInteractionsInPost | src/data_process/rebuild.py:191-205 | the counter ends as the old counter plus one per counted comment (any depth) and one per non-image repost, all under the given root |
| Interactions.CommentInteractorsAppend | src/data_process/rebuild.py:193 | the interactors of two comment lists are those of the first followed by those of the second |
| Interactions.ImageSubtreeIgnored | src/data_process/rebuild.py:194 | an image comment contributes nothing, nor does anything nested under it |
| Interactions.ImageFreeAllCounted | src/data_process/rebuild.py:192-198 | with no image comment anywhere, the counted interactors are exactly the users of all comments at every depth, each comment once, in pre-order (a comment, then everything under it, then its later siblings) |
| Interactions.CountedAreUsers | src/data_process/rebuild.py:192-198 | in any thread, every counted interactor is the user of a distinct comment of the thread: the counted multiset is contained in the multiset of all comments' users |
| Interactions.TallyAppend | src/data_process/rebuild.py:357-368 | counting two runs of posts one after the other adds their tallies |
| Interactions.TallyPermutation | src/data_process/rebuild.py:347 | the tally of a list of posts does not depend on their order |
| Interactions.CountPostsGet | src/data_process/rebuild.py:357-366 | after counting a list of posts, each key holds its old count plus its tally over those posts |
| Thread.NotOnPath | src/data_process/rebuild.py:140-145 | when no id is filed under two parents, a child of the current node is never one of its own ancestors |
| Thread.ExtendPath | src/data_process/rebuild.py:140-145 | descending to a child keeps a valid ancestor path and strictly shrinks the ids still to visit, so `attach` terminates |
| Thread.Attach | src/data_process/rebuild.py:140-145 | `attach` returns the replies of a node: its filed children in filing order, each at its parent's depth plus one, each with its own replies attached recursively |
| Thread.NodeIndexKeys | src/data_process/rebuild.py:117-136 | the `nodes` index holds exactly the ids of the built comments, each node under its own id |
| Thread.NodeIndexFrom | src/data_process/rebuild.py:117-136 | every indexed node is the node of some built comment |
| Thread.ChildIndexIds | src/data_process/rebuild.py:137-138 | the `children` index files exactly the built sub-comments |
| Thread.ChildIndexFiles | src/data_process/rebuild.py:137-138 | each built sub-comment is filed under its `reply_comment` id, or its top-level comment's id when that is missing |
| Thread.ChildIndexUnique | src/data_process/rebuild.py:137-138 | with distinct ids, no id is filed under two parents |
| Thread.TopEntryIn | src/data_process/rebuild.py:109-122 | every non-image top-level comment is built |
| Thread.IndexOk | src/data_process/rebuild.py:106-138 | with distinct ids, both indexes are consistent, and every non-image top-level comment has a node and is filed under no parent |
| Thread.FileEntry | src/data_process/rebuild.py:112-138 | building one comment indexes its node, files it under its parent when it has one, and initialises its interactor's count |
| Thread.FileComment | src/data_process/rebuild.py:109-138 | one pass of the outer loop builds a top-level comment and then its non-image sub-comments, in order |
| Thread.BuildCommentHierarchy | src/data_process/rebuild.py:102-154 | the returned roots are the trees of the functional description, and the counter only gains zero-initialised keys for the built comments' authors |
| Thread.AttachRoots | src/data_process/rebuild.py:147-154 | the roots are the non-image top-level comments, in order, each at depth 1 with its replies attached |
| Thread.ProcessReposts | src/data_process/rebuild.py:156-173 | each non-image repost, in order, becomes a depth-1 node with the text from `text_law`, then `text_raw`, then ""; the counter only gains zero-initialised keys |
| Thread.RepostNodesSameCounts | src/data_process/rebuild.py:165-171 | repost nodes depend on the counter only through lookups that default to 0 |
| Thread.NodeIndexSameCounts | src/data_process/rebuild.py:116-136 | the `nodes` dictionary reads the counter only through lookups that default to 0 |
| Thread.CommentTreesSameCounts | src/data_process/rebuild.py:102-154 | two counters that agree on every lookup give the same comment trees, so zero keys added earlier change no tree |
| Thread.PostTreeSameCounts | src/data_process/rebuild.py:213-215 | a post written later in the same partition file gets the same tree whatever zero keys earlier posts added to the shared counter |
| Thread.ProcessSinglePost | src/data_process/rebuild.py:175-189 | the post tree is the post at depth 0 over its comment trees followed by its repost nodes; the counter only gains zero-initialised keys |
| ThreadProps.AttachListIds | src/data_process/rebuild.py:141-144 | the replies `attach` appends are exactly the filed children, in filing order |
| ThreadProps.AttachListShape | src/data_process/rebuild.py:140-145 | attached replies are one level below their parent, unfold exactly the `children` index at every level, and are the indexed nodes |
| ThreadProps.RootsShape | src/data_process/rebuild.py:147-153 | the roots are the non-image top-level comments in input order, at depth 1, fully unfolded |
| ThreadProps.CommentTreesShape | src/data_process/rebuild.py:102-154 | the comment trees list the non-image top-level comments in order, with depths 1, 2, … downward, and every node is a built comment's node |
| ThreadProps.RepostNodesShape | src/data_process/rebuild.py:156-173 | the repost nodes are the non-image reposts in order, at depth 1, of kind repost, with no replies |
| ThreadProps.PostTreeShape | src/data_process/rebuild.py:175-189 | the post node has depth 0 and no interaction count, and its replies are the non-image top-level comments in order followed by the non-image reposts in order, all at depth 1 |
| ThreadProps.BuiltFlatten | src/data_process/rebuild.py:117-145 | every node anywhere in the trees is an indexed node, with only its depth and replies filled in |
| ThreadProps.CommentNodesFromEntries | src/data_process/rebuild.py:117-136 | every comment node in the output comes from a built comment, carrying that commenter's name, interests and the count stored for (root author, commenter) or 0 |
| ThreadProps.RepostNodesFrom | src/data_process/rebuild.py:167-172 | every repost node comes from a non-image repost, carrying the count stored for (root author, reposter) or 0 |
| ThreadProps.UnfoldsFlatten | src/data_process/rebuild.py:141-145 | every node anywhere in the trees has as replies exactly the children filed under its id |
| ThreadProps.UnreachableAbsent | src/data_process/rebuild.py:140-153 | a child whose parent is not in the trees, and which is not a root, is not in the trees either |
| ThreadProps.VisibleTopIdsAreTops | src/data_process/rebuild.py:147-152 | every root id is the id of a non-image top-level comment |
| ThreadProps.AttachedIffReached | src/data_process/rebuild.py:137-153 | an id appears in the output exactly when a chain of filings leads to it from a visible top-level comment; a sub-comment whose target is unknown, an image comment, or inside a cycle of replies that no top-level comment leads into never appears |
| ThreadProps.ForestReached | src/data_process/rebuild.py:140-153 | every node in the attached forest is reached from one of its roots along a chain of filed children |
| ThreadProps.ChainInForest | src/data_process/rebuild.py:140-145 | following filed children down from a root never leaves the attached forest |
| ThreadProps.AttachedIff | src/data_process/rebuild.py:137-153 | a built sub-comment appears in the output exactly when the comment it is filed under appears |
| ThreadProps.AttachedAreBuilt | src/data_process/rebuild.py:109-153 | only built comments appear, so sub-comments of image comments and replies below the first nesting level never do |
| ThreadProps.OrphanNeverAttached | src/data_process/rebuild.py:137-145 | a sub-comment filed under an id that was never built (unknown or image-marked) never appears |
| ThreadProps.SubEntriesExactly | src/data_process/rebuild.py:123-136 | a comment builds exactly its non-image direct sub-comments, each with the owner's user id as `user_id` and its reply target as parent |
| ThreadProps.EntriesExactly | src/data_process/rebuild.py:109-138 | the built comments are exactly the non-image top-level comments and the non-image direct sub-comments of those |
| ThreadProps.ExampleIndex | src/data_process/rebuild.py:107-138 | in a two-comment thread where a reply under the second comment answers the first, the reply is filed under the first |
| ThreadProps.CrossThreadExample | src/data_process/rebuild.py:107-153 | in that thread, the reply is attached under the first comment at depth 2, and the second comment has no replies |
| Records.RepostText | src/data_process/rebuild.py:161 | a repost's text is its `text_law` value when that key is present, and otherwise its `text_raw` value or "" |
| Partition.InRange | src/data_process/rebuild.py:308-310 | `in_range` is the half-open test `start <= days < end`, so an empty or inverted window holds no age |
| Partition.AdjacentWindows | src/data_process/rebuild.py:308-310 | windows that meet end to start split their union without overlap, and an age on the shared boundary falls in the later one only |
| Partition.LatestIsMax | src/data_process/rebuild.py:278-294 | the anchor is the maximum of the parseable timestamps, taken from some record, and is absent exactly when no timestamp parses |
| Partition.ScanLatest | src/data_process/rebuild.py:278-290 | the scanning loop computes that anchor |
| Partition.AgesNonNegative | src/data_process/rebuild.py:323-324 | every dated record's age relative to the anchor is at least 0 |
| Partition.EvalBufferExactly | src/data_process/rebuild.py:308-332 | a record is buffered exactly when it is dated and its age is in the half-open evaluation window |
| Partition.TrainExactly | src/data_process/rebuild.py:308-338 | a record is a training candidate exactly when it is dated, outside the evaluation window and inside the half-open training window |
| Partition.RoutingPartitions | src/data_process/rebuild.py:313-341 | buffered, training and dropped records together are exactly the input, as a multiset |
| Partition.Distribute | src/data_process/rebuild.py:313-341 | the read loop buffers the evaluation records in input order, counts every training candidate and keeps those whose draw falls below the training rate |
| Partition.SampleSelects | src/data_process/rebuild.py:337-338 | a sample keeps the candidates at exactly the positions whose draw falls below the rate, in order and without repeats |
| Partition.KeptPositionsIff | src/data_process/rebuild.py:337 | a position is kept exactly when its draw falls below the rate |
| Partition.SamplePicks | src/data_process/rebuild.py:337-338 | the sample is the subsequence of the candidates at the kept positions |
| Partition.SampleAppend | src/data_process/rebuild.py:357-368 | sampling two runs one after the other samples each with its own consecutive draws |
| Partition.SampleSubset | src/data_process/rebuild.py:337-338 | a sample never invents or repeats a record |
| Partition.SampleExtremes | src/data_process/rebuild.py:337-338 | with draws in [0, 1), a rate of 1 or more keeps every candidate and a rate of 0 or less keeps none |
| Partition.CountThenSample | src/data_process/rebuild.py:357-368 | each candidate is counted before and regardless of its draw, and kept when its draw falls below the rate |
| Partition.MidpointCut | src/data_process/rebuild.py:350-352 | the validation and test candidates together are the shuffled buffer, validation gets `len // 2` of it, and the test half is the same size or one larger |
| Partition.Run | src/data_process/rebuild.py:278-368 | the driver yields exactly the described outcome: exit status 2 without an anchor, otherwise the three partitions |
| Partition.ExitIffUndated | src/data_process/rebuild.py:292-294 | the run exits, with status 2, exactly when no record has a parseable timestamp |
| Partition.CountsCoverCandidates | src/data_process/rebuild.py:301-368 | whatever the shuffle and the draws, the validation and test counters together hold the tally of the whole evaluation buffer, and the training counter the tally of all training candidates |
| Partition.HalvesTally | src/data_process/rebuild.py:347-352 | the tallies of the two halves of a shuffled buffer add up to the tally of the buffer |
| Partition.KeptFromCandidates | src/data_process/rebuild.py:337-368 | validation and test records come from the evaluation buffer, without duplication across the two, and training records from the training candidates |
| Partition.TrainDisjointFromEval | src/data_process/rebuild.py:330-338 | a training record is never also a validation or test record |
| Partition.FullRatesKeepAll | src/data_process/rebuild.py:337-368 | at rates of 1, nothing is dropped: validation and test together are the whole buffer, validation has half of it rounded down, and training is every training candidate in input order |

## Left out

- Command-line parsing and reading files: the records arrive already parsed. Blank lines and lines that are not JSON are not part of the input.
- `parse_created_at`: each post carries the parser's result, seconds or `None`.
- `load_user_profile_map`: the profile map is a given map from user id to interests, with lookups defaulting to the empty list.
- `_write_nodes_json`: the JSON output, its statistics and the coverage warning are not modelled. So are the progress messages and the `tqdm` fallback.
- Floating-point day arithmetic: ages are exact rationals, so rounding at a window's edge is not modelled.
- Random generator: its seeding and internals are not modelled. The draws and the shuffle are inputs. The draws after the shuffle form a second stream, because the shuffle consumes the generator by an amount the model does not know.
- The shuffle in place is modelled as a function from the buffer to its shuffled value.
- `--test-days` is parsed but never used by the routing, so it has no counterpart.
- Exceptions: records are well formed.
  - A `KeyError` on a missing `user`, `id` or comment `text_raw` is not modelled.
  - Only the read loop catches exceptions (rebuild.py:318-341). There a failing record is skipped, but the counts it added before failing are kept. The model does not claim that a failing record contributes nothing.
  - The same error while counting a validation or test candidate (rebuild.py:357-368) is not caught. Nor is one inside `process_single_post` while the output is written. Either one aborts the whole run. Records are assumed well formed, so these aborts are not modelled.
- Thread.BuildCommentHierarchy: requires the built comments to have distinct ids. The same requirement holds for Thread.ProcessSinglePost, Thread.IndexOk, ThreadProps.CommentTreesShape, ThreadProps.PostTreeShape and the other lemmas about rebuilt trees. With a repeated id the script may alias one node dict in two places. If a visible top-level comment can reach a cycle of filings, `attach` (rebuild.py:140-145) recurses until the interpreter raises `RecursionError`. One example is a sub-comment that has its owner's id and no `reply_comment`, so it is filed under its own id. Nothing catches that error. The run aborts, and the partition file being written is left without its closing `]`. Trees built as values model neither the aliasing nor the abort.
- TextFilter.IsImageComment: its own contract states only that a match is a string at least as long as the marker. The full meaning, a marker prefix after leading whitespace, is the lemma TextFilter.ImageIffTrimmedPrefix. In the predicate's contract it would bring whitespace trimming into every proof that mentions the filter.
- Thread.Attach: requires consistent indexes and a valid ancestor path. These are ghost facts that hold for every call the builder makes.
- A node's `depth` starts as `None` and is set when the node is attached. Unattached nodes are never output, so the model starts every comment node at depth 0.
- Any non-string text value is one value, `NotAString`. The text is only tested for being an image comment and otherwise copied.
- User ids are kept as the strings the counter keys use. A node's `user_id` holds the raw JSON value, which may be a number; that distinction is not modelled.
- A sub-comment node's `user_id` is the owning top-level comment's user id (rebuild.py:132). Its name, interests and count key use the sub-comment author's own id (rebuild.py:127-129, 133-135). The model keeps both as they are written.
