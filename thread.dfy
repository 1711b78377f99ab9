/*
 * Thread reconstruction: one post's comments and reposts rebuilt into a
 * single rooted tree of annotated nodes.
 *
 * The builder first turns the non-image top-level comments, and the
 * non-image sub-comments one level under them, into nodes (an index by id)
 * and records, for every sub-comment, the id it replies to (an index from
 * parent id to child ids, shared by the whole post). It then attaches, from
 * every top-level comment, whatever that index reaches. Reposts become flat
 * nodes one level under the post. Counts are only read (a missing key is
 * inserted with 0), never incremented.
 *
 * Nodes are values here: the source mutates node dictionaries in place and
 * may alias them, but with distinct ids every node is attached at most once.
 */
module Thread {
  import opened Records
  import opened Seqs
  import opened TextFilter
  import opened Interactions

  /** The node's `type`: original post, comment, repost. */
  datatype Kind = OriginalPost | CommentNode | RepostNode

  /** An output node. `interactionCount` is None exactly on the post node, which has no such key. */
  datatype TreeNode = TreeNode(id: Id, userId: UserId, user: string, interests: seq<string>,
                               content: TextValue, kind: Kind, depth: nat, replies: seq<TreeNode>,
                               interactionCount: Option<nat>)

  /** What the reconstruction of one post reads: the root author's id, the profiles, the partition's counts. */
  datatype Context = Context(root: UserId, profiles: ProfileMap, counts: Counts)

  /**
   * A comment as the builder's loops see it: the node's `user_id`, the
   * commenter whose name, interests and count the node carries, and for a
   * sub-comment the id it is filed under in the child index.
   */
  datatype Entry = Entry(id: Id, nodeUser: UserId, author: User, text: TextValue, parent: Option<Id>)

  function TopEntry(c: Comment): Entry {
    Entry(c.id, c.user.id, c.user, c.text, None)
  }

  /** `reply_comment.id`, defaulting to the owning top-level comment's id. */
  function ReplyParent(s: Comment, owner: Comment): Id {
    if s.replyTo.Some? then s.replyTo.value else owner.id
  }

  /** A sub-comment's node takes its `user_id` from the owning top-level comment. */
  function SubEntry(s: Comment, owner: Comment): Entry {
    Entry(s.id, owner.user.id, s.user, s.text, Some(ReplyParent(s, owner)))
  }

  /** The non-image sub-comments of `owner`, in order. */
  function SubEntries(owner: Comment, subs: seq<Comment>): seq<Entry> {
    if subs == [] then []
    else
      var s := subs[|subs| - 1];
      SubEntries(owner, subs[..|subs| - 1]) + (if IsImageComment(s.text) then [] else [SubEntry(s, owner)])
  }

  /** What one top-level comment contributes: nothing if it is an image comment. */
  function EntriesOf(c: Comment): seq<Entry> {
    if IsImageComment(c.text) then [] else [TopEntry(c)] + SubEntries(c, c.subs)
  }

  /** Every entry the builder creates, in creation order. */
  function CommentEntries(cs: seq<Comment>): seq<Entry> {
    if cs == [] then [] else CommentEntries(cs[..|cs| - 1]) + EntriesOf(cs[|cs| - 1])
  }

  function Ids(es: seq<Entry>): seq<Id> {
    seq(|es|, i requires 0 <= i < |es| => es[i].id)
  }

  function Interactors(es: seq<Entry>): seq<UserId> {
    seq(|es|, i requires 0 <= i < |es| => es[i].author.id)
  }

  /** The ids of the nodes the builder creates for a comment list. */
  function BuiltIds(cs: seq<Comment>): seq<Id> {
    Ids(CommentEntries(cs))
  }

  predicate Distinct(xs: seq<Id>) {
    forall i, j :: 0 <= i < j < |xs| ==> xs[i] != xs[j]
  }

  /** The unattached node of an entry: depth not yet set, no replies. */
  function NodeOf(e: Entry, ctx: Context): TreeNode {
    TreeNode(e.id, e.nodeUser, e.author.screenName, Interests(ctx.profiles, e.author.id), e.text,
             CommentNode, 0, [], Some(Get(ctx.counts, (ctx.root, e.author.id))))
  }

  /** The `nodes` dictionary: id -> node, a later entry overwriting an earlier one. */
  function NodeIndex(es: seq<Entry>, ctx: Context): map<Id, TreeNode> {
    if es == [] then map[]
    else
      var e := es[|es| - 1];
      NodeIndex(es[..|es| - 1], ctx)[e.id := NodeOf(e, ctx)]
  }

  /** `children.get(p, [])` */
  function Kids(children: map<Id, seq<Id>>, p: Id): seq<Id> {
    if p in children then children[p] else []
  }

  /** The `children` dictionary: parent id -> ids of the sub-comments filed under it, in order. */
  function ChildIndex(es: seq<Entry>): map<Id, seq<Id>> {
    if es == [] then map[]
    else
      var e := es[|es| - 1];
      var m := ChildIndex(es[..|es| - 1]);
      if e.parent.Some? then m[e.parent.value := Kids(m, e.parent.value) + [e.id]] else m
  }

  /** Every id filed under some parent. */
  ghost function ChildIds(children: map<Id, seq<Id>>): set<Id> {
    set p, c | p in children && c in children[p] :: c
  }

  /** No id is filed under two parents. */
  ghost predicate UniqueParents(children: map<Id, seq<Id>>) {
    forall p, q, c :: p in children && q in children && c in children[p] && c in children[q] ==> p == q
  }

  /** What attachment relies on: every node is filed under its own id, every child has a node, no child has two parents. */
  ghost predicate IsIndex(nodes: map<Id, TreeNode>, children: map<Id, seq<Id>>) {
    && (forall id :: id in nodes ==> nodes[id].id == id)
    && ChildIds(children) <= nodes.Keys
    && UniqueParents(children)
  }

  /**
   * The ids from a top-level comment down to the node being attached: the
   * first is never a child, each next one is filed under the one before it,
   * and none repeats.
   */
  ghost predicate IsPath(children: map<Id, seq<Id>>, path: seq<Id>) {
    && |path| > 0
    && path[0] !in ChildIds(children)
    && (forall i, j :: 0 <= i && j == i + 1 && j < |path| ==> path[j] in Kids(children, path[i]))
    && Distinct(path)
  }

  ghost function Remaining(children: map<Id, seq<Id>>, path: seq<Id>): set<Id> {
    ChildIds(children) - (set x | x in path)
  }

  /**
   * A child of the last node of a path is not on the path: its only parent
   * is that last node, and the path never repeats. This is why `attach`,
   * which keeps no visited set, terminates.
   */
  lemma NotOnPath(children: map<Id, seq<Id>>, path: seq<Id>, c: Id)
    requires UniqueParents(children) && IsPath(children, path)
    requires c in Kids(children, path[|path| - 1])
    ensures c !in path
  {
    var last := path[|path| - 1];
    assert c in ChildIds(children) by {
      assert last in children && c in children[last];
    }
    forall k | 0 < k < |path|
      ensures path[k] != c
    {
      assert path[k] in Kids(children, path[k - 1]);
      assert path[k - 1] != last;
    }
  }

  /** Extending a path by a child of its last node gives a path with one id fewer left to visit. */
  lemma ExtendPath(children: map<Id, seq<Id>>, path: seq<Id>, c: Id)
    requires UniqueParents(children) && IsPath(children, path)
    requires c in Kids(children, path[|path| - 1])
    ensures IsPath(children, path + [c])
    ensures Remaining(children, path + [c]) < Remaining(children, path)
  {
    NotOnPath(children, path, c);
    var last := path[|path| - 1];
    assert c in ChildIds(children) by {
      assert last in children && c in children[last];
    }
    assert (set x | x in path + [c]) == (set x | x in path) + {c};
  }

  /**
   * The replies `attach` gives to the node at the end of `path`, whose depth
   * is `depth`, for the children ids `cids`: each child node with depth one
   * more and its own replies attached the same way.
   */
  function AttachList(nodes: map<Id, TreeNode>, children: map<Id, seq<Id>>, path: seq<Id>,
                      cids: seq<Id>, depth: nat): seq<TreeNode>
    requires IsIndex(nodes, children) && IsPath(children, path)
    requires forall c :: c in cids ==> c in Kids(children, path[|path| - 1])
    decreases Remaining(children, path), |cids|
  {
    if cids == [] then []
    else
      var c := cids[|cids| - 1];
      var init := cids[..|cids| - 1];
      assert c in cids;
      assert forall x :: x in init ==> x in cids;
      ExtendPath(children, path, c);
      assert c in ChildIds(children) by {
        assert path[|path| - 1] in children && c in children[path[|path| - 1]];
      }
      AttachList(nodes, children, path, init, depth)
        + [nodes[c].(depth := depth + 1,
                     replies := AttachList(nodes, children, path + [c], Kids(children, c), depth + 1))]
  }

  /** `attach(parent_id, parent_node)`: the replies of the node `parentId`, which sits at `parentDepth`. */
  method Attach(nodes: map<Id, TreeNode>, children: map<Id, seq<Id>>, parentId: Id, parentDepth: nat,
                ghost path: seq<Id>) returns (replies: seq<TreeNode>)
    requires IsIndex(nodes, children) && IsPath(children, path) && path[|path| - 1] == parentId
    ensures replies == AttachList(nodes, children, path, Kids(children, parentId), parentDepth)
    decreases Remaining(children, path)
  {
    var kids := if parentId in children then children[parentId] else [];
    replies := [];
    for i := 0 to |kids|
      invariant replies == AttachList(nodes, children, path, kids[..i], parentDepth)
    {
      var childId := kids[i];
      ExtendPath(children, path, childId);
      assert childId in ChildIds(children) by {
        assert parentId in children && childId in children[parentId];
      }
      var child := nodes[childId];
      var grand := Attach(nodes, children, childId, parentDepth + 1, path + [childId]);
      replies := replies + [child.(depth := parentDepth + 1, replies := grand)];
      PrefixLast(kids, i);
    }
    assert kids[..|kids|] == kids;
  }

  /** A top-level comment's tree: its node at depth 1 with everything the index attaches under it. */
  function TopTree(nodes: map<Id, TreeNode>, children: map<Id, seq<Id>>, c: Comment): TreeNode
    requires IsIndex(nodes, children) && c.id in nodes && c.id !in ChildIds(children)
  {
    nodes[c.id].(depth := 1, replies := AttachList(nodes, children, [c.id], Kids(children, c.id), 1))
  }

  /** The trees of the non-image top-level comments, in input order. */
  function Roots(nodes: map<Id, TreeNode>, children: map<Id, seq<Id>>, cs: seq<Comment>): seq<TreeNode>
    requires IsIndex(nodes, children)
    requires forall c :: c in cs && !IsImageComment(c.text) ==> c.id in nodes && c.id !in ChildIds(children)
  {
    if cs == [] then []
    else
      var c := cs[|cs| - 1];
      Roots(nodes, children, cs[..|cs| - 1]) + (if IsImageComment(c.text) then [] else [TopTree(nodes, children, c)])
  }

  /** One more entry: its id and interactor come last. */
  lemma EntriesSnoc(es: seq<Entry>, e: Entry)
    ensures Ids(es + [e]) == Ids(es) + [e.id]
    ensures Interactors(es + [e]) == Interactors(es) + [e.author.id]
    ensures (es + [e])[..|es|] == es
  {
  }

  /** The index holds a node for exactly the entries' ids, each filed under its own id. */
  lemma {:induction false} NodeIndexKeys(es: seq<Entry>, ctx: Context)
    ensures NodeIndex(es, ctx).Keys == set x | x in Ids(es)
    ensures forall id :: id in NodeIndex(es, ctx) ==> NodeIndex(es, ctx)[id].id == id
  {
    if es != [] {
      var init, e := es[..|es| - 1], es[|es| - 1];
      NodeIndexKeys(init, ctx);
      EntriesSnoc(init, e);
      LastSplit(es);
    }
  }

  /** Every node of the index is the node of some entry with its id. */
  lemma {:induction false} NodeIndexFrom(es: seq<Entry>, ctx: Context)
    ensures forall id :: id in NodeIndex(es, ctx) ==>
      exists e :: e in es && e.id == id && NodeIndex(es, ctx)[id] == NodeOf(e, ctx)
  {
    if es != [] {
      var init, e := es[..|es| - 1], es[|es| - 1];
      NodeIndexFrom(init, ctx);
      LastSplit(es);
      forall id | id in NodeIndex(es, ctx)
        ensures exists x :: x in es && x.id == id && NodeIndex(es, ctx)[id] == NodeOf(x, ctx)
      {
        if id == e.id {
          assert e in es;
        } else {
          var x :| x in init && x.id == id && NodeIndex(init, ctx)[id] == NodeOf(x, ctx);
          assert x in es;
        }
      }
    }
  }

  /** The ids of the entries that are filed under a parent. */
  ghost function FiledIds(es: seq<Entry>): set<Id> {
    set e | e in es && e.parent.Some? :: e.id
  }

  /** Filing `x` under `p` adds `x` to the filed ids and nothing else. */
  lemma ChildIdsFile(m: map<Id, seq<Id>>, p: Id, x: Id)
    ensures ChildIds(m[p := Kids(m, p) + [x]]) == ChildIds(m) + {x}
  {
    var m' := m[p := Kids(m, p) + [x]];
    forall c | c in ChildIds(m') ensures c in ChildIds(m) + {x} {
      var q :| q in m' && c in m'[q];
      if q == p && c != x {
        assert c in Kids(m, p);
        assert p in m && c in m[p];
      } else if q != p {
        assert q in m && c in m[q];
      }
    }
    forall c | c in ChildIds(m) + {x} ensures c in ChildIds(m') {
      if c == x {
        assert p in m' && x in m'[p];
      } else {
        var q :| q in m && c in m[q];
        if q == p {
          assert c in m'[p];
        } else {
          assert q in m' && c in m'[q];
        }
      }
    }
  }

  /** The child index files exactly the entries that have a parent. */
  lemma {:induction false} ChildIndexIds(es: seq<Entry>)
    ensures ChildIds(ChildIndex(es)) == FiledIds(es)
  {
    if es == [] {
      assert ChildIds(map[]) == {};
    } else {
      var init, e := es[..|es| - 1], es[|es| - 1];
      ChildIndexIds(init);
      LastSplit(es);
      if e.parent.Some? {
        ChildIdsFile(ChildIndex(init), e.parent.value, e.id);
        assert FiledIds(es) == FiledIds(init) + {e.id};
      } else {
        assert FiledIds(es) == FiledIds(init);
      }
    }
  }

  /** Each entry with a parent is filed under that parent. */
  lemma {:induction false} ChildIndexFiles(es: seq<Entry>, x: Entry)
    requires x in es && x.parent.Some?
    ensures x.id in Kids(ChildIndex(es), x.parent.value)
  {
    var init, e := es[..|es| - 1], es[|es| - 1];
    LastSplit(es);
    if x != e {
      ChildIndexFiles(init, x);
    }
  }

  /** Filing a fresh id keeps every child under a single parent. */
  lemma FileFresh(m: map<Id, seq<Id>>, p: Id, x: Id)
    requires UniqueParents(m) && x !in ChildIds(m)
    ensures UniqueParents(m[p := Kids(m, p) + [x]])
  {
    var m' := m[p := Kids(m, p) + [x]];
    forall a, b, c | a in m' && b in m' && c in m'[a] && c in m'[b] ensures a == b {
      if c != x {
        assert a in m && c in m[a];
        assert b in m && c in m[b];
      } else {
        assert forall q :: q in m && x in m[q] ==> x in ChildIds(m);
      }
    }
  }

  /** Dropping the last entry keeps the ids distinct, and the last id is not among the others. */
  lemma DistinctIdsInit(es: seq<Entry>)
    requires es != [] && Distinct(Ids(es))
    ensures Distinct(Ids(es[..|es| - 1]))
    ensures forall x :: x in es[..|es| - 1] ==> x.id != es[|es| - 1].id
  {
    var init := es[..|es| - 1];
    assert Ids(init) == Ids(es)[..|init|];
    forall x | x in init ensures x.id != es[|es| - 1].id {
      var i :| 0 <= i < |init| && init[i] == x;
      assert Ids(es)[i] == x.id && Ids(es)[|init|] == es[|es| - 1].id;
    }
  }

  /** With distinct ids, no id is filed under two parents. */
  lemma {:induction false} ChildIndexUnique(es: seq<Entry>)
    requires Distinct(Ids(es))
    ensures UniqueParents(ChildIndex(es))
  {
    if es != [] {
      var init, e := es[..|es| - 1], es[|es| - 1];
      DistinctIdsInit(es);
      ChildIndexUnique(init);
      if e.parent.Some? {
        ChildIndexIds(init);
        assert e.id !in FiledIds(init);
        FileFresh(ChildIndex(init), e.parent.value, e.id);
      }
    }
  }

  /** A visible top-level comment contributes its own entry. */
  lemma {:induction false} TopEntryIn(cs: seq<Comment>, c: Comment)
    requires c in cs && !IsImageComment(c.text)
    ensures TopEntry(c) in CommentEntries(cs)
  {
    var init, last := cs[..|cs| - 1], cs[|cs| - 1];
    LastSplit(cs);
    if c != last {
      TopEntryIn(init, c);
    }
  }

  /** Every filed id is the id of some entry, so every child has a node. */
  lemma FiledAreIds(es: seq<Entry>)
    ensures FiledIds(es) <= set x | x in Ids(es)
  {
    forall x | x in es ensures x.id in Ids(es) {
      var i :| 0 <= i < |es| && es[i] == x;
      assert Ids(es)[i] == x.id;
    }
  }

  /** With distinct ids, the two dictionaries the builder fills are an index `attach` can walk. */
  lemma EntriesIndex(es: seq<Entry>, ctx: Context)
    requires Distinct(Ids(es))
    ensures IsIndex(NodeIndex(es, ctx), ChildIndex(es))
  {
    NodeIndexKeys(es, ctx);
    ChildIndexIds(es);
    ChildIndexUnique(es);
    FiledAreIds(es);
  }

  /** A visible top-level comment has a node and, its id being built only once, is filed under no parent. */
  lemma TopIndexed(cs: seq<Comment>, ctx: Context, c: Comment)
    requires Distinct(BuiltIds(cs))
    requires c in cs && !IsImageComment(c.text)
    ensures c.id in NodeIndex(CommentEntries(cs), ctx) && c.id !in ChildIds(ChildIndex(CommentEntries(cs)))
  {
    var es := CommentEntries(cs);
    TopEntryIn(cs, c);
    var i :| 0 <= i < |es| && es[i] == TopEntry(c);
    assert c.id in NodeIndex(es, ctx) by {
      NodeIndexKeys(es, ctx);
      assert Ids(es)[i] == c.id;
    }
    assert c.id !in FiledIds(es) by {
      forall x | x in es && x.parent.Some? ensures x.id != c.id {
        var j :| 0 <= j < |es| && es[j] == x;
        assert j != i && Ids(es)[j] == x.id && Ids(es)[i] == c.id;
      }
    }
    ChildIndexIds(es);
  }

  /**
   * With distinct built ids, the two dictionaries the builder fills are an
   * index `attach` can walk, and every visible top-level comment has a node
   * and is filed under no parent.
   */
  lemma IndexOk(cs: seq<Comment>, ctx: Context)
    requires Distinct(BuiltIds(cs))
    ensures IsIndex(NodeIndex(CommentEntries(cs), ctx), ChildIndex(CommentEntries(cs)))
    ensures forall c :: c in cs && !IsImageComment(c.text) ==>
      c.id in NodeIndex(CommentEntries(cs), ctx) && c.id !in ChildIds(ChildIndex(CommentEntries(cs)))
  {
    EntriesIndex(CommentEntries(cs), ctx);
    forall c | c in cs && !IsImageComment(c.text)
      ensures c.id in NodeIndex(CommentEntries(cs), ctx) && c.id !in ChildIds(ChildIndex(CommentEntries(cs)))
    {
      TopIndexed(cs, ctx, c);
    }
  }

  /** The comment trees `build_comment_hierarchy` returns. */
  function CommentTrees(cs: seq<Comment>, ctx: Context): seq<TreeNode>
    requires Distinct(BuiltIds(cs))
  {
    var es := CommentEntries(cs);
    IndexOk(cs, ctx);
    Roots(NodeIndex(es, ctx), ChildIndex(es), cs)
  }

  /** What one more entry does to the two dictionaries and to the counts. */
  lemma Extend(es: seq<Entry>, e: Entry, ctx: Context, m: Counts)
    ensures NodeIndex(es + [e], ctx) == NodeIndex(es, ctx)[e.id := NodeOf(e, ctx)]
    ensures ChildIndex(es + [e]) == (var c := ChildIndex(es);
                                     if e.parent.Some? then c[e.parent.value := Kids(c, e.parent.value) + [e.id]] else c)
    ensures InitZeros(m, ctx.root, Interactors(es + [e]))
         == (var z := InitZeros(m, ctx.root, Interactors(es)); z[(ctx.root, e.author.id) := Get(z, (ctx.root, e.author.id))])
  {
    EntriesSnoc(es, e);
    assert (Interactors(es) + [e.author.id])[..|es|] == Interactors(es);
  }

  /** One more sub-comment extends what has been filed by its entry, unless it is an image comment. */
  lemma SubEntriesStep(top: seq<Entry>, owner: Comment, j: nat)
    requires j < |owner.subs|
    ensures top + SubEntries(owner, owner.subs[..j + 1])
         == (var cur := top + SubEntries(owner, owner.subs[..j]);
             if IsImageComment(owner.subs[j].text) then cur else cur + [SubEntry(owner.subs[j], owner)])
  {
    var subs := owner.subs;
    PrefixLast(subs, j);
    if IsImageComment(subs[j].text) {
      AppendEmpty(SubEntries(owner, subs[..j]));
    } else {
      assert top + (SubEntries(owner, subs[..j]) + [SubEntry(subs[j], owner)])
          == (top + SubEntries(owner, subs[..j])) + [SubEntry(subs[j], owner)];
    }
  }

  /** All of a visible top-level comment's entries: its own, then those of its sub-comments. */
  lemma EntriesOfAll(es: seq<Entry>, c: Comment)
    requires !IsImageComment(c.text)
    ensures es + EntriesOf(c) == es + [TopEntry(c)] + SubEntries(c, c.subs[..|c.subs|])
  {
    assert c.subs[..|c.subs|] == c.subs;
  }

  /** One more top-level comment adds its entries, none if it is an image comment. */
  lemma CommentEntriesStep(cs: seq<Comment>, i: nat)
    requires i < |cs|
    ensures CommentEntries(cs[..i + 1])
         == if IsImageComment(cs[i].text) then CommentEntries(cs[..i]) else CommentEntries(cs[..i]) + EntriesOf(cs[i])
  {
    PrefixLast(cs, i);
    if IsImageComment(cs[i].text) {
      AppendEmpty(CommentEntries(cs[..i]));
    }
  }

  /**
   * The block the first loop of `build_comment_hierarchy` runs for each
   * visible comment, top-level or one level down: read (and zero-initialise)
   * the interactor's count, store the node under its id and, for a
   * sub-comment, append its id to its parent's children.
   */
  method FileEntry(e: Entry, root: UserId, profiles: ProfileMap, ghost c0: Counts, ghost es: seq<Entry>,
                   nodes: map<Id, TreeNode>, children: map<Id, seq<Id>>, counter: Counter)
    returns (nodes': map<Id, TreeNode>, children': map<Id, seq<Id>>)
    requires nodes == NodeIndex(es, Context(root, profiles, c0)) && children == ChildIndex(es)
    requires counter.counts == InitZeros(c0, root, Interactors(es))
    modifies counter
    ensures nodes' == NodeIndex(es + [e], Context(root, profiles, c0)) && children' == ChildIndex(es + [e])
    ensures counter.counts == InitZeros(c0, root, Interactors(es + [e]))
  {
    var n := counter.ReadOrInit((root, e.author.id));
    InitZerosGet(c0, root, Interactors(es), (root, e.author.id));
    Extend(es, e, Context(root, profiles, c0), c0);
    nodes' := nodes[e.id := TreeNode(e.id, e.nodeUser, e.author.screenName, Interests(profiles, e.author.id),
                                     e.text, CommentNode, 0, [], Some(n))];
    children' := children;
    if e.parent.Some? {
      var parentId := e.parent.value;
      children' := children'[parentId := (if parentId in children' then children'[parentId] else []) + [e.id]];
    }
  }

  /** The first loop of `build_comment_hierarchy` for one visible top-level comment and its sub-comments. */
  method FileComment(c: Comment, root: UserId, profiles: ProfileMap, ghost c0: Counts, ghost es: seq<Entry>,
                     nodes: map<Id, TreeNode>, children: map<Id, seq<Id>>, counter: Counter)
    returns (nodes': map<Id, TreeNode>, children': map<Id, seq<Id>>)
    requires !IsImageComment(c.text)
    requires nodes == NodeIndex(es, Context(root, profiles, c0)) && children == ChildIndex(es)
    requires counter.counts == InitZeros(c0, root, Interactors(es))
    modifies counter
    ensures nodes' == NodeIndex(es + EntriesOf(c), Context(root, profiles, c0)) && children' == ChildIndex(es + EntriesOf(c))
    ensures counter.counts == InitZeros(c0, root, Interactors(es + EntriesOf(c)))
  {
    nodes', children' := FileEntry(TopEntry(c), root, profiles, c0, es, nodes, children, counter);
    ghost var top := es + [TopEntry(c)];
    ghost var cur := top;
    assert cur == top + SubEntries(c, c.subs[..0]) by {
      assert c.subs[..0] == [];
    }
    for j := 0 to |c.subs|
      invariant cur == top + SubEntries(c, c.subs[..j])
      invariant nodes' == NodeIndex(cur, Context(root, profiles, c0)) && children' == ChildIndex(cur)
      invariant counter.counts == InitZeros(c0, root, Interactors(cur))
    {
      var sub := c.subs[j];
      SubEntriesStep(top, c, j);
      if !IsImageComment(sub.text) {
        var e := Entry(sub.id, c.user.id, sub.user, sub.text, Some(if sub.replyTo.Some? then sub.replyTo.value else c.id));
        nodes', children' := FileEntry(e, root, profiles, c0, cur, nodes', children', counter);
        cur := cur + [e];
      }
    }
    EntriesOfAll(es, c);
  }

  /**
   * `build_comment_hierarchy`: the node and child dictionaries filled from
   * the visible top-level comments and one level of their sub-comments, then
   * every visible top-level comment attached at depth 1. The counter only
   * gains zero entries for the interactors it reads.
   */
  method BuildCommentHierarchy(comments: seq<Comment>, profiles: ProfileMap, counter: Counter, root: UserId)
    returns (roots: seq<TreeNode>)
    requires Distinct(BuiltIds(comments))
    modifies counter
    ensures roots == CommentTrees(comments, Context(root, profiles, old(counter.counts)))
    ensures counter.counts == InitZeros(old(counter.counts), root, Interactors(CommentEntries(comments)))
  {
    ghost var c0 := counter.counts;
    ghost var ctx := Context(root, profiles, c0);
    var nodes: map<Id, TreeNode> := map[];
    var children: map<Id, seq<Id>> := map[];
    for i := 0 to |comments|
      invariant nodes == NodeIndex(CommentEntries(comments[..i]), ctx)
      invariant children == ChildIndex(CommentEntries(comments[..i]))
      invariant counter.counts == InitZeros(c0, root, Interactors(CommentEntries(comments[..i])))
    {
      var c := comments[i];
      CommentEntriesStep(comments, i);
      if !IsImageComment(c.text) {
        nodes, children := FileComment(c, root, profiles, c0, CommentEntries(comments[..i]), nodes, children, counter);
      }
    }
    assert comments[..|comments|] == comments;
    IndexOk(comments, ctx);
    roots := AttachRoots(comments, nodes, children);
  }

  /** The second loop of `build_comment_hierarchy`: each visible top-level comment at depth 1 with what `attach` hangs under it. */
  method AttachRoots(comments: seq<Comment>, nodes: map<Id, TreeNode>, children: map<Id, seq<Id>>)
    returns (roots: seq<TreeNode>)
    requires IsIndex(nodes, children)
    requires forall c :: c in comments && !IsImageComment(c.text) ==> c.id in nodes && c.id !in ChildIds(children)
    ensures roots == Roots(nodes, children, comments)
  {
    roots := [];
    for i := 0 to |comments|
      invariant roots == Roots(nodes, children, comments[..i])
    {
      var c := comments[i];
      PrefixLast(comments, i);
      if !IsImageComment(c.text) {
        var replies := Attach(nodes, children, c.id, 1, [c.id]);
        roots := roots + [nodes[c.id].(depth := 1, replies := replies)];
      }
    }
    assert comments[..|comments|] == comments;
  }

  /** A repost's node: depth 1, no replies, its text read as `text_law`, then `text_raw`. */
  function RepostNodeOf(r: Repost, ctx: Context): TreeNode {
    TreeNode(r.id, r.user.id, r.user.screenName, Interests(ctx.profiles, r.user.id), RepostText(r),
             RepostNode, 1, [], Some(Get(ctx.counts, (ctx.root, r.user.id))))
  }

  /** The nodes `process_reposts` returns: one per visible repost, in order. */
  function RepostNodes(rs: seq<Repost>, ctx: Context): seq<TreeNode> {
    if rs == [] then []
    else
      var r := rs[|rs| - 1];
      RepostNodes(rs[..|rs| - 1], ctx) + (if IsImageComment(RepostText(r)) then [] else [RepostNodeOf(r, ctx)])
  }

  lemma RepostStep(rs: seq<Repost>, i: nat, ctx: Context)
    requires i < |rs|
    ensures RepostNodes(rs[..i + 1], ctx)
         == if IsImageComment(RepostText(rs[i])) then RepostNodes(rs[..i], ctx) else RepostNodes(rs[..i], ctx) + [RepostNodeOf(rs[i], ctx)]
  {
    PrefixLast(rs, i);
    AppendEmpty(RepostNodes(rs[..i], ctx));
  }

  /** `process_reposts`: the visible reposts' nodes; the counter only gains zero entries for the interactors it reads. */
  method ProcessReposts(reposts: seq<Repost>, profiles: ProfileMap, counter: Counter, root: UserId)
    returns (out: seq<TreeNode>)
    modifies counter
    ensures out == RepostNodes(reposts, Context(root, profiles, old(counter.counts)))
    ensures counter.counts == InitZeros(old(counter.counts), root, RepostInteractors(reposts))
  {
    ghost var c0 := counter.counts;
    out := [];
    for i := 0 to |reposts|
      invariant out == RepostNodes(reposts[..i], Context(root, profiles, c0))
      invariant counter.counts == InitZeros(c0, root, RepostInteractors(reposts[..i]))
    {
      var r := reposts[i];
      var text := if r.textLaw.Some? then r.textLaw.value else if r.textRaw.Some? then r.textRaw.value else Str("");
      RepostStep(reposts, i, Context(root, profiles, c0));
      RepostInteractorsStep(reposts, i);
      if !IsImageComment(text) {
        ghost var us := RepostInteractors(reposts[..i]);
        var n := counter.ReadOrInit((root, r.user.id));
        InitZerosGet(c0, root, us, (root, r.user.id));
        InitZerosSnoc(c0, root, us, r.user.id);
        out := out + [TreeNode(r.id, r.user.id, r.user.screenName, Interests(profiles, r.user.id), text,
                               RepostNode, 1, [], Some(n))];
      }
    }
    assert reposts[..|reposts|] == reposts;
  }

  /** The tree `process_single_post` returns: the post at depth 0 over its comment trees, then its repost nodes. */
  function PostTree(post: Post, profiles: ProfileMap, counts: Counts): TreeNode
    requires Distinct(BuiltIds(post.comments))
  {
    var ctx := Context(post.author.id, profiles, counts);
    TreeNode(post.id, post.author.id, post.author.screenName, Interests(profiles, post.author.id),
             post.text.GetOr(Str("")), OriginalPost, 0,
             CommentTrees(post.comments, ctx) + RepostNodes(post.reposts, ctx), None)
  }

  /** Two counters that read the same for every key. */
  ghost predicate SameCounts(m1: Counts, m2: Counts) {
    forall k :: Get(m1, k) == Get(m2, k)
  }

  /** Repost nodes read the counts only through lookups with a default. */
  lemma {:induction false} RepostNodesSameCounts(rs: seq<Repost>, root: UserId, profiles: ProfileMap, m1: Counts, m2: Counts)
    requires SameCounts(m1, m2)
    ensures RepostNodes(rs, Context(root, profiles, m1)) == RepostNodes(rs, Context(root, profiles, m2))
  {
    if rs != [] {
      RepostNodesSameCounts(rs[..|rs| - 1], root, profiles, m1, m2);
    }
  }

  /** The node index reads the counter only through `Get`. */
  lemma {:induction false} NodeIndexSameCounts(es: seq<Entry>, root: UserId, profiles: ProfileMap, m1: Counts, m2: Counts)
    requires SameCounts(m1, m2)
    ensures NodeIndex(es, Context(root, profiles, m1)) == NodeIndex(es, Context(root, profiles, m2))
  {
    if es != [] {
      NodeIndexSameCounts(es[..|es| - 1], root, profiles, m1, m2);
    }
  }

  /**
   * The comment trees read the counter only through `Get`, so the zero
   * entries that earlier posts add to a shared counter change no later tree.
   */
  lemma CommentTreesSameCounts(cs: seq<Comment>, root: UserId, profiles: ProfileMap, m1: Counts, m2: Counts)
    requires Distinct(BuiltIds(cs)) && SameCounts(m1, m2)
    ensures CommentTrees(cs, Context(root, profiles, m1)) == CommentTrees(cs, Context(root, profiles, m2))
  {
    NodeIndexSameCounts(CommentEntries(cs), root, profiles, m1, m2);
  }

  /** A whole post tree reads the counter only through `Get`. */
  lemma PostTreeSameCounts(post: Post, profiles: ProfileMap, m1: Counts, m2: Counts)
    requires Distinct(BuiltIds(post.comments)) && SameCounts(m1, m2)
    ensures PostTree(post, profiles, m1) == PostTree(post, profiles, m2)
  {
    CommentTreesSameCounts(post.comments, post.author.id, profiles, m1, m2);
    RepostNodesSameCounts(post.reposts, post.author.id, profiles, m1, m2);
  }

  lemma InitZerosSame(m: Counts, root: UserId, us: seq<UserId>)
    ensures SameCounts(InitZeros(m, root, us), m)
  {
    forall k {
      InitZerosGet(m, root, us, k);
    }
  }

  /**
   * `process_single_post`: the post node over the comment trees and the
   * repost nodes, built against one counter that only gains zero entries.
   */
  method ProcessSinglePost(post: Post, profiles: ProfileMap, counter: Counter) returns (node: TreeNode)
    requires Distinct(BuiltIds(post.comments))
    modifies counter
    ensures node == PostTree(post, profiles, old(counter.counts))
    ensures counter.counts
         == InitZeros(old(counter.counts), post.author.id, Interactors(CommentEntries(post.comments)) + RepostInteractors(post.reposts))
  {
    var root := post.author.id;
    ghost var c0 := counter.counts;
    var replies: seq<TreeNode> := [];
    if post.comments != [] {
      replies := BuildCommentHierarchy(post.comments, profiles, counter, root);
    }
    ghost var c1 := counter.counts;
    assert c1 == InitZeros(c0, root, Interactors(CommentEntries(post.comments)));
    if post.reposts != [] {
      var out := ProcessReposts(post.reposts, profiles, counter, root);
      replies := replies + out;
    }
    InitZerosSame(c0, root, Interactors(CommentEntries(post.comments)));
    RepostNodesSameCounts(post.reposts, root, profiles, c1, c0);
    InitZerosAppend(c0, root, Interactors(CommentEntries(post.comments)), RepostInteractors(post.reposts));
    node := TreeNode(post.id, root, post.author.screenName, Interests(profiles, root),
                     if post.text.Some? then post.text.value else Str(""), OriginalPost, 0, replies, None);
  }
}
