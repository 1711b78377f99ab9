/*
 * What the reconstructed tree is, stated about the whole result of
 * `process_single_post` rather than step by step: the shape of the root,
 * the depths, where every node comes from, and exactly which sub-comments
 * end up attached.
 */
module ThreadProps {
  import opened Records
  import opened Seqs
  import opened TextFilter
  import opened Interactions
  import opened Thread

  function NodeIds(ts: seq<TreeNode>): seq<Id> {
    seq(|ts|, i requires 0 <= i < |ts| => ts[i].id)
  }

  /** Every node of a forest, each one before the nodes that hang under it. */
  function Flatten(ts: seq<TreeNode>): seq<TreeNode> {
    if ts == [] then []
    else
      var t := ts[|ts| - 1];
      Flatten(ts[..|ts| - 1]) + [t] + Flatten(t.replies)
  }

  /** The ids of every node of a forest. */
  ghost function AttachedIds(ts: seq<TreeNode>): set<Id> {
    set n | n in Flatten(ts) :: n.id
  }

  /** The roots of the forest sit at depth `d` and every reply one deeper than the node it hangs under. */
  predicate DepthsFrom(ts: seq<TreeNode>, d: nat) {
    ts == [] ||
    (var t := ts[|ts| - 1];
     DepthsFrom(ts[..|ts| - 1], d) && t.depth == d && DepthsFrom(t.replies, d + 1))
  }

  /** Every node's replies are exactly the children filed under its id, in filing order. */
  predicate Unfolds(ts: seq<TreeNode>, children: map<Id, seq<Id>>) {
    ts == [] ||
    (var t := ts[|ts| - 1];
     Unfolds(ts[..|ts| - 1], children) && NodeIds(t.replies) == Kids(children, t.id) && Unfolds(t.replies, children))
  }

  /** Every node is the indexed node of its id with only its depth and replies filled in. */
  predicate Built(ts: seq<TreeNode>, nodes: map<Id, TreeNode>) {
    ts == [] ||
    (var t := ts[|ts| - 1];
     Built(ts[..|ts| - 1], nodes) && t.id in nodes && t == nodes[t.id].(depth := t.depth, replies := t.replies)
     && Built(t.replies, nodes))
  }

  /** The ids of the visible top-level comments, in order. */
  function VisibleTopIds(cs: seq<Comment>): seq<Id> {
    if cs == [] then []
    else
      var c := cs[|cs| - 1];
      VisibleTopIds(cs[..|cs| - 1]) + (if IsImageComment(c.text) then [] else [c.id])
  }

  /** The ids of the visible reposts, in order. */
  function VisibleRepostIds(rs: seq<Repost>): seq<Id> {
    if rs == [] then []
    else
      var r := rs[|rs| - 1];
      VisibleRepostIds(rs[..|rs| - 1]) + (if IsImageComment(RepostText(r)) then [] else [r.id])
  }

  lemma NodeIdsSnoc(ts: seq<TreeNode>, t: TreeNode)
    ensures NodeIds(ts + [t]) == NodeIds(ts) + [t.id]
  {
  }

  lemma ForestSnoc(a: seq<TreeNode>, t: TreeNode, d: nat, children: map<Id, seq<Id>>, nodes: map<Id, TreeNode>)
    ensures DepthsFrom(a + [t], d) <==> DepthsFrom(a, d) && t.depth == d && DepthsFrom(t.replies, d + 1)
    ensures Unfolds(a + [t], children) <==> Unfolds(a, children) && NodeIds(t.replies) == Kids(children, t.id) && Unfolds(t.replies, children)
    ensures Built(a + [t], nodes) <==>
      Built(a, nodes) && t.id in nodes && t == nodes[t.id].(depth := t.depth, replies := t.replies) && Built(t.replies, nodes)
  {
    assert (a + [t])[..|a|] == a;
  }

  /** Inside a forest: each root sits at the forest's depth, its replies one deeper, and they are its filed children. */
  lemma {:induction false} ForestAt(ts: seq<TreeNode>, d: nat, children: map<Id, seq<Id>>, i: nat)
    requires i < |ts|
    ensures DepthsFrom(ts, d) ==> ts[i].depth == d && DepthsFrom(ts[i].replies, d + 1)
    ensures Unfolds(ts, children) ==> NodeIds(ts[i].replies) == Kids(children, ts[i].id) && Unfolds(ts[i].replies, children)
  {
    if i < |ts| - 1 {
      ForestAt(ts[..|ts| - 1], d, children, i);
    }
  }

  lemma NodeIdsAppend(a: seq<TreeNode>, b: seq<TreeNode>)
    ensures NodeIds(a + b) == NodeIds(a) + NodeIds(b)
  {
  }

  lemma {:induction false} DepthsAppend(a: seq<TreeNode>, b: seq<TreeNode>, d: nat)
    requires DepthsFrom(a, d) && DepthsFrom(b, d)
    ensures DepthsFrom(a + b, d)
  {
    if b == [] {
      assert a + b == a;
    } else {
      assert (a + b)[..|a + b| - 1] == a + b[..|b| - 1];
      DepthsAppend(a, b[..|b| - 1], d);
    }
  }

  /** One step of `attach`'s loop: the last child, appended after the ones before it. */
  lemma AttachListLast(nodes: map<Id, TreeNode>, children: map<Id, seq<Id>>, path: seq<Id>, cids: seq<Id>, depth: nat)
    requires IsIndex(nodes, children) && IsPath(children, path) && cids != []
    requires forall c :: c in cids ==> c in Kids(children, path[|path| - 1])
    ensures var c, init := cids[|cids| - 1], cids[..|cids| - 1];
      && IsPath(children, path + [c]) && Remaining(children, path + [c]) < Remaining(children, path)
      && (forall x :: x in init ==> x in Kids(children, path[|path| - 1]))
      && c in nodes && nodes[c].id == c
      && AttachList(nodes, children, path, cids, depth)
         == AttachList(nodes, children, path, init, depth)
            + [nodes[c].(depth := depth + 1, replies := AttachList(nodes, children, path + [c], Kids(children, c), depth + 1))]
  {
    var c, init := cids[|cids| - 1], cids[..|cids| - 1];
    assert c in cids;
    assert forall x :: x in init ==> x in cids;
    ExtendPath(children, path, c);
    assert c in ChildIds(children) by {
      assert path[|path| - 1] in children && c in children[path[|path| - 1]];
    }
  }

  /** `attach` hangs exactly the children filed under a node, in filing order. */
  lemma {:induction false} AttachListIds(nodes: map<Id, TreeNode>, children: map<Id, seq<Id>>, path: seq<Id>,
                                         cids: seq<Id>, depth: nat)
    requires IsIndex(nodes, children) && IsPath(children, path)
    requires forall c :: c in cids ==> c in Kids(children, path[|path| - 1])
    ensures NodeIds(AttachList(nodes, children, path, cids, depth)) == cids
    decreases |cids|
  {
    if cids != [] {
      var c, init := cids[|cids| - 1], cids[..|cids| - 1];
      AttachListLast(nodes, children, path, cids, depth);
      AttachListIds(nodes, children, path, init, depth);
      var t := nodes[c].(depth := depth + 1, replies := AttachList(nodes, children, path + [c], Kids(children, c), depth + 1));
      NodeIdsSnoc(AttachList(nodes, children, path, init, depth), t);
      LastSplit(cids);
    }
  }

  /**
   * What `attach` builds under a node: the children filed under it, one
   * level deeper, each the indexed node with its own children attached the
   * same way.
   */
  lemma {:induction false} AttachListShape(nodes: map<Id, TreeNode>, children: map<Id, seq<Id>>, path: seq<Id>,
                                           cids: seq<Id>, depth: nat)
    requires IsIndex(nodes, children) && IsPath(children, path)
    requires forall c :: c in cids ==> c in Kids(children, path[|path| - 1])
    ensures var ts := AttachList(nodes, children, path, cids, depth);
      NodeIds(ts) == cids && DepthsFrom(ts, depth + 1) && Unfolds(ts, children) && Built(ts, nodes)
    decreases Remaining(children, path), |cids|
  {
    AttachListIds(nodes, children, path, cids, depth);
    if cids != [] {
      var c, init := cids[|cids| - 1], cids[..|cids| - 1];
      AttachListLast(nodes, children, path, cids, depth);
      AttachListShape(nodes, children, path, init, depth);
      AttachListShape(nodes, children, path + [c], Kids(children, c), depth + 1);
      var t := nodes[c].(depth := depth + 1, replies := AttachList(nodes, children, path + [c], Kids(children, c), depth + 1));
      ForestSnoc(AttachList(nodes, children, path, init, depth), t, depth + 1, children, nodes);
    }
  }

  /** The last top-level comment adds its tree and its id, unless it is an image comment. */
  lemma RootsLast(nodes: map<Id, TreeNode>, children: map<Id, seq<Id>>, cs: seq<Comment>)
    requires cs != [] && IsIndex(nodes, children)
    requires forall c :: c in cs && !IsImageComment(c.text) ==> c.id in nodes && c.id !in ChildIds(children)
    ensures forall c :: c in cs[..|cs| - 1] ==> c in cs
    ensures var c, init := cs[|cs| - 1], cs[..|cs| - 1];
      && Roots(nodes, children, cs)
         == (if IsImageComment(c.text) then Roots(nodes, children, init) else Roots(nodes, children, init) + [TopTree(nodes, children, c)])
      && VisibleTopIds(cs) == (if IsImageComment(c.text) then VisibleTopIds(init) else VisibleTopIds(init) + [c.id])
  {
    var init := cs[..|cs| - 1];
    assert forall c :: c in init ==> c in cs;
    AppendEmpty(Roots(nodes, children, init));
    AppendEmpty(VisibleTopIds(init));
  }

  /** The comment trees are the visible top-level comments, in order, at depth 1, each unfolded from the index. */
  lemma {:induction false} RootsShape(nodes: map<Id, TreeNode>, children: map<Id, seq<Id>>, cs: seq<Comment>)
    requires IsIndex(nodes, children)
    requires forall c :: c in cs && !IsImageComment(c.text) ==> c.id in nodes && c.id !in ChildIds(children)
    ensures var ts := Roots(nodes, children, cs);
      NodeIds(ts) == VisibleTopIds(cs) && DepthsFrom(ts, 1) && Unfolds(ts, children) && Built(ts, nodes)
  {
    if cs != [] {
      var c, init := cs[|cs| - 1], cs[..|cs| - 1];
      RootsLast(nodes, children, cs);
      RootsShape(nodes, children, init);
      if !IsImageComment(c.text) {
        var a := Roots(nodes, children, init);
        AttachListShape(nodes, children, [c.id], Kids(children, c.id), 1);
        var t := TopTree(nodes, children, c);
        NodeIdsSnoc(a, t);
        ForestSnoc(a, t, 1, children, nodes);
      }
    }
  }

  lemma CommentTreesShape(cs: seq<Comment>, ctx: Context)
    requires Distinct(BuiltIds(cs))
    ensures var ts := CommentTrees(cs, ctx);
      && NodeIds(ts) == VisibleTopIds(cs) && DepthsFrom(ts, 1)
      && Unfolds(ts, ChildIndex(CommentEntries(cs))) && Built(ts, NodeIndex(CommentEntries(cs), ctx))
  {
    IndexOk(cs, ctx);
    RootsShape(NodeIndex(CommentEntries(cs), ctx), ChildIndex(CommentEntries(cs)), cs);
  }

  /** The last repost adds its node and its id, unless its text marks an image comment. */
  lemma RepostNodesLast(rs: seq<Repost>, ctx: Context)
    requires rs != []
    ensures var r, init := rs[|rs| - 1], rs[..|rs| - 1];
      && RepostNodes(rs, ctx)
         == (if IsImageComment(RepostText(r)) then RepostNodes(init, ctx) else RepostNodes(init, ctx) + [RepostNodeOf(r, ctx)])
      && VisibleRepostIds(rs) == (if IsImageComment(RepostText(r)) then VisibleRepostIds(init) else VisibleRepostIds(init) + [r.id])
  {
    var init := rs[..|rs| - 1];
    AppendEmpty(RepostNodes(init, ctx));
    AppendEmpty(VisibleRepostIds(init));
  }

  /** The repost nodes are the visible reposts, in order, at depth 1, with no replies. */
  lemma {:induction false} RepostNodesShape(rs: seq<Repost>, ctx: Context)
    ensures var ts := RepostNodes(rs, ctx);
      NodeIds(ts) == VisibleRepostIds(rs) && DepthsFrom(ts, 1) && forall t :: t in ts ==> t.kind == RepostNode && t.replies == []
  {
    if rs != [] {
      var r, init := rs[|rs| - 1], rs[..|rs| - 1];
      RepostNodesLast(rs, ctx);
      RepostNodesShape(init, ctx);
      if !IsImageComment(RepostText(r)) {
        var a, t := RepostNodes(init, ctx), RepostNodeOf(r, ctx);
        NodeIdsSnoc(a, t);
        ForestSnoc(a, t, 1, map[], map[]);
        assert DepthsFrom(t.replies, 2);
      }
    }
  }

  /**
   * The post node sits at depth 0 and carries no interaction count; its
   * replies are the visible top-level comments in input order followed by
   * the visible reposts in input order; every reply is one deeper than the
   * node it hangs under.
   */
  lemma PostTreeShape(post: Post, profiles: ProfileMap, counts: Counts)
    requires Distinct(BuiltIds(post.comments))
    ensures var t := PostTree(post, profiles, counts);
      && t.id == post.id && t.kind == OriginalPost && t.depth == 0 && t.interactionCount == None
      && NodeIds(t.replies) == VisibleTopIds(post.comments) + VisibleRepostIds(post.reposts)
      && DepthsFrom(t.replies, 1)
  {
    var ctx := Context(post.author.id, profiles, counts);
    CommentTreesShape(post.comments, ctx);
    RepostNodesShape(post.reposts, ctx);
    NodeIdsAppend(CommentTrees(post.comments, ctx), RepostNodes(post.reposts, ctx));
    DepthsAppend(CommentTrees(post.comments, ctx), RepostNodes(post.reposts, ctx), 1);
  }

  lemma {:induction false} FlattenContains(ts: seq<TreeNode>, m: TreeNode)
    requires m in ts
    ensures m in Flatten(ts)
  {
    var init, t := ts[..|ts| - 1], ts[|ts| - 1];
    LastSplit(ts);
    if m != t {
      FlattenContains(init, m);
    }
  }

  /** In a built forest every node, at any depth, is the indexed node of its id. */
  lemma {:induction false} BuiltFlatten(ts: seq<TreeNode>, nodes: map<Id, TreeNode>, n: TreeNode)
    requires Built(ts, nodes) && n in Flatten(ts)
    ensures n.id in nodes && n == nodes[n.id].(depth := n.depth, replies := n.replies)
  {
    var init, t := ts[..|ts| - 1], ts[|ts| - 1];
    if n in Flatten(init) {
      BuiltFlatten(init, nodes, n);
    } else if n in Flatten(t.replies) {
      BuiltFlatten(t.replies, nodes, n);
    }
  }

  /**
   * Every comment node of the tree is the node built for one of the post's
   * visible comments: same id, the owning top-level comment's user id, the
   * commenter's name and interests, and the stored count for (root author,
   * commenter), 0 when absent. Attachment sets only its depth and replies.
   */
  lemma CommentNodesFromEntries(cs: seq<Comment>, ctx: Context)
    requires Distinct(BuiltIds(cs))
    ensures forall n :: n in Flatten(CommentTrees(cs, ctx)) ==>
      exists e :: e in CommentEntries(cs) && n == NodeOf(e, ctx).(depth := n.depth, replies := n.replies)
  {
    var es := CommentEntries(cs);
    CommentTreesShape(cs, ctx);
    NodeIndexFrom(es, ctx);
    forall n | n in Flatten(CommentTrees(cs, ctx))
      ensures exists e :: e in es && n == NodeOf(e, ctx).(depth := n.depth, replies := n.replies)
    {
      BuiltFlatten(CommentTrees(cs, ctx), NodeIndex(es, ctx), n);
      var e :| e in es && e.id == n.id && NodeIndex(es, ctx)[n.id] == NodeOf(e, ctx);
    }
  }

  /** Every repost node is the node of one of the post's visible reposts, with the stored count for (root author, reposter). */
  lemma {:induction false} RepostNodesFrom(rs: seq<Repost>, ctx: Context)
    ensures forall n :: n in RepostNodes(rs, ctx) ==>
      exists r :: r in rs && !IsImageComment(RepostText(r)) && n == RepostNodeOf(r, ctx)
  {
    if rs != [] {
      var init, r := rs[..|rs| - 1], rs[|rs| - 1];
      RepostNodesFrom(init, ctx);
      LastSplit(rs);
    }
  }

  /** Inside an unfolded forest, a node's replies are its filed children and are themselves in the forest. */
  lemma {:induction false} UnfoldsFlatten(ts: seq<TreeNode>, children: map<Id, seq<Id>>, n: TreeNode)
    requires Unfolds(ts, children) && n in Flatten(ts)
    ensures NodeIds(n.replies) == Kids(children, n.id)
    ensures forall m :: m in n.replies ==> m in Flatten(ts)
  {
    var init, t := ts[..|ts| - 1], ts[|ts| - 1];
    assert Flatten(ts) == Flatten(init) + [t] + Flatten(t.replies);
    if n in Flatten(init) {
      UnfoldsFlatten(init, children, n);
    } else if n in Flatten(t.replies) {
      UnfoldsFlatten(t.replies, children, n);
    } else {
      forall m | m in n.replies ensures m in Flatten(ts) {
        FlattenContains(n.replies, m);
      }
    }
  }

  /** The ids of a forest are those of its first trees, of its last root and of that root's subtree. */
  lemma ForestLast(ts: seq<TreeNode>)
    requires ts != []
    ensures var init, t := ts[..|ts| - 1], ts[|ts| - 1];
      && AttachedIds(ts) == AttachedIds(init) + {t.id} + AttachedIds(t.replies)
      && NodeIds(ts) == NodeIds(init) + [t.id]
  {
  }

  /**
   * `attach` keeps no visited set, yet with one parent per child a child
   * whose parent is nowhere in the forest is nowhere in it either, unless it
   * is one of the forest's own roots.
   */
  lemma {:induction false} UnreachableAbsent(ts: seq<TreeNode>, children: map<Id, seq<Id>>, p: Id, x: Id)
    requires Unfolds(ts, children) && UniqueParents(children)
    requires x in Kids(children, p) && p !in AttachedIds(ts) && x !in NodeIds(ts)
    ensures x !in AttachedIds(ts)
  {
    if ts != [] {
      var init, t := ts[..|ts| - 1], ts[|ts| - 1];
      ForestLast(ts);
      UnreachableAbsent(init, children, p, x);
      assert x !in Kids(children, t.id) by {
        assert p in children && x in children[p];
        assert t.id in children && x in children[t.id] ==> t.id == p;
      }
      UnreachableAbsent(t.replies, children, p, x);
    }
  }

  /** The ids of the visible top-level comments are the ids of their top entries. */
  lemma {:induction false} VisibleTopIdsAreTops(cs: seq<Comment>, x: Id)
    requires x in VisibleTopIds(cs)
    ensures exists c :: c in cs && !IsImageComment(c.text) && c.id == x
  {
    var init, c := cs[..|cs| - 1], cs[|cs| - 1];
    if x in VisibleTopIds(init) {
      VisibleTopIdsAreTops(init, x);
      var d :| d in init && !IsImageComment(d.text) && d.id == x;
      assert d in cs;
    } else {
      assert c in cs;
    }
  }

  /**
   * The tree holds a sub-comment exactly when it holds the comment the
   * sub-comment's entry is filed under (the index is shared by the whole
   * post, so that comment may belong to another top-level thread); a
   * sub-comment whose target is never reached is built but never attached.
   */
  lemma AttachedIff(cs: seq<Comment>, ctx: Context, e: Entry)
    requires Distinct(BuiltIds(cs))
    requires e in CommentEntries(cs) && e.parent.Some?
    ensures e.id in AttachedIds(CommentTrees(cs, ctx)) <==> e.parent.value in AttachedIds(CommentTrees(cs, ctx))
  {
    var es := CommentEntries(cs);
    var ts := CommentTrees(cs, ctx);
    var children := ChildIndex(es);
    var p := e.parent.value;
    CommentTreesShape(cs, ctx);
    IndexOk(cs, ctx);
    ChildIndexFiles(es, e);
    if p in AttachedIds(ts) {
      var n :| n in Flatten(ts) && n.id == p;
      UnfoldsFlatten(ts, children, n);
      var k :| 0 <= k < |Kids(children, p)| && Kids(children, p)[k] == e.id;
      assert NodeIds(n.replies)[k] == e.id;
      assert n.replies[k] in n.replies;
    } else {
      assert e.id !in NodeIds(ts) by {
        ChildIndexIds(es);
        assert e.id in ChildIds(children);
        forall x | x in NodeIds(ts) ensures x != e.id {
          VisibleTopIdsAreTops(cs, x);
        }
      }
      UnreachableAbsent(ts, children, p, e.id);
    }
  }

  /** `path` is a chain of filings: each id after the first is filed under the one before it. */
  ghost predicate IsChain(children: map<Id, seq<Id>>, path: seq<Id>) {
    |path| >= 1 && forall i :: 0 <= i < |path| - 1 ==> path[i + 1] in Kids(children, path[i])
  }

  /** `x` is reached from one of `tops` by following filings downward. */
  ghost predicate Reaches(children: map<Id, seq<Id>>, tops: seq<Id>, x: Id) {
    exists path :: IsChain(children, path) && path[0] in tops && path[|path| - 1] == x
  }

  /** A chain that starts under `p` still is one with `p` put in front. */
  lemma ChainCons(children: map<Id, seq<Id>>, p: Id, path: seq<Id>)
    requires IsChain(children, path) && path[0] in Kids(children, p)
    ensures IsChain(children, [p] + path) && ([p] + path)[|path|] == path[|path| - 1]
  {
    var path' := [p] + path;
    forall i | 0 <= i < |path'| - 1 ensures path'[i + 1] in Kids(children, path'[i]) {
      if i > 0 {
        assert path'[i + 1] == path[i] && path'[i] == path[i - 1];
      }
    }
  }

  /** Every id in an unfolded forest is reached from one of its roots, along the returned chain. */
  lemma {:induction false} ForestReached(ts: seq<TreeNode>, children: map<Id, seq<Id>>, x: Id) returns (path: seq<Id>)
    requires Unfolds(ts, children) && x in AttachedIds(ts)
    ensures IsChain(children, path) && path[0] in NodeIds(ts) && path[|path| - 1] == x
  {
    assert ts != [];
    var init, t := ts[..|ts| - 1], ts[|ts| - 1];
    ForestLast(ts);
    if x in AttachedIds(init) {
      path := ForestReached(init, children, x);
    } else if x == t.id {
      path := [x];
    } else {
      var below := ForestReached(t.replies, children, x);
      ChainCons(children, t.id, below);
      path := [t.id] + below;
    }
  }

  /** Following filings down from a root of an unfolded forest never leaves it. */
  lemma {:induction false} ChainInForest(ts: seq<TreeNode>, children: map<Id, seq<Id>>, path: seq<Id>)
    requires Unfolds(ts, children) && IsChain(children, path) && path[0] in NodeIds(ts)
    ensures path[|path| - 1] in AttachedIds(ts)
    decreases |path|
  {
    var n := |path| - 1;
    if n == 0 {
      var k :| 0 <= k < |ts| && ts[k].id == path[0];
      FlattenContains(ts, ts[k]);
    } else {
      var init := path[..n];
      assert IsChain(children, init) by {
        forall i | 0 <= i < |init| - 1 ensures init[i + 1] in Kids(children, init[i]) {
          assert init[i + 1] == path[i + 1] && init[i] == path[i];
        }
      }
      ChainInForest(ts, children, init);
      var p := path[n - 1];
      assert init[|init| - 1] == p;
      var m :| m in Flatten(ts) && m.id == p;
      UnfoldsFlatten(ts, children, m);
      assert path[n] in Kids(children, p);
      var k :| 0 <= k < |Kids(children, p)| && Kids(children, p)[k] == path[n];
      assert NodeIds(m.replies)[k] == path[n];
      assert m.replies[k] in m.replies;
    }
  }

  /**
   * A comment appears in the output exactly when a chain of filings leads to
   * it from a visible top-level comment. A sub-comment whose target is
   * unknown, an image comment, or part of a cycle of replies that no
   * top-level comment leads into is built but never attached.
   */
  lemma AttachedIffReached(cs: seq<Comment>, ctx: Context, x: Id)
    requires Distinct(BuiltIds(cs))
    ensures x in AttachedIds(CommentTrees(cs, ctx)) <==> Reaches(ChildIndex(CommentEntries(cs)), VisibleTopIds(cs), x)
  {
    var ts := CommentTrees(cs, ctx);
    var children := ChildIndex(CommentEntries(cs));
    CommentTreesShape(cs, ctx);
    if x in AttachedIds(ts) {
      var path := ForestReached(ts, children, x);
    }
    if Reaches(children, VisibleTopIds(cs), x) {
      var path :| IsChain(children, path) && path[0] in VisibleTopIds(cs) && path[|path| - 1] == x;
      ChainInForest(ts, children, path);
    }
  }

  /** Every attached id is a built id. */
  lemma AttachedAreBuilt(cs: seq<Comment>, ctx: Context)
    requires Distinct(BuiltIds(cs))
    ensures AttachedIds(CommentTrees(cs, ctx)) <= set x | x in BuiltIds(cs)
  {
    var es := CommentEntries(cs);
    CommentTreesShape(cs, ctx);
    NodeIndexKeys(es, ctx);
    forall n | n in Flatten(CommentTrees(cs, ctx)) ensures n.id in NodeIndex(es, ctx) {
      BuiltFlatten(CommentTrees(cs, ctx), NodeIndex(es, ctx), n);
    }
  }

  /**
   * A sub-comment that replies to an id the builder never made a node for
   * (an unknown id, or an image comment's) is built but never attached.
   */
  lemma OrphanNeverAttached(cs: seq<Comment>, ctx: Context, e: Entry)
    requires Distinct(BuiltIds(cs))
    requires e in CommentEntries(cs) && e.parent.Some? && e.parent.value !in BuiltIds(cs)
    ensures e.id !in AttachedIds(CommentTrees(cs, ctx))
  {
    AttachedAreBuilt(cs, ctx);
    AttachedIff(cs, ctx, e);
  }

  /** `e` is the entry of top-level comment `c` itself or of one of its visible sub-comments. */
  predicate EntryOf(e: Entry, c: Comment) {
    e == TopEntry(c) || exists s :: s in c.subs && !IsImageComment(s.text) && e == SubEntry(s, c)
  }

  lemma {:induction false} SubEntriesExactly(owner: Comment, subs: seq<Comment>, e: Entry)
    ensures e in SubEntries(owner, subs) <==> exists s :: s in subs && !IsImageComment(s.text) && e == SubEntry(s, owner)
  {
    if subs != [] {
      var init, last := subs[..|subs| - 1], subs[|subs| - 1];
      SubEntriesExactly(owner, init, e);
      Members(subs);
    }
  }

  /**
   * The builder makes an entry for exactly the visible top-level comments
   * and the visible sub-comments one level under them: nothing under an
   * image comment, and nothing deeper.
   */
  lemma {:induction false} EntriesExactly(cs: seq<Comment>, e: Entry)
    ensures e in CommentEntries(cs) <==> exists c :: c in cs && !IsImageComment(c.text) && EntryOf(e, c)
  {
    if cs != [] {
      var init, c := cs[..|cs| - 1], cs[|cs| - 1];
      EntriesExactly(init, e);
      SubEntriesExactly(c, c.subs, e);
      Members(cs);
    }
  }

  /** Two top-level comments; the second holds a sub-comment that replies to the first. */
  const First := Comment(1, User("10", "a"), NotAString, None, [])
  const Reply := Comment(3, User("30", "c"), NotAString, Some(1), [])
  const Second := Comment(2, User("20", "b"), NotAString, None, [Reply])

  lemma ExampleIndex()
    ensures CommentEntries([First, Second]) == [TopEntry(First), TopEntry(Second), SubEntry(Reply, Second)]
    ensures ChildIndex(CommentEntries([First, Second])) == map[1 := [3]]
    ensures VisibleTopIds([First, Second]) == [1, 2]
  {
    var cs := [First, Second];
    var e1, e2, e3 := TopEntry(First), TopEntry(Second), SubEntry(Reply, Second);
    var es := [e1, e2, e3];
    assert cs[..1] == [First] && [First][..0] == [];
    assert CommentEntries(cs) == es by {
      assert CommentEntries([First]) == [e1];
      assert [Reply][..0] == [];
      assert SubEntries(Second, [Reply]) == [e3];
      assert EntriesOf(Second) == [e2, e3];
    }
    assert ChildIndex(es) == map[1 := [3]] by {
      assert es[..2] == [e1, e2] && [e1, e2][..1] == [e1] && [e1][..0] == [];
      assert e1.parent == None && e2.parent == None && e3.parent == Some(1) && e3.id == 3;
      assert ChildIndex([e1]) == map[];
      assert ChildIndex([e1, e2]) == map[];
      assert Kids(map[], 1) == [];
      assert ChildIndex(es) == ChildIndex([e1, e2])[1 := Kids(ChildIndex([e1, e2]), 1) + [3]];
      assert [] + [3] == [3];
    }
    assert VisibleTopIds([First]) == [1];
  }

  /**
   * The child index is shared by the whole post: a sub-comment listed under
   * the second top-level comment but replying to the first is attached
   * under the first, one level deeper, and the second is left with no
   * replies.
   */
  lemma CrossThreadExample(ctx: Context)
    ensures Distinct(BuiltIds([First, Second]))
    ensures var ts := CommentTrees([First, Second], ctx);
      |ts| == 2 && NodeIds(ts[0].replies) == [3] && ts[1].replies == [] && ts[0].replies[0].depth == 2
  {
    var cs := [First, Second];
    ExampleIndex();
    var children := ChildIndex(CommentEntries(cs));
    assert BuiltIds(cs) == [1, 2, 3];
    CommentTreesShape(cs, ctx);
    var ts := CommentTrees(cs, ctx);
    assert NodeIds(ts) == [1, 2];
    assert NodeIds(ts)[0] == ts[0].id && NodeIds(ts)[1] == ts[1].id;
    ForestAt(ts, 1, children, 0);
    ForestAt(ts, 1, children, 1);
    assert Kids(children, 1) == [3] && Kids(children, 2) == [];
    ForestAt(ts[0].replies, 2, children, 0);
  }
}
