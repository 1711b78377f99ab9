/*
 * Interaction counting. A partition's counter maps (root author id,
 * interactor id) to the number of times that interactor commented on, or
 * reposted, a post of that author. The counting pass walks a post's comment
 * thread to any depth, skipping every image comment together with all that
 * is nested under it, and then the post's non-image reposts.
 */
module Interactions {
  import opened Records
  import opened Seqs
  import opened TextFilter

  /** (root author id, interactor id) */
  type Key = (UserId, UserId)

  type Counts = map<Key, nat>

  /** A counter read with the default of a `defaultdict(int)`. */
  function Get(m: Counts, k: Key): nat {
    if k in m then m[k] else 0
  }

  /** `counts[(root, u)] += 1` for each `u` of `us`, in order. */
  function AddAll(m: Counts, root: UserId, us: seq<UserId>): Counts {
    if us == [] then m
    else
      var before := AddAll(m, root, us[..|us| - 1]);
      var k := (root, us[|us| - 1]);
      before[k := Get(before, k) + 1]
  }

  /** `counts[(root, u)] = counts.get((root, u), 0)` for each `u` of `us`, in order. */
  function InitZeros(m: Counts, root: UserId, us: seq<UserId>): Counts {
    if us == [] then m
    else
      var before := InitZeros(m, root, us[..|us| - 1]);
      var k := (root, us[|us| - 1]);
      before[k := Get(before, k)]
  }

  /** Each increment adds one to its own key: a key gains exactly the number of times its interactor occurs. */
  lemma {:induction false} AddAllGet(m: Counts, root: UserId, us: seq<UserId>, k: Key)
    ensures Get(AddAll(m, root, us), k) == Get(m, k) + (if k.0 == root then multiset(us)[k.1] else 0)
  {
    if us != [] {
      var init := us[..|us| - 1];
      assert us == init + [us[|us| - 1]];
      AddAllGet(m, root, init, k);
    }
  }

  /** Counting creates the keys of the pairs it counts, and no other key. */
  lemma {:induction false} AddAllKeys(m: Counts, root: UserId, us: seq<UserId>)
    ensures AddAll(m, root, us).Keys == m.Keys + set u | u in us :: (root, u)
  {
    if us != [] {
      var init := us[..|us| - 1];
      assert us == init + [us[|us| - 1]];
      AddAllKeys(m, root, init);
    }
  }

  /** Counting two runs of interactors one after the other is counting them together. */
  lemma {:induction false} AddAllAppend(m: Counts, root: UserId, a: seq<UserId>, b: seq<UserId>)
    ensures AddAll(m, root, a + b) == AddAll(AddAll(m, root, a), root, b)
  {
    if b == [] {
      assert a + b == a;
    } else {
      assert (a + b)[..|a + b| - 1] == a + b[..|b| - 1];
      AddAllAppend(m, root, a, b[..|b| - 1]);
    }
  }

  /** Reading with default insertion never changes a count. */
  lemma {:induction false} InitZerosGet(m: Counts, root: UserId, us: seq<UserId>, k: Key)
    ensures Get(InitZeros(m, root, us), k) == Get(m, k)
  {
    if us != [] {
      InitZerosGet(m, root, us[..|us| - 1], k);
    }
  }

  /** Reading with default insertion adds exactly the keys it read, each with 0 if it was absent. */
  lemma {:induction false} InitZerosKeys(m: Counts, root: UserId, us: seq<UserId>)
    ensures InitZeros(m, root, us).Keys == m.Keys + set u | u in us :: (root, u)
  {
    if us != [] {
      var init := us[..|us| - 1];
      assert us == init + [us[|us| - 1]];
      InitZerosKeys(m, root, init);
    }
  }

  lemma InitZerosSnoc(m: Counts, root: UserId, us: seq<UserId>, u: UserId)
    ensures InitZeros(m, root, us + [u]) == (var z := InitZeros(m, root, us); z[(root, u) := Get(z, (root, u))])
  {
    assert (us + [u])[..|us|] == us;
  }

  lemma {:induction false} InitZerosAppend(m: Counts, root: UserId, a: seq<UserId>, b: seq<UserId>)
    ensures InitZeros(m, root, a + b) == InitZeros(InitZeros(m, root, a), root, b)
  {
    if b == [] {
      assert a + b == a;
    } else {
      assert (a + b)[..|a + b| - 1] == a + b[..|b| - 1];
      InitZerosAppend(m, root, a, b[..|b| - 1]);
    }
  }

  /** A partition's counter, a dictionary updated in place. */
  class Counter {
    var counts: Counts

    constructor ()
      ensures counts == map[]
    {
      counts := map[];
    }

    /** `counts[k] += 1` on a `defaultdict(int)` */
    method Increment(k: Key)
      modifies this
      ensures counts == old(counts)[k := Get(old(counts), k) + 1]
    {
      counts := counts[k := Get(counts, k) + 1];
    }

    /** `counts[k] = counts.get(k, 0)` followed by `counts.get(k, 0)` */
    method ReadOrInit(k: Key) returns (n: nat)
      modifies this
      ensures n == Get(old(counts), k)
      ensures counts == old(counts)[k := n]
    {
      counts := counts[k := Get(counts, k)];
      n := Get(counts, k);
    }
  }

  /**
   * The interactors the counting pass meets in `cs`, in the order it meets
   * them: each non-image comment's user, then its nested comments', to any
   * depth; an image comment and everything under it are skipped.
   */
  function CommentInteractors(cs: seq<Comment>): seq<UserId> {
    if cs == [] then []
    else
      var c := cs[|cs| - 1];
      CommentInteractors(cs[..|cs| - 1])
        + (if IsImageComment(c.text) then [] else [c.user.id] + CommentInteractors(c.subs))
  }

  /** The users of the non-image reposts, in order. */
  function RepostInteractors(rs: seq<Repost>): seq<UserId> {
    if rs == [] then []
    else
      var r := rs[|rs| - 1];
      RepostInteractors(rs[..|rs| - 1]) + (if IsImageComment(RepostText(r)) then [] else [r.user.id])
  }

  function PostInteractors(p: Post): seq<UserId> {
    CommentInteractors(p.comments) + RepostInteractors(p.reposts)
  }

  lemma {:induction false} CommentInteractorsAppend(a: seq<Comment>, b: seq<Comment>)
    ensures CommentInteractors(a + b) == CommentInteractors(a) + CommentInteractors(b)
  {
    if b == [] {
      assert a + b == a;
    } else {
      assert (a + b)[..|a + b| - 1] == a + b[..|b| - 1];
      CommentInteractorsAppend(a, b[..|b| - 1]);
    }
  }

  /** An image comment, with whatever is nested under it, contributes nothing to the counts. */
  lemma ImageSubtreeIgnored(a: seq<Comment>, c: Comment, b: seq<Comment>)
    requires IsImageComment(c.text)
    ensures CommentInteractors(a + [c] + b) == CommentInteractors(a + b)
  {
    CommentInteractorsAppend(a + [c], b);
    CommentInteractorsAppend(a, [c]);
    CommentInteractorsAppend(a, b);
    assert [c][..0] == [];
  }

  /**
   * Every comment of a thread at every depth, in pre-order: a comment, then
   * everything nested under it, then its later siblings and theirs.
   */
  function AllComments(cs: seq<Comment>): seq<Comment>
    decreases cs
  {
    if cs == [] then [] else [cs[0]] + AllComments(cs[0].subs) + AllComments(cs[1..])
  }

  /** The users of a list of comments, in order. */
  function Users(cs: seq<Comment>): seq<UserId> {
    seq(|cs|, i requires 0 <= i < |cs| => cs[i].user.id)
  }

  lemma UsersAppend(a: seq<Comment>, b: seq<Comment>)
    ensures Users(a + b) == Users(a) + Users(b)
  {
  }

  lemma {:induction false} AllCommentsAppend(a: seq<Comment>, b: seq<Comment>)
    ensures AllComments(a + b) == AllComments(a) + AllComments(b)
  {
    if a == [] {
      assert a + b == b;
    } else {
      assert (a + b)[0] == a[0] && (a + b)[1..] == a[1..] + b;
      AllCommentsAppend(a[1..], b);
    }
  }

  /** One more top-level comment adds its user and then the users below it. */
  lemma UsersSnoc(init: seq<Comment>, c: Comment)
    ensures Users(AllComments(init + [c])) == Users(AllComments(init)) + ([c.user.id] + Users(AllComments(c.subs)))
  {
    AllCommentsAppend(init, [c]);
    assert AllComments([c]) == [c] + AllComments(c.subs) by {
      assert [c][1..] == [];
      AppendEmpty([c] + AllComments(c.subs));
    }
    UsersAppend(AllComments(init), [c] + AllComments(c.subs));
    UsersAppend([c], AllComments(c.subs));
  }

  /** No comment of the thread, at any depth, is an image comment. */
  predicate ImageFree(cs: seq<Comment>) {
    cs == [] ||
    (ImageFree(cs[..|cs| - 1]) && !IsImageComment(cs[|cs| - 1].text) && ImageFree(cs[|cs| - 1].subs))
  }

  /**
   * Counting reaches every depth: in a thread without image comments the
   * counted interactors are the users of all its comments, each comment
   * once, in pre-order.
   */
  lemma {:induction false} ImageFreeAllCounted(cs: seq<Comment>)
    requires ImageFree(cs)
    ensures CommentInteractors(cs) == Users(AllComments(cs))
  {
    if cs != [] {
      var init, c := cs[..|cs| - 1], cs[|cs| - 1];
      ImageFreeAllCounted(init);
      ImageFreeAllCounted(c.subs);
      LastSplit(cs);
      UsersSnoc(init, c);
    }
  }

  /** Counting never counts more than the thread holds: every counted interactor is the user of one of its comments. */
  lemma {:induction false} CountedAreUsers(cs: seq<Comment>)
    ensures multiset(CommentInteractors(cs)) <= multiset(Users(AllComments(cs)))
  {
    if cs != [] {
      var init, c := cs[..|cs| - 1], cs[|cs| - 1];
      CountedAreUsers(init);
      CountedAreUsers(c.subs);
      LastSplit(cs);
      UsersSnoc(init, c);
      SubJoin(CommentInteractors(init), Users(AllComments(init)), CommentInteractors(c.subs), Users(AllComments(c.subs)),
              c.user.id, IsImageComment(c.text), CommentInteractors(cs), Users(AllComments(cs)));
    }
  }

  /** One more comment of a thread adds its own interactors after those before it. */
  lemma CommentInteractorsStep(cs: seq<Comment>, i: nat)
    requires i < |cs|
    ensures CommentInteractors(cs[..i + 1])
         == if IsImageComment(cs[i].text) then CommentInteractors(cs[..i])
            else CommentInteractors(cs[..i]) + ([cs[i].user.id] + CommentInteractors(cs[i].subs))
  {
    PrefixLast(cs, i);
    AppendEmpty(CommentInteractors(cs[..i]));
  }

  /** `count_comments_recursive`, on the counter of the current partition. */
  method CountCommentsRecursive(cs: seq<Comment>, root: UserId, counter: Counter)
    modifies counter
    ensures counter.counts == AddAll(old(counter.counts), root, CommentInteractors(cs))
    decreases cs
  {
    ghost var m0 := counter.counts;
    for i := 0 to |cs|
      invariant counter.counts == AddAll(m0, root, CommentInteractors(cs[..i]))
    {
      var c := cs[i];
      CommentInteractorsStep(cs, i);
      if !IsImageComment(c.text) {
        CountComment(c, root, counter);
        AddAllAppend(m0, root, CommentInteractors(cs[..i]), [c.user.id] + CommentInteractors(c.subs));
      }
    }
    assert cs[..|cs|] == cs;
  }

  /** One non-image comment of the recursion: its user, then everything nested under it. */
  method CountComment(c: Comment, root: UserId, counter: Counter)
    modifies counter
    ensures counter.counts == AddAll(old(counter.counts), root, [c.user.id] + CommentInteractors(c.subs))
    decreases c
  {
    AddAllAppend(counter.counts, root, [c.user.id], CommentInteractors(c.subs));
    counter.Increment((root, c.user.id));
    if c.subs != [] {
      CountCommentsRecursive(c.subs, root, counter);
    }
  }

  /** One more repost adds its user, unless its text marks an image comment. */
  lemma RepostInteractorsStep(rs: seq<Repost>, i: nat)
    requires i < |rs|
    ensures RepostInteractors(rs[..i + 1])
         == if IsImageComment(RepostText(rs[i])) then RepostInteractors(rs[..i]) else RepostInteractors(rs[..i]) + [rs[i].user.id]
  {
    PrefixLast(rs, i);
    AppendEmpty(RepostInteractors(rs[..i]));
  }

  lemma AddAllSnoc(m: Counts, root: UserId, us: seq<UserId>, u: UserId)
    ensures AddAll(m, root, us + [u]) == (var z := AddAll(m, root, us); z[(root, u) := Get(z, (root, u)) + 1])
  {
    assert (us + [u])[..|us|] == us;
  }

  /** `_count_interactions_in_post`: the comment thread, then the reposts. */
  method CountInteractionsInPost(post: Post, root: UserId, counter: Counter)
    modifies counter
    ensures counter.counts == AddAll(old(counter.counts), root, PostInteractors(post))
  {
    if post.comments != [] {
      CountCommentsRecursive(post.comments, root, counter);
    }
    ghost var m1 := counter.counts;
    var reposts := post.reposts;
    for i := 0 to |reposts|
      invariant counter.counts == AddAll(m1, root, RepostInteractors(reposts[..i]))
    {
      var r := reposts[i];
      RepostInteractorsStep(reposts, i);
      if !IsImageComment(RepostText(r)) {
        AddAllSnoc(m1, root, RepostInteractors(reposts[..i]), r.user.id);
        counter.Increment((root, r.user.id));
      }
    }
    assert reposts[..|reposts|] == reposts;
    AddAllAppend(old(counter.counts), root, CommentInteractors(post.comments), RepostInteractors(reposts));
  }

  /** `_count_interactions_in_post` applied to each post in turn, each under its own author. */
  function CountPosts(m: Counts, posts: seq<Post>): Counts {
    if posts == [] then m
    else
      var p := posts[|posts| - 1];
      AddAll(CountPosts(m, posts[..|posts| - 1]), p.author.id, PostInteractors(p))
  }

  /** Counting one more post adds its interactors under its own author. */
  lemma CountPostsSnoc(m: Counts, posts: seq<Post>, p: Post)
    ensures CountPosts(m, posts + [p]) == AddAll(CountPosts(m, posts), p.author.id, PostInteractors(p))
  {
    assert (posts + [p])[..|posts|] == posts;
  }

  /** How many times the pair `k` occurs over all the posts of a partition. */
  function Tally(posts: seq<Post>, k: Key): nat {
    if posts == [] then 0
    else
      Tally(posts[..|posts| - 1], k) + Occurrences(posts[|posts| - 1], k)
  }

  /** How many times the pair `k` occurs in one post. */
  function Occurrences(p: Post, k: Key): nat {
    if p.author.id == k.0 then multiset(PostInteractors(p))[k.1] else 0
  }

  /** Tallies add up over consecutive runs of posts. */
  lemma {:induction false} TallyAppend(a: seq<Post>, b: seq<Post>, k: Key)
    ensures Tally(a + b, k) == Tally(a, k) + Tally(b, k)
  {
    if b == [] {
      assert a + b == a;
    } else {
      var n := |b| - 1;
      assert (a + b)[..|a + b| - 1] == a + b[..n];
      TallyAppend(a, b[..n], k);
    }
  }

  /** Taking one post out of the middle of a run takes its occurrences out of the tally. */
  lemma TallyMoveOut(l: seq<Post>, x: Post, r: seq<Post>, k: Key)
    ensures Tally(l + [x] + r, k) == Tally(l + r, k) + Occurrences(x, k)
  {
    TallyAppend(l, [x] + r, k);
    TallyAppend([x], r, k);
    TallyAppend(l, r, k);
    assert [x][..0] == [];
    assert l + [x] + r == l + ([x] + r);
  }

  /** A tally does not depend on the order of the posts. */
  lemma {:induction false} TallyPermutation(a: seq<Post>, b: seq<Post>, k: Key)
    requires multiset(a) == multiset(b)
    ensures Tally(a, k) == Tally(b, k)
  {
    if a != [] {
      var n := |a| - 1;
      var x := a[n];
      var j := MatchLast(a, b);
      var l, r := b[..j], b[j + 1..];
      TallyPermutation(a[..n], l + r, k);
      TallyMoveOut(l, x, r, k);
      assert b == l + [x] + r;
    }
  }

  /** A partition's count of a pair is the number of times the pair occurs over all of its posts. */
  lemma {:induction false} CountPostsGet(m: Counts, posts: seq<Post>, k: Key)
    ensures Get(CountPosts(m, posts), k) == Get(m, k) + Tally(posts, k)
  {
    if posts != [] {
      var p := posts[|posts| - 1];
      CountPostsGet(m, posts[..|posts| - 1], k);
      AddAllGet(CountPosts(m, posts[..|posts| - 1]), p.author.id, PostInteractors(p), k);
    }
  }
}
