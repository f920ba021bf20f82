/** The two read queries the post repository declares, as functions over the tables:
    `findAllByOrderByCreatedAtDesc` (every post, newest first) and
    `findAllWithUserOrderByCreatedAtDesc` (the same order, inner-joined with the owning user). */
module PostRepository {
  import opened Entities
  import opened Storage

  /** A post together with its eagerly resolved owning user (JOIN FETCH p.user). */
  datatype PostWithUser = PostWithUser(post: Post, user: User)

  /** `a` is listed before `b`: a later `createdAt` first. The query leaves the order of
      equal timestamps open; this model lists them by ascending id. */
  predicate Precedes(a: Post, b: Post)
  {
    a.createdAt > b.createdAt || (a.createdAt == b.createdAt && a.id < b.id)
  }

  /** The posts are listed with non-increasing `createdAt`. */
  predicate CreatedAtDescending(s: seq<Post>)
  {
    forall i, j | 0 <= i < j < |s| :: s[i].createdAt >= s[j].createdAt
  }

  /** Every entry of `r` is a post of `posts`, stored under its own id. */
  predicate RowsAreStored(posts: map<nat, Post>, r: seq<Post>)
  {
    forall i | 0 <= i < |r| :: r[i].id in posts && posts[r[i].id] == r[i]
  }

  /** Every id of `posts` is the id of an entry of `r`. */
  predicate CoversStore(posts: map<nat, Post>, r: seq<Post>)
  {
    forall k | k in posts :: exists i :: 0 <= i < |r| && r[i].id == k
  }

  /** Each entry of `r` precedes every later one. */
  predicate StrictlyOrdered(r: seq<Post>)
  {
    forall i, j | 0 <= i < j < |r| :: Precedes(r[i], r[j])
  }

  /** No post appears twice in `r`. */
  predicate DistinctIds(r: seq<Post>)
  {
    forall i, j | 0 <= i < j < |r| :: r[i].id != r[j].id
  }

  /** Key `k` holds the post that comes first in the listing of `posts`. */
  predicate IsFirst(posts: map<nat, Post>, k: nat)
  {
    k in posts && forall j | j in posts && j != k :: Precedes(posts[k], posts[j])
  }

  lemma {:induction false} LemmaHasFirst(posts: map<nat, Post>)
    requires PostsKeyedById(posts) && posts != map[]
    ensures exists k :: IsFirst(posts, k)
    decreases |posts|
  {
    var x :| x in posts;
    var rest := posts - {x};
    assert rest.Keys == posts.Keys - {x};
    if forall j | j in posts :: j == x {
      assert IsFirst(posts, x);
    } else {
      var y :| y in posts && y != x;
      assert y in rest;
      LemmaHasFirst(rest);
      var k :| IsFirst(rest, k);
      if Precedes(posts[x], posts[k]) {
        forall j | j in posts && j != x
          ensures Precedes(posts[x], posts[j])
        {
          if j != k { assert j in rest && Precedes(rest[k], rest[j]); }
        }
        assert IsFirst(posts, x);
      } else {
        assert posts[x].id != posts[k].id;
        forall j | j in posts && j != k
          ensures Precedes(posts[k], posts[j])
        {
          if j != x { assert j in rest && Precedes(rest[k], rest[j]); }
        }
        assert IsFirst(posts, k);
      }
    }
  }

  /** The key of the first post in the listing; only one key can be first. */
  function First(posts: map<nat, Post>): (k: nat)
    requires PostsKeyedById(posts) && posts != map[]
    ensures IsFirst(posts, k)
  {
    LemmaHasFirst(posts);
    var k :| IsFirst(posts, k);
    k
  }

  /** `findAllByOrderByCreatedAtDesc`: the stored posts, newest first. What the listing
      holds and in which order is proved by the lemmas below. */
  function FindAllByOrderByCreatedAtDesc(posts: map<nat, Post>): (r: seq<Post>)
    requires PostsKeyedById(posts)
    ensures |r| == |posts|
    decreases |posts|
  {
    if posts == map[] then []
    else
      var k := First(posts);
      var rest := posts - {k};
      assert rest.Keys == posts.Keys - {k};
      [posts[k]] + FindAllByOrderByCreatedAtDesc(rest)
  }

  /** Every entry of the listing is a stored post, stored under its own id. */
  lemma {:induction false} LemmaListingRowsAreStored(posts: map<nat, Post>)
    requires PostsKeyedById(posts)
    ensures RowsAreStored(posts, FindAllByOrderByCreatedAtDesc(posts))
    decreases |posts|
  {
    if posts != map[] {
      var k := First(posts);
      var rest := posts - {k};
      assert rest.Keys == posts.Keys - {k};
      LemmaListingRowsAreStored(rest);
      var tail := FindAllByOrderByCreatedAtDesc(rest);
      var r := FindAllByOrderByCreatedAtDesc(posts);
      assert r == [posts[k]] + tail;
      forall i | 0 <= i < |r|
        ensures r[i].id in posts && posts[r[i].id] == r[i]
      {
        if i > 0 {
          assert r[i] == tail[i - 1];
          assert tail[i - 1].id in rest;
        }
      }
    }
  }

  /** Every stored post appears in the listing. */
  lemma {:induction false} LemmaListingCoversStore(posts: map<nat, Post>)
    requires PostsKeyedById(posts)
    ensures CoversStore(posts, FindAllByOrderByCreatedAtDesc(posts))
    decreases |posts|
  {
    if posts != map[] {
      var k := First(posts);
      var rest := posts - {k};
      assert rest.Keys == posts.Keys - {k};
      LemmaListingCoversStore(rest);
      LemmaCoversCons(posts, k, FindAllByOrderByCreatedAtDesc(rest));
    }
  }

  /** Listing the post under `k` ahead of a listing that covers the other keys covers them all. */
  lemma LemmaCoversCons(posts: map<nat, Post>, k: nat, tail: seq<Post>)
    requires k in posts && posts[k].id == k && CoversStore(posts - {k}, tail)
    ensures CoversStore(posts, [posts[k]] + tail)
  {
    var r := [posts[k]] + tail;
    forall j | j in posts
      ensures exists i :: 0 <= i < |r| && r[i].id == j
    {
      if j == k {
        assert r[0].id == j;
      } else {
        assert j in posts - {k};
        var i :| 0 <= i < |tail| && tail[i].id == j;
        assert r[i + 1].id == j;
      }
    }
  }

  /** The listing is strictly ordered by Precedes: newest first, and no post twice. */
  lemma {:induction false} LemmaListingOrdered(posts: map<nat, Post>)
    requires PostsKeyedById(posts)
    ensures StrictlyOrdered(FindAllByOrderByCreatedAtDesc(posts))
    decreases |posts|
  {
    if posts != map[] {
      var k := First(posts);
      var rest := posts - {k};
      assert rest.Keys == posts.Keys - {k};
      LemmaListingOrdered(rest);
      LemmaListingRowsAreStored(rest);
      var tail := FindAllByOrderByCreatedAtDesc(rest);
      var r := FindAllByOrderByCreatedAtDesc(posts);
      assert r == [posts[k]] + tail;
      forall i, j | 0 <= i < j < |r|
        ensures Precedes(r[i], r[j])
      {
        if i == 0 {
          var t := tail[j - 1];
          assert t.id in rest && rest[t.id] == t;
          assert t.id != k && posts[t.id] == t;
        } else {
          assert r[i] == tail[i - 1] && r[j] == tail[j - 1];
        }
      }
    }
  }

  /** The listing as the source promises it: each stored post exactly once, with
      non-increasing `createdAt`. */
  lemma LemmaFindAllByOrderByCreatedAtDesc(posts: map<nat, Post>)
    requires PostsKeyedById(posts)
    ensures RowsAreStored(posts, FindAllByOrderByCreatedAtDesc(posts))
    ensures CoversStore(posts, FindAllByOrderByCreatedAtDesc(posts))
    ensures DistinctIds(FindAllByOrderByCreatedAtDesc(posts))
    ensures CreatedAtDescending(FindAllByOrderByCreatedAtDesc(posts))
  {
    LemmaListingRowsAreStored(posts);
    LemmaListingCoversStore(posts);
    LemmaListingOrdered(posts);
    LemmaStrictlyOrderedDescending(posts, FindAllByOrderByCreatedAtDesc(posts));
  }

  /** Stored rows in strict precedence order are newest first, and no id comes twice
      (two entries with one id are the same stored post, which cannot precede itself). */
  lemma LemmaStrictlyOrderedDescending(posts: map<nat, Post>, r: seq<Post>)
    requires RowsAreStored(posts, r) && StrictlyOrdered(r)
    ensures DistinctIds(r) && CreatedAtDescending(r)
  {
  }

  /** The posts of a joined listing, without their users. */
  function PostsOf(r: seq<PostWithUser>): seq<Post>
  {
    seq(|r|, i requires 0 <= i < |r| => r[i].post)
  }

  /** Each joined entry carries the user its post refers to. */
  predicate OwnersResolved(r: seq<PostWithUser>, users: map<nat, User>)
  {
    forall i | 0 <= i < |r| :: r[i].post.ownerId in users && r[i].user == users[r[i].post.ownerId]
  }

  /** The inner join of `rows` with the users table, in the order of `rows`: a row whose
      owner is missing is dropped, every other row is paired with its owner. */
  function JoinUsers(rows: seq<Post>, users: map<nat, User>): (r: seq<PostWithUser>)
    ensures OwnersResolved(r, users)
    ensures forall i | 0 <= i < |r| :: r[i].post in rows
  {
    if rows == [] then []
    else
      var tail := JoinUsers(rows[1..], users);
      if rows[0].ownerId in users then [PostWithUser(rows[0], users[rows[0].ownerId])] + tail
      else tail
  }

  /** The join drops no row whose owner exists. */
  lemma {:induction false} LemmaJoinCovers(rows: seq<Post>, users: map<nat, User>, p: Post)
    requires p in rows && p.ownerId in users
    ensures exists i :: 0 <= i < |JoinUsers(rows, users)| && JoinUsers(rows, users)[i].post == p
  {
    var r := JoinUsers(rows, users);
    var tail := JoinUsers(rows[1..], users);
    if rows[0] == p {
      assert r[0].post == p;
    } else {
      assert p in rows[1..];
      LemmaJoinCovers(rows[1..], users, p);
      var i :| 0 <= i < |tail| && tail[i].post == p;
      if rows[0].ownerId in users {
        assert r[i + 1].post == p;
      } else {
        assert r[i].post == p;
      }
    }
  }

  /** In a strictly ordered sequence the head precedes every later entry. */
  lemma LemmaHeadPrecedes(rows: seq<Post>, p: Post)
    requires rows != [] && StrictlyOrdered(rows) && p in rows[1..]
    ensures Precedes(rows[0], p)
  {
  }

  /** The join keeps the order of its input. */
  lemma {:induction false} LemmaJoinOrdered(rows: seq<Post>, users: map<nat, User>)
    requires StrictlyOrdered(rows)
    ensures StrictlyOrdered(PostsOf(JoinUsers(rows, users)))
  {
    if rows != [] {
      var tail := JoinUsers(rows[1..], users);
      LemmaJoinOrdered(rows[1..], users);
      if rows[0].ownerId in users {
        var r := JoinUsers(rows, users);
        assert r == [PostWithUser(rows[0], users[rows[0].ownerId])] + tail;
        var ps, pt := PostsOf(r), PostsOf(tail);
        assert ps == [rows[0]] + pt;
        forall j | 0 < j < |ps|
          ensures Precedes(ps[0], ps[j])
        {
          LemmaHeadPrecedes(rows, tail[j - 1].post);
        }
      }
    }
  }

  /** When every row's owner exists the join drops nothing. */
  lemma {:induction false} LemmaJoinKeepsAll(rows: seq<Post>, users: map<nat, User>)
    requires forall i | 0 <= i < |rows| :: rows[i].ownerId in users
    ensures PostsOf(JoinUsers(rows, users)) == rows
  {
    if rows != [] {
      LemmaJoinKeepsAll(rows[1..], users);
      assert PostsOf(JoinUsers(rows, users)) == [rows[0]] + PostsOf(JoinUsers(rows[1..], users));
    }
  }

  /** `findAllWithUserOrderByCreatedAtDesc`: the listing of `findAllByOrderByCreatedAtDesc`
      inner-joined with each post's owning user (JOIN FETCH p.user). */
  function FindAllWithUserOrderByCreatedAtDesc(posts: map<nat, Post>, users: map<nat, User>): (r: seq<PostWithUser>)
    requires PostsKeyedById(posts)
    ensures OwnersResolved(r, users)
  {
    JoinUsers(FindAllByOrderByCreatedAtDesc(posts), users)
  }

  /** Every entry of the joined listing is a stored post. */
  lemma LemmaJoinedRowsAreStored(posts: map<nat, Post>, users: map<nat, User>)
    requires PostsKeyedById(posts)
    ensures RowsAreStored(posts, PostsOf(FindAllWithUserOrderByCreatedAtDesc(posts, users)))
  {
    var rows := FindAllByOrderByCreatedAtDesc(posts);
    var r := JoinUsers(rows, users);
    LemmaListingRowsAreStored(posts);
    forall i | 0 <= i < |r|
      ensures r[i].post.id in posts && posts[r[i].post.id] == r[i].post
    {
      var m :| 0 <= m < |rows| && rows[m] == r[i].post;
    }
  }

  /** Every post of `posts` whose owner is in `users` is an entry of `r`. */
  predicate CoversOwnedPosts(posts: map<nat, Post>, users: map<nat, User>, r: seq<PostWithUser>)
  {
    forall k | k in posts && posts[k].ownerId in users :: exists i :: 0 <= i < |r| && r[i].post.id == k
  }

  /** Every stored post whose owner exists is in the joined listing. */
  lemma LemmaJoinedCoversOwnedPosts(posts: map<nat, Post>, users: map<nat, User>)
    requires PostsKeyedById(posts)
    ensures CoversOwnedPosts(posts, users, FindAllWithUserOrderByCreatedAtDesc(posts, users))
  {
    var rows := FindAllByOrderByCreatedAtDesc(posts);
    var r := JoinUsers(rows, users);
    assert r == FindAllWithUserOrderByCreatedAtDesc(posts, users);
    LemmaListingCoversStore(posts);
    LemmaListingRowsAreStored(posts);
    forall k | k in posts && posts[k].ownerId in users
      ensures exists i :: 0 <= i < |r| && r[i].post.id == k
    {
      var m :| 0 <= m < |rows| && rows[m].id == k;
      assert rows[m] == posts[k];
      LemmaJoinCovers(rows, users, posts[k]);
    }
  }

  /** The joined listing is newest first and lists no post twice. */
  lemma LemmaJoinedOrdered(posts: map<nat, Post>, users: map<nat, User>)
    requires PostsKeyedById(posts)
    ensures DistinctIds(PostsOf(FindAllWithUserOrderByCreatedAtDesc(posts, users)))
    ensures CreatedAtDescending(PostsOf(FindAllWithUserOrderByCreatedAtDesc(posts, users)))
  {
    var rows := FindAllByOrderByCreatedAtDesc(posts);
    LemmaListingOrdered(posts);
    LemmaJoinOrdered(rows, users);
    LemmaJoinedRowsAreStored(posts, users);
    LemmaStrictlyOrderedDescending(posts, PostsOf(JoinUsers(rows, users)));
  }

  /** With no owner missing the join drops nothing: it lists the posts of the unjoined query. */
  lemma LemmaJoinedKeepsAll(posts: map<nat, Post>, users: map<nat, User>)
    requires PostsKeyedById(posts) && OwnersExist(posts, users)
    ensures PostsOf(FindAllWithUserOrderByCreatedAtDesc(posts, users)) == FindAllByOrderByCreatedAtDesc(posts)
  {
    var rows := FindAllByOrderByCreatedAtDesc(posts);
    LemmaListingRowsAreStored(posts);
    LemmaJoinKeepsAll(rows, users);
  }
}
