/** Post listing, lookup, creation, and owner-only update and delete against a Store. */
module PostService {
  import opened Wrappers
  import opened Entities
  import opened Storage
  import opened PostRepository
  import UserService

  /** `getAllPosts`: every stored post exactly once, newest first, each with its owner. */
  method GetAllPosts(db: Store) returns (r: seq<PostWithUser>)
    requires db.Valid()
    ensures r == FindAllWithUserOrderByCreatedAtDesc(db.posts, db.users)
    ensures |r| == |db.posts|
    ensures OwnersResolved(r, db.users)
    ensures RowsAreStored(db.posts, PostsOf(r))
    ensures CoversStore(db.posts, PostsOf(r))
    ensures DistinctIds(PostsOf(r))
    ensures CreatedAtDescending(PostsOf(r))
  {
    r := FindAllWithUserOrderByCreatedAtDesc(db.posts, db.users);
    LemmaFindAllByOrderByCreatedAtDesc(db.posts);
    LemmaJoinedKeepsAll(db.posts, db.users);
  }

  /** `getPostById`: the post stored under `id`, if any. */
  method GetPostById(db: Store, id: nat) returns (r: Option<Post>)
    requires db.Valid()
    ensures r.Some? <==> id in db.posts
    ensures r.Some? ==> r.value == db.posts[id] && r.value.id == id
  {
    if id in db.posts {
      r := Some(db.posts[id]);
    } else {
      r := None;
    }
  }

  /** `createPost`: fails when no user has id `userId`; otherwise saves a new post owned by
      that user under a fresh id, stamped `now`, and returns it. No other post changes. */
  method CreatePost(db: Store, title: string, content: string, userId: nat, now: nat) returns (r: Result<Post, ServiceError>)
    requires db.Valid()
    modifies db
    ensures db.Valid()
    ensures db.users == old(db.users) && db.nextUserId == old(db.nextUserId)
    ensures r.Err? <==> userId !in old(db.users)
    ensures r.Err? ==> r.error == UserNotFound && db.posts == old(db.posts) && db.nextPostId == old(db.nextPostId)
    ensures r.Ok? ==> && r.value.title == title && r.value.content == content
                      && r.value.ownerId == userId && r.value.createdAt == now
                      && r.value.id !in old(db.posts)
                      && db.posts == old(db.posts)[r.value.id := r.value]
                      && db.nextPostId == old(db.nextPostId) + 1
  {
    var user := UserService.GetUserById(db, userId);
    if user.None? {
      return Err(UserNotFound);
    }
    var post := Post(db.nextPostId, title, content, user.value.id, now);
    db.posts := db.posts[post.id := post];
    db.nextPostId := db.nextPostId + 1;
    r := Ok(post);
  }

  /** `updatePost`: when post `id` exists and is owned by `userId`, overwrites its title and
      content, keeping its id, owner and creation time, and returns it; otherwise returns
      None and changes nothing. Absent and not-owned are not told apart. */
  method UpdatePost(db: Store, id: nat, title: string, content: string, userId: nat) returns (r: Option<Post>)
    requires db.Valid()
    modifies db
    ensures db.Valid()
    ensures db.users == old(db.users) && db.nextUserId == old(db.nextUserId) && db.nextPostId == old(db.nextPostId)
    ensures r.Some? <==> id in old(db.posts) && old(db.posts)[id].ownerId == userId
    ensures r.None? ==> db.posts == old(db.posts)
    ensures r.Some? ==> && r.value == old(db.posts)[id].(title := title, content := content)
                        && db.posts == old(db.posts)[id := r.value]
  {
    var found := GetPostById(db, id);
    if found.Some? && found.value.ownerId == userId {
      var post := found.value.(title := title, content := content);
      db.posts := db.posts[id := post];
      r := Some(post);
    } else {
      r := None;
    }
  }

  /** `deletePost`: removes post `id` and answers true exactly when it exists and is owned by
      `userId`; otherwise answers false and changes nothing. */
  method DeletePost(db: Store, id: nat, userId: nat) returns (deleted: bool)
    requires db.Valid()
    modifies db
    ensures db.Valid()
    ensures db.users == old(db.users) && db.nextUserId == old(db.nextUserId) && db.nextPostId == old(db.nextPostId)
    ensures deleted <==> id in old(db.posts) && old(db.posts)[id].ownerId == userId
    ensures db.posts == if deleted then old(db.posts) - {id} else old(db.posts)
  {
    var found := GetPostById(db, id);
    if found.Some? && found.value.ownerId == userId {
      db.posts := db.posts - {id};
      deleted := true;
    } else {
      deleted := false;
    }
  }
}
