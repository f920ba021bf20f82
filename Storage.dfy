/** The storage both services run against: a users table and a posts table, each keyed by
    its entity id, with the id generators that `save` draws fresh ids from. */
module Storage {
  import opened Entities

  /** Every user row is stored under its own id. */
  predicate UsersKeyedById(users: map<nat, User>)
  {
    forall k | k in users :: users[k].id == k
  }

  /** Every post row is stored under its own id, so an id identifies at most one post. */
  predicate PostsKeyedById(posts: map<nat, Post>)
  {
    forall k | k in posts :: posts[k].id == k
  }

  /** No two users share a username. */
  predicate UniqueUsernames(users: map<nat, User>)
  {
    forall a, b | a in users && b in users && users[a].username == users[b].username :: a == b
  }

  /** Every post refers to an existing user (the posts.user_id foreign key). */
  predicate OwnersExist(posts: map<nat, Post>, users: map<nat, User>)
  {
    forall k | k in posts :: posts[k].ownerId in users
  }

  class Store {
    var users: map<nat, User>
    var posts: map<nat, Post>
    // the next id `save` hands out for each table; every stored id lies below it
    var nextUserId: nat
    var nextPostId: nat

    ghost predicate Valid()
      reads this
    {
      && UsersKeyedById(users)
      && PostsKeyedById(posts)
      && UniqueUsernames(users)
      && OwnersExist(posts, users)
      && (forall k | k in users :: k < nextUserId)
      && (forall k | k in posts :: k < nextPostId)
    }

    /** An empty database; generated ids start at 1. */
    constructor ()
      ensures Valid()
      ensures users == map[] && posts == map[]
    {
      users := map[];
      posts := map[];
      nextUserId := 1;
      nextPostId := 1;
    }
  }
}
