/** Registration, login and user lookups against the users table of a Store. */
module UserService {
  import opened Wrappers
  import opened Entities
  import opened Storage

  /** `registerUser`: refuses a username that is already taken; otherwise saves a new user
      under a fresh id and returns the saved user. The posts table is not touched. */
  method RegisterUser(db: Store, username: string, password: string) returns (r: Result<User, ServiceError>)
    requires db.Valid()
    modifies db
    ensures db.Valid()
    ensures db.posts == old(db.posts) && db.nextPostId == old(db.nextPostId)
    ensures r.Err? <==> exists k :: k in old(db.users) && old(db.users)[k].username == username
    ensures r.Err? ==> r.error == UsernameAlreadyExists && db.users == old(db.users) && db.nextUserId == old(db.nextUserId)
    ensures r.Ok? ==> && r.value.username == username && r.value.password == password
                      && r.value.id !in old(db.users)
                      && db.users == old(db.users)[r.value.id := r.value]
                      && db.nextUserId == old(db.nextUserId) + 1
  {
    if exists k :: k in db.users && db.users[k].username == username {
      return Err(UsernameAlreadyExists);
    }
    var user := User(db.nextUserId, username, password);
    db.users := db.users[user.id := user];
    db.nextUserId := db.nextUserId + 1;
    r := Ok(user);
  }

  /** `getUserByUsername`: the user with that username, if there is one. */
  method GetUserByUsername(db: Store, username: string) returns (r: Option<User>)
    requires db.Valid()
    ensures r.Some? <==> exists k :: k in db.users && db.users[k].username == username
    ensures r.Some? ==> r.value.id in db.users && db.users[r.value.id] == r.value && r.value.username == username
  {
    if k :| k in db.users && db.users[k].username == username {
      r := Some(db.users[k]);
    } else {
      r := None;
    }
  }

  /** `loginUser`: the user with that username, kept only when its stored password equals the
      supplied one exactly. An unknown username and a wrong password both give None. */
  method LoginUser(db: Store, username: string, password: string) returns (r: Option<User>)
    requires db.Valid()
    ensures r.Some? <==> exists k :: k in db.users && db.users[k].username == username && db.users[k].password == password
    ensures r.Some? ==> && r.value.id in db.users && db.users[r.value.id] == r.value
                        && r.value.username == username && r.value.password == password
  {
    var found := GetUserByUsername(db, username);
    if found.Some? && found.value.password == password {
      r := found;
    } else {
      r := None;
    }
  }

  /** `getUserById`: the user stored under `id`, if any. */
  method GetUserById(db: Store, id: nat) returns (r: Option<User>)
    requires db.Valid()
    ensures r.Some? <==> id in db.users
    ensures r.Some? ==> r.value == db.users[id] && r.value.id == id
  {
    if id in db.users {
      r := Some(db.users[id]);
    } else {
      r := None;
    }
  }
}
