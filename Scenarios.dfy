/** Walkthroughs that chain the service operations on a fresh store and state what a client
    observes, using only the operations' contracts. */
module Scenarios {
  import opened Wrappers
  import opened Entities
  import opened Storage
  import UserService
  import PostService

  /** Registering one username twice: the first call succeeds, the second is refused, and
      exactly one user holds that username afterwards. */
  method RegisterTwice(username: string, first: string, second: string)
    returns (r1: Result<User, ServiceError>, r2: Result<User, ServiceError>, holders: set<nat>)
    ensures r1.Ok? && r1.value.username == username && r1.value.password == first
    ensures r2 == Err(UsernameAlreadyExists)
    ensures r1.Ok? && holders == {r1.value.id}
  {
    var db := new Store();
    r1 := UserService.RegisterUser(db, username, first);
    r2 := UserService.RegisterUser(db, username, second);
    holders := set k | k in db.users && db.users[k].username == username;
    assert r1.value.id in holders;
  }

  /** A login with the right password finds the user; a wrong password and an unknown
      username both give None. */
  method LoginOutcomes(username: string, password: string, wrong: string, stranger: string)
    returns (good: Option<User>, badPassword: Option<User>, unknown: Option<User>)
    requires wrong != password && stranger != username
    ensures good.Some? && good.value.username == username
    ensures badPassword == None && unknown == None
  {
    var db := new Store();
    var reg := UserService.RegisterUser(db, username, password);
    good := UserService.LoginUser(db, username, password);
    badPassword := UserService.LoginUser(db, username, wrong);
    unknown := UserService.LoginUser(db, stranger, password);
  }

  /** Create a post as its author, edit it, let a second registered user try to edit and
      delete it (both refused, post unchanged), delete it as the author, and look it up
      again (gone). */
  method PostLifecycle(now: nat)
    returns (edited: Option<Post>, strangerEdit: Option<Post>, strangerDelete: bool,
             stillThere: Option<Post>, ownerDelete: bool, afterDelete: Option<Post>)
    ensures edited.Some? && edited.value.title == "Hi" && edited.value.content == "There"
    ensures strangerEdit == None && !strangerDelete
    ensures stillThere == edited
    ensures ownerDelete && afterDelete == None
  {
    var db := new Store();
    var alice := UserService.RegisterUser(db, "alice", "pw1");
    var bob := UserService.RegisterUser(db, "bob", "pw2");
    var created := PostService.CreatePost(db, "Hello", "World", alice.value.id, now);
    var id := created.value.id;
    edited := PostService.UpdatePost(db, id, "Hi", "There", alice.value.id);
    strangerEdit := PostService.UpdatePost(db, id, "Nope", "Nope", bob.value.id);
    strangerDelete := PostService.DeletePost(db, id, bob.value.id);
    stillThere := PostService.GetPostById(db, id);
    ownerDelete := PostService.DeletePost(db, id, alice.value.id);
    afterDelete := PostService.GetPostById(db, id);
  }
}
