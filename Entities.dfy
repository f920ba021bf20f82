/** The two persisted entities of the blog backend and the service-level error kinds. */
module Entities {

  /** A row of the users table. The password is kept and compared as plain text. */
  datatype User = User(id: nat, username: string, password: string)

  /** A row of the posts table. `ownerId` is the id of the owning user (the many-to-one
      `Post.user` reference); `createdAt` is the creation time as supplied by the caller. */
  datatype Post = Post(id: nat, title: string, content: string, ownerId: nat, createdAt: nat)

  /** The two business errors: "Username already exists" from registration and
      "User not found" from post creation. */
  datatype ServiceError = UsernameAlreadyExists | UserNotFound
}
