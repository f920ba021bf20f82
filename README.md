# Blog backend service layer, modelled in Dafny

This project models the service layer of a small blogging backend. Users register and
log in. Users create posts, and only the owner of a post may update or delete it.
There is one state: a `Storage.Store` object with two tables, both keyed by entity id.

- `users`: id to `User(id, username, password)`
- `posts`: id to `Post(id, title, content, ownerId, createdAt)`

Two counters stand for the id generator behind `save`. The store invariant
`Store.Valid()` says four things:
- every row sits under its own id;
- usernames are unique;
- every post's owner exists (the `posts.user_id` foreign key);
- every stored id lies below its counter, so a newly drawn id is always free.

Modules follow the source:
- `UserService` and `PostService` are methods over the shared store. The Java services hold
  no state of their own. Reads change nothing. Writes have `modifies db` and state the
  whole new state: the table row they add, overwrite or remove, and that nothing else
  changed.
- `PostRepository` holds the two declared read queries as pure functions over the tables.
  `FindAllByOrderByCreatedAtDesc` lists every post newest first.
  `FindAllWithUserOrderByCreatedAtDesc` inner-joins that listing with the owning user.
  Lemmas prove what the queries return: each stored post exactly once (with the join,
  each whose owner exists), non-increasing `createdAt`, and every joined entry carrying
  its own owner.
- `Scenarios` chains the operations on a fresh store: duplicate registration, the three
  login outcomes, and a post's create, edit, refused foreign edit and delete, then delete.

Errors that the source throws as `RuntimeException` are `Result.Err` values here:
`UsernameAlreadyExists` and `UserNotFound`. `Optional` becomes `Option`. The creation
time is a parameter `now`, supplied by the caller.

Two timestamps are absent from the model:
- The services never refresh `updatedAt`: `updatePost` sets only the title and content
  (`PostService.java:42-44`). The model has no `updatedAt`.
- The services build a `User` from username and password only (`UserService.java:22`) and
  never set its `createdAt`. The model has no user `createdAt`.

## Model

| member | source | states |
|---|---|---|
| `UserService.RegisterUser` | TestAppProject/backend/src/main/java/com/testapp/backend/service/UserService.java:17-24 | fails with UsernameAlreadyExists exactly when the username is taken, and then the users table is unchanged; otherwise adds exactly one user with that username and password under a fresh id and returns it; posts untouched; usernames stay unique (Valid) |
| `UserService.LoginUser` | TestAppProject/backend/src/main/java/com/testapp/backend/service/UserService.java:26-29 | returns a user exactly when a stored user has that username and exactly that password, and the returned user is that stored user; unknown username and wrong password both give None; reads only |
| `UserService.GetUserById` | TestAppProject/backend/src/main/java/com/testapp/backend/service/UserService.java:31-33 | returns the user stored under the id exactly when the id is present, and that user carries the id; reads only |
| `UserService.GetUserByUsername` | TestAppProject/backend/src/main/java/com/testapp/backend/service/UserService.java:35-37 | returns a user exactly when some user has the username, and the result is that stored user with that username; reads only |
| `PostService.GetAllPosts` | TestAppProject2/backend/src/main/java/com/testapp/backend/service/PostService.java:22-24 | returns the joined repository listing; it holds every stored post exactly once, each a stored row with its resolved owner, with non-increasing createdAt; reads only |
| `PostService.GetPostById` | TestAppProject2/backend/src/main/java/com/testapp/backend/service/PostService.java:26-28 | returns the post stored under the id exactly when the id is present; reads only |
| `PostService.CreatePost` | TestAppProject2/backend/src/main/java/com/testapp/backend/service/PostService.java:30-36 | fails with UserNotFound exactly when no user has userId, adding no post; otherwise adds one post with the given title, content, owner userId and time under a fresh id and returns it; all other posts and the users table unchanged |
| `PostService.UpdatePost` | TestAppProject2/backend/src/main/java/com/testapp/backend/service/PostService.java:38-46 | returns a post exactly when the post exists and is owned by the caller; then only its title and content change (id, owner, createdAt kept) and every other post is untouched; otherwise None and the posts table unchanged |
| `PostService.DeletePost` | TestAppProject2/backend/src/main/java/com/testapp/backend/service/PostService.java:48-56 | answers true exactly when the post exists and is owned by the caller, and then only that post is removed; false leaves the table unchanged |
| `PostRepository.FindAllByOrderByCreatedAtDesc` | TestAppProject2/backend/src/main/java/com/testapp/backend/repository/PostRepository.java:12 | the listing has one entry per stored post |
| `PostRepository.LemmaListingRowsAreStored` | TestAppProject2/backend/src/main/java/com/testapp/backend/repository/PostRepository.java:12 | every listed post is a stored row, under its own id |
| `PostRepository.LemmaListingCoversStore` | TestAppProject2/backend/src/main/java/com/testapp/backend/repository/PostRepository.java:12 | every stored id is listed |
| `PostRepository.LemmaListingOrdered` | TestAppProject2/backend/src/main/java/com/testapp/backend/repository/PostRepository.java:12 | each listed post precedes every later one: later createdAt first, equal times by ascending id |
| `PostRepository.LemmaStrictlyOrderedDescending` | TestAppProject2/backend/src/main/java/com/testapp/backend/repository/PostRepository.java:11-12 | stored rows in that order have non-increasing createdAt, and no id appears twice (an id identifies one post) |
| `PostRepository.LemmaFindAllByOrderByCreatedAtDesc` | TestAppProject2/backend/src/main/java/com/testapp/backend/repository/PostRepository.java:11-12 | the listing is a permutation of the stored posts (each stored, each present, no id twice) with non-increasing createdAt |
| `PostRepository.JoinUsers` | TestAppProject2/backend/src/main/java/com/testapp/backend/repository/PostRepository.java:14 | every joined entry's post comes from the input rows and carries the user its ownerId names |
| `PostRepository.LemmaJoinCovers` | TestAppProject2/backend/src/main/java/com/testapp/backend/repository/PostRepository.java:14 | the inner join keeps every row whose owner exists |
| `PostRepository.LemmaJoinOrdered` | TestAppProject2/backend/src/main/java/com/testapp/backend/repository/PostRepository.java:14 | the join keeps the order of its input |
| `PostRepository.LemmaJoinKeepsAll` | TestAppProject2/backend/src/main/java/com/testapp/backend/repository/PostRepository.java:14 | with every owner present the join drops nothing and keeps the rows as they are |
| `PostRepository.FindAllWithUserOrderByCreatedAtDesc` | TestAppProject2/backend/src/main/java/com/testapp/backend/repository/PostRepository.java:14-15 | every entry carries its resolved owning user (JOIN FETCH p.user) |
| `PostRepository.LemmaJoinedRowsAreStored` | TestAppProject2/backend/src/main/java/com/testapp/backend/repository/PostRepository.java:14 | every entry of the joined listing is a stored post |
| `PostRepository.LemmaJoinedCoversOwnedPosts` | TestAppProject2/backend/src/main/java/com/testapp/backend/repository/PostRepository.java:14 | no WHERE clause: every stored post whose owner exists is in the joined listing |
| `PostRepository.LemmaJoinedOrdered` | TestAppProject2/backend/src/main/java/com/testapp/backend/repository/PostRepository.java:14-15 | the joined listing has non-increasing createdAt and no post twice |
| `PostRepository.LemmaJoinedKeepsAll` | TestAppProject2/backend/src/main/java/com/testapp/backend/repository/PostRepository.java:14 | when every post's owner exists, the joined listing's posts are exactly those of findAllByOrderByCreatedAtDesc |
| `Scenarios.RegisterTwice` | TestAppProject/backend/src/main/java/com/testapp/backend/service/UserService.java:17-24 | on a fresh store the first registration of a username succeeds, the second is refused, and exactly one user then holds the username |
| `Scenarios.LoginOutcomes` | TestAppProject/backend/src/main/java/com/testapp/backend/service/UserService.java:26-29 | the right password finds the user; a wrong password and an unknown username both give None |
| `Scenarios.PostLifecycle` | TestAppProject2/backend/src/main/java/com/testapp/backend/service/PostService.java:38-56 | the owner's edit succeeds; a second registered user's edit and delete are refused and a lookup then returns the post as edited; the owner's delete succeeds and a later lookup is empty |

## Left out

- Both HTTP controllers: routing, JSON response maps, and the mapping of results to 200, 400 and 404 are API plumbing.
- Spring wiring (`@Autowired`, `@Service`) and the `@Valid` request checks: these belong to the framework, not to the services.
- JPA persistence, transactions, the database and its failures: the tables are in-memory maps, and storage errors are not modelled.
- Id generation inside `save`: a per-table counter hands out fresh ids (any unused key would do). Id values are unbounded naturals, so `Long` overflow and null ids are not modelled.
- The clock behind `createdAt`: it is the caller-supplied `now`.
- `updatedAt` and the user's `createdAt`: the services never set either.
- Password hashing: passwords are compared as plain strings, as the code does.
- Concurrent requests: each operation is one atomic step on the store.
- The exception message texts ("Username already exists", "User not found"): they become the two `ServiceError` values.
- The `users` repository (`existsByUsername`, `findByUsername`, `findById`, `save`) is not part of this model. Its lookups are written directly over the users table. A username lookup in the model cannot meet two matches, because usernames stay unique.
- Username matching: the source matches usernames in the database, through `existsByUsername` and `findByUsername` (`UserService.java:18, 27, 36`). Whether that ignores case depends on the database collation. `UserService.RegisterUser`, `UserService.GetUserByUsername` and `UniqueUsernames` use exact string equality. Only the password check (`UserService.java:28`) is Java `String.equals` in the source itself.
- Negative ids: the source's `Long` id parameters accept negative values, and the source answers them as absent, not-owner or `UserNotFound`. In the model, ids and caller ids are `nat`, so these calls cannot be made. No stored id is negative, so such calls would only take the not-found paths the model already has.
- PostRepository.FindAllByOrderByCreatedAtDesc: the query leaves the order of equal `createdAt` values open. The model fixes ascending id for ties, which is the order of insertion under the counter.
- User deletion: the services never delete a user, so the foreign key invariant is never broken.
