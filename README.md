# A verified model of a Rocket/MongoDB blog

The blog is a small Rust web application (Rocket, with MongoDB for storage).
Visitors read posts. Registered users log in and write posts. The login
state is a private `user_id` cookie that holds the username. This project
models the parts of the blog that have rules, in Dafny, and proves what
those rules guarantee:

- **The home page listing** (`index`, `user_index`). The posts come from
  `find_all`, which sorts by title. The handler turns each document into a
  `PostWithId`, sorts the vector in place by the raw `date` string (latest
  first, with `sort_by`, which is stable), and then cuts each date to its
  first ten characters.
- **The single-post views.** The anonymous view shows a cut date; the
  logged-in view shows the post as stored.
- **Post creation, registration, login and logout.** This covers which form
  fields become which post fields, and which cookie is set or removed.
- **The data layer** (`src/model.rs`): the session guard, password hashing,
  inserting into and reading from the `blogposts` and `users` collections,
  and deleting.

Files and modules:

| file | module | what it holds |
|---|---|---|
| `wrappers.dfy` | `Wrappers` | `Option` and `Result` |
| `lex.dfy` | `Lex` | Rust's string order, and `substring` |
| `object_ids.dfy` | `ObjectIds` | MongoDB `ObjectId`, with `to_hex` and `with_string` |
| `stable_sort.dfy` | `StableSort` | a stable sort by a string key: a reference definition on sequences, and the in-place array sort proved equal to it |
| `model.dfy` | `Model` | `src/model.rs`: records, guard, hashing, the `Store` class, lookups |
| `handlers.dfy` | `Handlers` | `src/main.rs`: the handlers and the properties of the listing |

Modelling choices:

- **The database.** The database is an in-memory `Store` object holding
  two sequences, `posts` and `users`. Methods change it; the lookups are
  functions over its contents. The driver generates a document's `_id`;
  here it is a parameter of the insert. MongoDB keeps `_id` unique, so an
  insert with an `_id` that is already used returns `DuplicateKey`.
  `Store.Valid()` states that uniqueness, and every method keeps it.
- **`find_one`.** It returns the first match in sequence order, which is
  insertion order. MongoDB does not fix the order of documents that tie
  under a sort. The model sorts stably, so `find_all` keeps insertion order
  among equal titles.
- **String order.** Strings compare lexicographically by character
  (`Lex.LessEq`). That is the order Rust's `String` comparison and MongoDB's
  binary collation both use.
- **argon2.** Hashing is a `Hasher` value with two functions, `hash` and
  `verify`, passed as a parameter. The property the blog relies on ("a hash
  verifies its own password") is the predicate `Sound(h)`. The lemmas that
  need it take it as a precondition.
- **Panics.** The handlers return `Err(Failure)` where the source would
  panic in `unwrap()`. That happens for:
  - an id that is not an `ObjectId`;
  - an id with no post, in the single-post views;
  - a form with fewer than two fields, in `new_post`;
  - a refused insert.
- **Cookies.** The cookie jar is a `CookieJar` object whose map holds the
  private cookies after Rocket has decrypted them.
- **Input and output.** The form body, the clock's timestamp (`now`) and
  the generated `_id` are method parameters.

In these places the code does something a reader may not expect, and the
model follows the code:

- `find_by_username` returns the hex `_id` of the user, not the user record.
- `single_post` panics when the post does not exist; it does not return an
  empty result.
- `single_post_loggedin` renders the `contact` template. Its `user_id` entry
  is an empty `Post`, not the username. It is also missing from the
  `routes!` list (src/main.rs:222), so Rocket serves `single_post` to
  every visitor. The model keeps both handlers.
- A failed login returns an error flash: "Invalid username/password.",
  redirecting to `/login`.
- The date cut keeps characters, not bytes (the `substring` crate counts
  characters).

## Model

| member | source | states |
|---|---|---|
| `Lex.LessEq` | src/main.rs:44 | defines the order `b.date.cmp(&a.date)` compares by: the first character decides, and a prefix comes first |
| `Lex.LessEqFirstDifference` | src/main.rs:44 | that recursive order holds exactly when the first string is a prefix of the second or is smaller at the first position where they differ |
| `Lex.LessEqTotal` | src/main.rs:44 | any two dates are comparable under the string order `sort_by` uses |
| `Lex.LessEqTransitive` | src/main.rs:44 | that order is transitive |
| `Lex.LessEqAntisymmetric` | src/main.rs:44 | two strings ordered both ways are equal |
| `Lex.LessEqReflexive` | src/main.rs:44 | every string is ordered with itself, so equal dates never swap |
| `Lex.Substring` | src/main.rs:53 | `substring(start, end)` yields the characters from `start` up to `end`, clipped to the string; empty for an empty or out-of-range start |
| `Lex.SubstringMonotone` | src/main.rs:53 | cutting two ordered dates to the same width keeps them ordered |
| `ObjectIds.ToHex` | src/main.rs:36 | `to_hex` yields two hex digits per byte, 24 for an id |
| `ObjectIds.Parse` | src/model.rs:164 | defines `ObjectId::with_string`: it succeeds only on a 24-character string, and the id is the 12 bytes the string hex-decodes to |
| `ObjectIds.Decode` | src/model.rs:164 | defines the `hex::decode` inside `with_string`: pairs of hex digits of either case become bytes; an odd length or a non-hex character is an error |
| `ObjectIds.DecodeToHex` | src/main.rs:36 | decoding the hex form of bytes gives the bytes back |
| `ObjectIds.ParseToHex` | src/model.rs:164 | `ObjectId::with_string` on the listing's hex id yields that same id |
| `ObjectIds.DecodeAccepts` | src/model.rs:164 | `hex::decode` succeeds exactly on even-length strings of hex digits, halving the length |
| `ObjectIds.ParseAccepts` | src/model.rs:164 | `with_string` accepts exactly the strings of 24 hex digits of either case; all others are errors |
| `StableSort.Insert` | src/main.rs:44 | inserting keeps every element and adds exactly one |
| `StableSort.Sort` | src/main.rs:44 | the reference sort returns a permutation of its input |
| `StableSort.SortSorted` | src/main.rs:44 | the reference sort is ordered by the key, in the requested direction |
| `StableSort.SortStable` | src/main.rs:44 | the reference sort is stable: for every key, the elements with that key keep their relative order |
| `StableSort.Unique` | src/main.rs:44 | an ordered and stable rearrangement is unique, so any stable sort computes `Sort` |
| `StableSort.SortInPlace` | src/main.rs:44 | sorting the vector in place leaves exactly `Sort` of its old contents |
| `StableSort.TiesKeepOrder` | src/main.rs:44 | if the input is ordered by a second key, elements with equal keys stay in that second key's order after any stable rearrangement |
| `StableSort.WithKeySorted` | src/model.rs:136 | the posts with one date, taken from a title-sorted list, are still title-sorted |
| `Model.FromRequest` | src/model.rs:21-27 | the guard yields `LoggedInUser(v)` exactly when the `user_id` cookie holds `v`, and forwards exactly when there is no cookie |
| `Model.EncryptUser` | src/model.rs:60-67 | keeps the username, stores `hash(password, SALT)` in place of the password (there is no plaintext field), and with a sound hasher the password verifies against it |
| `Model.Compare` | src/model.rs:69-73 | defines `compare` as `verify(stored hash, password)`; with a sound hasher, a password hashed with `SALT` always passes |
| `Model.EncryptedPasswordVerifies` | src/model.rs:60-73 | if the hasher is sound, `compare(encrypt_user(u), u.password)` is true |
| `Model.FindPostIndex` | src/model.rs:167-168 | `find_one` on `_id` finds the first post with that id, or reports that none has it |
| `Model.FindUserIndex` | src/model.rs:200-201 | `find_one` on `username` finds the first user with that name, or reports that none has it |
| `Model.PostDoc.ToPost` | src/model.rs:172-177 | defines the `Post` `find_by_id` builds: the document's title, body, author and date, without its `_id` |
| `Model.FindById` | src/model.rs:163-181 | a malformed id is an error; otherwise `Some` of the four fields of a post with that `_id`, or `None` exactly when no post has it |
| `Model.FindByUsername` | src/model.rs:183-195 | `None` exactly when no user has the name; otherwise the hex `_id` of the first user with it |
| `Model.SuccessfullyLoggedIn` | src/model.rs:197-213 | false when no user has the name; otherwise `verify(stored hash, password)` for the first user with it |
| `Model.WithoutId` | src/model.rs:151-161 | the posts left after a delete are exactly the posts whose `_id` differs |
| `Model.RemoveFirst` | src/model.rs:158 | `delete_one(doc)` removes one document: a document not stored leaves the collection unchanged, a stored one shortens it by one, and nothing new appears |
| `Model.RemoveFirstExact` | src/model.rs:158 | `delete_one(doc)` takes out exactly one copy of `doc` when there is one, and nothing otherwise |
| `Model.RemoveFirstAt` | src/model.rs:158 | the copy taken out is the first one, and the documents before and after it keep their order |
| `Model.Matches` | src/model.rs:154-156 | defines the delete cursor: the posts whose `_id` is the id, in their stored order; every one it yields has that id |
| `Model.RemoveNextMatch` | src/model.rs:157-159 | each `delete_one` in the loop removes the next post with the id |
| `Model.DropAllMatches` | src/model.rs:151-161 | once the cursor is drained, exactly the posts with other ids are left |
| `Model.WithoutIdUnique` | src/model.rs:151-161 | deleting keeps `_id` unique |
| `Model.Store.InsertPost` | src/model.rs:106-117 | appends exactly one post and changes no other document; an `_id` already in use is refused and nothing changes |
| `Model.Store.InsertUser` | src/model.rs:119-130 | appends exactly one user with no check on the name; an `_id` already in use is refused |
| `Model.SortByTitle` | src/model.rs:136 | defines the order of `sort(doc!{"title": 1})`: the stable sort ascending by title, whose order and permutation `Model.FindAllOrdered` proves |
| `Model.Store.FindAll` | src/model.rs:132-142 | the loop drains the cursor into `v`, which is the posts sorted by title |
| `Model.Store.DeleteAll` | src/model.rs:144-149 | dropping `blogposts` or `users` empties that collection and no other |
| `Model.Store.DeleteById` | src/model.rs:151-161 | removes the posts whose `_id` matches, keeps the others in order, and leaves the users alone |
| `Model.FindAllOrdered` | src/model.rs:132-142 | `find_all` returns every stored post exactly once, ascending by title |
| `Model.RegisteredUserFound` | src/model.rs:183-195 | after registering a new name, `find_by_username` returns the new document's hex id |
| `Model.CreatedPostReadsBack` | src/model.rs:106-117 | `find_by_id` on a new post's hex id returns its title, body, author and date |
| `Model.DeletedPostNotFound` | src/model.rs:151-161 | after `delete_by_id`, `find_by_id` on that id returns `None` |
| `Model.RegisteredUserLogsIn` | src/model.rs:197-213 | if the hasher is sound, a user registered under a new name logs in with their password |
| `Model.FirstRegistrationWins` | src/model.rs:119-130 | registering a taken name adds a record but changes no login outcome |
| `Handlers.DisplayDate` | src/main.rs:53 | the date shown is the first min(10, length) characters of the stored date |
| `Handlers.ToRecord` | src/main.rs:35-41 | defines the `PostWithId` built from a document: its hex `_id` and its four fields unchanged |
| `Handlers.Records` | src/main.rs:34-43 | defines the vector the push loop builds: one `ToRecord` per document, same length, same order |
| `Handlers.Display` | src/main.rs:48-54 | defines the rebuilt record: every field kept except the date, which is cut by `DisplayDate` |
| `Handlers.Displayed` | src/main.rs:46-56 | defines the vector the rebuild loop builds: one `Display` per record, same length, same order |
| `Handlers.SortedByDate` | src/main.rs:44 | defines `posts` after the `sort_by` that compares `b.date` with `a.date`: the records sorted stably by raw date, latest first |
| `Handlers.HomePosts` | src/main.rs:31-57 | defines the `posts` entry of the home page: the records sorted stably by raw date, latest first, each then displayed |
| `Handlers.CollectRecords` | src/main.rs:33-43 | the push loop builds one `PostWithId` per fetched document, in order, with the hex id |
| `Handlers.DisplayAll` | src/main.rs:45-56 | the rebuild loop yields each record, in order, with only its date cut |
| `Handlers.DisplayedAppend` | src/main.rs:46-56 | one more iteration appends one more displayed record |
| `Handlers.ListPosts` | src/main.rs:31-57 | collect, sort in place and cut compute the reference listing `HomePosts` |
| `Handlers.Index` | src/main.rs:29-59 | the home page renders `index` with only a `posts` entry: the listing of `find_all`'s result |
| `Handlers.UserIndex` | src/main.rs:61-93 | the same `posts` entry as `index`, plus `user_id` holding one record whose id is the session username |
| `Handlers.ListingOrdered` | src/main.rs:44-56 | the listing is ordered by raw date, latest first, and so are the cut dates it shows |
| `Handlers.ListingPermutation` | src/main.rs:34-44 | the listing has as many posts as were fetched, and every fetched document appears exactly once |
| `Handlers.RecordsSortedByTitle` | src/main.rs:34-43 | building the records keeps `find_all`'s title order |
| `Handlers.ListingTiesByTitle` | src/main.rs:44 | posts with equal dates appear in ascending title order, as `find_all` returned them |
| `Handlers.ListingDisplay` | src/main.rs:45-56 | each shown post keeps `_id`, title, body and author, and shows the first min(10, length) characters of its date |
| `Handlers.RecordsInsert` | src/main.rs:34-43 | building records commutes with inserting by title |
| `Handlers.RecordsSortByTitle` | src/main.rs:34-43 | building records commutes with `find_all`'s title sort |
| `Handlers.HomeListsStore` | src/main.rs:24-44 | the home page lists every stored post exactly once |
| `Handlers.ListedPostResolves` | src/main.rs:36 | the id shown for each listed post makes `find_by_id` return that stored post, whose date the listing showed cut |
| `Handlers.SinglePost` | src/main.rs:137-145 | the anonymous view renders the found post with its date cut to ten characters; a malformed or unknown id panics |
| `Handlers.SinglePostLoggedIn` | src/main.rs:127-135 | the logged-in view renders the found post unchanged, with an empty `user_id` entry; a malformed or unknown id panics |
| `Handlers.NewPost` | src/main.rs:161-175 | stores exactly one post with title = first form value, body = second, author = session user and date = now, then redirects to `/`, unless the `_id` is already in use, which fails with `InsertFailed(DuplicateKey)` and stores nothing; with fewer than two fields it panics and stores nothing |
| `Handlers.NewUser` | src/main.rs:184-191 | stores exactly one user with the name and `hash(password, SALT)`, whether or not the name is taken, unless the `_id` is already in use, which fails with `InsertFailed(DuplicateKey)` and stores nothing |
| `Handlers.CookieJar.UserId` | src/model.rs:22-23 | `get_private("user_id")` is `Some` exactly when the jar holds a `user_id` cookie, and then it is that cookie's value |
| `Handlers.LoginUser` | src/main.rs:200-212 | sets cookie `user_id` to the username exactly when `successfully_logged_in`, after which the guard yields that user; otherwise an error flash and no cookie change |
| `Handlers.Logout` | src/main.rs:214-218 | removes the `user_id` cookie, after which the guard forwards, and flashes success |

## Left out

- Rocket routing is not modelled: the route table, the rank-based choice between the logged-in and anonymous variants, `Template::render`, `StaticFiles` and the redirect and flash response types. Handlers return the template name with its context, or the redirect target.
- The `about`, `contact`, `create`, `create_not_loggedin`, `register` and `login` GET handlers are left out. They only render a fixed template or redirect.
- The MongoDB connection (`connect_mongo`), BSON conversion, cursors as I/O, and `list_db` / `list_collections` (printing) are left out. The store is in memory, and every store call is assumed to reach the server.
- Only the `my_database` database is modelled. The `dbname` and `coll_name` arguments of the inserts and of `find_all` are fixed to the values the handlers pass.
- Documents are typed records, so the panics on a missing or mistyped field (`doc.get(..).unwrap()`) cannot happen here.
- The internals of argon2 and `Config::default()` are not modelled. `hash_encoded` failing and `verify_encoded` rejecting a malformed hash (both panics) are not modelled either.
- Model.EncryptedPasswordVerifies: shows only that the right password verifies. That a wrong password fails needs collision resistance, which an abstract hasher does not have.
- Private-cookie encryption and signing are not modelled. A tampered cookie is a cookie that is absent.
- Handlers.LoginUser: does not model the cookie attributes `add_private` applies by default (path `/`, HttpOnly, SameSite=Strict, expiry one week later). After that week the browser drops the cookie and the guard forwards, while the model's jar still holds it.
- Model.Store.FindAll: MongoDB does not promise an order for posts with equal titles. The model puts them in insertion order (a stable sort), and `Handlers.Index` and `Handlers.UserIndex` fix the listing exactly only because of that choice.
- `chrono::Local::now()` is the `now` parameter, and the generated `ObjectId` is the `id` parameter.
- The internals of `url::form_urlencoded` are not modelled. The form is its sequence of decoded (name, value) pairs.
- `println!` output is left out.
- Concurrent requests are not modelled. Each handler runs alone against the store.
