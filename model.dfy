/**
  The data layer of the blog (src/model.rs): the records, the session guard,
  password hashing, and the operations on the two collections of the
  `my_database` database, `blogposts` and `users`, held here in memory.

  MongoDB's `find_one` returns the first matching document in natural
  order. The model takes natural order to be insertion order: inserts
  append, deletes remove documents and keep the order of the rest, and the
  lookups below return the first match in the sequence.
 */
module Model {
  import opened Wrappers
  import opened ObjectIds
  import opened StableSort

  /** The fixed salt every password is hashed with. */
  const SALT: string := "randomsalt"

  // ---------------------------------------------------------------- records

  datatype Post = Post(title: string, body: string, author: string, date: string)

  /** A post as the pages show it; `id` is the hex form of the document's `_id`. */
  datatype PostWithId = PostWithId(id: string, title: string, body: string, author: string, date: string)

  /** A submitted registration or login form; `password` is plaintext. */
  datatype User = User(username: string, password: string)

  /** What is stored for a user: the password only as a hash. */
  datatype EncryptedUser = EncryptedUser(username: string, encryptedPassword: string)

  /** A document of the `blogposts` collection. */
  datatype PostDoc = PostDoc(id: ObjectId, title: string, body: string, author: string, date: string)
  {
    /** The four fields `find_by_id` reads back. */
    function ToPost(): Post {
      Post(title, body, author, date)
    }
  }

  /** A document of the `users` collection. */
  datatype UserDoc = UserDoc(id: ObjectId, username: string, encryptedPassword: string)

  /** Errors the store reports instead of the original's panics. */
  datatype StoreError = DuplicateKey | MalformedObjectId

  // --------------------------------------------------------- session guard

  datatype LoggedInUser = LoggedInUser(name: string)

  /** `request::Outcome<LoggedInUser, !>`: the guard never fails, it only forwards. */
  datatype GuardOutcome = Success(user: LoggedInUser) | Forward

  /**
    `LoggedInUser::from_request`, given the value of the private `user_id`
    cookie that Rocket decrypted (`None` when the cookie is absent or does not
    authenticate). Parsing a `String` from a cookie value always succeeds.
   */
  function FromRequest(userIdCookie: Option<string>): (r: GuardOutcome)
    ensures r.Forward? <==> userIdCookie.None?
    ensures forall v :: userIdCookie == Some(v) <==> r == Success(LoggedInUser(v))
  {
    match userIdCookie
    case Some(v) => Success(LoggedInUser(v))
    case None => Forward
  }

  // --------------------------------------------------------------- hashing

  /**
    argon2 with its default configuration, kept abstract: `hash` is
    `argon2::hash_encoded(password, salt)` and `verify` is
    `argon2::verify_encoded(encoded, password)`.
   */
  datatype Hasher = Hasher(hash: (string, string) -> string, verify: (string, string) -> bool)

  /** The one property of argon2 the blog relies on: a hash verifies the password it was made from. */
  ghost predicate Sound(h: Hasher) {
    forall password, salt :: h.verify(h.hash(password, salt), password)
  }

  /**
    `EncryptedUser::encrypt_user`: keeps the name and replaces the password
    by its salted hash, which the password then verifies against.
   */
  function EncryptUser(h: Hasher, user: User): (r: EncryptedUser)
    ensures r.username == user.username
    ensures r.encryptedPassword == h.hash(user.password, SALT)
    ensures Sound(h) ==> h.verify(r.encryptedPassword, user.password)
  {
    EncryptedUser(user.username, h.hash(user.password, SALT))
  }

  /** `EncryptedUser::compare`: does `password` verify against the stored hash? */
  function Compare(h: Hasher, eu: EncryptedUser, password: string): (r: bool)
    ensures Sound(h) && eu.encryptedPassword == h.hash(password, SALT) ==> r
  {
    h.verify(eu.encryptedPassword, password)
  }

  /** A user's own password verifies against what `encrypt_user` stored. */
  lemma EncryptedPasswordVerifies(h: Hasher, user: User)
    requires Sound(h)
    ensures Compare(h, EncryptUser(h, user), user.password)
  {
  }

  // --------------------------------------------------------------- lookups

  predicate UniqueIds(posts: seq<PostDoc>) {
    forall i, j :: 0 <= i < j < |posts| ==> posts[i].id != posts[j].id
  }

  predicate UniqueUserIds(users: seq<UserDoc>) {
    forall i, j :: 0 <= i < j < |users| ==> users[i].id != users[j].id
  }

  predicate HasPostId(posts: seq<PostDoc>, id: ObjectId) {
    exists i :: 0 <= i < |posts| && posts[i].id == id
  }

  predicate HasUserId(users: seq<UserDoc>, id: ObjectId) {
    exists i :: 0 <= i < |users| && users[i].id == id
  }

  /** Position of the first post with `_id` equal to `id`. */
  function FindPostIndex(posts: seq<PostDoc>, id: ObjectId): (r: Option<nat>)
    ensures r.None? <==> !HasPostId(posts, id)
    ensures r.Some? ==> r.value < |posts| && posts[r.value].id == id
    ensures r.Some? ==> forall j :: 0 <= j < r.value ==> posts[j].id != id
  {
    if posts == [] then None
    else if posts[0].id == id then Some(0)
    else match FindPostIndex(posts[1..], id)
      case None => None
      case Some(k) => Some(k + 1)
  }

  /** `users[j]` is the first user named `username`: the one `find_one` returns. */
  predicate FirstNamed(users: seq<UserDoc>, username: string, j: int) {
    0 <= j < |users| && users[j].username == username
    && forall i :: 0 <= i < j ==> users[i].username != username
  }

  lemma FirstNamedUnique(users: seq<UserDoc>, username: string, j: int, k: int)
    requires FirstNamed(users, username, j) && FirstNamed(users, username, k)
    ensures j == k
  {
  }

  /** Position of the first user named `username`. */
  function FindUserIndex(users: seq<UserDoc>, username: string): (r: Option<nat>)
    ensures r.None? <==> forall j :: 0 <= j < |users| ==> users[j].username != username
    ensures r.Some? ==> r.value < |users| && users[r.value].username == username
    ensures r.Some? ==> forall j :: 0 <= j < r.value ==> users[j].username != username
  {
    if users == [] then None
    else if users[0].username == username then Some(0)
    else match FindUserIndex(users[1..], username)
      case None => None
      case Some(k) => Some(k + 1)
  }

  /**
    `find_by_id`: an id that is not 24 hex digits is an error (a panic in the
    original); otherwise the fields of the first post with that `_id`, if any.
   */
  function FindById(posts: seq<PostDoc>, id: string): (r: Result<Option<Post>, StoreError>)
    ensures r.Err? <==> Parse(id).None?
    ensures r.Err? ==> r.error == MalformedObjectId
    ensures r == Ok(None) <==> Parse(id).Some? && !HasPostId(posts, Parse(id).value)
    ensures r.Ok? && r.value.Some? ==>
      exists j :: 0 <= j < |posts| && posts[j].id == Parse(id).value && r.value.value == posts[j].ToPost()
  {
    match Parse(id)
    case None => Err(MalformedObjectId)
    case Some(oid) =>
      match FindPostIndex(posts, oid)
      case None => Ok(None)
      case Some(k) => Ok(Some(posts[k].ToPost()))
  }

  /** `find_by_username`: the hex `_id` of the first user with that name. */
  function FindByUsername(users: seq<UserDoc>, username: string): (r: Option<string>)
    ensures r.None? <==> forall j :: 0 <= j < |users| ==> users[j].username != username
    ensures r.Some? ==> exists j :: FirstNamed(users, username, j) && r.value == ToHex(users[j].id)
  {
    match FindUserIndex(users, username)
    case None => None
    case Some(k) => Some(ToHex(users[k].id))
  }

  /**
    `successfully_logged_in`: false when nobody has that name; otherwise
    whether the password verifies against the first such user's hash.
   */
  function SuccessfullyLoggedIn(users: seq<UserDoc>, h: Hasher, user: User): (r: bool)
    ensures (forall j :: 0 <= j < |users| ==> users[j].username != user.username) ==> !r
    ensures forall j :: FirstNamed(users, user.username, j) ==> r == h.verify(users[j].encryptedPassword, user.password)
  {
    match FindUserIndex(users, user.username)
    case None => false
    case Some(k) =>
      assert FirstNamed(users, user.username, k);
      assert forall j :: FirstNamed(users, user.username, j) ==> j == k by {
        forall j | FirstNamed(users, user.username, j) ensures j == k {
          FirstNamedUnique(users, user.username, j, k);
        }
      }
      var eu := EncryptedUser(users[k].username, users[k].encryptedPassword);
      Compare(h, eu, user.password)
  }

  // ------------------------------------------------------- deleting by id

  /** The posts whose `_id` is not `id`, in their order. */
  function WithoutId(posts: seq<PostDoc>, id: ObjectId): (r: seq<PostDoc>)
    ensures forall d :: d in r <==> d in posts && d.id != id
  {
    if posts == [] then []
    else (if posts[0].id == id then [] else [posts[0]]) + WithoutId(posts[1..], id)
  }

  /** The posts whose `_id` is `id`, in their order: what the delete cursor yields. */
  function Matches(posts: seq<PostDoc>, id: ObjectId): (r: seq<PostDoc>)
    ensures forall d :: d in r ==> d.id == id
  {
    if posts == [] then []
    else (if posts[0].id == id then [posts[0]] else []) + Matches(posts[1..], id)
  }

  /** `delete_one(doc)`: removes the first document equal to `doc`. */
  function RemoveFirst(posts: seq<PostDoc>, doc: PostDoc): (r: seq<PostDoc>)
    ensures doc !in posts ==> r == posts
    ensures doc in posts ==> |r| == |posts| - 1
    ensures forall d :: d in r ==> d in posts
  {
    if posts == [] then []
    else if posts[0] == doc then posts[1..]
    else [posts[0]] + RemoveFirst(posts[1..], doc)
  }

  /** `delete_one(doc)` takes out exactly one copy of `doc`, if there is one. */
  lemma {:induction false} RemoveFirstExact(posts: seq<PostDoc>, doc: PostDoc)
    ensures multiset(RemoveFirst(posts, doc)) ==
            if doc in posts then multiset(posts) - multiset{doc} else multiset(posts)
  {
    if posts != [] {
      RemoveFirstExact(posts[1..], doc);
      assert posts == [posts[0]] + posts[1..];
    }
  }

  /** The copy `delete_one(doc)` takes out is the first one; the rest keep their order. */
  lemma {:induction false} RemoveFirstAt(posts: seq<PostDoc>, doc: PostDoc, i: nat)
    requires i < |posts| && posts[i] == doc && doc !in posts[..i]
    ensures RemoveFirst(posts, doc) == posts[..i] + posts[i + 1..]
  {
    if i > 0 {
      assert posts[0] in posts[..i];
      assert posts[1..][..i - 1] == posts[1..i];
      RemoveFirstAt(posts[1..], doc, i - 1);
      assert posts[..i] == [posts[0]] + posts[1..][..i - 1];
      assert posts[i + 1..] == posts[1..][i..];
    }
  }

  /** The posts with the first `n` documents of `_id` `id` removed. */
  function DropMatches(posts: seq<PostDoc>, id: ObjectId, n: nat): (r: seq<PostDoc>)
  {
    if n == 0 || posts == [] then posts
    else if posts[0].id == id then DropMatches(posts[1..], id, n - 1)
    else [posts[0]] + DropMatches(posts[1..], id, n)
  }

  /** Deleting the next matching document removes one more match. */
  lemma {:induction false} RemoveNextMatch(posts: seq<PostDoc>, id: ObjectId, n: nat)
    requires n < |Matches(posts, id)|
    ensures RemoveFirst(DropMatches(posts, id, n), Matches(posts, id)[n]) == DropMatches(posts, id, n + 1)
  {
    var m := Matches(posts, id);
    if posts[0].id == id {
      assert m == [posts[0]] + Matches(posts[1..], id);
      if n > 0 {
        assert m[n] == Matches(posts[1..], id)[n - 1];
        RemoveNextMatch(posts[1..], id, n - 1);
      }
    } else {
      assert m == Matches(posts[1..], id);
      RemoveNextMatch(posts[1..], id, n);
      assert m[n] in m;
      var rest := DropMatches(posts[1..], id, n);
      assert ([posts[0]] + rest)[0] == posts[0] && ([posts[0]] + rest)[1..] == rest;
    }
  }

  /** Removing every match leaves exactly the other posts. */
  lemma {:induction false} DropAllMatches(posts: seq<PostDoc>, id: ObjectId)
    ensures DropMatches(posts, id, |Matches(posts, id)|) == WithoutId(posts, id)
  {
    if posts != [] {
      DropAllMatches(posts[1..], id);
    }
  }

  // ----------------------------------------------------------------- store

  function TitleKey(d: PostDoc): string {
    d.title
  }

  /** The order of `find_all`: ascending by title, ties in natural order. */
  function SortByTitle(posts: seq<PostDoc>): seq<PostDoc> {
    Sort(posts, TitleKey, false)
  }

  /** `my_database`, with its `blogposts` and `users` collections. */
  class Store {
    var posts: seq<PostDoc>
    var users: seq<UserDoc>

    /** MongoDB keeps `_id` unique within a collection. */
    ghost predicate Valid()
      reads this
    {
      UniqueIds(posts) && UniqueUserIds(users)
    }

    constructor ()
      ensures Valid() && posts == [] && users == []
    {
      posts := [];
      users := [];
    }

    /**
      `insert_post`: appends one document under the identifier the driver
      generated; an identifier already in use is refused by the server.
     */
    method InsertPost(post: Post, id: ObjectId) returns (r: Result<(), StoreError>)
      requires Valid()
      modifies this
      ensures Valid() && users == old(users)
      ensures r.Ok? <==> !HasPostId(old(posts), id)
      ensures r.Ok? ==> posts == old(posts) + [PostDoc(id, post.title, post.body, post.author, post.date)]
      ensures r.Err? ==> r.error == DuplicateKey && posts == old(posts)
    {
      if HasPostId(posts, id) {
        return Err(DuplicateKey);
      }
      posts := posts + [PostDoc(id, post.title, post.body, post.author, post.date)];
      r := Ok(());
    }

    /** `insert_user`: appends one document; nothing checks that the name is new. */
    method InsertUser(user: EncryptedUser, id: ObjectId) returns (r: Result<(), StoreError>)
      requires Valid()
      modifies this
      ensures Valid() && posts == old(posts)
      ensures r.Ok? <==> !HasUserId(old(users), id)
      ensures r.Ok? ==> users == old(users) + [UserDoc(id, user.username, user.encryptedPassword)]
      ensures r.Err? ==> r.error == DuplicateKey && users == old(users)
    {
      if HasUserId(users, id) {
        return Err(DuplicateKey);
      }
      users := users + [UserDoc(id, user.username, user.encryptedPassword)];
      r := Ok(());
    }

    /** `find_all` on `blogposts`: the server sorts by title; the loop drains the cursor. */
    method FindAll() returns (v: seq<PostDoc>)
      ensures v == SortByTitle(posts)
    {
      var cursor := SortByTitle(posts);
      v := [];
      var i := 0;
      while i < |cursor|
        invariant 0 <= i <= |cursor|
        invariant v == cursor[..i]
      {
        v := v + [cursor[i]];
        i := i + 1;
      }
    }

    /** `delete_all`: drops the named collection; any other name drops nothing here. */
    method DeleteAll(coll: string)
      requires Valid()
      modifies this
      ensures Valid()
      ensures posts == (if coll == "blogposts" then [] else old(posts))
      ensures users == (if coll == "users" then [] else old(users))
    {
      if coll == "blogposts" {
        posts := [];
      } else if coll == "users" {
        users := [];
      }
    }

    /**
      `delete_by_id`: finds the posts with that `_id` and deletes each one
      with `delete_one`.
     */
    method DeleteById(id: ObjectId)
      requires Valid()
      modifies this
      ensures Valid() && users == old(users)
      ensures posts == WithoutId(old(posts), id)
    {
      var cursor := Matches(posts, id);
      ghost var original := posts;
      var i := 0;
      while i < |cursor|
        invariant 0 <= i <= |cursor|
        invariant posts == DropMatches(original, id, i)
        invariant users == old(users)
      {
        RemoveNextMatch(original, id, i);
        posts := RemoveFirst(posts, cursor[i]);
        i := i + 1;
      }
      DropAllMatches(original, id);
      WithoutIdUnique(original, id);
    }
  }

  lemma {:induction false} WithoutIdUnique(posts: seq<PostDoc>, id: ObjectId)
    requires UniqueIds(posts)
    ensures UniqueIds(WithoutId(posts, id))
  {
    if posts != [] {
      WithoutIdUnique(posts[1..], id);
      var rest := WithoutId(posts[1..], id);
      forall d | d in rest ensures d.id != posts[0].id {
        var k :| 0 <= k < |posts[1..]| && posts[1..][k] == d;
        assert posts[k + 1] == d;
      }
    }
  }

  // ---------------------------------------------------- properties of use

  /** `find_all` returns every stored post, once each, ascending by title. */
  lemma FindAllOrdered(posts: seq<PostDoc>)
    ensures Sorted(SortByTitle(posts), TitleKey, false)
    ensures multiset(SortByTitle(posts)) == multiset(posts)
  {
    SortSorted(posts, TitleKey, false);
  }

  /** A user registered under a new name is the one `find_by_username` finds. */
  lemma RegisteredUserFound(users: seq<UserDoc>, name: string, hash: string, id: ObjectId)
    requires forall j :: 0 <= j < |users| ==> users[j].username != name
    ensures FindByUsername(users + [UserDoc(id, name, hash)], name) == Some(ToHex(id))
  {
    var all := users + [UserDoc(id, name, hash)];
    assert forall i :: 0 <= i < |users| ==> all[i] == users[i];
    assert all[|users|].username == name;
    var r := FindUserIndex(all, name);
    assert r.Some?;
    assert r.value == |users|;
  }

  /** A post just inserted is what `find_by_id` returns for its hex id. */
  lemma CreatedPostReadsBack(posts: seq<PostDoc>, post: Post, id: ObjectId)
    requires !HasPostId(posts, id)
    ensures FindById(posts + [PostDoc(id, post.title, post.body, post.author, post.date)], ToHex(id))
         == Ok(Some(post))
  {
    ParseToHex(id);
    var all := posts + [PostDoc(id, post.title, post.body, post.author, post.date)];
    assert all[|posts|].id == id;
  }

  /** After `delete_by_id`, the id finds nothing. */
  lemma DeletedPostNotFound(posts: seq<PostDoc>, id: ObjectId)
    ensures FindById(WithoutId(posts, id), ToHex(id)) == Ok(None)
  {
    ParseToHex(id);
    var rest := WithoutId(posts, id);
    forall i | 0 <= i < |rest| ensures rest[i].id != id {
      assert rest[i] in rest;
    }
  }

  /** A user registered under a new name logs in with the password they chose. */
  lemma RegisteredUserLogsIn(users: seq<UserDoc>, h: Hasher, user: User, id: ObjectId)
    requires Sound(h)
    requires forall j :: 0 <= j < |users| ==> users[j].username != user.username
    ensures SuccessfullyLoggedIn(users + [UserDoc(id, user.username, EncryptUser(h, user).encryptedPassword)], h, user)
  {
    var all := users + [UserDoc(id, user.username, EncryptUser(h, user).encryptedPassword)];
    assert all[|users|].username == user.username;
    assert forall i :: 0 <= i < |users| ==> all[i] == users[i];
    EncryptedPasswordVerifies(h, user);
  }

  /**
    Registering a name that is taken adds a second record but changes no
    login: the first record with that name still decides.
   */
  lemma FirstRegistrationWins(users: seq<UserDoc>, h: Hasher, user: User, extra: UserDoc)
    requires exists j :: 0 <= j < |users| && users[j].username == user.username
    ensures SuccessfullyLoggedIn(users + [extra], h, user) == SuccessfullyLoggedIn(users, h, user)
  {
    var k := FindUserIndex(users, user.username).value;
    var all := users + [extra];
    assert forall i :: 0 <= i < |users| ==> all[i] == users[i];
    assert all[k] == users[k];
  }
}
