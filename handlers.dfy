/**
  The route handlers of the blog (src/main.rs), without Rocket's routing and
  templating: each handler returns the template name and context it would
  render, or the redirect it would answer with, and changes the store or
  the cookie jar as the original does. A panic of the original (an
  `unwrap()` on an error or on `None`) is an `Err(Failure)` here.
 */
module Handlers {
  import opened Wrappers
  import opened Lex
  import opened ObjectIds
  import opened StableSort
  import opened Model

  /** How many leading characters of a post's date the pages show. */
  const DATE_WIDTH: nat := 10

  /** Where the original would panic. */
  datatype Failure = MalformedId | PostNotFound | MissingFormField | InsertFailed(error: StoreError)

  /** A rendered template: its name and its context. */
  datatype Page<C> = Page(template: string, context: C)

  /** A `Flash<Redirect>`: a one-time message and where to go. */
  datatype Flash = Flash(kind: string, message: string, to: string)

  // -------------------------------------------------------- home listing

  function DateKey(p: PostWithId): string {
    p.date
  }

  function RecordTitle(p: PostWithId): string {
    p.title
  }

  /** The record the listing builds from a fetched document. */
  function ToRecord(d: PostDoc): PostWithId {
    PostWithId(ToHex(d.id), d.title, d.body, d.author, d.date)
  }

  function Records(docs: seq<PostDoc>): (r: seq<PostWithId>)
    ensures |r| == |docs|
    ensures forall i :: 0 <= i < |docs| ==> r[i] == ToRecord(docs[i])
  {
    if docs == [] then [] else [ToRecord(docs[0])] + Records(docs[1..])
  }

  /** A date as the pages show it: `date.substring(0, 10)`. */
  function DisplayDate(date: string): (r: string)
    ensures |r| == if |date| < DATE_WIDTH then |date| else DATE_WIDTH
    ensures r == date[..|r|]
  {
    Substring(date, 0, DATE_WIDTH)
  }

  /** The record rebuilt with its date cut for display; nothing else changes. */
  function Display(p: PostWithId): PostWithId {
    PostWithId(p.id, p.title, p.body, p.author, DisplayDate(p.date))
  }

  function Displayed(ps: seq<PostWithId>): (r: seq<PostWithId>)
    ensures |r| == |ps|
    ensures forall i :: 0 <= i < |ps| ==> r[i] == Display(ps[i])
  {
    if ps == [] then [] else [Display(ps[0])] + Displayed(ps[1..])
  }

  /** The fetched documents as records, stably sorted by raw date, latest first. */
  function SortedByDate(documents: seq<PostDoc>): seq<PostWithId> {
    Sort(Records(documents), DateKey, true)
  }

  /** The `posts` list of the home page, for the documents `find_all` returned. */
  function HomePosts(documents: seq<PostDoc>): seq<PostWithId> {
    Displayed(SortedByDate(documents))
  }

  /**
    The body shared by `index` and `user_index`: collect the records into a
    vector, sort it in place by date descending, then rebuild each record
    with its date cut to ten characters.
   */
  method ListPosts(documents: seq<PostDoc>) returns (newPosts: seq<PostWithId>)
    ensures newPosts == HomePosts(documents)
  {
    var posts := CollectRecords(documents);
    SortInPlace(posts, DateKey, true);
    newPosts := DisplayAll(posts);
  }

  /** The first loop of `index`: one record per fetched document, pushed in order. */
  method CollectRecords(documents: seq<PostDoc>) returns (posts: array<PostWithId>)
    ensures fresh(posts)
    ensures posts[..] == Records(documents)
  {
    posts := new PostWithId[|documents|];
    var i := 0;
    while i < |documents|
      invariant 0 <= i <= |documents|
      invariant forall k :: 0 <= k < i ==> posts[k] == ToRecord(documents[k])
    {
      posts[i] := ToRecord(documents[i]);
      i := i + 1;
    }
  }

  /** The second loop of `index`: each record rebuilt with its date cut, in order. */
  method DisplayAll(posts: array<PostWithId>) returns (newPosts: seq<PostWithId>)
    ensures newPosts == Displayed(posts[..])
  {
    newPosts := [];
    var i := 0;
    while i < posts.Length
      invariant 0 <= i <= posts.Length
      invariant newPosts == Displayed(posts[..i])
    {
      assert posts[..i + 1] == posts[..i] + [posts[i]];
      DisplayedAppend(posts[..i], posts[i]);
      newPosts := newPosts + [Display(posts[i])];
      i := i + 1;
    }
    assert posts[..posts.Length] == posts[..];
  }

  lemma DisplayedAppend(ps: seq<PostWithId>, p: PostWithId)
    ensures Displayed(ps + [p]) == Displayed(ps) + [Display(p)]
  {
  }

  /** `index`: the anonymous home page. */
  method Index(store: Store) returns (page: Page<map<string, seq<PostWithId>>>)
    ensures page.template == "index"
    ensures page.context == map["posts" := HomePosts(SortByTitle(store.posts))]
  {
    var documents := store.FindAll();
    var posts := ListPosts(documents);
    page := Page("index", map["posts" := posts]);
  }

  /** `user_index`: the same listing, plus a `user_id` entry naming the visitor. */
  method UserIndex(store: Store, user: LoggedInUser) returns (page: Page<map<string, seq<PostWithId>>>)
    ensures page.template == "index"
    ensures page.context.Keys == {"posts", "user_id"}
    ensures page.context["posts"] == HomePosts(SortByTitle(store.posts))
    ensures page.context["user_id"] == [PostWithId(user.name, "", "", "", "")]
  {
    var documents := store.FindAll();
    var posts := ListPosts(documents);
    var context := map["posts" := posts];
    context := context["user_id" := [PostWithId(user.name, "", "", "", "")]];
    page := Page("index", context);
  }

  /** The listing is ordered by raw date, latest first, and so are the dates it shows. */
  lemma ListingOrdered(documents: seq<PostDoc>)
    ensures Sorted(SortedByDate(documents), DateKey, true)
    ensures var shown := HomePosts(documents);
            forall i, j :: 0 <= i < j < |shown| ==> LessEq(shown[j].date, shown[i].date)
  {
    var s := SortedByDate(documents);
    SortSorted(Records(documents), DateKey, true);
    forall i, j | 0 <= i < j < |s| ensures LessEq(DisplayDate(s[j].date), DisplayDate(s[i].date)) {
      SubstringMonotone(s[j].date, s[i].date, DATE_WIDTH);
    }
  }

  /** The listing holds every fetched document exactly once. */
  lemma ListingPermutation(documents: seq<PostDoc>)
    ensures |HomePosts(documents)| == |documents|
    ensures multiset(SortedByDate(documents)) == multiset(Records(documents))
    ensures forall d :: d in documents ==> ToRecord(d) in SortedByDate(documents)
  {
    var r := Records(documents);
    forall d | d in documents ensures ToRecord(d) in SortedByDate(documents) {
      var k :| 0 <= k < |documents| && documents[k] == d;
      assert r[k] in multiset(r);
    }
  }

  lemma RecordsSortedByTitle(documents: seq<PostDoc>)
    requires Sorted(documents, TitleKey, false)
    ensures Sorted(Records(documents), RecordTitle, false)
  {
  }

  /**
    Posts with the same date keep the order `find_all` gave them, so when the
    documents come sorted by title, equal dates list in title order.
   */
  lemma ListingTiesByTitle(documents: seq<PostDoc>, i: nat, j: nat)
    requires Sorted(documents, TitleKey, false)
    requires i < j < |SortedByDate(documents)|
    requires SortedByDate(documents)[i].date == SortedByDate(documents)[j].date
    ensures LessEq(SortedByDate(documents)[i].title, SortedByDate(documents)[j].title)
  {
    RecordsSortedByTitle(documents);
    SortStable(Records(documents), DateKey, true);
    TiesKeepOrder(SortedByDate(documents), Records(documents), DateKey, RecordTitle, false, i, j);
  }

  /**
    Each shown post is its sorted record with the date cut to its first
    ten characters (all of it when shorter); the other fields are untouched.
   */
  lemma ListingDisplay(documents: seq<PostDoc>, i: nat)
    requires i < |HomePosts(documents)|
    ensures var p, q := SortedByDate(documents)[i], HomePosts(documents)[i];
            && q.id == p.id && q.title == p.title && q.body == p.body && q.author == p.author
            && |q.date| == (if |p.date| < DATE_WIDTH then |p.date| else DATE_WIDTH)
            && q.date == p.date[..|q.date|]
  {
  }

  lemma {:induction false} RecordsInsert(e: PostDoc, s: seq<PostDoc>)
    ensures Records(Insert(e, s, TitleKey, false)) == Insert(ToRecord(e), Records(s), RecordTitle, false)
  {
    if s == [] || InOrder(e.title, s[0].title, false) {
      assert ([e] + s)[1..] == s;
    } else {
      var t := Insert(e, s[1..], TitleKey, false);
      RecordsInsert(e, s[1..]);
      assert ([s[0]] + t)[1..] == t;
      assert Records(s)[1..] == Records(s[1..]);
    }
  }

  /** Building records commutes with the title sort of `find_all`. */
  lemma {:induction false} RecordsSortByTitle(s: seq<PostDoc>)
    ensures Records(SortByTitle(s)) == Sort(Records(s), RecordTitle, false)
  {
    if s != [] {
      RecordsSortByTitle(s[1..]);
      RecordsInsert(s[0], SortByTitle(s[1..]));
      assert Records(s)[1..] == Records(s[1..]);
    }
  }

  /** The home page lists every stored post exactly once. */
  lemma HomeListsStore(posts: seq<PostDoc>)
    ensures multiset(SortedByDate(SortByTitle(posts))) == multiset(Records(posts))
  {
    RecordsSortByTitle(posts);
  }

  /**
    The link of every listed post leads back to it: `find_by_id` on the
    listed id returns the stored post, whose date the listing showed cut.
   */
  lemma ListedPostResolves(posts: seq<PostDoc>, i: nat)
    requires UniqueIds(posts)
    requires i < |HomePosts(SortByTitle(posts))|
    ensures exists k :: 0 <= k < |posts|
              && FindById(posts, HomePosts(SortByTitle(posts))[i].id) == Ok(Some(posts[k].ToPost()))
              && HomePosts(SortByTitle(posts))[i] == Display(ToRecord(posts[k]))
  {
    var s := SortedByDate(SortByTitle(posts));
    HomeListsStore(posts);
    assert s[i] in multiset(Records(posts));
    var k :| 0 <= k < |posts| && Records(posts)[k] == s[i];
    ParseToHex(posts[k].id);
    var idx := FindPostIndex(posts, posts[k].id).value;
    assert idx == k;
  }

  // ------------------------------------------------------- single post

  /** `single_post`: the anonymous view of one post, with its date cut. */
  method SinglePost(store: Store, id: string) returns (r: Result<Page<map<string, Post>>, Failure>)
    ensures FindById(store.posts, id).Err? ==> r == Err(MalformedId)
    ensures FindById(store.posts, id) == Ok(None) ==> r == Err(PostNotFound)
    ensures forall p: Post :: FindById(store.posts, id) == Ok(Some(p)) ==>
              r == Ok(Page("post", map["post" := p.(date := DisplayDate(p.date))]))
  {
    var found := FindById(store.posts, id);
    if found.Err? {
      return Err(MalformedId);
    }
    if found.value.None? {
      return Err(PostNotFound);
    }
    var post := found.value.value;
    post := post.(date := DisplayDate(post.date));
    r := Ok(Page("post", map["post" := post]));
  }

  /**
    `single_post_loggedin`: the post as stored, date uncut, with an empty
    `user_id` entry, rendered with the `contact` template as written.
   */
  method SinglePostLoggedIn(store: Store, user: LoggedInUser, id: string)
    returns (r: Result<Page<map<string, Post>>, Failure>)
    ensures FindById(store.posts, id).Err? ==> r == Err(MalformedId)
    ensures FindById(store.posts, id) == Ok(None) ==> r == Err(PostNotFound)
    ensures forall p: Post :: FindById(store.posts, id) == Ok(Some(p)) ==>
              r == Ok(Page("contact", map["post" := p, "user_id" := Post("", "", "", "")]))
  {
    var found := FindById(store.posts, id);
    if found.Err? {
      return Err(MalformedId);
    }
    if found.value.None? {
      return Err(PostNotFound);
    }
    var context := map["post" := found.value.value];
    context := context["user_id" := Post("", "", "", "")];
    r := Ok(Page("contact", context));
  }

  // -------------------------------------------------- creating content

  /**
    `new_post`: the title and body are the values of the first two fields of
    the url-encoded form, whatever their names; the author is the session's
    user and the date is the server's clock (`now`), read as a string. The
    store assigns `id`.
   */
  method NewPost(store: Store, user: LoggedInUser, form: seq<(string, string)>, now: string, id: ObjectId)
    returns (r: Result<string, Failure>)
    requires store.Valid()
    modifies store
    ensures store.Valid() && store.users == old(store.users)
    ensures |form| < 2 ==> r == Err(MissingFormField) && store.posts == old(store.posts)
    ensures |form| >= 2 && HasPostId(old(store.posts), id) ==>
              r == Err(InsertFailed(DuplicateKey)) && store.posts == old(store.posts)
    ensures |form| >= 2 && !HasPostId(old(store.posts), id) ==>
              r == Ok("/") && store.posts == old(store.posts) + [PostDoc(id, form[0].1, form[1].1, user.name, now)]
  {
    if |form| < 2 {
      return Err(MissingFormField);
    }
    var post := Post(form[0].1, form[1].1, user.name, now);
    var inserted := store.InsertPost(post, id);
    if inserted.Err? {
      return Err(InsertFailed(inserted.error));
    }
    r := Ok("/");
  }

  /** `new_user`: hash the password and store the user, whether or not the name is taken. */
  method NewUser(store: Store, h: Hasher, user: User, id: ObjectId) returns (r: Result<string, Failure>)
    requires store.Valid()
    modifies store
    ensures store.Valid() && store.posts == old(store.posts)
    ensures HasUserId(old(store.users), id) ==>
              r == Err(InsertFailed(DuplicateKey)) && store.users == old(store.users)
    ensures !HasUserId(old(store.users), id) ==>
              r == Ok("/") && store.users == old(store.users) + [UserDoc(id, user.username, h.hash(user.password, SALT))]
  {
    var encrypted := EncryptUser(h, user);
    var inserted := store.InsertUser(encrypted, id);
    if inserted.Err? {
      return Err(InsertFailed(inserted.error));
    }
    r := Ok("/");
  }

  // ------------------------------------------------------------ session

  /** Rocket's private cookies, already decrypted: name to value. */
  class CookieJar {
    var privateCookies: map<string, string>

    constructor (cookies: map<string, string>)
      ensures privateCookies == cookies
    {
      privateCookies := cookies;
    }

    /** What `from_request` reads: `get_private("user_id")`. */
    function UserId(): (r: Option<string>)
      reads this
      ensures r.Some? <==> "user_id" in privateCookies
      ensures r.Some? ==> r.value == privateCookies["user_id"]
    {
      if "user_id" in privateCookies then Some(privateCookies["user_id"]) else None
    }
  }

  /**
    `login_user`: on a successful login the private `user_id` cookie is set
    to the submitted username and the visitor goes home; otherwise an error
    flash sends them back to the login page and no cookie is set.
   */
  method LoginUser(cookies: CookieJar, store: Store, h: Hasher, user: User) returns (r: Result<string, Flash>)
    modifies cookies
    ensures SuccessfullyLoggedIn(store.users, h, user) ==>
              r == Ok("/") && cookies.privateCookies == old(cookies.privateCookies)["user_id" := user.username]
    ensures !SuccessfullyLoggedIn(store.users, h, user) ==>
              r == Err(Flash("error", "Invalid username/password.", "/login"))
              && cookies.privateCookies == old(cookies.privateCookies)
    ensures r.Ok? <==> FromRequest(cookies.UserId()) == Success(LoggedInUser(user.username))
                       && SuccessfullyLoggedIn(store.users, h, user)
  {
    if SuccessfullyLoggedIn(store.users, h, user) {
      cookies.privateCookies := cookies.privateCookies["user_id" := user.username];
      r := Ok("/");
    } else {
      r := Err(Flash("error", "Invalid username/password.", "/login"));
    }
  }

  /** `logout`: removes the `user_id` cookie; later requests are anonymous. */
  method Logout(cookies: CookieJar) returns (r: Flash)
    modifies cookies
    ensures cookies.privateCookies == old(cookies.privateCookies) - {"user_id"}
    ensures FromRequest(cookies.UserId()) == Forward
    ensures r == Flash("success", "Successfully logged out.", "/")
  {
    cookies.privateCookies := cookies.privateCookies - {"user_id"};
    r := Flash("success", "Successfully logged out.", "/");
  }
}
