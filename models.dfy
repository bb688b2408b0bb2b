/** The data model of Warbler: user, message and follow records, the two
    views of the follow table, the like toggle, signup and authentication. */
module Models {
  import opened Wrappers
  import opened Lists

  type UserId = int
  type MessageId = int

  /** Salt chosen by the hashing library; a parameter because it is random. */
  type Salt = nat

  const DEFAULT_IMG_URL: string := "/static/images/default-pic.png"
  const DEFAULT_HEADER_IMG_URL: string := "/static/images/warbler-hero.jpg"

  /** A row of `follows`; both columns together form the primary key. */
  datatype Follow = Follow(userBeingFollowedId: UserId, userFollowingId: UserId)

  datatype User = User(
    id: UserId,
    email: string,
    username: string,
    imageUrl: string,
    headerImageUrl: string,
    bio: string,
    location: string,
    password: string)

  /** A message; `userLikes` is the `user_likes` list, that is, the rows of
      `likes` for this message, in list order. */
  datatype Message = Message(
    id: MessageId,
    text: string,
    timestamp: int,
    userId: UserId,
    userLikes: seq<UserId>)

  /** The password-hashing library, left uninterpreted: `generate` produces
      a salted hash, `check` verifies a password against a stored hash. */
  datatype Bcrypt = Bcrypt(generate: (string, Salt) -> string, check: (string, string) -> bool)

  /** What the library promises: a hash verifies against its own password. */
  ghost predicate Sound(b: Bcrypt)
  {
    forall p: string, salt: Salt :: b.check(b.generate(p, salt), p)
  }

  // ---------------------------------------------------------------------
  // The follow table and its two views

  /** `User.following` of `u`: the followed user of each edge whose follower is `u`. */
  function Following(edges: seq<Follow>, u: UserId): (r: seq<UserId>)
    ensures forall x :: multiset(r)[x] == multiset(edges)[Follow(x, u)]
  {
    if edges == [] then []
    else
      assert edges == [edges[0]] + edges[1..];
      (if edges[0].userFollowingId == u then [edges[0].userBeingFollowedId] else [])
        + Following(edges[1..], u)
  }

  /** `User.followers` of `u`: the follower of each edge whose followed user is `u`. */
  function Followers(edges: seq<Follow>, u: UserId): (r: seq<UserId>)
    ensures forall x :: multiset(r)[x] == multiset(edges)[Follow(u, x)]
  {
    if edges == [] then []
    else
      assert edges == [edges[0]] + edges[1..];
      (if edges[0].userBeingFollowedId == u then [edges[0].userFollowingId] else [])
        + Followers(edges[1..], u)
  }

  /** The list comprehension `[user for user in users if user == other]`. */
  function Found(users: seq<UserId>, other: UserId): (r: seq<UserId>)
    ensures |r| == multiset(users)[other]
    ensures forall y :: y in r ==> y == other
  {
    if users == [] then []
    else
      assert users == [users[0]] + users[1..];
      (if users[0] == other then [users[0]] else []) + Found(users[1..], other)
  }

  /** `self.is_followed_by(other)`, given `self.followers`: true exactly when
      `other` occurs once, so also false when it occurs twice. */
  predicate IsFollowedBy(followers: seq<UserId>, other: UserId)
    ensures IsFollowedBy(followers, other) <==> multiset(followers)[other] == 1
  {
    |Found(followers, other)| == 1
  }

  /** `self.is_following(other)`, given `self.following`: true exactly when
      `other` occurs once, so also false when it occurs twice. */
  predicate IsFollowing(following: seq<UserId>, other: UserId)
    ensures IsFollowing(following, other) <==> multiset(following)[other] == 1
  {
    |Found(following, other)| == 1
  }

  /** `a.following` and `b.followers` are views of the same table: the one
      lists `b` as often as the other lists `a`, so the two tests agree. */
  lemma FollowViewsAgree(edges: seq<Follow>, a: UserId, b: UserId)
    ensures b in Following(edges, a) <==> a in Followers(edges, b)
    ensures IsFollowing(Following(edges, a), b) == IsFollowedBy(Followers(edges, b), a)
  {
    assert multiset(Following(edges, a))[b] == multiset(Followers(edges, b))[a];
  }

  /** With the primary key in force, `is_following` is plain edge membership. */
  lemma IsFollowingIsEdge(edges: seq<Follow>, a: UserId, b: UserId)
    requires NoDup(edges)
    ensures IsFollowing(Following(edges, a), b) <==> Follow(b, a) in edges
    ensures IsFollowedBy(Followers(edges, b), a) <==> Follow(b, a) in edges
  {
    NoDupCount(edges, Follow(b, a));
  }

  /** A user that no edge mentions follows nobody and has no followers. */
  lemma UnmentionedHasNoEdges(edges: seq<Follow>, u: UserId)
    requires forall e :: e in edges ==> e.userBeingFollowedId != u && e.userFollowingId != u
    ensures Following(edges, u) == [] && Followers(edges, u) == []
  {
    var fing, fers := Following(edges, u), Followers(edges, u);
    assert multiset(fing) == multiset{} by {
      forall x ensures multiset(fing)[x] == 0 {
        assert Follow(x, u) !in edges;
      }
    }
    assert multiset(fers) == multiset{} by {
      forall x ensures multiset(fers)[x] == 0 {
        assert Follow(u, x) !in edges;
      }
    }
    assert |fing| == |multiset(fing)| && |fers| == |multiset(fers)|;
  }

  /** The `following` view of a concatenation of tables. */
  lemma {:induction false} FollowingConcat(a: seq<Follow>, b: seq<Follow>, u: UserId)
    ensures Following(a + b, u) == Following(a, u) + Following(b, u)
  {
    if a == [] {
      assert a + b == b;
    } else {
      assert (a + b)[0] == a[0];
      assert (a + b)[1..] == a[1..] + b;
      FollowingConcat(a[1..], b, u);
    }
  }

  /** Appending a new edge `a -> b` appends `b` to `a.following`, after which
      `a.is_following(b)` holds. */
  lemma FollowAppended(edges: seq<Follow>, a: UserId, b: UserId)
    requires Follow(b, a) !in edges
    ensures Following(edges + [Follow(b, a)], a) == Following(edges, a) + [b]
    ensures IsFollowing(Following(edges + [Follow(b, a)], a), b)
  {
    FollowingConcat(edges, [Follow(b, a)], a);
    assert Following([Follow(b, a)], a) == [b] by {
      assert [Follow(b, a)][1..] == [];
    }
    assert multiset(Following(edges, a))[b] == 0;
  }

  /** Removing the edge `a -> b` removes `b` from `a.following`; the other
      entries keep their order. */
  lemma UnfollowRemoves(edges: seq<Follow>, a: UserId, b: UserId)
    requires Follow(b, a) in edges
    ensures b in Following(edges, a)
    ensures Following(RemoveFirst(edges, Follow(b, a)), a) == RemoveFirst(Following(edges, a), b)
  {
    var e := Follow(b, a);
    var i := FirstIndex(edges, e);
    var pre, post := edges[..i], edges[i + 1..];
    assert edges == pre + [e] + post;
    RemoveFirstSplit(pre, e, post);
    FollowingConcat(pre, post, a);
    FollowingConcat(pre + [e], post, a);
    FollowingConcat(pre, [e], a);
    assert Following([e], a) == [b] by {
      assert [e][1..] == [];
    }
    assert multiset(Following(pre, a))[b] == 0;
    RemoveFirstSplit(Following(pre, a), b, Following(post, a));
  }

  /** With the primary key in force, once the edge `a -> b` is removed `a` no
      longer follows `b` and `b` is no longer followed by `a`. */
  lemma UnfollowStops(edges: seq<Follow>, a: UserId, b: UserId)
    requires NoDup(edges) && Follow(b, a) in edges
    ensures !IsFollowing(Following(RemoveFirst(edges, Follow(b, a)), a), b)
    ensures !IsFollowedBy(Followers(RemoveFirst(edges, Follow(b, a)), b), a)
  {
    NoDupCount(edges, Follow(b, a));
    assert multiset(RemoveFirst(edges, Follow(b, a)))[Follow(b, a)] == 0;
  }

  /** Following a user not yet followed and then unfollowing them gives the
      table back exactly. */
  lemma FollowThenUnfollow(edges: seq<Follow>, a: UserId, b: UserId)
    requires Follow(b, a) !in edges
    ensures RemoveFirst(edges + [Follow(b, a)], Follow(b, a)) == edges
  {
    RemoveFirstAppended(edges, Follow(b, a));
  }

  // ---------------------------------------------------------------------
  // Likes

  /** `user.add_or_remove_like(message)` on `message.user_likes`: remove the
      first occurrence of the user if present, otherwise append the user. */
  function ToggleLike(likes: seq<UserId>, u: UserId): (r: seq<UserId>)
    ensures multiset(r)[u] == if u in likes then multiset(likes)[u] - 1 else 1
    ensures Without(r, u) == Without(likes, u)
    ensures forall v :: v in r ==> v in likes || v == u
    ensures u !in likes ==> |r| == |likes| + 1 && r[..|likes|] == likes && r[|likes|] == u
    ensures NoDup(likes) ==> NoDup(r) && (u in r <==> u !in likes)
  {
    if u in likes then
      WithoutRemoveFirst(likes, u);
      NoDupRemoveFirst(likes, u);
      RemoveFirst(likes, u)
    else
      WithoutAppend(likes, u);
      assert (likes + [u])[..|likes|] == likes;
      likes + [u]
  }

  /** Two toggles from a list without the user give the list back exactly. */
  lemma ToggleTwiceAbsent(likes: seq<UserId>, u: UserId)
    requires u !in likes
    ensures ToggleLike(ToggleLike(likes, u), u) == likes
  {
    RemoveFirstAppended(likes, u);
  }

  /** Two toggles from a list holding the user once keep the same entries, but
      the user moves to the end. */
  lemma ToggleTwicePresent(likes: seq<UserId>, u: UserId)
    requires multiset(likes)[u] == 1
    ensures ToggleLike(ToggleLike(likes, u), u) == RemoveFirst(likes, u) + [u]
    ensures multiset(ToggleLike(ToggleLike(likes, u), u)) == multiset(likes)
  {
    var once := RemoveFirst(likes, u);
    assert multiset(once)[u] == 0;
    assert u !in once;
  }

  // ---------------------------------------------------------------------
  // Signup and authentication

  /** `User.signup`: the stored password is the library's hash, never the
      plaintext argument; the other columns take their declared defaults.
      The hashing library refuses an empty password. */
  function Signup(b: Bcrypt, id: UserId, username: string, email: string, password: string,
                  imageUrl: string, salt: Salt): (r: Option<User>)
    ensures r.None? <==> password == ""
    ensures r.Some? ==>
      && r.value.id == id && r.value.username == username && r.value.email == email
      && r.value.imageUrl == imageUrl
      && r.value.password == b.generate(password, salt)
      && r.value.headerImageUrl == DEFAULT_HEADER_IMG_URL
      && r.value.bio == "" && r.value.location == ""
  {
    if password == "" then None
    else Some(User(id, email, username, imageUrl, DEFAULT_HEADER_IMG_URL, "", "", b.generate(password, salt)))
  }

  /** The `unique=True` constraints and the primary key of `users`, stated
      over the rows: two rows that agree on the column are the same row. */
  predicate UniqueUsernames(users: seq<User>)
  {
    forall u, v :: u in users && v in users && u.username == v.username ==> u == v
  }

  predicate UniqueEmails(users: seq<User>)
  {
    forall u, v :: u in users && v in users && u.email == v.email ==> u == v
  }

  predicate UniqueIds(users: seq<User>)
  {
    forall u, v :: u in users && v in users && u.id == v.id ==> u == v
  }

  predicate UniqueMessageIds(messages: seq<Message>)
  {
    forall m, n :: m in messages && n in messages && m.id == n.id ==> m == n
  }

  /** A row already holds this username or this email. */
  predicate Taken(users: seq<User>, username: string, email: string)
  {
    exists v :: v in users && (v.username == username || v.email == email)
  }

  /** `User.query.filter_by(username=username).first()`. */
  function FindByUsername(users: seq<User>, username: string): (r: Option<User>)
    ensures r.Some? ==> r.value in users && r.value.username == username
    ensures r.None? <==> forall u :: u in users ==> u.username != username
  {
    if users == [] then None
    else if users[0].username == username then Some(users[0])
    else FindByUsername(users[1..], username)
  }

  /** `User.authenticate`: the user named `username` when the password checks
      against its stored hash; `None` (the source's `False`) otherwise, the
      same value whether the name is unknown or the password wrong. */
  function Authenticate(b: Bcrypt, users: seq<User>, username: string, password: string): (r: Option<User>)
    ensures r.Some? ==> r.value in users && r.value.username == username && b.check(r.value.password, password)
    ensures (forall u :: u in users ==> u.username != username) ==> r.None?
  {
    match FindByUsername(users, username)
    case None => None
    case Some(u) => if b.check(u.password, password) then Some(u) else None
  }

  /** With unique usernames, the user named `u.username` authenticates with
      `password` exactly when the password checks against its hash. */
  lemma AuthenticateUnique(b: Bcrypt, users: seq<User>, u: User, password: string)
    requires UniqueUsernames(users) && u in users
    ensures Authenticate(b, users, u.username, password) == if b.check(u.password, password) then Some(u) else None
  {
    assert FindByUsername(users, u.username) == Some(u);
  }

  /** A user who just signed up with a fresh username can log in with the
      password they chose. */
  lemma SignupThenAuthenticate(b: Bcrypt, users: seq<User>, id: UserId, username: string,
                               email: string, password: string, imageUrl: string, salt: Salt)
    requires Sound(b) && password != ""
    requires forall v :: v in users ==> v.username != username
    ensures Signup(b, id, username, email, password, imageUrl, salt).Some?
    ensures Authenticate(b, users + [Signup(b, id, username, email, password, imageUrl, salt).value],
                         username, password)
         == Signup(b, id, username, email, password, imageUrl, salt)
  {
    var u := Signup(b, id, username, email, password, imageUrl, salt).value;
    assert b.check(b.generate(password, salt), password);
    FindByUsernameSkips(users, [u], username);
  }

  /** Rows without the name are passed over by `first()`. */
  lemma {:induction false} FindByUsernameSkips(users: seq<User>, rest: seq<User>, username: string)
    requires forall v :: v in users ==> v.username != username
    ensures FindByUsername(users + rest, username) == FindByUsername(rest, username)
  {
    if users == [] {
      assert users + rest == rest;
    } else {
      assert (users + rest)[0] == users[0];
      assert (users + rest)[1..] == users[1..] + rest;
      FindByUsernameSkips(users[1..], rest, username);
    }
  }

  // ---------------------------------------------------------------------
  // Primary-key lookups (`query.get`)

  /** Position of the row whose id is `id`, if any. */
  function UserIndex(users: seq<User>, id: UserId): (r: Option<nat>)
    ensures r.Some? ==> r.value < |users| && users[r.value].id == id
    ensures r.None? <==> forall u :: u in users ==> u.id != id
  {
    if users == [] then None
    else if users[0].id == id then Some(0)
    else match UserIndex(users[1..], id)
      case None => None
      case Some(k) => Some(k + 1)
  }

  /** `User.query.get(id)`. */
  function UserById(users: seq<User>, id: UserId): (r: Option<User>)
    ensures r.Some? ==> r.value in users && r.value.id == id
    ensures r.None? <==> forall u :: u in users ==> u.id != id
  {
    match UserIndex(users, id)
    case None => None
    case Some(k) => Some(users[k])
  }

  /** With unique ids, `query.get(u.id)` finds `u`. */
  lemma UserByIdUnique(users: seq<User>, u: User)
    requires UniqueIds(users) && u in users
    ensures UserById(users, u.id) == Some(u)
  {
  }

  /** Position of the message whose id is `id`, if any. */
  function MessageIndex(messages: seq<Message>, id: MessageId): (r: Option<nat>)
    ensures r.Some? ==> r.value < |messages| && messages[r.value].id == id
    ensures r.None? <==> forall m :: m in messages ==> m.id != id
  {
    if messages == [] then None
    else if messages[0].id == id then Some(0)
    else match MessageIndex(messages[1..], id)
      case None => None
      case Some(k) => Some(k + 1)
  }

  // ---------------------------------------------------------------------
  // Ordering by timestamp, newest first

  /** `order_by(Message.timestamp.desc())`. */
  predicate NewestFirst(ms: seq<Message>)
  {
    forall i, j | 0 <= i < j < |ms| :: ms[i].timestamp >= ms[j].timestamp
  }

  function InsertByTime(m: Message, sorted: seq<Message>): (r: seq<Message>)
    requires NewestFirst(sorted)
    ensures NewestFirst(r)
    ensures multiset(r) == multiset(sorted) + multiset{m}
    ensures forall x :: x in r ==> x == m || x in sorted
  {
    if sorted == [] then [m]
    else if m.timestamp >= sorted[0].timestamp then [m] + sorted
    else
      var head, tail := sorted[0], sorted[1..];
      var rest := InsertByTime(m, tail);
      assert sorted == [head] + tail;
      assert multiset([head] + rest) == multiset{head} + multiset(rest);
      PrependNewest(head, rest);
      [head] + rest
  }

  /** A message no older than every message of a newest-first list can go in front. */
  lemma PrependNewest(head: Message, rest: seq<Message>)
    requires NewestFirst(rest) && forall x :: x in rest ==> x.timestamp <= head.timestamp
    ensures NewestFirst([head] + rest)
  {
    var r := [head] + rest;
    forall i, j | 0 <= i < j < |r| ensures r[i].timestamp >= r[j].timestamp {
      assert r[j] == rest[j - 1];
      if i > 0 {
        assert r[i] == rest[i - 1];
      }
    }
  }

  /** The rows sorted newest first; rows with equal timestamps keep no
      particular order in the database, and this model picks one. */
  function SortNewestFirst(ms: seq<Message>): (r: seq<Message>)
    ensures NewestFirst(r)
    ensures multiset(r) == multiset(ms)
  {
    if ms == [] then []
    else
      assert ms == [ms[0]] + ms[1..];
      InsertByTime(ms[0], SortNewestFirst(ms[1..]))
  }

  /** Sorting keeps the length and brings in no new message. */
  lemma SortKeepsMembers(ms: seq<Message>)
    ensures |SortNewestFirst(ms)| == |ms|
    ensures forall m :: m in SortNewestFirst(ms) ==> m in ms
  {
    var sorted := SortNewestFirst(ms);
    assert |multiset(sorted)| == |multiset(ms)|;
    forall m | m in sorted ensures m in ms {
      assert m in multiset(sorted);
    }
  }

  /** A prefix of a newest-first list is newest first and draws on the list. */
  lemma PrefixNewestFirst(ms: seq<Message>, n: nat)
    requires NewestFirst(ms) && n <= |ms|
    ensures NewestFirst(ms[..n])
    ensures forall m :: m in ms[..n] ==> m in ms
  {
    var p := ms[..n];
    forall i, j | 0 <= i < j < |p| ensures p[i].timestamp >= p[j].timestamp {
      assert p[i] == ms[i] && p[j] == ms[j];
    }
  }

  /** The rows of `messages` owned by `u`. */
  function OwnedBy(messages: seq<Message>, u: UserId): (r: seq<Message>)
    ensures forall m :: m in r <==> m in messages && m.userId == u
    ensures forall m :: multiset(r)[m] == if m.userId == u then multiset(messages)[m] else 0
  {
    if messages == [] then []
    else
      assert messages == [messages[0]] + messages[1..];
      (if messages[0].userId == u then [messages[0]] else []) + OwnedBy(messages[1..], u)
  }

  /** `user.messages`: the user's messages, newest first. */
  function MessagesOf(messages: seq<Message>, u: UserId): (r: seq<Message>)
    ensures NewestFirst(r)
    ensures forall m :: m in r <==> m in messages && m.userId == u
    ensures multiset(r) == multiset(OwnedBy(messages, u))
  {
    var own := OwnedBy(messages, u);
    var r := SortNewestFirst(own);
    assert forall m :: m in r <==> m in multiset(own);
    r
  }

  /** A user who owns no row has an empty message list. */
  lemma {:induction false} NothingOwnedByFresh(messages: seq<Message>, u: UserId)
    requires forall m :: m in messages ==> m.userId != u
    ensures OwnedBy(messages, u) == [] && MessagesOf(messages, u) == []
  {
    if messages != [] {
      assert messages[0].userId != u;
      NothingOwnedByFresh(messages[1..], u);
    }
  }
}
