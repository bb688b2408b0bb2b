/** The request handlers of Warbler over an in-memory store: the tables are
    sequences of rows, the session is a map, and `g.user` is the row that the
    session's user id selects. Form validation and the CSRF check are inputs. */
module App {
  import opened Wrappers
  import opened Lists
  import opened Models

  const CURR_USER_KEY: string := "curr_user"

  /** The most messages the home feed shows. */
  const FEED_LIMIT: nat := 100

  datatype Form = SignupForm | LoginForm | EditForm | NewMessageForm

  datatype Page =
    | Home
    | LoginPage
    | SignupPage
    | Profile(userId: UserId)
    | FollowingPage(userId: UserId)
    | MessagePage(messageId: MessageId)

  /** What a handler answers: a redirect, a rendered page, or an error status. */
  datatype Response =
    | Redirect(to: Page)
    | ShowForm(form: Form)
    | UserList(users: seq<User>)
    | UserDetail(user: User, messages: seq<Message>)
    | FollowingList(user: User, following: seq<UserId>)
    | FollowersList(user: User, followers: seq<UserId>)
    | MessageDetail(message: Option<Message>)
    | Feed(messages: seq<Message>)
    | AnonHome
    | NotFound      // `get_or_404` found no row
    | Unauthorized  // `raise Unauthorized()`
    | ServerError   // an exception the handler does not catch; the transaction is discarded

  /** The fields of the profile edit form. */
  datatype ProfileForm = ProfileForm(
    username: string,
    email: string,
    imageUrl: string,
    headerImageUrl: string,
    bio: string,
    password: string)

  /** Python's `value or default` on a string. */
  function OrDefault(value: string, default: string): string
  {
    if value == "" then default else value
  }

  /** The field assignments of `update_profile`: a blank username or email
      keeps the old value, a blank image or header URL becomes the default
      picture, a blank bio stays blank; the password and the location are not
      edited. */
  function EditedProfile(u: User, f: ProfileForm): (r: User)
    ensures r.id == u.id && r.password == u.password && r.location == u.location
    ensures r.username == (if f.username == "" then u.username else f.username)
    ensures r.email == (if f.email == "" then u.email else f.email)
    ensures r.imageUrl == (if f.imageUrl == "" then DEFAULT_IMG_URL else f.imageUrl)
    ensures r.headerImageUrl == (if f.headerImageUrl == "" then DEFAULT_HEADER_IMG_URL else f.headerImageUrl)
    ensures r.bio == f.bio
  {
    u.(username := OrDefault(f.username, u.username),
       email := OrDefault(f.email, u.email),
       imageUrl := OrDefault(f.imageUrl, DEFAULT_IMG_URL),
       headerImageUrl := OrDefault(f.headerImageUrl, DEFAULT_HEADER_IMG_URL),
       bio := OrDefault(f.bio, ""))
  }

  /** Some other row already has the username or the email of `v`. */
  predicate ClashesWithOther(users: seq<User>, v: User)
  {
    exists w :: w in users && w.id != v.id && (w.username == v.username || w.email == v.email)
  }

  // ---------------------------------------------------------------------
  // User search

  /** SQL `username LIKE '%q%'` for a `q` without wildcards: `q` is a substring. */
  predicate Contains(s: string, q: string)
  {
    q <= s || (s != [] && Contains(s[1..], q))
  }

  /** `Contains` finds `q` at some position of `s`. */
  lemma {:induction false} ContainsIsSubstring(s: string, q: string)
    ensures Contains(s, q) <==> exists i :: 0 <= i <= |s| && q <= s[i..]
  {
    if q <= s {
      assert q <= s[0..];
    } else if s == [] {
      assert forall i :: 0 <= i <= |s| ==> s[i..] == s;
    } else {
      ContainsIsSubstring(s[1..], q);
      assert forall i :: 1 <= i <= |s| ==> s[i..] == s[1..][i - 1..];
    }
  }

  /** The users whose username contains `q`, in table order. */
  function SearchUsers(users: seq<User>, q: string): (r: seq<User>)
    ensures forall u :: u in r <==> u in users && Contains(u.username, q)
    ensures forall u :: multiset(r)[u] == if Contains(u.username, q) then multiset(users)[u] else 0
  {
    if users == [] then []
    else
      assert users == [users[0]] + users[1..];
      (if Contains(users[0].username, q) then [users[0]] else []) + SearchUsers(users[1..], q)
  }

  // ---------------------------------------------------------------------
  // The home feed

  /** A message belongs in the feed of `me`: its author is `me` or is followed by `me`. */
  predicate InFeed(m: Message, followingIds: seq<UserId>, me: UserId)
  {
    m.userId in followingIds || m.userId == me
  }

  /** The `filter` of the home feed query, in table order. */
  function Eligible(messages: seq<Message>, followingIds: seq<UserId>, me: UserId): (r: seq<Message>)
    ensures forall m :: m in r ==> InFeed(m, followingIds, me)
    ensures forall m :: InFeed(m, followingIds, me) ==> multiset(r)[m] == multiset(messages)[m]
    ensures forall m :: m in r <==> m in messages && InFeed(m, followingIds, me)
  {
    if messages == [] then []
    else
      assert messages == [messages[0]] + messages[1..];
      (if InFeed(messages[0], followingIds, me) then [messages[0]] else [])
        + Eligible(messages[1..], followingIds, me)
  }

  /** The feed of `me`: the eligible messages newest first, at most 100 of them;
      when there are no more than 100, all of them. */
  function HomeFeed(messages: seq<Message>, followingIds: seq<UserId>, me: UserId): (r: seq<Message>)
    ensures forall m :: m in r ==> m in messages && InFeed(m, followingIds, me)
    ensures NewestFirst(r)
    ensures |r| == if |Eligible(messages, followingIds, me)| < FEED_LIMIT
                   then |Eligible(messages, followingIds, me)| else FEED_LIMIT
    ensures r <= SortNewestFirst(Eligible(messages, followingIds, me))
    ensures |Eligible(messages, followingIds, me)| <= FEED_LIMIT ==>
              multiset(r) == multiset(Eligible(messages, followingIds, me))
  {
    var eligible := Eligible(messages, followingIds, me);
    var sorted := SortNewestFirst(eligible);
    SortKeepsMembers(eligible);
    if |sorted| <= FEED_LIMIT then sorted
    else
      var r := sorted[..FEED_LIMIT];
      PrefixNewestFirst(sorted, FEED_LIMIT);
      r
  }

  /** The feed holds the most recent eligible messages: an eligible message
      left out is no newer than any message shown. */
  lemma FeedIsMostRecent(messages: seq<Message>, followingIds: seq<UserId>, me: UserId, m: Message)
    requires m in messages && InFeed(m, followingIds, me)
    ensures m !in HomeFeed(messages, followingIds, me) ==>
              forall x :: x in HomeFeed(messages, followingIds, me) ==> x.timestamp >= m.timestamp
  {
    var eligible := Eligible(messages, followingIds, me);
    var sorted := SortNewestFirst(eligible);
    var feed := HomeFeed(messages, followingIds, me);
    if m in feed {
      return;
    }
    assert m in multiset(sorted);
    var j :| 0 <= j < |sorted| && sorted[j] == m;
    assert feed == sorted[..|feed|];
    assert j >= |feed|;
    forall x | x in feed ensures x.timestamp >= m.timestamp {
      var i :| 0 <= i < |feed| && feed[i] == x;
      assert sorted[i] == x;
    }
  }

  // ---------------------------------------------------------------------
  // Table constraints

  /** The `users` table: unique rows, ids, usernames and emails; every id
      below the next unused id. */
  ghost predicate UsersValid(users: seq<User>, nextUserId: UserId)
  {
    && NoDup(users) && UniqueIds(users) && UniqueUsernames(users) && UniqueEmails(users)
    && (forall u :: u in users ==> u.id < nextUserId)
  }

  /** The `follows` table: the composite primary key, and edges between handed-out ids. */
  ghost predicate FollowsValid(follows: seq<Follow>, nextUserId: UserId)
  {
    && NoDup(follows)
    && (forall e :: e in follows ==> e.userBeingFollowedId < nextUserId && e.userFollowingId < nextUserId)
  }

  /** A message row whose like list keeps the primary key of `likes`. */
  ghost predicate MessageValid(m: Message, nextMessageId: MessageId, nextUserId: UserId)
  {
    && m.id < nextMessageId && m.userId < nextUserId
    && NoDup(m.userLikes) && (forall v :: v in m.userLikes ==> v < nextUserId)
  }

  /** The `messages` table (with the like lists inside its rows). */
  ghost predicate MessagesValid(messages: seq<Message>, nextMessageId: MessageId, nextUserId: UserId)
  {
    && NoDup(messages) && UniqueMessageIds(messages)
    && (forall m :: m in messages ==> MessageValid(m, nextMessageId, nextUserId))
  }

  lemma UsersValidAppend(users: seq<User>, n: UserId, u: User)
    requires UsersValid(users, n) && u.id == n && !Taken(users, u.username, u.email)
    ensures UsersValid(users + [u], n + 1)
  {
    assert forall v :: v in users + [u] ==> v in users || v == u;
  }

  lemma UsersValidRemove(users: seq<User>, n: UserId, u: User)
    requires UsersValid(users, n) && u in users
    ensures UsersValid(RemoveFirst(users, u), n)
    ensures forall v :: v in RemoveFirst(users, u) <==> v in users && v.id != u.id
  {
    NoDupRemoveFirst(users, u);
    var r := RemoveFirst(users, u);
    assert forall v :: v in r <==> v in multiset(users) - multiset{u};
  }

  lemma UsersValidReplace(users: seq<User>, n: UserId, k: nat, v: User)
    requires UsersValid(users, n) && k < |users| && users[k].id == v.id
    requires !ClashesWithOther(users, v)
    ensures UsersValid(users[k := v], n)
  {
    var r := users[k := v];
    forall w | w in r ensures w == v || (w in users && w.id != v.id) {
      var i :| 0 <= i < |r| && r[i] == w;
      if i != k {
        assert users[i] == w && users[i] != users[k];
      }
    }
    forall i, j | 0 <= i < j < |r| ensures r[i] != r[j] {
      if i != k && j != k {
        assert r[i] == users[i] && r[j] == users[j];
      }
    }
  }

  lemma MessagesValidAppend(messages: seq<Message>, nm: MessageId, nu: UserId, m: Message)
    requires MessagesValid(messages, nm, nu) && m.id == nm && m.userId < nu && m.userLikes == []
    ensures MessagesValid(messages + [m], nm + 1, nu)
  {
    assert m !in messages;
    forall x | x in messages + [m] ensures MessageValid(x, nm + 1, nu) && (x in messages || x == m) {
      if x != m {
        assert x in messages;
      }
    }
  }

  /** Handing out one more user id keeps every reference valid. */
  lemma RaiseUserBound(follows: seq<Follow>, messages: seq<Message>, nm: MessageId, n: UserId)
    requires FollowsValid(follows, n) && MessagesValid(messages, nm, n)
    ensures FollowsValid(follows, n + 1) && MessagesValid(messages, nm, n + 1)
  {
    forall m | m in messages ensures MessageValid(m, nm, n + 1) {
      assert MessageValid(m, nm, n);
    }
  }

  lemma FollowsValidAppend(follows: seq<Follow>, n: UserId, e: Follow)
    requires FollowsValid(follows, n) && e !in follows
    requires e.userBeingFollowedId < n && e.userFollowingId < n
    ensures FollowsValid(follows + [e], n)
  {
    NoDupAppend(follows, e);
    assert forall x :: x in follows + [e] ==> x in follows || x == e;
  }

  lemma FollowsValidRemove(follows: seq<Follow>, n: UserId, e: Follow)
    requires FollowsValid(follows, n) && e in follows
    ensures FollowsValid(RemoveFirst(follows, e), n)
  {
    NoDupRemoveFirst(follows, e);
  }

  lemma MessagesValidRemove(messages: seq<Message>, nm: MessageId, nu: UserId, m: Message)
    requires MessagesValid(messages, nm, nu) && m in messages
    ensures MessagesValid(RemoveFirst(messages, m), nm, nu)
    ensures forall x :: x in RemoveFirst(messages, m) <==> x in messages && x.id != m.id
  {
    NoDupRemoveFirst(messages, m);
    var r := RemoveFirst(messages, m);
    assert forall x :: x in r <==> x in multiset(messages) - multiset{m};
  }

  lemma MessagesValidReplace(messages: seq<Message>, nm: MessageId, nu: UserId, k: nat, m: Message)
    requires MessagesValid(messages, nm, nu) && k < |messages| && messages[k].id == m.id
    requires MessageValid(m, nm, nu)
    ensures MessagesValid(messages[k := m], nm, nu)
  {
    var r := messages[k := m];
    forall x | x in r ensures x == m || (x in messages && x.id != m.id) {
      var i :| 0 <= i < |r| && r[i] == x;
      if i != k {
        assert messages[i] == x && messages[i] != messages[k];
      }
    }
    forall i, j | 0 <= i < j < |r| ensures r[i] != r[j] {
      if i != k && j != k {
        assert r[i] == messages[i] && r[j] == messages[j];
      }
    }
  }

  // ---------------------------------------------------------------------
  // The application state

  class Warbler {
    var users: seq<User>
    var messages: seq<Message>
    var follows: seq<Follow>
    var session: map<string, int>
    /** Ids not yet used by any row of `users` or `messages`; every new row
        takes the current one. */
    var nextUserId: UserId
    var nextMessageId: MessageId
    const bcrypt: Bcrypt

    /** The database constraints on the three tables. */
    ghost predicate Valid()
      reads this
    {
      && UsersValid(users, nextUserId)
      && FollowsValid(follows, nextUserId)
      && MessagesValid(messages, nextMessageId, nextUserId)
    }

    constructor (b: Bcrypt)
      ensures Valid()
      ensures users == [] && messages == [] && follows == [] && session == map[] && bcrypt == b
    {
      users, messages, follows := [], [], [];
      session := map[];
      nextUserId, nextMessageId := 1, 1;
      bcrypt := b;
    }

    /** `g.user`: the row whose id the session holds, if the key is present
        and the row exists. */
    function CurrentUser(): (r: Option<User>)
      reads this
      ensures r.Some? ==> r.value in users && CURR_USER_KEY in session && r.value.id == session[CURR_USER_KEY]
      ensures r.None? <==> CURR_USER_KEY !in session || forall u :: u in users ==> u.id != session[CURR_USER_KEY]
    {
      if CURR_USER_KEY in session then UserById(users, session[CURR_USER_KEY]) else None
    }

    // -------------------------------------------------------------------
    // Session

    /** `do_login`: store the user's id under the session key. */
    method DoLogin(user: User)
      requires Valid()
      modifies this`session
      ensures Valid()
      ensures session == old(session)[CURR_USER_KEY := user.id]
      ensures user in users ==> CurrentUser() == Some(user)
    {
      session := session[CURR_USER_KEY := user.id];
      if user in users {
        UserByIdUnique(users, user);
      }
    }

    /** `do_logout`: delete the session key if present; a second call changes nothing. */
    method DoLogout()
      requires Valid()
      modifies this`session
      ensures Valid()
      ensures session == old(session) - {CURR_USER_KEY}
      ensures CURR_USER_KEY !in old(session) ==> session == old(session)
      ensures CurrentUser().None?
    {
      if CURR_USER_KEY in session {
        session := session - {CURR_USER_KEY};
      }
    }

    // -------------------------------------------------------------------
    // Signup, login, logout

    /** `signup`: on a valid form, create the user (a blank picture URL becomes
        the default one) and log them in; a taken username or email re-shows
        the form and changes nothing; an empty password makes the hashing
        library raise. */
    method SignupRoute(formValid: bool, username: string, email: string, password: string,
                       imageUrl: string, salt: Salt) returns (r: Response)
      requires Valid()
      modifies this
      ensures Valid()
      ensures !formValid ==> r == ShowForm(SignupForm) && unchanged(this)
      ensures formValid && password == "" ==> r == ServerError && unchanged(this)
      ensures formValid && password != "" && Taken(old(users), username, email) ==>
                r == ShowForm(SignupForm) && unchanged(this)
      ensures formValid && password != "" && !Taken(old(users), username, email) ==>
                var u := Signup(bcrypt, old(nextUserId), username, email, password,
                                OrDefault(imageUrl, DEFAULT_IMG_URL), salt).value;
                && r == Redirect(Home)
                && users == old(users) + [u] && nextUserId == old(nextUserId) + 1
                && session == old(session)[CURR_USER_KEY := u.id]
                && messages == old(messages) && follows == old(follows)
                && nextMessageId == old(nextMessageId)
                && CurrentUser() == Some(u)
                && Following(follows, u.id) == [] && Followers(follows, u.id) == []
                && MessagesOf(messages, u.id) == []
    {
      if !formValid {
        return ShowForm(SignupForm);
      }
      var staged := Signup(bcrypt, nextUserId, username, email, password,
                           OrDefault(imageUrl, DEFAULT_IMG_URL), salt);
      if staged.None? {
        return ServerError;
      }
      if Taken(users, username, email) {
        return ShowForm(SignupForm);
      }
      var u := staged.value;
      UsersValidAppend(users, nextUserId, u);
      RaiseUserBound(follows, messages, nextMessageId, nextUserId);
      UnmentionedHasNoEdges(follows, u.id);
      NothingOwnedByFresh(messages, u.id);
      users := users + [u];
      nextUserId := nextUserId + 1;
      DoLogin(u);
      r := Redirect(Home);
    }

    /** `login`: on a valid form, log in the user that `authenticate` returns;
        otherwise re-show the form with the session untouched. */
    method LoginRoute(formValid: bool, username: string, password: string) returns (r: Response)
      requires Valid()
      modifies this`session
      ensures Valid()
      ensures !formValid ==> r == ShowForm(LoginForm) && session == old(session)
      ensures formValid && Authenticate(bcrypt, users, username, password).None? ==>
                r == ShowForm(LoginForm) && session == old(session)
      ensures formValid && Authenticate(bcrypt, users, username, password).Some? ==>
                var u := Authenticate(bcrypt, users, username, password).value;
                r == Redirect(Home) && session == old(session)[CURR_USER_KEY := u.id]
                && CurrentUser() == Some(u)
    {
      if !formValid {
        return ShowForm(LoginForm);
      }
      var user := Authenticate(bcrypt, users, username, password);
      if user.Some? {
        DoLogin(user.value);
        return Redirect(Home);
      }
      r := ShowForm(LoginForm);
    }

    /** `logout`: only with a valid CSRF token; otherwise 401 and no change. */
    method LogoutRoute(csrfValid: bool) returns (r: Response)
      requires Valid()
      modifies this`session
      ensures Valid()
      ensures csrfValid ==> r == Redirect(LoginPage) && session == old(session) - {CURR_USER_KEY}
      ensures !csrfValid ==> r == Unauthorized && session == old(session)
    {
      if csrfValid {
        DoLogout();
        return Redirect(LoginPage);
      }
      r := Unauthorized;
    }

    // -------------------------------------------------------------------
    // User pages (no state change)

    /** `list_users`: every user when `q` is absent or empty, otherwise the
        users whose username contains `q`. */
    function ListUsers(q: Option<string>): (r: Response)
      reads this
      ensures r.UserList?
      ensures q.None? || q == Some("") ==> r.users == users
      ensures q.Some? && q != Some("") ==>
                && r.users == SearchUsers(users, q.value)
                && forall u :: u in r.users <==> u in users && Contains(u.username, q.value)
    {
      if q.None? || q == Some("") then UserList(users) else UserList(SearchUsers(users, q.value))
    }

    /** `users_show`: the profile and its messages newest first, or 404. */
    function UsersShow(userId: UserId): (r: Response)
      reads this
      ensures UserById(users, userId).None? <==> r == NotFound
      ensures UserById(users, userId).Some? ==> r.UserDetail?
      ensures r.UserDetail? ==>
                && r.user in users && r.user.id == userId
                && r.messages == MessagesOf(messages, userId)
    {
      match UserById(users, userId)
      case None => NotFound
      case Some(u) => UserDetail(u, MessagesOf(messages, userId))
    }

    /** `show_following`: needs a current user; lists whom `userId` follows. */
    function ShowFollowing(userId: UserId): (r: Response)
      reads this
      ensures CurrentUser().None? ==> r == Redirect(Home)
      ensures CurrentUser().Some? && UserById(users, userId).None? ==> r == NotFound
      ensures CurrentUser().Some? && UserById(users, userId).Some? ==> r.FollowingList?
      ensures r.FollowingList? ==>
                && CurrentUser().Some? && r.user in users && r.user.id == userId
                && r.following == Following(follows, userId)
    {
      if CurrentUser().None? then Redirect(Home)
      else match UserById(users, userId)
        case None => NotFound
        case Some(u) => FollowingList(u, Following(follows, userId))
    }

    /** `users_followers`: needs a current user; lists who follows `userId`. */
    function UsersFollowers(userId: UserId): (r: Response)
      reads this
      ensures CurrentUser().None? ==> r == Redirect(Home)
      ensures CurrentUser().Some? && UserById(users, userId).None? ==> r == NotFound
      ensures CurrentUser().Some? && UserById(users, userId).Some? ==> r.FollowersList?
      ensures r.FollowersList? ==>
                && CurrentUser().Some? && r.user in users && r.user.id == userId
                && r.followers == Followers(follows, userId)
    {
      if CurrentUser().None? then Redirect(Home)
      else match UserById(users, userId)
        case None => NotFound
        case Some(u) => FollowersList(u, Followers(follows, userId))
    }

    // -------------------------------------------------------------------
    // Following

    /** `add_follow`: needs a current user and an existing target; appends the
        edge without looking for an existing one. A repeated follow is modelled
        as a second row for the same primary key that fails at commit, so that
        nothing changes. */
    method AddFollow(followId: UserId) returns (r: Response)
      requires Valid()
      modifies this`follows
      ensures Valid()
      ensures old(CurrentUser()).None? ==> r == Redirect(Home) && follows == old(follows)
      ensures old(CurrentUser()).Some? && UserById(users, followId).None? ==>
                r == NotFound && follows == old(follows)
      ensures old(CurrentUser()).Some? && UserById(users, followId).Some? &&
              Follow(followId, old(CurrentUser()).value.id) in old(follows) ==>
                r == ServerError && follows == old(follows)
      ensures old(CurrentUser()).Some? && UserById(users, followId).Some? &&
              Follow(followId, old(CurrentUser()).value.id) !in old(follows) ==>
                var me := old(CurrentUser()).value.id;
                && r == Redirect(FollowingPage(me))
                && follows == old(follows) + [Follow(followId, me)]
                && Following(follows, me) == Following(old(follows), me) + [followId]
                && IsFollowing(Following(follows, me), followId)
                && IsFollowedBy(Followers(follows, followId), me)
    {
      var current := CurrentUser();
      if current.None? {
        return Redirect(Home);
      }
      var me := current.value.id;
      var target := UserById(users, followId);
      if target.None? {
        return NotFound;
      }
      var edge := Follow(followId, me);
      if edge in follows {
        return ServerError;
      }
      FollowAppended(follows, me, followId);
      FollowsValidAppend(follows, nextUserId, edge);
      follows := follows + [edge];
      FollowViewsAgree(follows, me, followId);
      r := Redirect(FollowingPage(me));
    }

    /** `stop_following`: needs a current user; removes the edge. `list.remove`
        raises when the target does not exist or is not followed, and then
        nothing changes. */
    method StopFollowing(followId: UserId) returns (r: Response)
      requires Valid()
      modifies this`follows
      ensures Valid()
      ensures old(CurrentUser()).None? ==> r == Redirect(Home) && follows == old(follows)
      ensures old(CurrentUser()).Some? &&
              (UserById(users, followId).None? || Follow(followId, old(CurrentUser()).value.id) !in old(follows)) ==>
                r == ServerError && follows == old(follows)
      ensures old(CurrentUser()).Some? && UserById(users, followId).Some? &&
              Follow(followId, old(CurrentUser()).value.id) in old(follows) ==>
                var me := old(CurrentUser()).value.id;
                && r == Redirect(FollowingPage(me))
                && follows == RemoveFirst(old(follows), Follow(followId, me))
                && !IsFollowing(Following(follows, me), followId)
                && !IsFollowedBy(Followers(follows, followId), me)
    {
      var current := CurrentUser();
      if current.None? {
        return Redirect(Home);
      }
      var me := current.value.id;
      var target := UserById(users, followId);
      var edge := Follow(followId, me);
      if target.None? || edge !in follows {
        return ServerError;
      }
      UnfollowStops(follows, me, followId);
      FollowsValidRemove(follows, nextUserId, edge);
      follows := RemoveFirst(follows, edge);
      r := Redirect(FollowingPage(me));
    }

    // -------------------------------------------------------------------
    // Profile edit and account deletion

    /** `update_profile`: needs a current user and a valid form; re-checks the
        password against the stored hash and only then writes the edited
        fields. A username or email taken by another row breaks a unique
        constraint at commit, and nothing changes. */
    method UpdateProfile(formValid: bool, f: ProfileForm) returns (r: Response)
      requires Valid()
      modifies this`users
      ensures Valid()
      ensures old(CurrentUser()).None? ==> r == Redirect(Home) && users == old(users)
      ensures old(CurrentUser()).Some? && !formValid ==> r == ShowForm(EditForm) && users == old(users)
      ensures old(CurrentUser()).Some? && formValid && !bcrypt.check(old(CurrentUser()).value.password, f.password) ==>
                r == Redirect(Home) && users == old(users)
      ensures old(CurrentUser()).Some? && formValid && bcrypt.check(old(CurrentUser()).value.password, f.password) &&
              ClashesWithOther(old(users), EditedProfile(old(CurrentUser()).value, f)) ==>
                r == ServerError && users == old(users)
      ensures old(CurrentUser()).Some? && formValid && bcrypt.check(old(CurrentUser()).value.password, f.password) &&
              !ClashesWithOther(old(users), EditedProfile(old(CurrentUser()).value, f)) ==>
                var me := old(CurrentUser()).value;
                var k := UserIndex(old(users), me.id).value;
                && r == Redirect(Profile(me.id))
                && users == old(users)[k := EditedProfile(me, f)]
                && CurrentUser() == Some(EditedProfile(me, f))
    {
      var current := CurrentUser();
      if current.None? {
        return Redirect(Home);
      }
      if !formValid {
        return ShowForm(EditForm);
      }
      var me := current.value;
      AuthenticateUnique(bcrypt, users, me, f.password);
      if Authenticate(bcrypt, users, me.username, f.password).None? {
        return Redirect(Home);
      }
      var edited := EditedProfile(me, f);
      if ClashesWithOther(users, edited) {
        return ServerError;
      }
      var k := UserIndex(users, me.id).value;
      UsersValidReplace(users, nextUserId, k, edited);
      users := users[k := edited];
      assert users[k] == edited;
      UserByIdUnique(users, edited);
      r := Redirect(Profile(me.id));
    }

    /** `delete_user`: needs a current user and a valid CSRF token; logs out
        and removes the user's row. What happens to the rows that refer to the
        user is left to the database and not stated here. */
    method DeleteUser(csrfValid: bool) returns (r: Response)
      requires Valid()
      modifies this`users, this`session
      ensures Valid()
      ensures old(CurrentUser()).None? ==> r == Redirect(Home) && users == old(users) && session == old(session)
      ensures old(CurrentUser()).Some? && !csrfValid ==>
                r == Redirect(Home) && users == old(users) && session == old(session)
      ensures old(CurrentUser()).Some? && csrfValid ==>
                var me := old(CurrentUser()).value;
                && r == Redirect(SignupPage)
                && users == RemoveFirst(old(users), me)
                && (forall u :: u in users <==> u in old(users) && u.id != me.id)
                && session == old(session) - {CURR_USER_KEY}
                && CurrentUser().None?
    {
      var current := CurrentUser();
      if current.None? {
        return Redirect(Home);
      }
      if !csrfValid {
        return Redirect(Home);
      }
      var me := current.value;
      DoLogout();
      UsersValidRemove(users, nextUserId, me);
      users := RemoveFirst(users, me);
      r := Redirect(SignupPage);
    }

    // -------------------------------------------------------------------
    // Messages

    /** `messages_add`: needs a current user; on a valid form appends a new
        message owned by that user, stamped `now`, liked by nobody. */
    method MessagesAdd(formValid: bool, text: string, now: int) returns (r: Response)
      requires Valid()
      modifies this`messages, this`nextMessageId
      ensures Valid()
      ensures old(CurrentUser()).None? ==>
                r == Redirect(Home) && messages == old(messages) && nextMessageId == old(nextMessageId)
      ensures old(CurrentUser()).Some? && !formValid ==>
                r == ShowForm(NewMessageForm) && messages == old(messages) && nextMessageId == old(nextMessageId)
      ensures old(CurrentUser()).Some? && formValid ==>
                var me := old(CurrentUser()).value.id;
                && r == Redirect(Profile(me))
                && messages == old(messages) + [Message(old(nextMessageId), text, now, me, [])]
                && nextMessageId == old(nextMessageId) + 1
    {
      var current := CurrentUser();
      if current.None? {
        return Redirect(Home);
      }
      if !formValid {
        return ShowForm(NewMessageForm);
      }
      var me := current.value.id;
      MessagesValidAppend(messages, nextMessageId, nextUserId, Message(nextMessageId, text, now, me, []));
      messages := messages + [Message(nextMessageId, text, now, me, [])];
      nextMessageId := nextMessageId + 1;
      r := Redirect(Profile(me));
    }

    /** `messages_show`: the message, or nothing; an unknown id is not a 404. */
    function MessagesShow(messageId: MessageId): (r: Response)
      reads this
      ensures r.MessageDetail?
      ensures r.message.Some? ==> r.message.value in messages && r.message.value.id == messageId
      ensures r.message.None? <==> forall m :: m in messages ==> m.id != messageId
    {
      match MessageIndex(messages, messageId)
      case None => MessageDetail(None)
      case Some(k) => MessageDetail(Some(messages[k]))
    }

    /** `messages_destroy`: needs a current user, and nothing else: the owner of
        the message is not checked. Deleting an id with no row raises. */
    method MessagesDestroy(messageId: MessageId) returns (r: Response)
      requires Valid()
      modifies this`messages
      ensures Valid()
      ensures old(CurrentUser()).None? ==> r == Redirect(Home) && messages == old(messages)
      ensures old(CurrentUser()).Some? && MessageIndex(old(messages), messageId).None? ==>
                r == ServerError && messages == old(messages)
      ensures old(CurrentUser()).Some? && MessageIndex(old(messages), messageId).Some? ==>
                var m := old(messages)[MessageIndex(old(messages), messageId).value];
                && r == Redirect(Profile(old(CurrentUser()).value.id))
                && messages == RemoveFirst(old(messages), m)
                && (forall n :: n in messages <==> n in old(messages) && n.id != messageId)
    {
      var current := CurrentUser();
      if current.None? {
        return Redirect(Home);
      }
      var found := MessageIndex(messages, messageId);
      if found.None? {
        return ServerError;
      }
      var m := messages[found.value];
      MessagesValidRemove(messages, nextMessageId, nextUserId, m);
      messages := RemoveFirst(messages, m);
      r := Redirect(Profile(current.value.id));
    }

    // -------------------------------------------------------------------
    // Likes

    /** Writes a new like list into row `k` of `messages`; the list must keep
        the primary key of `likes` and refer to handed-out user ids. */
    method SetLikes(k: nat, likes: seq<UserId>)
      requires Valid() && k < |messages|
      requires NoDup(likes) && forall v :: v in likes ==> v < nextUserId
      modifies this`messages
      ensures Valid()
      ensures messages == old(messages)[k := old(messages)[k].(userLikes := likes)]
    {
      var m := messages[k];
      assert m in messages;
      var m' := m.(userLikes := likes);
      MessagesValidReplace(messages, nextMessageId, nextUserId, k, m');
      messages := messages[k := m'];
    }

    /** `User.add_or_remove_like`: removes `user` from `user_likes` of the
        message in row `k` if present, appends it otherwise; no other row
        changes. */
    method AddOrRemoveLike(user: User, k: nat)
      requires Valid() && user in users && k < |messages|
      modifies this`messages
      ensures Valid()
      ensures messages == old(messages)[k := old(messages)[k].(userLikes := ToggleLike(old(messages)[k].userLikes, user.id))]
      ensures user.id in messages[k].userLikes <==> user.id !in old(messages)[k].userLikes
    {
      assert messages[k] in messages;
      var likes := messages[k].userLikes;
      if user.id in likes {
        NoDupRemoveFirst(likes, user.id);
        SetLikes(k, RemoveFirst(likes, user.id));
      } else {
        NoDupAppend(likes, user.id);
        SetLikes(k, likes + [user.id]);
      }
    }

    /** The like route: needs a current user and a valid CSRF token, then an
        existing message (404 otherwise); it repeats the toggle of
        `User.add_or_remove_like` on that message. */
    method LikeRoute(messageId: MessageId, csrfValid: bool) returns (r: Response)
      requires Valid()
      modifies this`messages
      ensures Valid()
      ensures old(CurrentUser()).None? ==> r == Redirect(Home) && messages == old(messages)
      ensures old(CurrentUser()).Some? && !csrfValid ==> r == Redirect(Home) && messages == old(messages)
      ensures old(CurrentUser()).Some? && csrfValid && MessageIndex(old(messages), messageId).None? ==>
                r == NotFound && messages == old(messages)
      ensures old(CurrentUser()).Some? && csrfValid && MessageIndex(old(messages), messageId).Some? ==>
                var k := MessageIndex(old(messages), messageId).value;
                var me := old(CurrentUser()).value.id;
                && r == Redirect(MessagePage(messageId))
                && messages == old(messages)[k := old(messages)[k].(userLikes := ToggleLike(old(messages)[k].userLikes, me))]
                && (me in messages[k].userLikes <==> me !in old(messages)[k].userLikes)
    {
      var current := CurrentUser();
      if current.None? {
        return Redirect(Home);
      }
      if !csrfValid {
        return Redirect(Home);
      }
      var found := MessageIndex(messages, messageId);
      if found.None? {
        return NotFound;
      }
      var k, me := found.value, current.value.id;
      assert messages[k] in messages;
      var likes := messages[k].userLikes;
      if me in likes {
        NoDupRemoveFirst(likes, me);
        SetLikes(k, RemoveFirst(likes, me));
      } else {
        NoDupAppend(likes, me);
        SetLikes(k, likes + [me]);
      }
      r := Redirect(MessagePage(messageId));
    }

    // -------------------------------------------------------------------
    // Home page

    /** `homepage`: the feed of the current user, or the anonymous landing page. */
    function Homepage(): (r: Response)
      reads this
      ensures CurrentUser().None? <==> r == AnonHome
      ensures CurrentUser().Some? ==> r.Feed?
      ensures r.Feed? ==>
                && CurrentUser().Some?
                && r.messages == HomeFeed(messages, Following(follows, CurrentUser().value.id), CurrentUser().value.id)
    {
      match CurrentUser()
      case None => AnonHome
      case Some(u) => Feed(HomeFeed(messages, Following(follows, u.id), u.id))
    }
  }
}
