# Warbler, modelled in Dafny

Warbler is a small Twitter-like Flask application. Users sign up and log in. They
post short messages ("warbles"), follow other users, like messages, and read a home
feed made of their own messages and those of the users they follow.

This project models the data layer (`models.py`) and the request handlers
(`app.py`) over an in-memory store:

- `wrappers.dfy`: the `Option` type.
- `lists.dfy`: sequence helpers. These cover duplicate-freedom, the removal done by
  Python's `list.remove`, and removing every copy of a value.
- `models.dfy`: the `User`, `Message` and `Follow` records and the two follow views
  (`User.following`, `User.followers`). It also covers `is_following` and
  `is_followed_by`, the like toggle of `add_or_remove_like`, `signup`,
  `authenticate`, and the newest-first ordering of `User.messages`.
- `app.dfy`:
  - the class `App.Warbler`. It holds the three tables as sequences of rows, the
    session as a map, and the next unused user and message ids. Its `Valid()`
    states the database constraints: unique ids, usernames and emails; the
    composite primary keys of `follows` and `likes`; references only to ids that
    were handed out.
  - one member per route or helper of `app.py`. Read-only routes are functions and
    routes that change state are methods. Each method's `ensures` gives the
    response and the new state on every path: not logged in, invalid form or CSRF
    token, missing row, an exception the handler does not catch, and success.

`g.user` is `CurrentUser()`: the row whose id the session holds under `"curr_user"`.
An exception a handler does not catch becomes `ServerError`, and the request's
transaction is then discarded, so the state is unchanged. Password hashing is an
uninterpreted pair of functions, `generate(password, salt)` and `check(hash,
password)`. `Models.Sound` states the one promise the model relies on: a hash
verifies against its own password.

Behaviours of the code that a reader of the route names might not expect, and that the model keeps:

- `update_profile` replaces a blank image or header URL with the default URL. It
  does not keep the user's existing value (`app.py:229-230`).
- `stop_following` raises when the target does not exist or is not followed. It is
  not a no-op (`list.remove`, `app.py:208-209`).
- `add_follow` does not look for an existing edge (`app.py:193-195`). The model
  reads a repeated follow as a second row for the same primary key, which fails
  at commit and becomes `ServerError`. This is a reading of the ORM; see
  "## Left out".
- `messages_destroy` does not check who owns the message (`app.py:302-304`).
- Signup with an empty password fails inside the hashing library, before any
  uniqueness check (`models.py:156`).

## Model

| member | source | states |
|---|---|---|
| Lists.RemoveFirst | models.py:134-135 | `list.remove(x)`: the sequence minus the first `x`, with `x` taken out of the multiset exactly once |
| Models.Following | models.py:92-97 | each user's multiplicity in `following` of `u` equals the number of follow edges with follower `u` and that user followed |
| Models.Followers | models.py:85-90 | each user's multiplicity in `followers` of `u` equals the number of follow edges with `u` followed by that user |
| Models.Found | models.py:118 | the filtered list holds only `other`, as many times as `other` occurs |
| Models.IsFollowedBy | models.py:114-119 | true exactly when `other` occurs once in the followers list |
| Models.IsFollowing | models.py:121-126 | true exactly when `other` occurs once in the following list |
| Models.FollowViewsAgree | models.py:85-97 | `b` is in `a`'s following exactly when `a` is in `b`'s followers, and the two tests agree |
| Models.IsFollowingIsEdge | models.py:11-26 | under the composite primary key, `is_following` and `is_followed_by` hold exactly when the edge is in the table |
| Models.UnmentionedHasNoEdges | test_user_model.py:70-76 | a user named by no edge has empty following and followers lists |
| Models.FollowAppended | app.py:193-195 | appending a new edge appends the target to the follower's following list and makes `is_following` true |
| Models.UnfollowRemoves | app.py:208-209 | removing the edge from the table removes the first occurrence of the target from the following list, and the target was there |
| Models.UnfollowStops | app.py:208-209 | under the primary key, after the edge is removed neither `is_following` nor `is_followed_by` holds |
| Models.FollowThenUnfollow | app.py:185-212 | following a user who was not followed and then unfollowing them restores the follow table exactly |
| Models.ToggleLike | models.py:128-137 | a present like is removed once and an absent one is appended at the end; other users' likes are unchanged; under the primary key the user is liked afterwards exactly when they were not before |
| Models.ToggleTwiceAbsent | models.py:134-137 | liking and then unliking restores the like list exactly |
| Models.ToggleTwicePresent | models.py:134-137 | unliking and then liking again gives the same likes, with the user moved to the end |
| Models.Signup | models.py:149-166 | fails exactly for an empty password; otherwise a row with the given fields, the password replaced by its hash, the default header image, and empty bio and location |
| Models.FindByUsername | models.py:180 | some row with that username, and none exactly when no row has it |
| Models.Authenticate | models.py:169-187 | returns only a row with that username whose stored hash accepts the password; an unknown username fails |
| Models.AuthenticateUnique | models.py:180-187 | with unique usernames, authenticating a user's own name succeeds with that user exactly when the hash accepts the password |
| Models.SignupThenAuthenticate | models.py:149-187 | a user signed up with a fresh username and a non-empty password can then authenticate with that password |
| Models.UserIndex | app.py:226-231 | the position of the row with that id, or none exactly when no row has it |
| Models.UserById | app.py:41 | a row with that id, or none exactly when no row has that id |
| Models.UserByIdUnique | models.py:37-40 | with unique ids, looking up a user's id returns that user |
| Models.MessageIndex | app.py:290 | the position of a message with that id, or none exactly when no message has it |
| Models.SortNewestFirst | models.py:81-83 | a newest-first ordering of the same multiset of messages |
| Models.MessagesOf | models.py:81-83 | `User.messages`: exactly the messages of that user, each as often as in the table, newest first |
| Models.NothingOwnedByFresh | test_user_model.py:70-76 | a user who wrote no message has an empty message list |
| App.EditedProfile | app.py:227-231 | a blank username or email keeps the old value; a blank image or header URL becomes the default; the bio is the form's; id, password and location are untouched |
| App.ContainsIsSubstring | app.py:146 | the `LIKE '%q%'` test holds exactly when `q` occurs at some position of the username |
| App.SearchUsers | app.py:146 | exactly the users whose username contains `q`, each as often as in the table |
| App.Eligible | app.py:349-353 | exactly the messages written by the user or by someone they follow, each with its multiplicity |
| App.HomeFeed | app.py:347-356 | eligible messages only, newest first, a prefix of the sorted eligible messages, of length at most 100, and all of them when there are no more than 100 |
| App.FeedIsMostRecent | app.py:351-356 | an eligible message left out of the feed is no newer than any message in it |
| Models.NewestFirst | models.py:81-83 | `order_by(Message.timestamp.desc())`: no message is older than one after it |
| App.InFeed | app.py:353 | the feed filter: the author is among the followed users or is the user |
| App.Warbler.Valid | models.py:16-26 | the database constraints on the three tables together: `UsersValid`, `FollowsValid` and `MessagesValid` |
| App.UsersValid | models.py:37-52 | the `users` table: unique ids (primary key), unique usernames and emails, and every id already handed out |
| App.FollowsValid | models.py:16-26 | the `follows` table: no duplicate row under the composite primary key, and both columns refer to handed-out user ids |
| App.MessagesValid | models.py:195-198 | the `messages` table: unique message ids, and each row valid by `MessageValid` |
| App.MessageValid | models.py:222-232 | one message row: its id and author already handed out, and its like list keeps the `likes` composite primary key with handed-out user ids |
| Models.Taken | app.py:82-86 | a row already has the username or the email, which is when signup's commit raises `IntegrityError` |
| App.ClashesWithOther | app.py:227-232 | another row has the edited username or email, which is when the profile commit breaks a unique constraint |
| App.Contains | app.py:146 | `username LIKE '%q%'` for a `q` without wildcards; its meaning is stated by `App.ContainsIsSubstring` |
| Models.OwnedBy | models.py:81-83 | the rows of the `messages` relationship: exactly the messages whose author is the user, each as often as in the table |
| App.OrDefault | app.py:80 | Python's `value or default` on strings: the value unless it is empty |
| App.Warbler.CurrentUser | app.py:35-44 | `g.user` is the row whose id the session holds, and is none when the key is absent or no such row exists |
| App.Warbler.DoLogin | app.py:47-50 | stores the user's id under the session key; that user then becomes the current user; the table constraints still hold |
| App.Warbler.DoLogout | app.py:53-57 | removes the session key if present, leaves the session alone otherwise, and leaves nobody logged in |
| App.Warbler.SignupRoute | app.py:60-93 | invalid form shows the form; empty password raises; a taken username or email shows the form and changes nothing; otherwise appends the new user with the default picture for a blank URL, logs them in, and the new user has no follows and no messages |
| App.Warbler.LoginRoute | app.py:96-113 | logs in the user `authenticate` returns; a failed authentication or an invalid form shows the form with the session unchanged |
| App.Warbler.LogoutRoute | app.py:116-128 | with a valid CSRF token, logs out and redirects to the login page; otherwise `Unauthorized` with the session unchanged |
| App.Warbler.ListUsers | app.py:134-148 | every user for an absent or empty `q`, otherwise the search result: exactly the users whose username contains `q`, each as often as in the table |
| App.Warbler.UsersShow | app.py:151-157 | 404 exactly when no user has the id; when the user exists, always the profile page with that user and their messages newest first |
| App.Warbler.ShowFollowing | app.py:160-169 | redirects home when nobody is logged in, gives 404 for an unknown id, and when logged in with an existing user always lists whom that user follows |
| App.Warbler.UsersFollowers | app.py:172-182 | redirects home when nobody is logged in, gives 404 for an unknown id, and when logged in with an existing user always lists who follows that user |
| App.Warbler.AddFollow | app.py:185-197 | login gate; 404 for an unknown target; a repeated follow is a server error with no change; otherwise the edge is appended, the target is added to the following list and `is_following` and `is_followed_by` hold |
| App.Warbler.StopFollowing | app.py:200-212 | login gate; an unknown or unfollowed target is a server error with no change; otherwise the edge is removed and neither `is_following` nor `is_followed_by` holds |
| App.Warbler.UpdateProfile | app.py:214-238 | login gate; invalid form shows the form; a wrong password redirects home with no change; a username or email taken by another row is a server error with no change; otherwise only the current user's row is replaced by the edited profile |
| App.Warbler.DeleteUser | app.py:241-258 | login gate; without a valid CSRF token redirects home with no change; otherwise logs out and removes exactly the current user's row |
| App.Warbler.MessagesAdd | app.py:263-283 | login gate; invalid form shows the form; otherwise appends a new message with a fresh id, owned by the current user and liked by nobody |
| App.Warbler.MessagesShow | app.py:286-291 | the message with that id, or none exactly when no message has it |
| App.Warbler.MessagesDestroy | app.py:294-306 | login gate with no owner check; an unknown id is a server error with no change; otherwise exactly that message is removed |
| App.Warbler.AddOrRemoveLike | models.py:128-137 | only the like list of the given message changes, by the toggle; the user likes it afterwards exactly when they did not before |
| App.Warbler.LikeRoute | app.py:312-332 | login and CSRF gates; 404 for an unknown message; otherwise toggles the current user's like on that message only, and redirects to it |
| App.Warbler.Homepage | app.py:339-361 | the anonymous page exactly when nobody is logged in; otherwise always the feed, and it is the home feed of the current user |

## Left out

- The web layer: routing, templates, flash messages, redirect URLs as strings, and the cache-control hook. Responses are the `Response` datatype.
- Form and CSRF validation are inputs: `formValid` and `csrfValid`. The field validators, such as email format and minimum password length, are not modelled.
- The 140-character limit on message text is not modelled. Neither is the check that the database enforces it.
- Timestamps, `datetime.utcnow` and the hashing salt are parameters, because they are clock and random inputs.
- Bcrypt itself is uninterpreted. Only `Models.Sound` is assumed about it, and only where a lemma needs it.
- The ORM, the session and commit are left out. Each request is one atomic step. After an uncaught exception the state is as before.
- App.Warbler.DeleteUser: states only that the user's row is removed. What happens to the follows, messages and likes that refer to the user is not modelled; in the model those rows stay.
- App.Warbler.MessagesDestroy: the like list of the deleted message is stored inside it and goes with it. What the database does to the `likes` rows is not modelled separately.
- `add_user_to_g` runs a database lookup. It is modelled as the function `CurrentUser()` on the current state.
- The order of rows in the tables and in ORM relationship lists is modelled as insertion order. The order among messages with equal timestamps is the insertion sort's choice, not the database's.
- `q` in the user search is matched literally. SQL `LIKE` wildcards (`%`, `_`) and the escape character (a backslash on PostgreSQL) inside `q`, and case rules of the collation, are not modelled.
- App.Warbler.MessagesShow: rendering is not modelled. For an unknown id the model returns `MessageDetail(None)`.
- App.Warbler.StopFollowing: states the removal from the table and that the follow no longer holds. The effect on the order of the following list is `Models.UnfollowRemoves`, a separate lemma.
- Startup and environment are left out: database URL, secret key, debug toolbar and `connect_db`.
- App.Warbler.AddFollow: a repeated follow is modelled as a second `follows` row that breaks the primary key at commit. Whether the ORM emits that second row for a user already in the loaded `following` list is not modelled.
- Ids: `nextUserId` and `nextMessageId` are ids not yet used by any row. A database sequence also uses up a value on a failed insert, such as a signup with a taken username; the model does not advance the id then, so the ids it hands out can differ from the database's. Only their freshness is modelled.
- Concurrency between requests is left out.
