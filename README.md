# Chat application core, in Dafny

This project models the core of a small Django chat application. Users hold
an account with a username, an e-mail address and an avatar. They exchange
talks: direct messages, each with one sender, one recipient and a creation
time. The model covers:

- the message record and its field rules (`Models`, `models.dfy`);
- the conversation query: every talk between two users, in either
  direction, oldest first (`Conversations`, `conversations.dfy`);
- the friends list. Every other user appears with the newest talk of the
  pair. Users with a talk come first, newest first, and the sort is stable.
  Users never talked with follow in enumeration order
  (`FriendsList`, `friends.dfy`);
- the persisted state. A `Site` object holds the user table, the talk table
  and the session, and its methods update them in place
  (`Store`, `store.dfy`);
- the request handlers and their GET/POST outcome branching
  (`Views`, `views.dfy`).

Modelling choices:

- Time is an integer clock. The caller supplies the current time (`now`).
- The validity of a submitted form is an input flag (`accepted`). The talk
  form is valid only when that flag is set and the body is non-empty and at
  most 500 characters long. That is the one rule the record itself declares.
  The body is the form's cleaned value: a text field strips surrounding
  whitespace before it checks the rule, so a body of blanks arrives empty.
- Whether `authenticate` returns a user is an input flag (`authenticates`).
- `login_required` is a branch on `Site.session`: a request without a
  session is redirected to the login page.

Two behaviours of the code the model keeps:

- The friends list is sorted non-increasing by time, not strictly
  decreasing. Equal times keep the user enumeration order, because Python's
  `sorted` is stable.
- An invalid POST to the talk room renders the empty form built at
  `myapp/views.py:135`, not the submitted form with its errors. The
  template context was captured before `form` was rebound.

## Model

| member | source | states |
|---|---|---|
| Models.BodyOk | myapp/models.py:19 | A talk body is required (not empty) and at most 500 characters long. |
| Models.NewUser | myapp/models.py:5-8 | A new user keeps the submitted username and e-mail. With no upload, the icon is "images/noimage.png"; with one, it is the uploaded path. |
| Models.Lookup | myapp/views.py:129 | `get_object_or_404`: it finds a user with exactly the requested primary key, and finds none exactly when no user has that key. |
| Models.Replace | myapp/views.py:185-187 | `form.save()` on a user instance replaces the row with that primary key and leaves every other row. The set of keys stays the same and keys stay distinct. |
| Models.Cascade | myapp/models.py:21-25 | With CASCADE on both foreign keys, a talk survives a user's deletion exactly when that user neither sent nor received it, and it survives as many times as it was stored. |
| Models.RemoveUser | myapp/models.py:5 | Deleting a user keeps exactly the rows whose key differs from the deleted one. |
| Models.RemoveUserIds | myapp/models.py:5 | After a deletion, the remaining keys are the old ones minus the deleted key. |
| Models.RemoveUserDistinct | myapp/models.py:5 | Deletion keeps primary keys distinct. |
| Models.Label | myapp/models.py:29-30 | `str(talk)` is the username of the talk's sender, then ">>", then the username of its recipient. A talk whose sender or recipient is not a user has no label. |
| Models.SplitLabel | myapp/models.py:29-30 | A label splits exactly when it contains ">>". The split is at the first ">>": the first part holds none, and the two parts put back together with ">>" rebuild the label. |
| Models.LabelRoundTrip | myapp/models.py:29-30 | When the sender's username has no '>', splitting the label of a talk gives back the usernames of its sender and recipient. |
| Conversations.Exchanged | myapp/views.py:104-105 | The Q filter keeps exactly the talks sent from a to b or from b to a. |
| Conversations.ExchangedCounts | myapp/views.py:104-105 | The filter keeps each talk between the two users as many times as the store holds it, and no other talk. |
| Conversations.OrderByTime | myapp/views.py:133 | `order_by("time")` gives the same talks, as a multiset, in non-decreasing time order. |
| Conversations.Conversation | myapp/views.py:131-133 | The talk room's query holds exactly the talks between the two users, in either direction, with multiplicity, oldest first. |
| Conversations.Latest | myapp/views.py:104-106 | `order_by('time').last()` is empty exactly when the pair never talked. Otherwise it is a talk of the pair, and no talk of the pair is newer. |
| Conversations.NewestOfLatest | myapp/views.py:108-109 | The body and time taken from the newest talk are those of a talk of the pair, in one direction or the other, that no talk of the pair is newer than. |
| Conversations.ExchangedSymmetric | myapp/views.py:104-105 | The filter gives the same talks whichever of the two users is asking. |
| Conversations.ConversationSymmetric | myapp/views.py:131-133 | Both users of a talk room see the same conversation. |
| Conversations.ExchangedAppend | myapp/views.py:150-152 | Storing a talk appends it to the filter of its own pair and to no other pair's. |
| Conversations.PostJoinsConversation | myapp/views.py:144-156 | After a valid POST, the new talk is in the conversation of its two users. Every conversation of another pair is unchanged. |
| Conversations.PostedIsNewest | myapp/models.py:27 | A talk stamped no earlier than every stored talk becomes the newest of its pair, so the friends list reports its time. |
| FriendsList.SortByTimeDesc | myapp/views.py:114 | `sorted(key=time, reverse=True)` returns a permutation of its input, non-increasing by time. Rows with equal times keep their input order. |
| FriendsList.InsertionPoint | myapp/views.py:114 | In a newest-first list, the insertion point for a row comes after every row at least as new as it and before every older row. |
| FriendsList.InsertKeepsOrder | myapp/views.py:114 | Inserting a row at that point, when it ranks after every row present, keeps the list newest-first and stable. |
| FriendsList.Friends | myapp/views.py:92-122 | The friends list has one row for every user except the current one, and no other rows. For a user who has a talk with the current user, the row shows the body and time of the pair's newest talk. For a user who has none, the row shows no body and no time. Rows with a talk come first, newest first, with ties in user order. Rows without a talk follow in user order. |
| FriendsList.Assembled | myapp/views.py:113-117 | The sorted with-message rows followed by the no-message rows make a list that keeps every promise of the friends page. |
| FriendsList.AssembledRows | myapp/views.py:108-111 | Every row of the concatenated list belongs to another user and reports that pair's newest talk, or no talk. |
| FriendsList.AssembledComplete | myapp/views.py:95 | Every user other than the current one has a row in the concatenated list. |
| FriendsList.AssembledOnce | myapp/views.py:102-117 | No user has two rows in the concatenated list. |
| FriendsList.AssembledOrder | myapp/views.py:114-117 | The with-message rows come first, newest first with ties in user order. The no-message rows follow in user order. |
| Store.Site.constructor | myapp/models.py:5-30 | An empty site has no users, no talks and no session, and satisfies the invariant. |
| Store.Site.AddUser | myapp/views.py:44 | Saving a sign-up form appends one user under a fresh key and changes no talk and no session. |
| Store.Site.AddTalk | myapp/models.py:17-27 | Saving a talk appends it, stamped with the current time, and leaves every stored talk as it was. Its sender and recipient are users and its body is at most 500 characters, so the invariant holds. |
| Store.Site.SaveUser | myapp/views.py:187 | Saving a settings form replaces the user's row and changes no talk and no session. |
| Store.Site.LogIn | myapp/views.py:62 | `login` binds the session to the user. |
| Store.Site.DeleteUser | myapp/models.py:22-25 | Deleting a user cascades to every talk they sent or received, and ends their session. Every remaining talk's sender and recipient are still users. |
| Views.Apply | myapp/views.py:176-251 | Each settings form changes only its own field of the user: the icon, the e-mail or the username. |
| Views.TalkFormValid | myapp/views.py:147-150 | The talk form is valid when its other checks pass and its cleaned body obeys the body rule. |
| Views.Show | myapp/views.py:30-256 | The index page renders for everyone. The settings page and the `*_done` pages send a visitor without a session to the login page; otherwise each renders its own template with no context. |
| Views.SignUp | myapp/views.py:34-74 | A GET renders the empty form and changes nothing. A valid POST adds one user, logs them in only when authentication succeeds, and always redirects to "/". An invalid POST re-renders the form with its errors and changes nothing. |
| Views.FriendsPage | myapp/views.py:92-122 | Without a session, it redirects to login. Otherwise it renders "myapp/friends.html" with a list that meets every promise of `Friends`. |
| Views.TalkRoom | myapp/views.py:125-163 | Without a session, it redirects to login. An unknown user id gives not-found. A valid POST appends exactly one talk from the current user to the friend and redirects to `talk_room(user_id)`. A GET or an invalid POST changes nothing and renders the ordered conversation with the empty form. |
| Views.ChangeSetting | myapp/views.py:176-251 | Without a session, it redirects to login. A GET renders the form filled from the user and saves nothing. A valid POST saves the one field and redirects to the matching `*_done` view. An invalid POST re-renders the template with errors and saves nothing. |

## Left out

- `myapp/forms.py` and the form classes `views.py` imports: validation is an input flag, apart from the talk body's length rule.
- The `Login`, `Logout`, `PasswordChange` and `PasswordChangeDone` views: framework configuration with no logic of the application's own.
- Password hashing, credentials, `authenticate` and the session machinery: the model keeps only a session field and an input flag for the authentication result.
- Template rendering: an outcome names the template and the context it would be rendered with.
- Image uploads, file storage and the `upload_to="uploads"` prefix: an uploaded icon is its stored path.
- `print(form.errors)`: console output.
- Real datetimes and the wall clock: the time is an integer the caller supplies.
- Conversations.Latest: does not say which of several equally new talks is returned, because the database decides that tie.
- Conversations.OrderByTime: the order among talks with equal times is the model's choice (store order), which the talk room's rendered conversation inherits; the database decides it in the code.
- Views.Apply: which field each settings form saves (the icon, the e-mail or the username) is inferred from the names of `ImageSettingForm`, `MailSettingForm` and `UserNameSettingForm`. Those classes are not part of this model's source: `myapp/forms.py` does not define them. The icon case always writes the submitted value, whatever the form does when no file is posted.
- Stripping of surrounding whitespace from a submitted talk body: the body the model receives is the already cleaned value.
- Username uniqueness and the other checks of the user form: part of the abstract validity flag.
- Concurrency between requests: every handler runs on its own.
- Lazy query sets: a conversation is computed when the handler runs.
- Views.SignUp, Views.ChangeSetting: a method other than GET or POST gives `MethodNotAllowed` instead of the unbound-variable failure of the code.
