/** The request handlers: each reads the session, branches on the request
    method, validates the submitted form, changes the store at most once
    and either renders a template or redirects. */
module Views {
  import opened Models
  import opened Conversations
  import opened FriendsList
  import opened Store

  /** `request.method`. */
  datatype Method = Get | Post | OtherMethod

  /** The form a page is rendered with: an empty form, a form filled from a
      user record, or a submitted form carrying its validation errors. */
  datatype Form = Blank | Initial(user: User) | WithErrors

  /** The context a template is rendered with. */
  datatype Context =
    | NoContext
    | FormContext(form: Form)
    | RoomContext(form: Form, talk: seq<Talk>, friend: User)
    | FriendsContext(info: seq<Entry>)

  /** Where a redirect goes: the site root, the login page (the target of
      `login_required`), or a named view with its arguments. */
  datatype Target = Home | LoginPage | Named(view: string, args: seq<nat>)

  /** What a handler answers. `MethodNotAllowed` stands for a request method
      a handler has no branch for. */
  datatype Outcome =
    | Render(template: string, context: Context)
    | Redirect(to: Target)
    | NotFound
    | MethodNotAllowed

  /** The three profile settings a user can change. */
  datatype Setting = Icon | Email | Username

  /** The template of a settings page. */
  function SettingTemplate(s: Setting): string
  {
    match s
    case Icon => "myapp/user_img_change.html"
    case Email => "myapp/mail_change.html"
    case Username => "myapp/username_change.html"
  }

  /** The confirmation view a saved setting redirects to. */
  function DoneView(s: Setting): string
  {
    match s
    case Icon => "user_img_change_done"
    case Email => "mail_change_done"
    case Username => "username_change_done"
  }

  /** The user record after a settings form is saved: only the field the
      form edits changes. */
  function Apply(s: Setting, u: User, value: string): (r: User)
    ensures r.id == u.id
    ensures r.icon == (if s == Icon then value else u.icon)
    ensures r.email == (if s == Email then value else u.email)
    ensures r.username == (if s == Username then value else u.username)
  {
    match s
    case Icon => u.(icon := value)
    case Email => u.(email := value)
    case Username => u.(username := value)
  }

  /** Whether a submitted talk form is valid: the rest of the form's checks
      (`accepted`) pass and the body obeys the field rule. `body` is the
      form's cleaned value, with surrounding whitespace already stripped, so
      a body of blanks arrives here empty. */
  predicate TalkFormValid(body: string, accepted: bool)
  {
    accepted && BodyOk(body)
  }

  /** The pages that only render a template. */
  datatype Page = IndexPage | SettingPage | DonePage(setting: Setting)

  function PageTemplate(p: Page): string
  {
    match p
    case IndexPage => "myapp/index.html"
    case SettingPage => "myapp/setting.html"
    case DonePage(s) => "myapp/" + DoneView(s) + ".html"
  }

  /** `index`, `setting` and the `*_done` views: the index page is public;
      the others send a visitor without a session to the login page. */
  function Show(p: Page, session: Option<UserId>): (out: Outcome)
    ensures out.Redirect? <==> p != IndexPage && session.None?
    ensures out.Redirect? ==> out.to == LoginPage
    ensures !out.Redirect? ==> out == Render(PageTemplate(p), NoContext)
  {
    if p != IndexPage && session.None? then Redirect(LoginPage)
    else Render(PageTemplate(p), NoContext)
  }

  /** `signup_view`: a valid submission saves a new user, logs them in when
      the credentials authenticate, and redirects home; an invalid one
      re-renders the form with its errors; a GET shows an empty form. */
  method SignUp(site: Site, m: Method, username: string, email: string, upload: Option<string>,
                accepted: bool, authenticates: bool) returns (out: Outcome)
    requires site.Valid()
    modifies site
    ensures site.Valid()
    ensures site.talks == old(site.talks)
    ensures m == Post && accepted ==>
      out == Redirect(Home) &&
      site.users == old(site.users) + [NewUser(old(site.nextId), username, email, upload)] &&
      site.nextId == old(site.nextId) + 1 &&
      site.session == (if authenticates then Some(old(site.nextId)) else old(site.session))
    ensures !(m == Post && accepted) ==>
      site.users == old(site.users) && site.session == old(site.session) && site.nextId == old(site.nextId)
    ensures m == Get ==> out == Render("myapp/signup.html", FormContext(Blank))
    ensures m == Post && !accepted ==> out == Render("myapp/signup.html", FormContext(WithErrors))
    ensures m == OtherMethod ==> out == MethodNotAllowed
  {
    match m
    case Get =>
      out := Render("myapp/signup.html", FormContext(Blank));
    case Post =>
      if accepted {
        var id := site.AddUser(username, email, upload);
        if authenticates {
          site.LogIn(id);
        }
        out := Redirect(Home);
      } else {
        out := Render("myapp/signup.html", FormContext(WithErrors));
      }
    case OtherMethod =>
      out := MethodNotAllowed;
  }

  /** `friends`: the friends page of the logged-in user. */
  method FriendsPage(site: Site) returns (out: Outcome)
    requires site.Valid()
    ensures site.session.None? ==> out == Redirect(LoginPage)
    ensures site.session.Some? ==>
      out.Render? && out.template == "myapp/friends.html" && out.context.FriendsContext? &&
      FriendsListOk(out.context.info, site.users, site.talks, site.session.value)
  {
    if site.session.None? {
      out := Redirect(LoginPage);
    } else {
      var info := Friends(site.users, site.talks, site.session.value);
      out := Render("myapp/friends.html", FriendsContext(info));
    }
  }

  /** `talk_room(user_id)`: a valid POST stores one talk from the logged-in
      user to the friend, stamped `now`, and redirects back to the room;
      any other request renders the conversation as it stood with an empty
      form, the one built before the request method is looked at. */
  method TalkRoom(site: Site, m: Method, userId: UserId, body: string, accepted: bool, now: int)
    returns (out: Outcome)
    requires site.Valid()
    modifies site
    ensures site.Valid()
    ensures site.users == old(site.users) && site.session == old(site.session)
    ensures site.nextId == old(site.nextId)
    ensures old(site.session).None? ==> out == Redirect(LoginPage) && site.talks == old(site.talks)
    ensures old(site.session).Some? && userId !in Ids(old(site.users)) ==>
      out == NotFound && site.talks == old(site.talks)
    ensures old(site.session).Some? && userId in Ids(old(site.users)) && m == Post && TalkFormValid(body, accepted) ==>
      site.talks == old(site.talks) + [Talk(body, old(site.session).value, userId, now)] &&
      out == Redirect(Named("talk_room", [userId]))
    ensures old(site.session).Some? && userId in Ids(old(site.users)) && !(m == Post && TalkFormValid(body, accepted)) ==>
      site.talks == old(site.talks) &&
      out == Render("myapp/talk_room.html",
                    RoomContext(Blank, Conversation(old(site.talks), old(site.session).value, userId),
                                Lookup(old(site.users), userId).value))
  {
    if site.session.None? {
      return Redirect(LoginPage);
    }
    var me := site.session.value;
    var friend := Lookup(site.users, userId);
    if friend.None? {
      return NotFound;
    }
    var talk := Conversation(site.talks, me, userId);
    var context := RoomContext(Blank, talk, friend.value);
    if m == Post {
      if TalkFormValid(body, accepted) {
        site.AddTalk(body, me, userId, now);
        return Redirect(Named("talk_room", [userId]));
      }
    }
    out := Render("myapp/talk_room.html", context);
  }

  /** `user_img_change`, `mail_change` and `username_change`: a GET shows
      the form filled from the user; a valid POST saves the one field and
      redirects to the matching confirmation view; an invalid POST
      re-renders the form with its errors and saves nothing. */
  method ChangeSetting(site: Site, s: Setting, m: Method, value: string, accepted: bool)
    returns (out: Outcome)
    requires site.Valid()
    modifies site
    ensures site.Valid()
    ensures site.talks == old(site.talks) && site.session == old(site.session)
    ensures site.nextId == old(site.nextId)
    ensures old(site.session).None? ==> out == Redirect(LoginPage) && site.users == old(site.users)
    ensures old(site.session).Some? ==>
      var me := Lookup(old(site.users), old(site.session).value);
      me.Some? &&
      (m == Post && accepted ==>
        site.users == Replace(old(site.users), Apply(s, me.value, value)) &&
        out == Redirect(Named(DoneView(s), []))) &&
      (!(m == Post && accepted) ==> site.users == old(site.users)) &&
      (m == Get ==> out == Render(SettingTemplate(s), FormContext(Initial(me.value)))) &&
      (m == Post && !accepted ==> out == Render(SettingTemplate(s), FormContext(WithErrors))) &&
      (m == OtherMethod ==> out == MethodNotAllowed)
  {
    if site.session.None? {
      return Redirect(LoginPage);
    }
    var me := Lookup(site.users, site.session.value).value;
    match m
    case Get =>
      out := Render(SettingTemplate(s), FormContext(Initial(me)));
    case Post =>
      if accepted {
        site.SaveUser(Apply(s, me, value));
        out := Redirect(Named(DoneView(s), []));
      } else {
        out := Render(SettingTemplate(s), FormContext(WithErrors));
      }
    case OtherMethod =>
      out := MethodNotAllowed;
  }
}
