/** The page-side API client: the error message a failed response turns
    into, the session kept in the browser's key-value storage, and the page
    a signed-in user is sent to. */
module ApiService {
  import opened Wrappers
  import opened Text
  import opened Models
  import opened Library

  /** A response body as the client holds it after parsing: a JSON null,
      object (with or without a message property), array or other scalar,
      or a string (a JSON string, or the raw text of a non-JSON body). */
  datatype Data = Null | Object(message: Option<string>) | Array | Str(text: string) | Scalar

  /** What handleResponse does with a response: it resolves to the body, or
      throws an Error carrying a message. Reading the message property of
      a null body throws a TypeError instead. */
  datatype Outcome = Resolved(data: Data) | Rejected(message: string) | NullBodyTypeError

  /** "Error: " in the page's language. */
  const ErrorPrefix: string := "خطأ: "
  /** The text the browser gives a request that never reached the server. */
  const FetchFailure: string := "Failed to fetch"
  /** What the page shows instead: the server could not be reached. */
  const ConnectionFailed: string := "فشل الاتصال بالخادم. تأكد من تشغيل الخادم الخلفي."

  /** A JavaScript string value is truthy when it is present and not empty. */
  predicate Truthy(s: Option<string>) {
    s.Some? && s.value != ""
  }

  /** A JavaScript number is truthy when it is present and not zero. */
  predicate TruthyId(n: Option<int>) {
    n.Some? && n.value != 0
  }

  /** The fallback message: the prefix, the status code and the status text. */
  function StatusMessage(status: int, statusText: string): (m: string)
    ensures StartsWith(m, ErrorPrefix)
    ensures m[|ErrorPrefix|..] == IntToString(status) + " " + statusText
  {
    var rest := IntToString(status) + " " + statusText;
    var m := ErrorPrefix + rest;
    assert m[..|ErrorPrefix|] == ErrorPrefix && m[|ErrorPrefix|..] == rest;
    m
  }

  /** handleResponse. A response with an ok status resolves to its body.
      Otherwise the message is the body's message property when the body
      is an object with a non-empty one, else the body itself when it is a
      string, else the status message. */
  function HandleResponse(ok: bool, status: int, statusText: string, data: Data): (r: Outcome)
    ensures ok <==> r.Resolved?
    ensures ok ==> r.data == data
    ensures r.NullBodyTypeError? <==> !ok && data.Null?
    ensures r.Rejected? && data.Object? && Truthy(data.message) ==> r.message == data.message.value
    ensures r.Rejected? && data.Str? ==> r.message == data.text
    ensures r.Rejected? && !(data.Str? || (data.Object? && Truthy(data.message))) ==>
      r.message == StatusMessage(status, statusText)
  {
    if ok then Resolved(data)
    else match data
      case Null => NullBodyTypeError
      case Object(message) =>
        if Truthy(message) then Rejected(message.value) else Rejected(StatusMessage(status, statusText))
      case Str(text) => Rejected(text)
      case _ => Rejected(StatusMessage(status, statusText))
  }

  /** makeRequest's handler: an error whose message mentions a fetch
      failure is replaced by the connection message; any other is passed
      on unchanged. */
  function Rethrown(message: string): (r: string)
    ensures Includes(message, FetchFailure) ==> r == ConnectionFailed
    ensures !Includes(message, FetchFailure) ==> r == message
  {
    if Includes(message, FetchFailure) then ConnectionFailed else message
  }

  /** The HTTP status of each backend answer. */
  function StatusOf<T>(r: Response<T>): (code: int)
    ensures r.Ok? <==> 200 <= code < 300
  {
    match r
    case Ok(_) => 200
    case BadRequest(_) => 400
    case EmptyBadRequest => 400
    case NotFound(_) => 404
    case Unauthorized(_) => 401
    case ServerError(_) => 500
  }

  /** The reason text a refusing backend answer carries in its body, if
      any: every refusal except the body-less 400 carries one. */
  function ReasonOf<T>(r: Response<T>): (reason: Option<string>)
    ensures reason.None? <==> r.Ok? || r.EmptyBadRequest?
  {
    match r
    case BadRequest(m) => Some(m)
    case NotFound(m) => Some(m)
    case Unauthorized(m) => Some(m)
    case ServerError(m) => Some(m)
    case _ => None
  }

  /** Every text refusal of the backend reaches the page as the error
      message, unchanged, unless it happens to mention a fetch failure. */
  lemma BackendReasonShown<T>(r: Response<T>, statusText: string)
    requires ReasonOf(r).Some? && !Includes(ReasonOf(r).value, FetchFailure)
    ensures HandleResponse(200 <= StatusOf(r) < 300, StatusOf(r), statusText, Str(ReasonOf(r).value))
            == Rejected(ReasonOf(r).value)
    ensures Rethrown(ReasonOf(r).value) == ReasonOf(r).value
  {
  }

  /** The storage keys of a session. */
  const UserKey: string := "user"
  const UserIdKey: string := "userId"
  const EmailKey: string := "userEmail"
  const NameKey: string := "userName"
  const RoleKey: string := "userRole"
  const SessionKeys: set<string> := {UserKey, UserIdKey, EmailKey, NameKey, RoleKey}

  /** The five session keys are five different keys. */
  lemma SessionKeysDistinct()
    ensures UserKey != UserIdKey && UserKey != EmailKey && UserKey != NameKey && UserKey != RoleKey
    ensures UserIdKey != EmailKey && UserIdKey != NameKey && UserIdKey != RoleKey
    ensures EmailKey != NameKey && EmailKey != RoleKey && NameKey != RoleKey
  {
    assert |UserKey| == 4 && |UserIdKey| == 6 && |EmailKey| == 9 && |NameKey| == 8 && |RoleKey| == 8;
    assert NameKey[4] != RoleKey[4];
  }

  /** The fields of the session object the client saves; a field that is
      undefined is None. */
  datatype UserData = UserData(userId: Option<int>, email: Option<string>, userName: Option<string>, role: Option<string>)

  /** The entry a key has after a write of v when v is truthy, and no
      write otherwise. */
  predicate KeptOrSet(items: map<string, string>, before: map<string, string>, key: string, v: Option<string>) {
    if Truthy(v) then key in items && items[key] == v.value
    else (key in items <==> key in before) && (key in items ==> items[key] == before[key])
  }

  /** The session entries saveUserData leaves for the data d: the encoded
      object under 'user', and each field under its own key when it is
      truthy. */
  predicate Saved(items: map<string, string>, before: map<string, string>, d: UserData, encode: UserData -> string) {
    && UserKey in items && items[UserKey] == encode(d)
    && KeptOrSet(items, before, UserIdKey, IdText(d.userId))
    && KeptOrSet(items, before, EmailKey, d.email)
    && KeptOrSet(items, before, NameKey, d.userName)
    && KeptOrSet(items, before, RoleKey, d.role)
  }

  /** The encoding of the session object never yields the empty text, as
      JSON.stringify of an object never does. */
  ghost predicate NeverEmpty(encode: UserData -> string) {
    forall d :: encode(d) != ""
  }

  /** A key is untouched. */
  predicate Same(items: map<string, string>, before: map<string, string>, key: string) {
    (key in items <==> key in before) && (key in items ==> items[key] == before[key])
  }

  /** String(userId) for a truthy id, nothing otherwise. */
  function IdText(n: Option<int>): (r: Option<string>)
    ensures Truthy(r) <==> TruthyId(n)
    ensures TruthyId(n) ==> r.value == IntToString(n.value)
  {
    if TruthyId(n) then Some(IntToString(n.value)) else None
  }

  /** The session data kept after a login reply: the user's key, e-mail and
      role, and the name, or the e-mail when no name came back. Nothing is
      kept when the reply has no truthy userId. */
  function LoginSession(data: UserData): (r: Option<UserData>)
    ensures r.Some? <==> TruthyId(data.userId)
    ensures r.Some? ==> r.value.userId == data.userId && r.value.email == data.email && r.value.role == data.role
    ensures r.Some? && Truthy(data.userName) ==> r.value.userName == data.userName
    ensures r.Some? && !Truthy(data.userName) ==> r.value.userName == data.email
  {
    if !TruthyId(data.userId) then None
    else Some(data.(userName := if Truthy(data.userName) then data.userName else data.email))
  }

  /** The session data kept after a registration reply: the key, the name,
      the reply's Email property and the default role Member. Nothing is
      kept when the reply has no truthy userId. */
  function RegisterSession(userId: Option<int>, userName: Option<string>, emailProperty: Option<string>): (r: Option<UserData>)
    ensures r.Some? <==> TruthyId(userId)
    ensures r.Some? ==> r.value == UserData(userId, emailProperty, userName, Some(MemberRole))
  {
    if TruthyId(userId) then Some(UserData(userId, emailProperty, userName, Some(MemberRole))) else None
  }

  /** The backend's login reply as the client reads it. */
  function LoginData(reply: LoginReply): (d: UserData)
    ensures d.userId == Some(reply.userId) && d.email == Some(reply.email)
    ensures d.userName == Some(reply.userName) && d.role == Some(reply.role)
  {
    UserData(Some(reply.userId), Some(reply.email), Some(reply.userName), Some(reply.role))
  }

  /** redirectToDashboard: the admin dashboard for the role Admin, the home
      page for every other role. */
  function RedirectToDashboard(role: string): (page: string)
    ensures page == "dashbord.html" <==> role == AdminRole
    ensures page == "index.html" <==> role != AdminRole
  {
    if role == AdminRole then "dashbord.html" else "index.html"
  }

  /** The browser's key-value storage as the client uses it. */
  class BrowserStorage {
    var items: map<string, string>

    constructor (initial: map<string, string>)
      ensures items == initial
    {
      items := initial;
    }

    /** getUserData: the saved session text, when there is a non-empty
        one. */
    function GetUserData(): (r: Option<string>)
      reads this
      ensures r.Some? <==> UserKey in items && items[UserKey] != ""
      ensures r.Some? ==> r.value == items[UserKey]
    {
      if UserKey in items && items[UserKey] != "" then Some(items[UserKey]) else None
    }

    /** isLoggedIn: a session is saved. */
    predicate IsLoggedIn()
      reads this
      ensures IsLoggedIn() <==> UserKey in items && items[UserKey] != ""
    {
      GetUserData().Some?
    }

    /** saveUserData. Nothing happens without data. Otherwise the whole
        object is written under 'user' and each truthy field under its own
        key; falsy fields leave their keys as they were, and so does every
        key outside the session. */
    method SaveUserData(userData: Option<UserData>, encode: UserData -> string)
      requires NeverEmpty(encode)
      modifies this
      ensures userData.None? ==> items == old(items)
      ensures userData.Some? ==> Saved(items, old(items), userData.value, encode) && IsLoggedIn()
      ensures forall k :: k !in SessionKeys ==> Same(items, old(items), k)
    {
      if userData.None? {
        return;
      }
      var d := userData.value;
      SessionKeysDistinct();
      items := items[UserKey := encode(d)];
      SetIfTruthy(UserIdKey, IdText(d.userId));
      SetIfTruthy(EmailKey, d.email);
      SetIfTruthy(NameKey, d.userName);
      SetIfTruthy(RoleKey, d.role);
      forall k | k !in SessionKeys ensures Same(items, old(items), k) {
        assert k != UserKey && k != UserIdKey && k != EmailKey && k != NameKey && k != RoleKey;
      }

    }

    /** One guarded setItem: the key is written when the value is truthy;
        no other key changes. */
    method SetIfTruthy(key: string, v: Option<string>)
      modifies this
      ensures items == if Truthy(v) then old(items)[key := v.value] else old(items)
    {
      if Truthy(v) {
        items := items[key := v.value];
      }
    }

    /** clearUserData (and logoutUser): the five session keys go, every
        other key stays, and no one is logged in any more. */
    method ClearUserData()
      modifies this
      ensures items == old(items) - SessionKeys
      ensures forall k :: k in SessionKeys ==> k !in items
      ensures forall k :: k !in SessionKeys ==> Same(items, old(items), k)
      ensures !IsLoggedIn()
    {
      items := items - {UserKey};
      items := items - {UserIdKey};
      items := items - {EmailKey};
      items := items - {NameKey};
      items := items - {RoleKey};
    }

    /** The session part of loginUser, once the reply is in. */
    method RememberLogin(data: UserData, encode: UserData -> string)
      requires NeverEmpty(encode)
      modifies this
      ensures !TruthyId(data.userId) ==> items == old(items)
      ensures TruthyId(data.userId) ==>
        && Saved(items, old(items), LoginSession(data).value, encode) && IsLoggedIn()
        && KeptOrSet(items, old(items), UserIdKey, IdText(data.userId))
        && KeptOrSet(items, old(items), EmailKey, data.email)
        && KeptOrSet(items, old(items), NameKey, if Truthy(data.userName) then data.userName else data.email)
        && KeptOrSet(items, old(items), RoleKey, data.role)
      ensures forall k :: k !in SessionKeys ==> Same(items, old(items), k)
    {
      SaveUserData(LoginSession(data), encode);
    }

    /** The session part of registerUser, once the reply is in. */
    method RememberRegistration(userId: Option<int>, userName: Option<string>, emailProperty: Option<string>,
                                encode: UserData -> string)
      requires NeverEmpty(encode)
      modifies this
      ensures !TruthyId(userId) ==> items == old(items)
      ensures TruthyId(userId) ==>
        && Saved(items, old(items), RegisterSession(userId, userName, emailProperty).value, encode) && IsLoggedIn()
        && KeptOrSet(items, old(items), UserIdKey, IdText(userId))
        && KeptOrSet(items, old(items), NameKey, userName)
        && KeptOrSet(items, old(items), EmailKey, emailProperty)
        && RoleKey in items && items[RoleKey] == MemberRole
      ensures forall k :: k !in SessionKeys ==> Same(items, old(items), k)
    {
      SaveUserData(RegisterSession(userId, userName, emailProperty), encode);
    }
  }

  /** After a successful backend login the session holds the user's role,
      and the dashboard redirect for that role is the admin page exactly
      for an admin. */
  lemma LoginRoleKept(reply: LoginReply)
    requires reply.userId != 0 && reply.role != ""
    ensures LoginSession(LoginData(reply)).Some?
    ensures LoginSession(LoginData(reply)).value.role == Some(reply.role)
    ensures RedirectToDashboard(reply.role) == "dashbord.html" <==> reply.role == AdminRole
  {
  }
}
