/** The sign-in state shared by the frontend (`AuthProvider` in
    `frontend/src/contexts/AuthContext.jsx`): the signed-in user, the token in
    memory and in local storage, the `Authorization` header of the HTTP
    client, and the loading flag. The server's replies are parameters. */
module AuthContext {
  import opened Common

  /** What `/me` returns. */
  datatype UserInfo = UserInfo(id: int, email: string, username: string, picture: Option<string>)

  /** The requests the provider sends, in order. */
  datatype Request = PostLogin(username: string, password: string) |
                     PostRegister(email: string, username: string, password: string) |
                     GetMe

  /** The reply to `/login`: a token, or an error with its `detail`, if any. */
  datatype LoginReply = Token(accessToken: string) | LoginRejected(detail: Option<string>)

  /** The reply to `/register`. */
  datatype RegisterReply = Created | RegisterRejected(detail: Option<string>)

  /** What `login` and `register` resolve to. */
  datatype AuthResult = Success | Failure(error: string)

  const LoginFailed := "Login failed"
  const RegistrationFailed := "Registration failed"

  /** `detail || fallback`: an absent or empty detail gives the fallback. */
  function DetailOr(detail: Option<string>, fallback: string): (r: string)
    ensures detail.Some? && detail.value != "" ==> r == detail.value
    ensures detail.None? || detail.value == "" ==> r == fallback
  {
    if detail.Some? && detail.value != "" then detail.value else fallback
  }

  /** A JavaScript truthy token: present and not empty. */
  predicate Truthy(t: Option<string>) { t.Some? && t.value != "" }

  function Bearer(t: string): string { "Bearer " + t }

  class Session {
    var user: Option<UserInfo>
    var token: Option<string>
    var loading: bool
    /** The `token` entry of local storage. */
    var stored: Option<string>
    /** The client's default `Authorization` header. */
    var header: Option<string>

    /** The stored token is the token in memory, and a signed-in user's
        requests carry that token. */
    predicate Valid()
      reads this
    {
      stored == token && (user.Some? ==> token.Some? && header == Some(Bearer(token.value)))
    }

    /** `isAuthenticated`. */
    predicate IsAuthenticated()
      reads this
    {
      Truthy(token) && user.Some?
    }

    /** The provider mounts with the token read from local storage. */
    constructor(saved: Option<string>)
      ensures Valid() && user.None? && token == saved && stored == saved && loading && header.None?
    {
      user, token, loading, stored, header := None, saved, true, saved, None;
    }

    /** `logout`: forgets the user and the token everywhere. */
    method Logout()
      modifies this
      ensures Valid() && !IsAuthenticated()
      ensures user.None? && token.None? && stored.None? && header.None? && loading == old(loading)
    {
      user, token, stored, header := None, None, None, None;
    }

    /** `fetchUserInfo` with the reply of `/me`: the user when it succeeds,
        a logout when it fails, and loading off in both cases. */
    method FetchUserInfo(fetched: Option<UserInfo>)
      requires Valid() && token.Some? && header == Some(Bearer(token.value))
      modifies this
      ensures Valid() && !loading
      ensures fetched.Some? ==> user == fetched && token == old(token) && header == old(header)
      ensures fetched.None? ==> user.None? && token.None? && stored.None? && header.None?
    {
      if fetched.Some? {
        user := fetched;
      } else {
        Logout();
      }
      loading := false;
    }

    /** The effect that runs when the token changes: a truthy token is put
        on the header and checked against `/me`; otherwise loading ends. */
    method TokenChanged(fetched: Option<UserInfo>) returns (calls: seq<Request>)
      requires Valid()
      modifies this
      ensures Valid() && !loading
      ensures Truthy(old(token)) ==> calls == [GetMe]
      ensures Truthy(old(token)) && fetched.Some? ==>
                user == fetched && token == old(token) && header == Some(Bearer(token.value))
      ensures Truthy(old(token)) && fetched.None? ==> user.None? && token.None? && stored.None? && header.None?
      ensures !Truthy(old(token)) ==> calls == [] && user == old(user) && token == old(token) && header == old(header)
    {
      if Truthy(token) {
        header := Some(Bearer(token.value));
        FetchUserInfo(fetched);
        calls := [GetMe];
      } else {
        loading := false;
        calls := [];
      }
    }

    /** `login`: sends the credentials; a token is stored, put on the header
        and followed by `/me`, and the result is a success even when `/me`
        then fails; a refusal leaves the state as it was. */
    method Login(username: string, password: string, reply: LoginReply, fetched: Option<UserInfo>)
      returns (result: AuthResult, calls: seq<Request>)
      requires Valid()
      modifies this
      ensures Valid()
      ensures reply.Token? ==> result == Success && calls == [PostLogin(username, password), GetMe] && !loading
      ensures reply.Token? && fetched.Some? ==>
                user == fetched && token == Some(reply.accessToken) && stored == token &&
                header == Some(Bearer(reply.accessToken))
      ensures reply.Token? && fetched.None? ==> user.None? && token.None? && stored.None? && header.None?
      ensures reply.LoginRejected? ==>
                result == Failure(DetailOr(reply.detail, LoginFailed)) && calls == [PostLogin(username, password)] &&
                user == old(user) && token == old(token) && stored == old(stored) && header == old(header) &&
                loading == old(loading)
    {
      match reply {
        case Token(t) =>
          token := Some(t);
          stored := Some(t);
          header := Some(Bearer(t));
          FetchUserInfo(fetched);
          result, calls := Success, [PostLogin(username, password), GetMe];
        case LoginRejected(detail) =>
          result, calls := Failure(DetailOr(detail, LoginFailed)), [PostLogin(username, password)];
      }
    }

    /** `register`: on success signs in with the same user name and
        password; a refusal changes nothing and reports its detail. */
    method Register(email: string, username: string, password: string, reply: RegisterReply,
                    loginReply: LoginReply, fetched: Option<UserInfo>)
      returns (result: AuthResult, calls: seq<Request>)
      requires Valid()
      modifies this
      ensures Valid()
      ensures reply.Created? && loginReply.Token? ==>
                result == Success && calls == [PostRegister(email, username, password), PostLogin(username, password), GetMe] &&
                !loading
      ensures reply.Created? && loginReply.Token? && fetched.Some? ==>
                user == fetched && token == Some(loginReply.accessToken) && stored == token &&
                header == Some(Bearer(loginReply.accessToken))
      ensures reply.Created? && loginReply.Token? && fetched.None? ==>
                user.None? && token.None? && stored.None? && header.None?
      ensures reply.Created? && loginReply.LoginRejected? ==>
                result == Failure(DetailOr(loginReply.detail, LoginFailed)) &&
                calls == [PostRegister(email, username, password), PostLogin(username, password)] &&
                user == old(user) && token == old(token) && stored == old(stored) && header == old(header) &&
                loading == old(loading)
      ensures reply.RegisterRejected? ==>
                result == Failure(DetailOr(reply.detail, RegistrationFailed)) &&
                calls == [PostRegister(email, username, password)] &&
                user == old(user) && token == old(token) && stored == old(stored) && header == old(header) &&
                loading == old(loading)
    {
      match reply {
        case Created =>
          var more;
          result, more := Login(username, password, loginReply, fetched);
          calls := [PostRegister(email, username, password)] + more;
        case RegisterRejected(detail) =>
          result, calls := Failure(DetailOr(detail, RegistrationFailed)), [PostRegister(email, username, password)];
      }
    }
  }

  /** After a reload the session resumes from local storage: it is signed
      in exactly when a truthy token was saved and `/me` accepts it. */
  method Resume(saved: Option<string>, fetched: Option<UserInfo>) returns (s: Session)
    ensures s.Valid() && !s.loading
    ensures s.IsAuthenticated() <==> Truthy(saved) && fetched.Some?
    ensures s.IsAuthenticated() ==> s.user == fetched && s.header == Some(Bearer(saved.value))
  {
    s := new Session(saved);
    var calls := s.TokenChanged(fetched);
  }

  /** Signing in and then out always ends signed out, with nothing stored. */
  method LoginThenLogout(s: Session, username: string, password: string, reply: LoginReply,
                         fetched: Option<UserInfo>)
    requires s.Valid()
    modifies s
    ensures s.Valid() && !s.IsAuthenticated() && s.stored.None? && s.header.None?
  {
    var result, calls := s.Login(username, password, reply, fetched);
    s.Logout();
  }
}
