/** `get_or_create_google_user` in `backend/google_oauth.py`: the user for a
    verified Google identity, found by e-mail address or created with the
    first free user name derived from it. */
module GoogleOAuth {
  import opened Common
  import opened Backend

  const NoEmail := "Email not provided by Google"

  /** The fields of a verified Google ID token that the rule reads. */
  datatype GoogleInfo = GoogleInfo(email: Option<string>, picture: Option<string>)

  datatype OAuthReply = SignedIn(user: User) | OAuthRefused(status: int, detail: string)

  /** The part of the address before the first '@'. */
  function BaseUsername(email: string): (r: string)
    ensures '@' !in r && HasPrefix(email, r)
  {
    SplitOnFirst(email, '@');
    JoinSplitOn(email, '@');
    var parts := SplitOn(email, '@');
    assert email == parts[0] + (if |parts| == 1 then [] else "@" + Join(parts[1..], "@"));
    parts[0]
  }

  lemma BaseUsernameOf(name: string, domain: string)
    requires '@' !in name
    ensures BaseUsername(name + "@" + domain) == name
  {
    IndexOfAppend(name, '@', domain);
    SplitOnFirst(name + "@" + domain, '@');
    assert (name + "@" + domain)[..|name|] == name;
  }

  /** The `j`-th user name tried: the base, then the base followed by 1, 2, … */
  function Candidate(base: string, j: nat): string {
    if j == 0 then base else base + NatToString(j)
  }

  /** Different attempts try different names. */
  lemma CandidateInjective(base: string, i: nat, j: nat)
    requires i != j
    ensures Candidate(base, i) != Candidate(base, j)
  {
    if i != 0 && j != 0 {
      if Candidate(base, i) == Candidate(base, j) {
        assert NatToString(i) == Candidate(base, i)[|base|..];
        assert NatToString(j) == Candidate(base, j)[|base|..];
        NatToStringInjective(i, j);
      }
    } else {
      var k := if i == 0 then j else i;
      assert |Candidate(base, k)| > |base|;
    }
  }

  ghost predicate FirstFree(users: seq<User>, base: string, name: string) {
    exists c: nat :: name == Candidate(base, c) && !HasUsername(users, name) &&
                     forall j: nat :: j < c ==> HasUsername(users, Candidate(base, j))
  }

  function Usernames(users: seq<User>): set<string> {
    set k | 0 <= k < |users| :: users[k].username
  }

  /** The loop over `base`, `base1`, `base2`, … until a name is free. */
  method FreeUsername(db: Database, base: string) returns (name: string)
    ensures FirstFree(db.users, base, name)
  {
    name := base;
    var counter: nat := 1;
    ghost var tried: set<string> := {};
    var taken := db.IsUsernameTaken(name);
    while taken
      invariant name == Candidate(base, counter - 1)
      invariant taken == HasUsername(db.users, name)
      invariant forall j: nat :: j < counter - 1 ==> HasUsername(db.users, Candidate(base, j))
      invariant tried <= Usernames(db.users)
      invariant forall x :: x in tried ==> exists j: nat :: j < counter - 1 && x == Candidate(base, j)
      decreases Usernames(db.users) - tried
    {
      var k :| 0 <= k < |db.users| && db.users[k].username == name;
      assert name in Usernames(db.users);
      if name in tried {
        var j: nat :| j < counter - 1 && name == Candidate(base, j);
        CandidateInjective(base, j, counter - 1);
        assert false;
      }
      tried := tried + {name};
      name := base + NatToString(counter);
      counter := counter + 1;
      taken := db.IsUsernameTaken(name);
    }
  }

  /** `get_or_create_google_user`. */
  method GetOrCreateGoogleUser(db: Database, info: GoogleInfo) returns (r: OAuthReply)
    requires db.Valid()
    modifies db
    ensures db.Valid() && db.events == old(db.events)
    ensures info.email.None? || info.email == Some([]) ==>
              r == OAuthRefused(400, NoEmail) && db.users == old(db.users)
    ensures info.email.Some? && info.email.value != [] && HasEmail(old(db.users), info.email.value) ==>
              var k := FindEmail(old(db.users), info.email.value).value;
              var u := old(db.users)[k];
              var picture := if info.picture.Some? && info.picture.value != [] then info.picture else u.picture;
              r == SignedIn(u.(picture := picture)) && db.users == old(db.users)[k := u.(picture := picture)]
    ensures info.email.Some? && info.email.value != [] && !HasEmail(old(db.users), info.email.value) ==>
              r.SignedIn? && db.users == old(db.users) + [r.user] &&
              r.user == User(FreshId(old(db.users), UserId), info.email.value, r.user.username, true, info.picture) &&
              FirstFree(old(db.users), BaseUsername(info.email.value), r.user.username)
  {
    if info.email.None? || info.email.value == [] {
      return OAuthRefused(400, NoEmail);
    }
    var email := info.email.value;
    var found := db.UserByEmail(email);
    if found.Some? {
      var k := found.value;
      var u := db.users[k];
      if info.picture.Some? && info.picture.value != [] && u.picture != info.picture {
        u := u.(picture := info.picture);
        db.users := db.users[k := u];
      }
      return SignedIn(u);
    }
    var name := FreeUsername(db, BaseUsername(email));
    var u := User(FreshId(db.users, UserId), email, name, true, info.picture);
    db.users := db.users + [u];
    r := SignedIn(u);
  }
}
