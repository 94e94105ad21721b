/** Client code for the store, the form and the session, written against
    their contracts alone: the sign-up and log-in stories of the page. */
module Scenarios {
  import opened Text
  import opened Feedback
  import opened Credentials
  import opened Registration
  import opened Sessions

  /** A fresh store in which `name` has registered through the form with
      `password`; the name needs no stripping. */
  method SignUp(digest: Hasher, name: string, password: string) returns (store: UserStore, notice: Notice)
    requires name != [] && Unpadded(name) && !IsBlank(password)
    ensures fresh(store) && store.Valid() && store.digest == digest
    ensures store.users == map[name := digest(password)] && NormalizedKeys(store.users)
    ensures notice == Success(RegisteredMessage)
  {
    store := new UserStore(digest);
    ValidateAccepts(name, password);
    notice := SubmitRegistration(store, name, password, password);
  }

  /** alice registers with "secret1", logs in with it, and a different
      password (one with a different digest) is refused. */
  method AliceSignsUp(digest: Hasher) returns (registered: Notice, right: bool, wrong: bool)
    requires digest("wrong") != digest("secret1")
    ensures registered == Success(RegisteredMessage)
    ensures right && !wrong
  {
    assert !IsSpace("secret1"[0]);
    var store;
    store, registered := SignUp(digest, "alice", "secret1");
    right := store.AuthenticateUser("alice", "secret1");
    wrong := store.AuthenticateUser("alice", "wrong");
  }

  /** bob registers twice; the second attempt is refused as a duplicate and
      his first password still works. */
  method BobRegistersTwice(digest: Hasher) returns (second: Notice, first: bool)
    ensures second == Error(DuplicateMessage)
    ensures first
  {
    assert !IsSpace("x"[0]) && !IsSpace("y"[0]);
    var store, _ := SignUp(digest, "bob", "x");
    ValidateAccepts("bob", "y");
    second := SubmitRegistration(store, "bob", "y", "y");
    first := store.AuthenticateUser("bob", "x");
  }

  /** Blank credentials are refused by the form and leave the store empty;
      a mismatch is reported before blankness. */
  method BlankRegistration(digest: Hasher) returns (blank: Notice, mismatch: Notice, empty: bool)
    ensures blank == Error(EmptyMessage)
    ensures mismatch == Error(MismatchMessage)
    ensures empty
  {
    var store := new UserStore(digest);
    assert Validate("", "", "") == Blank;
    blank := SubmitRegistration(store, "", "", "");
    assert Validate(" ", "", " ") == Mismatch;
    mismatch := SubmitRegistration(store, " ", "", " ");
    empty := store.users == map[];
  }

  /** carol registers, reaches the detector by logging in and leaves by
      logging out; a login with her name padded by spaces fails and leaves
      the session as it was. */
  method CarolLogsInAndOut(digest: Hasher) returns (before: View, padded: bool, during: View, after: View)
    ensures before == LoginView && !padded
    ensures during == DetectorView && after == LoginView
  {
    assert !IsSpace("pw"[0]);
    var store, _ := SignUp(digest, "carol", "pw");
    var session := new Session();
    before := session.CurrentView(LoginChoice);
    assert !Unpadded(" carol ");
    PaddedLoginRejected(store.users, digest, " carol ", "pw");
    var n := session.Login(store, " carol ", "pw");
    padded := session.loggedIn;
    n := session.Login(store, "carol", "pw");
    during := session.CurrentView(LoginChoice);
    session.Logout();
    after := session.CurrentView(LoginChoice);
  }
}
