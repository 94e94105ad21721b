/** The per-visitor session of main.py: the pair `logged_in`, `username` kept
    in the framework's session state, changed by the Login button of
    `show_login` and the Logout button of `main`, and read by `main` to choose
    the page to show. */
module Sessions {
  import opened Feedback
  import opened Credentials

  const InvalidMessage: string := "\U{274C} Invalid username or password"

  /** The greeting shown after a successful login. */
  function WelcomeMessage(username: string): (m: string)
    ensures |m| == 21 + |username| && m[18..18 + |username|] == username
  {
    "\U{1F389} Welcome back, **" + username + "**!"
  }

  /** The sidebar radio button: Login or Register. */
  datatype Choice = LoginChoice | RegisterChoice

  /** The form `main` shows below the header. */
  datatype View = LoginView | RegisterView | DetectorView

  class Session {
    var loggedIn: bool
    var username: string

    /** Nobody is named while logged out. */
    ghost predicate Valid()
      reads this
    {
      !loggedIn ==> username == ""
    }

    /** A logged-in session names a user the store knows. */
    ghost predicate KnownTo(store: UserStore)
      reads this, store
    {
      loggedIn ==> username in store.users
    }

    /** A fresh session: `main` sets `logged_in` to False and `username` to "". */
    constructor ()
      ensures Valid()
      ensures !loggedIn && username == ""
    {
      loggedIn := false;
      username := "";
    }

    /** A click on the Login button: on success the session becomes
        (true, name); on failure it is left exactly as it was. */
    method Login(store: UserStore, name: string, password: string) returns (notice: Notice)
      requires store.Valid()
      modifies this
      ensures var ok := Authenticate(store.users, store.digest, name, password);
                && (ok ==> loggedIn && username == name && notice == Success(WelcomeMessage(name)))
                && (!ok ==> loggedIn == old(loggedIn) && username == old(username) && notice == Error(InvalidMessage))
      ensures old(Valid()) ==> Valid()
      ensures old(KnownTo(store)) ==> KnownTo(store)
    {
      var ok := store.AuthenticateUser(name, password);
      if ok {
        loggedIn := true;
        username := name;
        notice := Success(WelcomeMessage(name));
      } else {
        notice := Error(InvalidMessage);
      }
    }

    /** A click on the Logout button: back to the fresh session. */
    method Logout()
      modifies this
      ensures Valid()
      ensures !loggedIn && username == ""
    {
      loggedIn := false;
      username := "";
    }

    /** The page `main` renders: the language detector exactly when logged
        in, otherwise the form the radio button selects. */
    function CurrentView(choice: Choice): (v: View)
      reads this
      ensures v == DetectorView <==> loggedIn
      ensures v == LoginView <==> !loggedIn && choice == LoginChoice
      ensures v == RegisterView <==> !loggedIn && choice == RegisterChoice
    {
      if loggedIn then DetectorView
      else match choice
        case LoginChoice => LoginView
        case RegisterChoice => RegisterView
    }
  }
}
