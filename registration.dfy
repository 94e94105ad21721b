/** The decision logic of the registration form (`show_register`): the
    password must match its confirmation, then neither the username nor the
    password may be blank, and only then is the store asked to register the
    stripped username with the password as typed. */
module Registration {
  import opened Text
  import opened Feedback
  import opened Credentials

  const MismatchMessage: string := "\U{2757}Passwords do not match"
  const EmptyMessage: string := "\U{2757}Username and password cannot be empty"

  /** The outcome of the form's checks. */
  datatype Check = Mismatch | Blank | Accepted(username: string, password: string)

  /** The form's two checks, in the order the source runs them. A mismatch is
      reported whatever the fields hold, blank ones included; an accepted
      submission carries a non-empty username with no surrounding whitespace
      and the password exactly as typed, which is non-blank and matches its
      confirmation. */
  function Validate(username: string, password: string, confirm: string): (c: Check)
    ensures c == Mismatch <==> password != confirm
    ensures c == Blank <==> password == confirm && (IsBlank(username) || IsBlank(password))
    ensures c.Accepted? ==>
              && c.username != [] && Unpadded(c.username) && c.username == Strip(username)
              && c.password == password == confirm && !IsBlank(c.password)
  {
    if password != confirm then Mismatch
    else if Strip(username) == [] || Strip(password) == [] then Blank
    else Accepted(Strip(username), password)
  }

  /** A matching submission whose username needs no stripping and whose
      password is not blank is accepted as typed. */
  lemma ValidateAccepts(username: string, password: string)
    requires username != [] && Unpadded(username) && !IsBlank(password)
    ensures Validate(username, password, password) == Accepted(username, password)
  {
  }

  /** Every username in the table is non-empty and unpadded: what the table
      looks like when only the form has written to it. */
  ghost predicate NormalizedKeys(users: map<string, Digest>) {
    forall u :: u in users ==> u != [] && Unpadded(u)
  }

  /** Adding an unpadded, non-empty name keeps every stored name unpadded. */
  lemma RegisterKeepsNormalized(users: map<string, Digest>, digest: Hasher, username: string, password: string)
    requires NormalizedKeys(users) && username != [] && Unpadded(username)
    ensures NormalizedKeys(Register(users, digest, username, password).users)
  {
  }

  /** Since the form strips usernames before storing them and the login form
      does not, a login whose username has surrounding whitespace never
      succeeds against a table the form has written. */
  lemma PaddedLoginRejected(users: map<string, Digest>, digest: Hasher, username: string, password: string)
    requires NormalizedKeys(users)
    requires !Unpadded(username)
    ensures !Authenticate(users, digest, username, password)
  {
  }

  /** A click on the Register button. The store is touched only when both
      checks pass, and then exactly as `register_user(username.strip(),
      password)` touches it; the notice is the one the page shows. */
  method SubmitRegistration(store: UserStore, username: string, password: string, confirm: string)
    returns (notice: Notice)
    requires store.Valid()
    modifies store
    ensures store.Valid()
    ensures match Validate(username, password, confirm)
      case Mismatch =>
        && notice == Error(MismatchMessage)
        && store.users == old(store.users) && store.passwords == old(store.passwords)
      case Blank =>
        && notice == Error(EmptyMessage)
        && store.users == old(store.users) && store.passwords == old(store.passwords)
      case Accepted(u, p) =>
        var r := Register(old(store.users), store.digest, u, p);
        && store.users == r.users
        && store.passwords == (if r.ok then old(store.passwords)[u := p] else old(store.passwords))
        && notice == (if r.ok then Success(r.message) else Error(r.message))
    ensures NormalizedKeys(old(store.users)) ==> NormalizedKeys(store.users)
  {
    match Validate(username, password, confirm)
    case Mismatch =>
      notice := Error(MismatchMessage);
    case Blank =>
      notice := Error(EmptyMessage);
    case Accepted(u, p) =>
      if NormalizedKeys(store.users) {
        RegisterKeepsNormalized(store.users, store.digest, u, p);
      }
      var success, msg := store.RegisterUser(u, p);
      notice := if success then Success(msg) else Error(msg);
  }
}
