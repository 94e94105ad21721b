/** The credential store of main.py: a table from username to password
    digest, kept in users.json. `register_user` reads the table and rewrites
    it whole only when it adds a user; `authenticate_user` only reads it.

    `hash_password` is SHA-256 in hex; here it is the parameter `digest`, an
    arbitrary function from password to digest, so nothing below depends on
    what the hash computes. Where a property needs distinct passwords to have
    distinct digests, that is an explicit hypothesis. */
module Credentials {
  import opened Wrappers

  /** What `hash_password` returns and the store keeps. */
  type Digest = string

  /** A password-hashing function. */
  type Hasher = string -> Digest

  /** Distinct passwords have distinct digests. Nothing in the source promises
      this of SHA-256; lemmas that use it say so in their requires. */
  ghost predicate Injective(digest: Hasher) {
    forall p, q :: digest(p) == digest(q) ==> p == q
  }

  /** No password is its own digest. The source relies on SHA-256 for this
      and nothing in it proves it; lemmas that use it say so in their
      requires. */
  ghost predicate Hiding(digest: Hasher) {
    forall p :: digest(p) != p
  }

  const DuplicateMessage: string := "\U{1F6AB} Username already exists."
  const RegisteredMessage: string := "\U{2705} Registration successful! Please login."

  /** The pair `register_user` returns, with the table it leaves behind. */
  datatype RegisterResult = RegisterResult(ok: bool, message: string, users: map<string, Digest>)

  /** `register_user(username, password)` on the table `users`: a username
      already present is refused and the table kept as it was; otherwise the
      one entry `username -> digest(password)` is added. */
  function Register(users: map<string, Digest>, digest: Hasher, username: string, password: string): (r: RegisterResult)
    ensures r.ok <==> username !in users
    ensures r.message == if r.ok then RegisteredMessage else DuplicateMessage
    ensures r.users.Keys == users.Keys + {username}
    ensures forall v :: v in users ==> r.users[v] == users[v]
    ensures r.ok ==> r.users[username] == digest(password)
  {
    if username in users then
      RegisterResult(false, DuplicateMessage, users)
    else
      RegisterResult(true, RegisteredMessage, users[username := digest(password)])
  }

  /** `authenticate_user(username, password)` on the table `users`: only a
      known username can succeed. */
  predicate Authenticate(users: map<string, Digest>, digest: Hasher, username: string, password: string)
    ensures Authenticate(users, digest, username, password) ==> username in users
  {
    username in users && users[username] == digest(password)
  }

  /** A username that is not in the table never authenticates, whatever the
      password. */
  lemma UnknownUserRejected(users: map<string, Digest>, digest: Hasher, username: string, password: string)
    requires username !in users
    ensures !Authenticate(users, digest, username, password)
  {
  }

  /** Only the digest of the password matters: a password with the same
      digest as one that is accepted is accepted too. */
  lemma SameDigestAccepted(users: map<string, Digest>, digest: Hasher, username: string, password: string, other: string)
    requires Authenticate(users, digest, username, password)
    requires digest(other) == digest(password)
    ensures Authenticate(users, digest, username, other)
  {
  }

  /** After a successful registration the same credentials authenticate. */
  lemma RegisterThenAuthenticate(users: map<string, Digest>, digest: Hasher, username: string, password: string)
    requires Register(users, digest, username, password).ok
    ensures Authenticate(Register(users, digest, username, password).users, digest, username, password)
  {
  }

  /** A registration, accepted or refused, never changes whether anybody who
      could log in before still can. */
  lemma RegisterKeepsLogins(users: map<string, Digest>, digest: Hasher, username: string, password: string, other: string, otherPassword: string)
    requires Authenticate(users, digest, other, otherPassword)
    ensures Authenticate(Register(users, digest, username, password).users, digest, other, otherPassword)
  {
  }

  /** One `register_user` call. */
  datatype Account = Account(username: string, password: string)

  /** The table after the `register_user` calls `requests`, in order, starting
      from `users`. A call that adds a user rewrites the whole table; a
      refused one leaves it as it was. */
  function RegisterAll(users: map<string, Digest>, digest: Hasher, requests: seq<Account>): (r: map<string, Digest>)
    ensures r.Keys == users.Keys + Usernames(requests)
    ensures forall v :: v in users ==> r[v] == users[v]
    decreases |requests|
  {
    if requests == [] then users
    else
      UsernamesCons(requests);
      RegisterAll(Register(users, digest, requests[0].username, requests[0].password).users, digest, requests[1..])
  }

  /** The usernames the calls `requests` name. */
  function Usernames(requests: seq<Account>): set<string> {
    set i | 0 <= i < |requests| :: requests[i].username
  }

  /** The usernames of a run are those of its first call and of the rest. */
  lemma UsernamesCons(requests: seq<Account>)
    requires requests != []
    ensures Usernames(requests) == {requests[0].username} + Usernames(requests[1..])
  {
    assert forall i :: 1 <= i < |requests| ==> requests[i] == requests[1..][i - 1];
  }

  /** The password of the first call in `requests` that names `username`. */
  function FirstPassword(requests: seq<Account>, username: string): Option<string> {
    if requests == [] then None
    else if requests[0].username == username then Some(requests[0].password)
    else FirstPassword(requests[1..], username)
  }

  /** Over any run of registrations the first one for a username wins: an
      entry already present is never replaced, and a new one holds the digest
      of the first password offered for it. */
  lemma {:induction false} RegisterAllFirstWins(users: map<string, Digest>, digest: Hasher, requests: seq<Account>, username: string)
    ensures username in RegisterAll(users, digest, requests) <==> username in users || FirstPassword(requests, username).Some?
    ensures username in users ==> RegisterAll(users, digest, requests)[username] == users[username]
    ensures username !in users && FirstPassword(requests, username).Some? ==>
              RegisterAll(users, digest, requests)[username] == digest(FirstPassword(requests, username).value)
    decreases |requests|
  {
    if requests != [] {
      var next := Register(users, digest, requests[0].username, requests[0].password).users;
      RegisterAllFirstWins(next, digest, requests[1..], username);
    }
  }

  /** Starting from an empty table (no users.json yet), a password
      authenticates after any run of registrations exactly when it has the
      same digest as the first password registered for that username; with
      an injective hash, exactly when it is that password. */
  lemma AuthenticateAfterRegistrations(digest: Hasher, requests: seq<Account>, username: string, password: string)
    ensures Authenticate(RegisterAll(map[], digest, requests), digest, username, password) <==>
              FirstPassword(requests, username).Some? && digest(FirstPassword(requests, username).value) == digest(password)
    ensures Injective(digest) ==>
              (Authenticate(RegisterAll(map[], digest, requests), digest, username, password) <==>
                 FirstPassword(requests, username) == Some(password))
  {
    RegisterAllFirstWins(map[], digest, requests, username);
  }

  /** The store as the program holds it: the table `users` that `load_users`
      and `save_users` move to and from users.json, together with the hash
      function. The ghost map `passwords` records the password each digest was
      computed from; `Valid` says the table holds only such digests. */
  class UserStore {
    const digest: Hasher
    var users: map<string, Digest>
    ghost var passwords: map<string, string>

    ghost predicate Valid()
      reads this
    {
      && users.Keys == passwords.Keys
      && forall u :: u in users ==> users[u] == digest(passwords[u])
    }

    /** The store before users.json exists: `load_users` returns `{}`. */
    constructor (digest: Hasher)
      ensures Valid()
      ensures this.digest == digest && users == map[] && passwords == map[]
    {
      this.digest := digest;
      users := map[];
      passwords := map[];
    }

    /** `register_user`: reads the table and, only when the username is new,
        writes it back with the one entry added. */
    method RegisterUser(username: string, password: string) returns (ok: bool, message: string)
      requires Valid()
      modifies this
      ensures Valid()
      ensures var r := Register(old(users), digest, username, password);
                ok == r.ok && message == r.message && users == r.users
      ensures passwords == if ok then old(passwords)[username := password] else old(passwords)
      ensures ok ==> Authenticate(users, digest, username, password)
    {
      if username in users {
        return false, DuplicateMessage;
      }
      users := users[username := digest(password)];
      passwords := passwords[username := password];
      ok, message := true, RegisteredMessage;
    }

    /** When no password is its own digest, the table holds no recorded
        password in the clear. */
    lemma NoPlaintext()
      requires Valid() && Hiding(digest)
      ensures forall u :: u in users ==> users[u] != passwords[u]
    {
    }

    /** `authenticate_user`: true when the username is known and the digest of
        `password` equals the stored digest, i.e. equals the digest of the
        password it was registered with. The store is not changed. */
    method AuthenticateUser(username: string, password: string) returns (ok: bool)
      requires Valid()
      ensures ok == Authenticate(users, digest, username, password)
      ensures ok <==> username in passwords && digest(passwords[username]) == digest(password)
      ensures Injective(digest) ==> (ok <==> username in passwords && passwords[username] == password)
    {
      ok := username in users && users[username] == digest(password);
    }
  }
}
