# Language Detector: credential store, registration form and session

A Dafny model of the logic in `main.py` of a small Streamlit page. Visitors
register and log in with a username and password, and logged-in users send
text to a language model that names the text's language. The model covers:

- **The credential store** (`Credentials`). `register_user` and
  `authenticate_user` work on a table from username to password digest. The
  program keeps that table in `users.json`. `register_user` reads the table
  and rewrites it whole only when it adds a user; `authenticate_user` only
  reads it. Here the table is the map field `users` of class `UserStore`.
  `hash_password` is the parameter `digest`, an arbitrary function on
  strings. A ghost map `passwords` records the password behind each digest,
  and `UserStore.Valid` says that the table holds only such digests.
  `RegisterAll` replays any sequence of registrations. The lemmas about it
  show that the first registration of a name wins and that later attempts
  never replace it.
- **The registration form** (`Registration`). This is the branch of
  `show_register`. A password that differs from its confirmation is reported
  first. Then a blank username or password is reported. Only then is
  `register_user(username.strip(), password)` called, with the password
  exactly as typed. Blankness follows Python's `str.strip()` and
  `str.isspace()` (module `Text`).
- **The session** (`Sessions`). This is the pair `logged_in`, `username`
  that `show_login` and `main` keep in the session state. It starts as
  (false, ""). A successful login sets it to (true, name). A failed login
  leaves it unchanged. Logout resets it. `CurrentView` is the page `main`
  chooses from it.
- **The detection prompt** (`Detection`). Whitespace-only input gives a
  warning and no request. Any other input is quoted verbatim in the prompt.
  `Unquote` recovers the input from the prompt.
- `Scenarios` holds client methods for the sign-up and log-in stories. They
  are proved from the contracts above alone.

Where the code differs from what one might expect of a login page, the model follows the code:

- The check for empty credentials belongs to the registration form, not to
  `register_user`. Called directly, `register_user("", "")` succeeds.
- The form strips the username but not the password. For a password with
  spaces around other text, the store keeps the digest of the password with
  its spaces.
- The login form does not strip the username. So a name typed with
  surrounding spaces never logs in once the form has stripped it at
  registration (`PaddedLoginRejected`).
- The code does not promise that a different password is refused. It only
  compares digests. `AuthenticateUser` and `AuthenticateAfterRegistrations`
  state what the code does. They also state the stronger reading, under the
  explicit hypothesis that the hash is injective.

## Model

| member | source | states |
|---|---|---|
| `Text.IsSpace` | main.py:71 | the characters for which Python's `str.isspace()` holds, which `str.strip()` removes: 29 code points (TAB..CR, FS..US, SPACE, NEL, NO-BREAK SPACE, OGHAM SPACE MARK, U+2000..U+200A, LINE and PARAGRAPH SEPARATOR, NARROW NO-BREAK SPACE, MEDIUM MATHEMATICAL SPACE, IDEOGRAPHIC SPACE) |
| `Text.AsciiSpaces` | main.py:71 | below U+0080 the whitespace characters are exactly space, TAB, LF, CR, VT, FF, FS, GS, RS and US |
| `Text.StripStart` | main.py:71 | the result is a suffix of the input that does not start with whitespace; the cut-off prefix is blank; the result is empty exactly when the input is blank |
| `Text.StripEnd` | main.py:71 | the result is a prefix of the input that does not end with whitespace; the cut-off suffix is blank; the result is empty exactly when the input is blank |
| `Text.Strip` | main.py:71 | `str.strip()` gives a result with no whitespace at either end, and the result is empty exactly when the input is blank |
| `Text.BlankIsAllSpace` | main.py:71 | a string is blank exactly when every character is whitespace in the sense of `str.isspace()` |
| `Text.BlankConcat` | main.py:71 | a concatenation is blank exactly when both parts are |
| `Text.StripIsSlice` | main.py:74 | the stripped string is one contiguous slice `s[i..j]` of the input, and the text on either side of it is blank |
| `Text.StripUnpadded` | main.py:74 | a string with no surrounding whitespace is unchanged by stripping |
| `Text.StripIdempotent` | main.py:74 | stripping twice equals stripping once |
| `Credentials.Register` | main.py:36-42 | a known username is refused with the duplicate message and the table left exactly as it was; otherwise the one entry `username -> digest(password)` is added and no other entry changes |
| `Credentials.Authenticate` | main.py:44-46 | `authenticate_user` on a table: only a username that is a key can succeed |
| `Credentials.SameDigestAccepted` | main.py:46 | only the digest is compared: any password with the same digest as an accepted one is accepted too |
| `Credentials.UnknownUserRejected` | main.py:46 | a username not in the table never authenticates, whatever the password |
| `Credentials.RegisterThenAuthenticate` | main.py:40-46 | after a successful registration the same credentials authenticate |
| `Credentials.RegisterKeepsLogins` | main.py:37-40 | no registration, accepted or refused, stops an existing login from working |
| `Credentials.RegisterAll` | main.py:36-42 | after a run of `register_user` calls the table's usernames are the old ones together with every name the calls offered, and no old entry has changed |
| `Credentials.RegisterAllFirstWins` | main.py:36-42 | over any run of registrations, an existing entry is never replaced, and a new entry holds the digest of the first password offered for that name |
| `Credentials.AuthenticateAfterRegistrations` | main.py:33-46 | starting from no users file, a password authenticates exactly when its digest equals that of the first password registered for the name; with an injective hash, exactly when it is that password |
| `Credentials.UserStore.constructor` | main.py:23-27 | a missing users file loads as the empty table |
| `Credentials.UserStore.RegisterUser` | main.py:36-42 | returns `Register`'s flag and message, and writes back exactly its table; the store keeps holding only digests of the recorded passwords, and accepted credentials then authenticate |
| `Credentials.UserStore.AuthenticateUser` | main.py:44-46 | true exactly when the name is registered and the digest of the password equals the digest of the registered password; with an injective hash, exactly when it is the registered password; the store is not changed |
| `Credentials.UserStore.NoPlaintext` | main.py:33-40 | when no password is its own digest, no stored value equals the password it was computed from |
| `Registration.Validate` | main.py:69-72 | a mismatch is reported exactly when the password differs from its confirmation, even if the fields are blank; otherwise a blank username or password is reported; an accepted submission carries the stripped, non-empty username and the unstripped, non-blank password |
| `Registration.ValidateAccepts` | main.py:69-74 | a matching submission with an unpadded, non-empty username and a non-blank password is accepted as typed |
| `Registration.RegisterKeepsNormalized` | main.py:74 | registering a non-empty, unpadded name keeps every stored name non-empty and unpadded |
| `Registration.PaddedLoginRejected` | main.py:74 | when every stored name is unpadded, a login name with surrounding whitespace never authenticates |
| `Registration.SubmitRegistration` | main.py:68-78 | on a mismatch or blank input the store is untouched and that error is shown; otherwise the table and the recorded passwords change exactly as `register_user(username.strip(), password)` changes them and its message is shown as success or error; unpadded stored names stay unpadded |
| `Sessions.WelcomeMessage` | main.py:57 | the greeting contains the username verbatim |
| `Sessions.Session.constructor` | main.py:117-119 | a new session is (false, "") |
| `Sessions.Session.Login` | main.py:53-60 | on successful authentication the session becomes (true, name) with the welcome notice; on failure it is unchanged and the invalid-credentials notice is shown; a session that names a known user still does |
| `Sessions.Session.Logout` | main.py:126-128 | the session becomes (false, "") |
| `Sessions.Session.CurrentView` | main.py:134-140 | the detector is shown exactly when logged in; otherwise the form the radio button selects |
| `Detection.Prompt` | main.py:92 | the prompt is the question, then the input verbatim, then a closing quote |
| `Detection.UnquotePrompt` | main.py:92 | the input can be read back out of its prompt, so distinct inputs give distinct prompts |
| `Detection.PromptUnquote` | main.py:92 | every string of the prompt's shape is the prompt of the text it quotes |
| `Detection.Detect` | main.py:84-107 | whitespace-only input gives the warning notice and no request; any other input gives one request whose prompt quotes that input unstripped |
| `Scenarios.AliceSignsUp` | main.py:36-46 | registering alice succeeds, her password then authenticates, and a password with another digest does not |
| `Scenarios.BobRegistersTwice` | main.py:37-39 | a second registration of bob is refused as a duplicate and his first password still works |
| `Scenarios.BlankRegistration` | main.py:69-72 | blank credentials are refused with the empty message, a mismatch is reported before blankness, and the store stays empty |
| `Scenarios.CarolLogsInAndOut` | main.py:53-60 | carol registers, a login with her name padded by spaces fails, her real login shows the detector, and logout returns to the login form |

## Left out

- SHA-256: `hash_password` is a parameter, not the real `hashlib.sha256(...).hexdigest()`. The fixed 64-character hex format of the digest is not modelled.
- File I/O and JSON: `load_users` and `save_users` are the map field itself. A missing file is the empty table. Corrupt files, crashes mid-write and races between concurrent writers are not modelled.
- The HTTP call: the POST to the Gemini API, the status-code branch, the decoding of `candidates[0]` and the stripping of the reply text are left out. This is network and external-service behaviour.
- Configuration: loading the API key with dotenv and `os.getenv`, and halting when it is missing, is left out.
- Rendering and reruns: widgets, markdown, the sidebar, `st.stop` and the rerun that makes a login or logout show up are left out. The model applies each transition at once.
- Never storing the plaintext: whether a stored digest can equal the password, or reveal it, depends on what SHA-256 computes, which is not modelled. The model proves only that the table holds `digest(password)` for the recorded password. `Credentials.UserStore.NoPlaintext` shows the plaintext is absent under the explicit hypothesis `Hiding(digest)`, that no password is its own digest.
- Credentials.UserStore.AuthenticateUser: it does not claim that a wrong password is refused for every hash, because the code compares only digests. That claim holds only under the stated hypothesis `Injective(digest)`.
