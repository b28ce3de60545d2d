/** The earlier service.AuthenticationService with the entities it saves
    (model.User, model.UserCredential): registration with a password hash,
    credential checks and credential lookup.

    Its tables, "User" and "UserCredential", are its own: the current core
    keeps its users in "AppUser". Only the shape of a credential (email,
    password hash, user id) and the password check are shared with the core
    model. The JVM's stack size is a parameter. */
module LegacyAuth {
  import opened Wrappers
  import opened CoreAuth
  import Calendar
  import HybridClockUUID

  /** The model.User handed to createUser; its id may be unset (None) or
      empty, in which case one is generated. */
  datatype LegacyUser = LegacyUser(id: Option<UserId>, name: string, dateOfBirth: Option<Calendar.Date>)

  /** A row of the "User" table. */
  datatype UserRow = UserRow(id: UserId, name: string, dateOfBirth: Option<Calendar.Date>)

  datatype Tables = Tables(users: map<UserId, UserRow>, credentials: map<Email, Credential>)

  datatype Exception = IllegalArgumentException(message: string) | StackOverflowError

  function DuplicateEmail(email: Email): Exception {
    IllegalArgumentException("User with email " + email + " is already registered!")
  }

  /** The id the user ends up with: its own, unless unset or empty. */
  function AssignedId(user: LegacyUser, generatedId: UserId): (id: UserId)
    ensures user.id.Some? && user.id.value != "" ==> id == user.id.value
    ensures user.id.None? || user.id.value == "" ==> id == generatedId
  {
    if user.id.None? || user.id.value == "" then generatedId else user.id.value
  }

  // ---------------------------------------------------------------------
  // Linking a user and its credential

  /** User.setUserCredential entered with depth frames already on a stack
      that holds limit: it calls UserCredential.setUser, unguarded. */
  function SetUserCredential(depth: nat, limit: nat): Result<(), Exception>
    decreases limit - depth
  {
    if limit <= depth then Failure(StackOverflowError) else SetUser(depth + 1, limit)
  }

  /** UserCredential.setUser: calls User.setUserCredential back, unguarded. */
  function SetUser(depth: nat, limit: nat): Result<(), Exception>
    decreases limit - depth
  {
    if limit <= depth then Failure(StackOverflowError) else SetUserCredential(depth + 1, limit)
  }

  /** The two setters never return normally: whatever the stack size, they
      call each other until it overflows. */
  lemma {:induction false} LinkingOverflows(depth: nat, limit: nat)
    ensures SetUserCredential(depth, limit) == Failure(StackOverflowError)
    ensures SetUser(depth, limit) == Failure(StackOverflowError)
    decreases limit - depth
  {
    if depth < limit {
      LinkingOverflows(depth + 1, limit);
    }
  }

  // ---------------------------------------------------------------------
  // createUser

  /** Saves the user row and its credential together (the credential
      cascades from the user); the result is the user's id. */
  function Save(t: Tables, row: UserRow, credential: Credential): (Tables, Result<UserId, Exception>) {
    (t.(users := t.users[row.id := row], credentials := t.credentials[credential.email := credential]),
     Success(row.id))
  }

  /** createUser as written: a taken email throws; otherwise the id is
      assigned and the password encoded, then linking the credential to the
      user runs the setters, and only if that returns is the user saved. */
  function CreateUserStep(t: Tables, user: LegacyUser, password: string, email: Email,
                          generatedId: UserId, encode: string -> string, stackLimit: nat): (Tables, Result<UserId, Exception>)
  {
    if email in t.credentials then (t, Failure(DuplicateEmail(email)))
    else
      var id := AssignedId(user, generatedId);
      var credential := Credential(email, encode(password), id);
      match SetUserCredential(0, stackLimit)
      case Failure(e) => (t, Failure(e))
      case Success(_) => Save(t, UserRow(id, user.name, user.dateOfBirth), credential)
  }

  /** createUser as its unit test expects it: a new email saves the user
      under its assigned id together with a credential holding the email and
      the encoded password. */
  function CreateUserIntendedStep(t: Tables, user: LegacyUser, password: string, email: Email,
                                  generatedId: UserId, encode: string -> string): (Tables, Result<UserId, Exception>)
  {
    if email in t.credentials then (t, Failure(DuplicateEmail(email)))
    else
      var id := AssignedId(user, generatedId);
      Save(t, UserRow(id, user.name, user.dateOfBirth), Credential(email, encode(password), id))
  }

  /** A taken email throws IllegalArgumentException and leaves both tables
      as they were, as written and as intended. */
  lemma CreateUserDuplicate(t: Tables, user: LegacyUser, password: string, email: Email,
                            generatedId: UserId, encode: string -> string, stackLimit: nat)
    requires email in t.credentials
    ensures var (t', r) := CreateUserStep(t, user, password, email, generatedId, encode, stackLimit);
      t' == t && r == Failure(IllegalArgumentException("User with email " + email + " is already registered!"))
    ensures CreateUserIntendedStep(t, user, password, email, generatedId, encode) == CreateUserStep(t, user, password, email, generatedId, encode, stackLimit)
  {
  }

  /** As written, a new email never gets saved: whatever the stack size,
      linking the credential overflows the stack and the tables stay as
      they were. */
  lemma CreateUserOverflows(t: Tables, user: LegacyUser, password: string, email: Email,
                            generatedId: UserId, encode: string -> string, stackLimit: nat)
    requires email !in t.credentials
    ensures CreateUserStep(t, user, password, email, generatedId, encode, stackLimit) == (t, Failure(StackOverflowError))
  {
    LinkingOverflows(0, stackLimit);
  }

  /** As intended, a new email adds exactly one credential, under that
      email, with the encoded (never the raw) password and the assigned id,
      and the user row under that id; other credentials are untouched. */
  lemma CreateUserSaves(t: Tables, user: LegacyUser, password: string, email: Email,
                        generatedId: UserId, encode: string -> string)
    requires email !in t.credentials
    ensures var (t', r) := CreateUserIntendedStep(t, user, password, email, generatedId, encode);
      && r.Success?
      && (user.id.None? || user.id.value == "" ==> r.value == generatedId)
      && (user.id.Some? && user.id.value != "" ==> r.value == user.id.value)
      && t'.credentials.Keys == t.credentials.Keys + {email}
      && t'.credentials[email] == Credential(email, encode(password), r.value)
      && t'.users.Keys == t.users.Keys + {r.value}
      && t'.users[r.value] == UserRow(r.value, user.name, user.dateOfBirth)
      && (forall e :: e in t.credentials ==> t'.credentials[e] == t.credentials[e])
  {
  }

  /** An email no credential carries never validates, whatever the password
      matcher says, so the matcher's answer is not needed. */
  lemma {:induction false} UnknownEmailNeverValidates(credentials: map<Email, Credential>, email: Email, rawPassword: string,
                                                      m1: (string, string) -> bool, m2: (string, string) -> bool)
    requires email !in credentials
    ensures !CredentialsMatch(credentials, m1, email, rawPassword)
    ensures CredentialsMatch(credentials, m1, email, rawPassword) == CredentialsMatch(credentials, m2, email, rawPassword)
  {
  }

  /** After the intended createUser, the same email and password validate
      whenever the encoder recognises its own hashes, and the credential
      lookup returns what was saved. */
  lemma {:induction false} CreateThenValidate(t: Tables, user: LegacyUser, password: string, email: Email,
                                              generatedId: UserId, encoder: PasswordEncoder)
    requires email !in t.credentials
    requires encoder.matches(password, encoder.encode(password))
    ensures var (t', _) := CreateUserIntendedStep(t, user, password, email, generatedId, encoder.encode);
      && CredentialsMatch(t'.credentials, encoder.matches, email, password)
      && Lookup(t'.credentials, email) == Some(Credential(email, encoder.encode(password), AssignedId(user, generatedId)))
  {
    var (t', _) := CreateUserIntendedStep(t, user, password, email, generatedId, encoder.encode);
    assert email in t'.credentials;
  }

  // ---------------------------------------------------------------------
  // The objects

  /** The "User" and "UserCredential" tables behind the two repositories. */
  class Repositories {
    var users: map<UserId, UserRow>
    var credentials: map<Email, Credential>

    constructor ()
      ensures Contents() == Tables(map[], map[])
    {
      users, credentials := map[], map[];
    }

    function Contents(): Tables
      reads this
    {
      Tables(users, credentials)
    }
  }

  /** service.AuthenticationService. */
  class AuthenticationService {
    const repos: Repositories
    const encoder: PasswordEncoder
    const ids: HybridClockUUID.Generator

    constructor (repos: Repositories, encoder: PasswordEncoder, ids: HybridClockUUID.Generator)
      ensures this.repos == repos && this.encoder == encoder && this.ids == ids
    {
      this.repos := repos;
      this.encoder := encoder;
      this.ids := ids;
    }

    /** createUser, at millisecond now with the given random bytes for a
        generated id, on a stack holding stackLimit frames. The generator is
        consulted only when a new email comes with an unset or empty id. */
    method CreateUser(user: LegacyUser, password: string, email: Email, now: int, entropy: seq<bv8>, stackLimit: nat)
      returns (r: Result<UserId, Exception>)
      requires |entropy| == HybridClockUUID.RandomByteCount(HybridClockUUID.DefaultLength)
      modifies repos, ids
      ensures ids.counter == old(ids.counter) + (if email !in old(repos.credentials) && (user.id.None? || user.id.value == "") then 1 else 0)
      ensures (repos.Contents(), r) ==
        CreateUserStep(old(repos.Contents()), user, password, email,
                       "u-" + HybridClockUUID.Id(HybridClockUUID.DefaultLength, now, ids.counter, entropy),
                       encoder.encode, stackLimit)
    {
      if email in repos.credentials {
        return Failure(DuplicateEmail(email));
      }
      var id: UserId;
      if user.id.None? || user.id.value == "" {
        var suffix := ids.GenerateDefault(now, entropy);
        id := "u-" + suffix;
      } else {
        id := user.id.value;
      }
      var credential := Credential(email, encoder.encode(password), id);
      var linked := SetUserCredential(0, stackLimit);
      if linked.Failure? {
        return Failure(linked.error);
      }
      repos.users := repos.users[id := UserRow(id, user.name, user.dateOfBirth)];
      repos.credentials := repos.credentials[email := credential];
      r := Success(id);
    }

    /** True exactly when a credential exists for the email and the raw
        password matches its hash. */
    function ValidateLogin(email: Email, rawPassword: string): (ok: bool)
      reads repos
      ensures ok <==> email in repos.credentials && encoder.matches(rawPassword, repos.credentials[email].password)
    {
      CredentialsMatch(repos.credentials, encoder.matches, email, rawPassword)
    }

    /** The credential for an email; an unknown email throws. */
    function GetUserCredentialByEmail(email: Email): (r: Result<Credential, Exception>)
      reads repos
      ensures r.Success? <==> email in repos.credentials
      ensures r.Success? ==> r.value == repos.credentials[email]
      ensures r.Failure? ==> r.error == IllegalArgumentException("User with email " + email + " does not exist")
    {
      match Lookup(repos.credentials, email)
      case None => Failure(IllegalArgumentException("User with email " + email + " does not exist"))
      case Some(c) => Success(c)
    }
  }
}
