/**
 * The user table and the two handlers of UserController: registration
 * (`store`) and profile update (`update`).
 *
 * Library behaviour enters as parameters: `isEmail` is Yup's e-mail format
 * test, `passwordHash` the bcrypt digest the model's save hook would store
 * (salted, so a value rather than a function of the password), and
 * `checkPassword(plain, digest)` the bcrypt comparison behind
 * `user.checkPassword`.
 */
module UserController {
  import opened Wrappers
  import opened Queries

  /** Yup's `min(6)` on passwords. */
  const MinPasswordLength := 6

  /** A row of the user table. */
  datatype User = User(id: nat, name: string, email: string, passwordHash: string, provider: bool)

  /** The JSON body of a request: every field may be missing. */
  datatype UserBody = UserBody(
    name: Option<string>,
    email: Option<string>,
    password: Option<string>,
    oldPassword: Option<string>,
    confirmPassword: Option<string>,
    provider: Option<bool>)

  /** What both handlers answer on success: never the password or its digest. */
  datatype UserView = UserView(id: nat, name: string, email: string, provider: bool)

  datatype UserError = ValidationFailed | EmailTaken | OldPasswordIncorrect | RequesterMissing {

    /** The HTTP status the handler answers with. */
    function Status(): int {
      match this
      case ValidationFailed => 400
      case EmailTaken => 400
      case OldPasswordIncorrect => 401
      case RequesterMissing => 500
    }

    /** The text of the answer; a missing requester makes the handler throw instead of answering. */
    function Message(): string {
      match this
      case ValidationFailed => "Validation failed"
      case EmailTaken => "There is already a registered user with this email."
      case OldPasswordIncorrect => "Old password is incorrect"
      case RequesterMissing => ""
    }
  }

  type Reply = Result<UserView, UserError>

  /** Yup's `required()` on a string: present and not empty (also JavaScript truthiness of a string). */
  predicate Given(o: Option<string>) {
    o.Some? && o.value != ""
  }

  /** Yup's `min(n)` on a string: a missing value passes, a present one needs `n` characters. */
  predicate MinLength(o: Option<string>, n: nat) {
    o.Some? ==> |o.value| >= n
  }

  /** The schema of `store`: name, e-mail and a password of at least six characters. */
  predicate RegistrationValid(b: UserBody, isEmail: string -> bool) {
    && Given(b.name)
    && Given(b.email) && isEmail(b.email.value)
    && Given(b.password) && MinLength(b.password, MinPasswordLength)
  }

  /**
   * The schema of `update`: e-mail always; a password when an old one is
   * given; a matching confirmation when a password is given.
   */
  predicate ProfileUpdateValid(b: UserBody, isEmail: string -> bool) {
    && Given(b.email) && isEmail(b.email.value)
    && MinLength(b.oldPassword, MinPasswordLength)
    && MinLength(b.password, MinPasswordLength)
    && (Given(b.oldPassword) ==> Given(b.password))
    && (Given(b.password) ==> Given(b.confirmPassword) && b.confirmPassword.value == b.password.value)
  }

  /** `User.findOne({ where: { email } })` finds a row. */
  predicate EmailInUse(rows: seq<User>, email: string) {
    exists u :: u in rows && u.email == email
  }

  /** `User.findOne({ where: { id, provider: true } })` finds a row. */
  predicate IsProvider(rows: seq<User>, id: int) {
    exists u :: u in rows && u.id == id && u.provider
  }

  /** `User.findByPk(id)`: the position of the row with that id. */
  function FindUser(rows: seq<User>, id: nat): Option<nat> {
    IndexWhere(rows, (u: User) => u.id == id)
  }

  /** The table invariant: ids and e-mails are unique, and every id was handed out already. */
  ghost predicate WellFormed(rows: seq<User>, nextId: nat) {
    && (forall i, j :: 0 <= i < j < |rows| ==> rows[i].id != rows[j].id && rows[i].email != rows[j].email)
    && (forall i :: 0 <= i < |rows| ==> rows[i].id < nextId)
  }

  function ViewOf(u: User): UserView {
    UserView(u.id, u.name, u.email, u.provider)
  }

  /** The row `User.create(body)` inserts; `provider` defaults to false. */
  function NewUser(id: nat, b: UserBody, passwordHash: string): User
    requires b.name.Some? && b.email.Some?
  {
    User(id, b.name.value, b.email.value, passwordHash, b.provider.GetOr(false))
  }

  /**
   * The row after `user.update(body)`: name, e-mail and provider flag as
   * given; the digest is replaced only when a password is given.
   */
  function Applied(u: User, b: UserBody, passwordHash: string): User
    requires b.email.Some?
  {
    u.(name := b.name.GetOr(u.name),
       email := b.email.value,
       passwordHash := if Given(b.password) then passwordHash else u.passwordHash,
       provider := b.provider.GetOr(u.provider))
  }

  /** `store`: the reply and the user table afterwards. */
  function Register(rows: seq<User>, nextId: nat, b: UserBody, isEmail: string -> bool,
                    passwordHash: string): (Reply, seq<User>)
  {
    if !RegistrationValid(b, isEmail) then (Err(ValidationFailed), rows)
    else if EmailInUse(rows, b.email.value) then (Err(EmailTaken), rows)
    else
      var u := NewUser(nextId, b, passwordHash);
      (Ok(ViewOf(u)), rows + [u])
  }

  /** `update` by the user `requester`: the reply and the user table afterwards. */
  function UpdateProfile(rows: seq<User>, requester: nat, b: UserBody, isEmail: string -> bool,
                         checkPassword: (string, string) -> bool, passwordHash: string): (Reply, seq<User>)
  {
    if !ProfileUpdateValid(b, isEmail) then (Err(ValidationFailed), rows)
    else match FindUser(rows, requester)
      case None => (Err(RequesterMissing), rows)
      case Some(i) =>
        var user := rows[i];
        var email := b.email.value;
        if email != user.email && EmailInUse(rows, email) then (Err(EmailTaken), rows)
        else if Given(b.oldPassword) && !checkPassword(b.oldPassword.value, user.passwordHash) then
          (Err(OldPasswordIncorrect), rows)
        else
          var updated := Applied(user, b, passwordHash);
          (Ok(UserView(updated.id, updated.name, email, updated.provider)), rows[i := updated])
  }

  /** Registration answers 400 and adds nothing when the body is invalid or the e-mail is taken. */
  lemma RegisterRejections(rows: seq<User>, nextId: nat, b: UserBody, isEmail: string -> bool, passwordHash: string)
    ensures !RegistrationValid(b, isEmail) ==>
      Register(rows, nextId, b, isEmail, passwordHash) == (Err(ValidationFailed), rows)
    ensures RegistrationValid(b, isEmail) && EmailInUse(rows, b.email.value) ==>
      Register(rows, nextId, b, isEmail, passwordHash) == (Err(EmailTaken), rows)
    ensures Register(rows, nextId, b, isEmail, passwordHash).0.Err? ==>
      Register(rows, nextId, b, isEmail, passwordHash).0.error.Status() == 400
  {
  }

  /**
   * Registration succeeds exactly when the body is valid and the e-mail is
   * free; it then appends one row and answers with its public fields.
   */
  lemma RegisterSuccess(rows: seq<User>, nextId: nat, b: UserBody, isEmail: string -> bool, passwordHash: string)
    ensures Register(rows, nextId, b, isEmail, passwordHash).0.Ok? <==>
      RegistrationValid(b, isEmail) && !EmailInUse(rows, b.email.value)
    ensures Register(rows, nextId, b, isEmail, passwordHash).0.Ok? ==>
      var (reply, rows') := Register(rows, nextId, b, isEmail, passwordHash);
      && |rows'| == |rows| + 1
      && rows'[..|rows|] == rows
      && rows'[|rows|] == User(nextId, b.name.value, b.email.value, passwordHash, b.provider.GetOr(false))
      && reply.value == UserView(nextId, b.name.value, b.email.value, b.provider.GetOr(false))
  {
  }

  /** Registration keeps ids and e-mails unique. */
  lemma RegisterKeepsWellFormed(rows: seq<User>, nextId: nat, b: UserBody, isEmail: string -> bool, passwordHash: string)
    requires WellFormed(rows, nextId)
    ensures
      var (reply, rows') := Register(rows, nextId, b, isEmail, passwordHash);
      WellFormed(rows', if reply.Ok? then nextId + 1 else nextId)
  {
  }

  /** The three conditional rules of the `update` schema. */
  lemma UpdateSchemaRules(b: UserBody, isEmail: string -> bool)
    ensures !Given(b.email) ==> !ProfileUpdateValid(b, isEmail)
    ensures Given(b.oldPassword) && !Given(b.password) ==> !ProfileUpdateValid(b, isEmail)
    ensures Given(b.password) && (!Given(b.confirmPassword) || b.confirmPassword.value != b.password.value) ==>
      !ProfileUpdateValid(b, isEmail)
    ensures Given(b.email) && isEmail(b.email.value) && b.oldPassword.None? && b.password.None? ==>
      ProfileUpdateValid(b, isEmail)
  {
  }

  /**
   * The e-mail lookup runs only when the e-mail changes: keeping one's own
   * e-mail never answers "already registered", taking another user's always does.
   */
  lemma UpdateEmailUniqueness(rows: seq<User>, requester: nat, b: UserBody, isEmail: string -> bool,
                              checkPassword: (string, string) -> bool, passwordHash: string, nextId: nat, i: nat)
    requires ProfileUpdateValid(b, isEmail)
    requires i < |rows| && rows[i].id == requester
    requires WellFormed(rows, nextId)
    ensures b.email.value == rows[i].email ==>
      UpdateProfile(rows, requester, b, isEmail, checkPassword, passwordHash).0 != Err(EmailTaken)
    ensures (exists j :: 0 <= j < |rows| && j != i && rows[j].email == b.email.value) ==>
      UpdateProfile(rows, requester, b, isEmail, checkPassword, passwordHash) == (Err(EmailTaken), rows)
  {
  }

  /** A wrong old password answers 401 and changes nothing; a right one or none passes this gate. */
  lemma UpdateOldPasswordGate(rows: seq<User>, requester: nat, b: UserBody, isEmail: string -> bool,
                              checkPassword: (string, string) -> bool, passwordHash: string, nextId: nat, i: nat)
    requires ProfileUpdateValid(b, isEmail)
    requires i < |rows| && rows[i].id == requester
    requires WellFormed(rows, nextId)
    requires b.email.value == rows[i].email || !EmailInUse(rows, b.email.value)
    ensures Given(b.oldPassword) && !checkPassword(b.oldPassword.value, rows[i].passwordHash) ==>
      UpdateProfile(rows, requester, b, isEmail, checkPassword, passwordHash) == (Err(OldPasswordIncorrect), rows)
    ensures !Given(b.oldPassword) || checkPassword(b.oldPassword.value, rows[i].passwordHash) ==>
      UpdateProfile(rows, requester, b, isEmail, checkPassword, passwordHash).0.Ok?
  {
  }

  /**
   * A successful update rewrites the requester's row only, and the answer
   * carries the submitted e-mail.
   */
  lemma UpdateChangesOnlyRequester(rows: seq<User>, requester: nat, b: UserBody, isEmail: string -> bool,
                                   checkPassword: (string, string) -> bool, passwordHash: string)
    requires UpdateProfile(rows, requester, b, isEmail, checkPassword, passwordHash).0.Ok?
    ensures
      var (reply, rows') := UpdateProfile(rows, requester, b, isEmail, checkPassword, passwordHash);
      && |rows'| == |rows|
      && (forall j :: 0 <= j < |rows| && rows[j].id != requester ==> rows'[j] == rows[j])
      && (exists i :: 0 <= i < |rows| && rows[i].id == requester && rows'[i] == Applied(rows[i], b, passwordHash))
      && reply.value.email == b.email.value
      && reply.value.id == requester
  {
  }

  /**
   * `update` answers 400 and changes nothing when the body breaks the schema,
   * and changes nothing when the requester has no row.
   */
  lemma UpdateRejections(rows: seq<User>, requester: nat, b: UserBody, isEmail: string -> bool,
                         checkPassword: (string, string) -> bool, passwordHash: string)
    ensures !ProfileUpdateValid(b, isEmail) ==>
      UpdateProfile(rows, requester, b, isEmail, checkPassword, passwordHash) == (Err(ValidationFailed), rows)
    ensures ProfileUpdateValid(b, isEmail) && (forall j :: 0 <= j < |rows| ==> rows[j].id != requester) ==>
      UpdateProfile(rows, requester, b, isEmail, checkPassword, passwordHash) == (Err(RequesterMissing), rows)
    ensures UpdateProfile(rows, requester, b, isEmail, checkPassword, passwordHash).0.Err? ==>
      UpdateProfile(rows, requester, b, isEmail, checkPassword, passwordHash).1 == rows
  {
  }

  /** Every `update`, successful or not, keeps ids and e-mails unique. */
  lemma UpdateKeepsWellFormed(rows: seq<User>, nextId: nat, requester: nat, b: UserBody, isEmail: string -> bool,
                              checkPassword: (string, string) -> bool, passwordHash: string)
    requires WellFormed(rows, nextId)
    ensures WellFormed(UpdateProfile(rows, requester, b, isEmail, checkPassword, passwordHash).1, nextId)
  {
  }

  /** The user table, as the handlers see it. */
  class UserTable {
    var rows: seq<User>
    var nextId: nat

    ghost predicate Valid()
      reads this
    {
      WellFormed(rows, nextId)
    }

    constructor ()
      ensures Valid() && rows == [] && nextId == 1
    {
      rows, nextId := [], 1;
    }

    /** `UserController.store`. */
    method Store(b: UserBody, isEmail: string -> bool, passwordHash: string) returns (reply: Reply)
      requires Valid()
      modifies this
      ensures Valid()
      ensures (reply, rows) == Register(old(rows), old(nextId), b, isEmail, passwordHash)
      ensures nextId == if reply.Ok? then old(nextId) + 1 else old(nextId)
    {
      if !RegistrationValid(b, isEmail) {
        return Err(ValidationFailed);
      }
      if EmailInUse(rows, b.email.value) {
        return Err(EmailTaken);
      }
      RegisterKeepsWellFormed(rows, nextId, b, isEmail, passwordHash);
      var user := NewUser(nextId, b, passwordHash);
      rows := rows + [user];
      nextId := nextId + 1;
      reply := Ok(ViewOf(user));
    }

    /** `UserController.update`, for the authenticated user `requester`. */
    method Update(requester: nat, b: UserBody, isEmail: string -> bool,
                  checkPassword: (string, string) -> bool, passwordHash: string) returns (reply: Reply)
      requires Valid()
      modifies this
      ensures Valid() && nextId == old(nextId)
      ensures (reply, rows) == UpdateProfile(old(rows), requester, b, isEmail, checkPassword, passwordHash)
    {
      if !ProfileUpdateValid(b, isEmail) {
        return Err(ValidationFailed);
      }
      var found := FindUser(rows, requester);
      if found.None? {
        return Err(RequesterMissing);
      }
      var user := rows[found.value];
      var email := b.email.value;
      if email != user.email {
        if EmailInUse(rows, email) {
          return Err(EmailTaken);
        }
      }
      if Given(b.oldPassword) && !checkPassword(b.oldPassword.value, user.passwordHash) {
        return Err(OldPasswordIncorrect);
      }
      UpdateKeepsWellFormed(rows, nextId, requester, b, isEmail, checkPassword, passwordHash);
      var updated := Applied(user, b, passwordHash);
      rows := rows[found.value := updated];
      reply := Ok(UserView(updated.id, updated.name, email, updated.provider));
    }
  }
}
