/** The User schema (models/User.js): the record, its role enumeration and
    defaults, the validation a new user goes through, the pre-save rule that
    rehashes a password only when it changed, and `comparePassword`. */
module UserModel {
  import opened Common
  import Text
  import Crypto

  /** The `role` enumeration `['user', 'admin']`. */
  datatype Role = Regular | Admin

  function RoleName(r: Role): string
  {
    match r
    case Regular => "user"
    case Admin => "admin"
  }

  /** The enum validator: only the two spelled names are roles. */
  function ParseRole(s: string): (r: Option<Role>)
    ensures r.Some? <==> s == "user" || s == "admin"
    ensures r.Some? ==> RoleName(r.value) == s
  {
    if s == "user" then Some(Regular)
    else if s == "admin" then Some(Admin)
    else None
  }

  /** Every role survives a round trip through its stored name. */
  lemma ParseRoleName(r: Role)
    ensures ParseRole(RoleName(r)) == Some(r)
  {
  }

  /** A stored user. `password` holds the bcrypt hash once saved. */
  datatype User = User(
    id: Id,
    email: string,
    password: string,
    role: Role,
    recentlyViewedTasks: seq<Id>)

  function UserId(u: User): Id { u.id }

  /** A stored user as the server attaches it to a request: the document
      loaded with `.select('-password')`. */
  datatype Identity = Identity(id: Id, email: string, role: Role, recentlyViewedTasks: seq<Id>)

  function IdentityOf(u: User): (i: Identity)
    ensures i.id == u.id && i.email == u.email && i.role == u.role
  {
    Identity(u.id, u.email, u.role, u.recentlyViewedTasks)
  }

  predicate IsAdmin(i: Identity)
  {
    i.role == Admin
  }

  /** What the schema demands of a stored user's email: present and trimmed.
      (The password is validated before the pre-save hook replaces it with
      its hash.) */
  predicate ValidUser(u: User)
  {
    u.email != "" && Text.Trimmed(u.email)
  }

  /** `new User({ email, password, role })` followed by the schema's casting
      and validation: `email` is trimmed and required, `password` required,
      `role` must name a role and defaults to `user`, `recentlyViewedTasks`
      defaults to the empty list. The password is still plain text here; the
      pre-save hook hashes it. */
  function NewUser(id: Id, email: string, password: string, role: Option<string>): (r: Result<User>)
    ensures r.Success? <==>
              && !Text.AllSpace(email)
              && password != ""
              && (role.Some? ==> role.value == "user" || role.value == "admin")
    ensures r.Success? ==>
              && r.value.id == id
              && r.value.email == Text.Trim(email)
              && r.value.password == password
              && RoleName(r.value.role) == (if role.Some? then role.value else "user")
              && r.value.recentlyViewedTasks == []
              && ValidUser(r.value)
  {
    var role' := if role.Some? then ParseRole(role.value) else Some(Regular);
    if Text.AllSpace(email) then Failure("User validation failed: email: Path `email` is required.")
    else if password == "" then Failure("User validation failed: password: Path `password` is required.")
    else if role'.None? then Failure("User validation failed: role: not a valid enum value.")
    else
      Text.TrimEmptyIffBlank(email);
      Success(User(id, Text.Trim(email), password, role'.value, []))
  }

  /** The pre-save hook: when the password path was modified (always so for a
      new user) it is replaced by `bcrypt.hash(password, salt)`; otherwise the
      stored hash is left alone. */
  function PreSave(u: User, passwordModified: bool, salt: nat, bcrypt: Crypto.Bcrypt): (r: User)
    ensures r.(password := u.password) == u
    ensures !passwordModified ==> r.password == u.password
    ensures passwordModified ==> r.password == bcrypt.hash(u.password, salt)
  {
    if !passwordModified then u
    else u.(password := bcrypt.hash(u.password, salt))
  }

  /** The hook and the comparison fit together: after a save that hashed
      the password, comparing that same password succeeds. */
  lemma SavedPasswordCompares(u: User, salt: nat, bcrypt: Crypto.Bcrypt)
    requires Crypto.Matches(bcrypt)
    ensures ComparePassword(PreSave(u, true, salt, bcrypt), u.password, bcrypt)
  {
  }

  /** `user.comparePassword(candidate)`: the bcrypt comparison of the
      candidate against the stored hash. */
  function ComparePassword(u: User, candidate: string, bcrypt: Crypto.Bcrypt): (ok: bool)
    ensures Crypto.Matches(bcrypt) ==>
              forall salt :: u.password == bcrypt.hash(candidate, salt) ==> ok
  {
    bcrypt.compare(candidate, u.password)
  }
}
