/**
  The authentication service (service/auth-service.go): log-in checks, sign-up,
  and the email-availability test. bcrypt's comparison is the function
  `matches`, applied to a stored hash and a plain password.
*/
module AuthSvc {
  import opened Wrappers
  import opened Entities
  import opened Table
  import opened Store
  import opened UserRepo

  /** What VerifyCredentials hands back: the user, or `false`. */
  datatype LoginOutcome = LoggedIn(user: User) | Rejected

  /** The row smapping fills from a registration: no id yet, password in plain text. */
  function FromRegister(dto: RegisterDTO): (u: User)
    ensures u.id == 0 && u.email == dto.email && u.password == dto.password
    ensures u.firstname == dto.firstname && u.lastname == dto.lastname
  {
    User(0, dto.firstname, dto.lastname, dto.email, dto.password)
  }

  class AuthService {
    const repo: UserRepository
    /** bcrypt.CompareHashAndPassword(hash, plain) reports no error. */
    const matches: (string, string) -> bool

    constructor (repo: UserRepository, matches: (string, string) -> bool)
      ensures this.repo == repo && this.matches == matches
    {
      this.repo := repo;
      this.matches := matches;
    }

    function ComparePassword(hashed: string, plain: string): (ok: bool)
      ensures ok <==> matches(hashed, plain)
    {
      matches(hashed, plain)
    }

    /**
      Logged in exactly when some user has that email and the password matches
      that user's stored hash; an unknown email and a wrong password both fail.
    */
    function VerifyCredentials(email: string, password: string): (r: LoginOutcome)
      reads repo.db
      requires repo.db.Valid()
      ensures r.LoggedIn? <==>
        exists i :: 0 <= i < |repo.db.users| && repo.db.users[i].email == email && matches(repo.db.users[i].password, password)
      ensures r.LoggedIn? ==> r.user in repo.db.users && r.user.email == email
    {
      match repo.VerifyCredentials(email, password)
      case Some(v) =>
        assert forall i :: 0 <= i < |repo.db.users| && repo.db.users[i].email == email ==> repo.db.users[i] == v by {
          forall i | 0 <= i < |repo.db.users| && repo.db.users[i].email == email ensures repo.db.users[i] == v {
            KeyIdentifies(repo.db.users, UserEmail, repo.db.users[i], v);
          }
        }
        if v.email == email && ComparePassword(v.password, password) then LoggedIn(v) else Rejected
      case None => Rejected
    }

    /** Hash the password and save the new user. */
    method CreateUser(dto: RegisterDTO, salt: nat) returns (r: User)
      requires repo.db.Valid()
      modifies repo.db`users, repo.db`nextUserId
      ensures repo.db.Valid()
      ensures Saved(repo.db.users, repo.db.nextUserId, r)
           == SaveUserRow(old(repo.db.users), old(repo.db.nextUserId), FromRegister(dto).(password := repo.hash(dto.password, salt)))
      ensures r.password == repo.hash(dto.password, salt)
      ensures old(IsDuplicateEmail(dto.email)) && old(repo.db.nextUserId) <= MaxUint64
              && (forall p, s :: matches(repo.hash(p, s), p))
              ==> VerifyCredentials(dto.email, dto.password) == LoggedIn(r)
    {
      var users0 := repo.db.users;
      r := repo.SaveUser(FromRegister(dto), salt);
      if old(IsDuplicateEmail(dto.email)) && old(repo.db.nextUserId) <= MaxUint64 && (forall p, s :: matches(repo.hash(p, s), p)) {
        // a free email cannot collide with any stored row, so the row is appended
        assert !EmailTaken(users0, FromRegister(dto).(password := repo.hash(dto.password, salt)));
        assert repo.db.users == users0 + [r];
        assert r.email == dto.email && repo.db.users[|users0|] == r;
      }
    }

    function FindByEmail(email: string): (r: User)
      reads repo.db
      ensures HasKey(repo.db.users, UserEmail, email) ==> r in repo.db.users && r.email == email
      ensures !HasKey(repo.db.users, UserEmail, email) ==> r == ZeroUser
    {
      repo.FindByEmail(email)
    }

    /** True when the lookup failed, that is when the email is still free. */
    function IsDuplicateEmail(email: string): (free: bool)
      reads repo.db
      ensures free <==> forall i :: 0 <= i < |repo.db.users| ==> repo.db.users[i].email != email
    {
      repo.IsDuplicateEmail(email) != TakeOk
    }
  }
}
