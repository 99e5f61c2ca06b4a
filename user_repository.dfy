/**
  The user repository (repository/user-repository.go): the users table, password
  hashing on save, the lookups by email, and the answers-per-user report. bcrypt's
  hashing is the function `hash`, applied to the password and the salt the call
  draws; the salt is an argument of each saving method.
*/
module UserRepo {
  import opened Wrappers
  import opened Entities
  import opened Table
  import opened Listing
  import opened Store

  /** `Find(&user, id)`: the row with that id, or the zero User on a miss. */
  function FindUser(users: seq<User>, id: uint64): (r: User)
    ensures HasKey(users, UserKey, id as int) ==> r in users && r.id == id
    ensures !HasKey(users, UserKey, id as int) ==> r == ZeroUser
  {
    Find(users, UserKey, id as int, ZeroUser)
  }

  /** `Where("email = ?", email).Take(&user)`: the row with that email, or the zero User. */
  function FindUserByEmail(users: seq<User>, email: string): (r: User)
    ensures HasKey(users, UserEmail, email) ==> r in users && r.email == email
    ensures !HasKey(users, UserEmail, email) ==> r == ZeroUser
  {
    Find(users, UserEmail, email, ZeroUser)
  }

  /** Saving `u` would violate the unique index on email. */
  predicate EmailTaken(users: seq<User>, u: User)
  {
    exists i :: 0 <= i < |users| && users[i].email == u.email && users[i].id != u.id
  }

  /** An upsert of a row whose email no other row has keeps emails unique. */
  lemma UpsertKeepsEmailsUnique(users: seq<User>, u: User)
    requires UniqueKeys(users, UserKey) && UniqueKeys(users, UserEmail)
    requires !EmailTaken(users, u)
    ensures UniqueKeys(Upsert(users, UserKey, u), UserEmail)
  {
    var r := Upsert(users, UserKey, u);
    if HasKey(users, UserKey, u.id as int) {
      forall i, j | 0 <= i < j < |r| ensures r[i].email != r[j].email {
        if users[i].id == u.id {
          assert users[j].id != u.id;
        } else if users[j].id == u.id {
          assert users[i].id != u.id;
        }
      }
    } else {
      forall i, j | 0 <= i < j < |r| ensures r[i].email != r[j].email {
        if j == |users| {
          assert r[i] == users[i] && users[i].id != u.id;
        }
      }
    }
  }

  /**
    GORM's Save on the users table: the questions rule for ids, except that a row
    whose email another row already has is refused and nothing changes.
  */
  function SaveUserRow(users: seq<User>, next: nat, u: User): (s: Saved<User>)
    requires Keyed(users, UserKey, next) && UniqueKeys(users, UserEmail)
    ensures Keyed(s.rows, UserKey, s.next) && UniqueKeys(s.rows, UserEmail)
    ensures EmailTaken(users, u) ==> s.rows == users && s.row == u
    ensures !EmailTaken(users, u) && u.id == 0 && next <= MaxUint64 ==>
      && s.row == u.(id := s.row.id)
      && !HasKey(users, UserKey, s.row.id as int)
      && s.row.id as int == next
      && s.rows == users + [s.row]
      && s.next == next + 1
    ensures u.id == 0 && next > MaxUint64 ==> s.rows == users && s.row == u
    ensures u.id != 0 ==> s.row == u
    ensures !EmailTaken(users, u) && u.id != 0 ==>
      && FindUser(s.rows, u.id) == u
      && s.next == Max(next, u.id as int + 1)
      && |s.rows| == if HasKey(users, UserKey, u.id as int) then |users| else |users| + 1
    ensures s.rows != users ==> FindUser(s.rows, s.row.id) == s.row
    ensures forall id :: id != s.row.id ==> FindUser(s.rows, id) == FindUser(users, id)
  {
    if EmailTaken(users, u) then
      Saved(users, next, u)
    else if u.id == 0 then
      if next <= MaxUint64 then
        var row := u.(id := next as uint64);
        forall id ensures FindUser(users + [row], id) == if id == row.id then row else FindUser(users, id) {
          FindAppend(users, UserKey, row, id as int, ZeroUser);
        }
        UpsertKeepsEmailsUnique(users, row);
        assert Upsert(users, UserKey, row) == users + [row];
        Saved(users + [row], next + 1, row)
      else
        Saved(users, next, u)
    else
      var rows := Upsert(users, UserKey, u);
      forall id ensures FindUser(rows, id) == if id == u.id then u else FindUser(users, id) {
        FindUpsert(users, UserKey, u, id as int, ZeroUser);
      }
      UpsertKeepsEmailsUnique(users, u);
      Saved(rows, Max(next, u.id as int + 1), u)
  }

  /** The row UpdateUser saves: a new password is hashed, an empty one keeps the stored hash. */
  function UpdatedUser(users: seq<User>, user: User, hash: (string, nat) -> string, salt: nat): (r: User)
    ensures r == user.(password := r.password)
    ensures user.password != "" ==> r.password == hash(user.password, salt)
    ensures user.password == "" && HasKey(users, UserKey, user.id as int) ==>
      exists x :: x in users && x.id == user.id && r.password == x.password
    ensures user.password == "" && !HasKey(users, UserKey, user.id as int) ==> r.password == ""
  {
    if user.password != "" then user.(password := hash(user.password, salt))
    else user.(password := FindUser(users, user.id).password)
  }

  /** The report line of one user: id, names, and number of answers written. */
  function Entry(x: User, answers: seq<Answer>): MostAnswers
  {
    MostAnswers(x.id as int, x.firstname, x.lastname, Count(answers, AnswerUserId, x.id as int))
  }

  /** `users JOIN answers GROUP BY user`, in user order: users without answers drop out. */
  function AnswerTally(users: seq<User>, answers: seq<Answer>): seq<MostAnswers>
  {
    if users == [] then []
    else
      var x := users[0];
      (if Count(answers, AnswerUserId, x.id as int) > 0 then [Entry(x, answers)] else [])
      + AnswerTally(users[1..], answers)
  }

  /** The tally has a line for exactly the users with answers, each with a positive count. */
  lemma {:induction false} TallyLines(users: seq<User>, answers: seq<Answer>)
    ensures forall e :: e in AnswerTally(users, answers) ==> e.numberOfAnswers > 0 && exists x :: x in users && e == Entry(x, answers)
    ensures forall x :: x in users && Count(answers, AnswerUserId, x.id as int) > 0 ==> Entry(x, answers) in AnswerTally(users, answers)
  {
    if users != [] {
      TallyLines(users[1..], answers);
      assert users == [users[0]] + users[1..];
    }
  }

  /** Every line of the tally belongs to one of the users. */
  lemma {:induction false} TallyFromUsers(users: seq<User>, answers: seq<Answer>)
    ensures forall e :: e in AnswerTally(users, answers) ==> HasKey(users, UserKey, e.userId)
  {
    if users != [] {
      TallyFromUsers(users[1..], answers);
      forall e | e in AnswerTally(users[1..], answers) ensures HasKey(users, UserKey, e.userId) {
        var m :| 0 <= m < |users[1..]| && UserKey(users[1..][m]) == e.userId;
        assert users[m + 1] == users[1..][m];
      }
    }
  }

  /** The users after the first keep unique ids, and none of them has the first one's id. */
  lemma UniqueTail(users: seq<User>)
    requires |users| > 0 && UniqueKeys(users, UserKey)
    ensures UniqueKeys(users[1..], UserKey)
    ensures !HasKey(users[1..], UserKey, users[0].id as int)
  {
    forall i, j | 0 <= i < j < |users[1..]| ensures users[1..][i].id != users[1..][j].id {
      assert users[1..][i] == users[i + 1] && users[1..][j] == users[j + 1];
    }
    forall m | 0 <= m < |users[1..]| ensures UserKey(users[1..][m]) != users[0].id as int {
      assert users[1..][m] == users[m + 1];
    }
  }

  /** Unique user ids give unique report lines. */
  lemma {:induction false} TallyUnique(users: seq<User>, answers: seq<Answer>)
    requires UniqueKeys(users, UserKey)
    ensures UniqueKeys(AnswerTally(users, answers), MostAnswersUserId)
  {
    if users != [] {
      var x := users[0];
      var rest := AnswerTally(users[1..], answers);
      var head := if Count(answers, AnswerUserId, x.id as int) > 0 then [Entry(x, answers)] else [];
      var r := head + rest;
      UniqueTail(users);
      TallyUnique(users[1..], answers);
      TallyFromUsers(users[1..], answers);
      forall i, j | 0 <= i < j < |r| ensures r[i].userId != r[j].userId {
        if i < |head| {
          assert r[j] == rest[j - |head|];
          assert HasKey(users[1..], UserKey, r[j].userId);
        } else {
          assert r[i] == rest[i - |head|] && r[j] == rest[j - |head|];
        }
      }
    }
  }

  /** The number of answers of the user with id `u`. */
  function AnswersBy(answers: seq<Answer>, u: uint64): nat
  {
    Count(answers, AnswerUserId, u as int)
  }

  /**
    The "most answers" report: one line per user with at least one answer, carrying
    that user's number of answers, most answers first.
  */
  function MostAnswersReport(users: seq<User>, answers: seq<Answer>): (r: seq<MostAnswers>)
    ensures SortedDesc(r, MostAnswersCount)
    ensures forall e :: e in r ==> e.numberOfAnswers > 0 && exists x :: x in users && e == Entry(x, answers)
    ensures forall x :: x in users && AnswersBy(answers, x.id) > 0 ==> Entry(x, answers) in r
    ensures forall e :: e in r ==> e.numberOfAnswers == Count(answers, AnswerUserId, e.userId)
    ensures UniqueKeys(users, UserKey) ==> UniqueKeys(r, MostAnswersUserId)
  {
    var t := AnswerTally(users, answers);
    var r := SortDesc(t, MostAnswersCount);
    TallyLines(users, answers);
    assert forall e :: e in r <==> e in t by {
      forall e ensures e in r <==> e in t {
        assert e in r <==> e in multiset(r);
        assert e in t <==> e in multiset(t);
      }
    }
    assert UniqueKeys(users, UserKey) ==> UniqueKeys(r, MostAnswersUserId) by {
      if UniqueKeys(users, UserKey) {
        TallyUnique(users, answers);
        PermutationKeepsUniqueKeys(t, r, MostAnswersUserId);
      }
    }
    r
  }

  /** What gorm.DB.Error can be after `Take`. */
  datatype TakeResult = TakeOk | ErrRecordNotFound

  class UserRepository {
    const db: Database
    /** bcrypt.GenerateFromPassword at MinCost, with the salt drawn for the call. */
    const hash: (string, nat) -> string

    constructor (db: Database, hash: (string, nat) -> string)
      ensures this.db == db && this.hash == hash
    {
      this.db := db;
      this.hash := hash;
    }

    /** Hash the password, save the user, and return it with the hashed password. */
    method SaveUser(user: User, salt: nat) returns (saved: User)
      requires db.Valid()
      modifies db`users, db`nextUserId
      ensures db.Valid()
      ensures Saved(db.users, db.nextUserId, saved)
           == SaveUserRow(old(db.users), old(db.nextUserId), user.(password := hash(user.password, salt)))
      ensures saved.password == hash(user.password, salt)
    {
      var s := SaveUserRow(db.users, db.nextUserId, user.(password := hash(user.password, salt)));
      db.users, db.nextUserId := s.rows, s.next;
      saved := s.row;
    }

    /** Save the user; an empty password means "keep the stored one". */
    method UpdateUser(user: User, salt: nat) returns (saved: User)
      requires db.Valid()
      modifies db`users, db`nextUserId
      ensures db.Valid()
      ensures Saved(db.users, db.nextUserId, saved)
           == SaveUserRow(old(db.users), old(db.nextUserId), UpdatedUser(old(db.users), user, hash, salt))
      ensures user.id != 0 ==> saved == UpdatedUser(old(db.users), user, hash, salt)
      ensures user.id != 0 && !EmailTaken(old(db.users), saved) ==> FindUser(db.users, user.id) == saved
      ensures user.password != "" ==> saved.password == hash(user.password, salt)
      ensures forall id :: id != saved.id ==> FindUser(db.users, id) == FindUser(old(db.users), id)
    {
      var row := UpdatedUser(db.users, user, hash, salt);
      var s := SaveUserRow(db.users, db.nextUserId, row);
      db.users, db.nextUserId := s.rows, s.next;
      saved := s.row;
    }

    /** The user with that email, or nothing; the password is not looked at. */
    function VerifyCredentials(email: string, password: string): (r: Option<User>)
      reads db
      ensures r.Some? <==> exists i :: 0 <= i < |db.users| && db.users[i].email == email
      ensures r.Some? ==> r.value in db.users && r.value.email == email
    {
      if HasKey(db.users, UserEmail, email) then Some(FindUserByEmail(db.users, email)) else None
    }

    /** The error of the email lookup: none when some user has that email. */
    function IsDuplicateEmail(email: string): (r: TakeResult)
      reads db
      ensures r == TakeOk <==> exists i :: 0 <= i < |db.users| && db.users[i].email == email
    {
      if HasKey(db.users, UserEmail, email) then TakeOk else ErrRecordNotFound
    }

    function FindByEmail(email: string): (r: User)
      reads db
      ensures HasKey(db.users, UserEmail, email) ==> r in db.users && r.email == email
      ensures !HasKey(db.users, UserEmail, email) ==> r == ZeroUser
    {
      FindUserByEmail(db.users, email)
    }

    function GetAnswers(): (r: seq<MostAnswers>)
      reads db
      ensures r == MostAnswersReport(db.users, db.answers)
    {
      MostAnswersReport(db.users, db.answers)
    }
  }
}
