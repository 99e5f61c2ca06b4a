/**
  The answer repository (repository/answer-repository.go): the answers table and
  its queries.
*/
module AnswerRepo {
  import opened Entities
  import opened Table
  import opened Listing
  import opened Store

  /** `Find(&answer, id)`: the row with that id, or the zero Answer on a miss. */
  function FindAnswer(answers: seq<Answer>, id: uint64): (r: Answer)
    ensures HasKey(answers, AnswerKey, id as int) ==> r in answers && r.id == id
    ensures !HasKey(answers, AnswerKey, id as int) ==> r == ZeroAnswer
  {
    Find(answers, AnswerKey, id as int, ZeroAnswer)
  }

  /** GORM's Save on the answers table, with the same insert-or-replace rule as for questions. */
  function SaveAnswer(answers: seq<Answer>, next: nat, a: Answer): (s: Saved<Answer>)
    requires Keyed(answers, AnswerKey, next)
    ensures Keyed(s.rows, AnswerKey, s.next)
    ensures a.id == 0 && next <= MaxUint64 ==>
      && s.row == a.(id := s.row.id)
      && !HasKey(answers, AnswerKey, s.row.id as int)
      && s.row.id as int == next
      && s.rows == answers + [s.row]
      && s.next == next + 1
    ensures a.id == 0 && next > MaxUint64 ==> s.rows == answers && s.row == a
    ensures a.id != 0 ==> s.row == a && FindAnswer(s.rows, a.id) == a && s.next == Max(next, a.id as int + 1)
    ensures a.id != 0 ==> |s.rows| == if HasKey(answers, AnswerKey, a.id as int) then |answers| else |answers| + 1
    ensures s.rows != answers ==> FindAnswer(s.rows, s.row.id) == s.row
    ensures forall id :: id != s.row.id ==> FindAnswer(s.rows, id) == FindAnswer(answers, id)
  {
    if a.id == 0 then
      if next <= MaxUint64 then
        var row := a.(id := next as uint64);
        forall id ensures FindAnswer(answers + [row], id) == if id == row.id then row else FindAnswer(answers, id) {
          FindAppend(answers, AnswerKey, row, id as int, ZeroAnswer);
        }
        Saved(answers + [row], next + 1, row)
      else
        Saved(answers, next, a)
    else
      var rows := Upsert(answers, AnswerKey, a);
      forall id ensures FindAnswer(rows, id) == if id == a.id then a else FindAnswer(answers, id) {
        FindUpsert(answers, AnswerKey, a, id as int, ZeroAnswer);
      }
      Saved(rows, Max(next, a.id as int + 1), a)
  }

  /**
    `Preload("User").Find(&a)` after the Save. A a with a key reads back the stored
    row with that key; the owner association is not modelled. A zero key adds no
    condition, so the first stored row is scanned into a; on an empty table a stays
    as it was.
  */
  function ReloadAnswer(answers: seq<Answer>, a: Answer): (r: Answer)
    ensures a.id != 0 && HasKey(answers, AnswerKey, a.id as int) ==> r in answers && r.id == a.id
    ensures a.id != 0 && !HasKey(answers, AnswerKey, a.id as int) ==> r == a
    ensures a.id == 0 && answers != [] ==> r in answers
    ensures a.id == 0 && answers == [] ==> r == a
  {
    if a.id != 0 then
      if HasKey(answers, AnswerKey, a.id as int) then FindAnswer(answers, a.id) else a
    else if answers != [] then answers[0]
    else a
  }

  /**
    Save, then the reload: the table and counter of the Save, and the row the reload
    scans. That is the saved row unless the Save stored nothing for a zero id, in
    which case it is some stored row, or the argument on an empty table.
  */
  function SaveAndReloadAnswer(answers: seq<Answer>, next: nat, a: Answer): (s: Saved<Answer>)
    requires Keyed(answers, AnswerKey, next)
    ensures s.rows == SaveAnswer(answers, next, a).rows && s.next == SaveAnswer(answers, next, a).next
    ensures a.id != 0 || next <= MaxUint64 ==> s.row == SaveAnswer(answers, next, a).row
    ensures a.id == 0 && next > MaxUint64 && answers != [] ==> s.row in answers
    ensures a.id == 0 && next > MaxUint64 && answers == [] ==> s.row == a
  {
    var saved := SaveAnswer(answers, next, a);
    Saved(saved.rows, saved.next, ReloadAnswer(saved.rows, saved.row))
  }

  /**
    Once the counter is past uint64, inserting a a with id 0 stores nothing, and the
    reload hands back a row someone else stored, not the argument.
  */
  lemma ExhaustedInsertReturnsStoredRow(answers: seq<Answer>, next: nat, a: Answer)
    requires Keyed(answers, AnswerKey, next)
    requires a.id == 0 && next > MaxUint64 && answers != []
    ensures SaveAndReloadAnswer(answers, next, a).rows == answers
    ensures SaveAndReloadAnswer(answers, next, a).row in answers
    ensures SaveAndReloadAnswer(answers, next, a).row.id != 0 && SaveAndReloadAnswer(answers, next, a).row != a
  {
    assert AnswerKey(SaveAndReloadAnswer(answers, next, a).row) > 0;
  }

  class AnswerRepository {
    const db: Database

    constructor (db: Database)
      ensures this.db == db
    {
      this.db := db;
    }

    method InsertAnswer(a: Answer) returns (saved: Answer)
      requires db.Valid()
      modifies db`answers, db`nextAnswerId
      ensures db.Valid()
      ensures Saved(db.answers, db.nextAnswerId, saved) == SaveAndReloadAnswer(old(db.answers), old(db.nextAnswerId), a)
    {
      var s := SaveAnswer(db.answers, db.nextAnswerId, a);
      db.answers, db.nextAnswerId := s.rows, s.next;
      saved := ReloadAnswer(db.answers, s.row);
    }

    /** Same statements as InsertAnswer. */
    method UpdateAnswer(a: Answer) returns (saved: Answer)
      requires db.Valid()
      modifies db`answers, db`nextAnswerId
      ensures db.Valid()
      ensures Saved(db.answers, db.nextAnswerId, saved) == SaveAndReloadAnswer(old(db.answers), old(db.nextAnswerId), a)
      ensures a.id != 0 ==> saved == a && FindAnswer(db.answers, a.id) == a
      ensures forall id :: id != saved.id ==> FindAnswer(db.answers, id) == FindAnswer(old(db.answers), id)
    {
      var s := SaveAnswer(db.answers, db.nextAnswerId, a);
      db.answers, db.nextAnswerId := s.rows, s.next;
      saved := ReloadAnswer(db.answers, s.row);
    }

    /** `Delete(&a)`: by primary key only. */
    method DeleteAnswer(a: Answer)
      requires db.Valid()
      modifies db`answers
      ensures db.Valid()
      ensures db.answers == Remove(old(db.answers), AnswerKey, a.id as int)
      ensures FindAnswer(db.answers, a.id) == ZeroAnswer
      ensures forall id :: id != a.id ==> FindAnswer(db.answers, id) == FindAnswer(old(db.answers), id)
    {
      RemoveUnique(db.answers, AnswerKey, a.id as int);
      RemoveMembers(db.answers, AnswerKey, a.id as int);
      forall id ensures FindAnswer(Remove(db.answers, AnswerKey, a.id as int), id)
                     == if id == a.id then ZeroAnswer else FindAnswer(db.answers, id) {
        FindRemove(db.answers, AnswerKey, a.id as int, id as int, ZeroAnswer);
      }
      db.answers := Remove(db.answers, AnswerKey, a.id as int);
    }

    function FindAnswerByID(id: uint64): (r: Answer)
      reads db
      ensures HasKey(db.answers, AnswerKey, id as int) ==> r in db.answers && r.id == id
      ensures !HasKey(db.answers, AnswerKey, id as int) ==> r == ZeroAnswer
    {
      FindAnswer(db.answers, id)
    }

    /** Every stored answer. */
    function AllAnswers(): (r: seq<Answer>)
      reads db
      ensures multiset(r) == multiset(db.answers)
    {
      db.answers
    }

    /** Every stored answer ordered by user id, largest first; nothing is counted or cut. */
    function UsersWithMostAnswers(): (r: seq<Answer>)
      reads db
      ensures multiset(r) == multiset(db.answers)
      ensures |r| == |db.answers|
      ensures SortedDesc(r, AnswerUserId)
    {
      SortDesc(db.answers, AnswerUserId)
    }
  }
}
