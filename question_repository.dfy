/**
  The question repository (repository/question-repository.go): the questions table,
  the question_likes ledger, and the queries over them. Pure functions over table
  values give the meaning of each operation; the repository class applies them to
  the shared database.
*/
module QuestionRepo {
  import opened Entities
  import opened Table
  import opened Listing
  import opened Store

  /** `Find(&question, id)`: the row with that id, or the zero Question on a miss. */
  function FindQuestion(questions: seq<Question>, id: uint64): (r: Question)
    ensures HasKey(questions, QuestionKey, id as int) ==> r in questions && r.id == id
    ensures !HasKey(questions, QuestionKey, id as int) ==> r == ZeroQuestion
  {
    Find(questions, QuestionKey, id as int, ZeroQuestion)
  }

  /**
    GORM's Save on the questions table: a row with id 0 is inserted under the next
    auto-increment id (and nothing is stored once the counter is past uint64); a row
    with an id replaces the stored row with that id, or is inserted under it.
  */
  function SaveQuestion(questions: seq<Question>, next: nat, q: Question): (s: Saved<Question>)
    requires Keyed(questions, QuestionKey, next)
    ensures Keyed(s.rows, QuestionKey, s.next)
    ensures q.id == 0 && next <= MaxUint64 ==>
      && s.row == q.(id := s.row.id)
      && !HasKey(questions, QuestionKey, s.row.id as int)
      && s.row.id as int == next
      && s.rows == questions + [s.row]
      && s.next == next + 1
    ensures q.id == 0 && next > MaxUint64 ==> s.rows == questions && s.row == q
    ensures q.id != 0 ==> s.row == q && FindQuestion(s.rows, q.id) == q && s.next == Max(next, q.id as int + 1)
    ensures q.id != 0 ==> |s.rows| == if HasKey(questions, QuestionKey, q.id as int) then |questions| else |questions| + 1
    ensures s.rows != questions ==> FindQuestion(s.rows, s.row.id) == s.row
    ensures forall id :: id != s.row.id ==> FindQuestion(s.rows, id) == FindQuestion(questions, id)
  {
    if q.id == 0 then
      if next <= MaxUint64 then
        var row := q.(id := next as uint64);
        forall id ensures FindQuestion(questions + [row], id) == if id == row.id then row else FindQuestion(questions, id) {
          FindAppend(questions, QuestionKey, row, id as int, ZeroQuestion);
        }
        Saved(questions + [row], next + 1, row)
      else
        Saved(questions, next, q)
    else
      var rows := Upsert(questions, QuestionKey, q);
      forall id ensures FindQuestion(rows, id) == if id == q.id then q else FindQuestion(questions, id) {
        FindUpsert(questions, QuestionKey, q, id as int, ZeroQuestion);
      }
      Saved(rows, Max(next, q.id as int + 1), q)
  }

  /**
    `Preload("User").Find(&q)` after the Save. A q with a key reads back the stored
    row with that key; the owner association is not modelled. A zero key adds no
    condition, so the first stored row is scanned into q; on an empty table q stays
    as it was.
  */
  function ReloadQuestion(questions: seq<Question>, q: Question): (r: Question)
    ensures q.id != 0 && HasKey(questions, QuestionKey, q.id as int) ==> r in questions && r.id == q.id
    ensures q.id != 0 && !HasKey(questions, QuestionKey, q.id as int) ==> r == q
    ensures q.id == 0 && questions != [] ==> r in questions
    ensures q.id == 0 && questions == [] ==> r == q
  {
    if q.id != 0 then
      if HasKey(questions, QuestionKey, q.id as int) then FindQuestion(questions, q.id) else q
    else if questions != [] then questions[0]
    else q
  }

  /**
    Save, then the reload: the table and counter of the Save, and the row the reload
    scans. That is the saved row unless the Save stored nothing for a zero id, in
    which case it is some stored row, or the argument on an empty table.
  */
  function SaveAndReloadQuestion(questions: seq<Question>, next: nat, q: Question): (s: Saved<Question>)
    requires Keyed(questions, QuestionKey, next)
    ensures s.rows == SaveQuestion(questions, next, q).rows && s.next == SaveQuestion(questions, next, q).next
    ensures q.id != 0 || next <= MaxUint64 ==> s.row == SaveQuestion(questions, next, q).row
    ensures q.id == 0 && next > MaxUint64 && questions != [] ==> s.row in questions
    ensures q.id == 0 && next > MaxUint64 && questions == [] ==> s.row == q
  {
    var saved := SaveQuestion(questions, next, q);
    Saved(saved.rows, saved.next, ReloadQuestion(saved.rows, saved.row))
  }

  /**
    Once the counter is past uint64, inserting a q with id 0 stores nothing, and the
    reload hands back a row someone else stored, not the argument.
  */
  lemma ExhaustedInsertReturnsStoredRow(questions: seq<Question>, next: nat, q: Question)
    requires Keyed(questions, QuestionKey, next)
    requires q.id == 0 && next > MaxUint64 && questions != []
    ensures SaveAndReloadQuestion(questions, next, q).rows == questions
    ensures SaveAndReloadQuestion(questions, next, q).row in questions
    ensures SaveAndReloadQuestion(questions, next, q).row.id != 0 && SaveAndReloadQuestion(questions, next, q).row != q
  {
    assert QuestionKey(SaveAndReloadQuestion(questions, next, q).row) > 0;
  }

  /** Number of like rows for question `q` (`COUNT(ql.question_id)` of the left join). */
  function LikeCount(likes: seq<QuestionLike>, q: uint64): nat
  {
    Count(likes, LikeQuestionId, q as int)
  }

  /** Number of like rows for the pair (q, u). */
  function PairCount(likes: seq<QuestionLike>, q: uint64, u: uint64): nat
  {
    Count(likes, LikePair, (q as int, u as int))
  }

  /**
    The question page for caller `u`: the like count of question `q`, whether `u` has
    a like row for it, and whether `u` owns it. A missing question yields the zero
    result (the SQL aggregate then has only NULL columns).
  */
  function Page(questions: seq<Question>, likes: seq<QuestionLike>, q: uint64, u: uint64): (r: QuestionResult)
    ensures !HasKey(questions, QuestionKey, q as int) ==> r == QuestionResult(0, "", 0, false, false)
    ensures HasKey(questions, QuestionKey, q as int) ==>
      && r.questionId == q as int
      && r.body == FindQuestion(questions, q).body
      && r.numOfLikes == LikeCount(likes, q)
      && (r.isLiked <==> QuestionLike(q, u) in likes)
      && (r.isEditable <==> FindQuestion(questions, q).userId == u)
  {
    if HasKey(questions, QuestionKey, q as int) then
      var question := FindQuestion(questions, q);
      assert PairCount(likes, q, u) > 0 <==> QuestionLike(q, u) in likes by {
        if QuestionLike(q, u) in likes {
          var i :| 0 <= i < |likes| && likes[i] == QuestionLike(q, u);
          assert LikePair(likes[i]) == (q as int, u as int);
        }
        if PairCount(likes, q, u) > 0 {
          var i :| 0 <= i < |likes| && LikePair(likes[i]) == (q as int, u as int);
          assert likes[i] == QuestionLike(q, u);
        }
      }
      QuestionResult(q as int, question.body, LikeCount(likes, q), PairCount(likes, q, u) > 0, question.userId == u)
    else
      QuestionResult(0, "", 0, false, false)
  }

  /** The ledger after `DeleteLike(q, u)`. */
  function Unlike(likes: seq<QuestionLike>, q: uint64, u: uint64): (r: seq<QuestionLike>)
    ensures forall x :: x in r <==> x in likes && x != QuestionLike(q, u)
    ensures PairCount(r, q, u) == 0
  {
    RemoveMembers(likes, LikePair, (q as int, u as int));
    Remove(likes, LikePair, (q as int, u as int))
  }

  /** Each `Like` adds one row for its pair, however many the pair already has. */
  lemma LikeAddsOneRow(likes: seq<QuestionLike>, q: uint64, u: uint64)
    ensures PairCount(likes + [QuestionLike(q, u)], q, u) == PairCount(likes, q, u) + 1
    ensures LikeCount(likes + [QuestionLike(q, u)], q) == LikeCount(likes, q) + 1
    ensures multiset(likes + [QuestionLike(q, u)]) == multiset(likes) + multiset{QuestionLike(q, u)}
  {
    CountAppend(likes, LikePair, (q as int, u as int), QuestionLike(q, u));
    CountAppend(likes, LikeQuestionId, q as int, QuestionLike(q, u));
  }

  /** Liking twice leaves two rows for the pair: the ledger is a multiset, not a set. */
  lemma LikeTwiceTwoRows(likes: seq<QuestionLike>, q: uint64, u: uint64)
    ensures PairCount(likes + [QuestionLike(q, u)] + [QuestionLike(q, u)], q, u) == PairCount(likes, q, u) + 2
  {
    LikeAddsOneRow(likes, q, u);
    LikeAddsOneRow(likes + [QuestionLike(q, u)], q, u);
  }

  /** `DeleteLike` removes every row of its pair and keeps every other row, with its multiplicity. */
  lemma UnlikeRemovesPair(likes: seq<QuestionLike>, q: uint64, u: uint64)
    ensures QuestionLike(q, u) !in Unlike(likes, q, u)
    ensures PairCount(Unlike(likes, q, u), q, u) == 0
    ensures multiset(Unlike(likes, q, u)) == multiset(likes)[QuestionLike(q, u) := 0]
  {
    var k := (q as int, u as int);
    RemoveMembers(likes, LikePair, k);
    RemoveMultiset(likes, LikePair, k);
    var r := Unlike(likes, q, u);
    forall x ensures multiset(r)[x] == multiset(likes)[QuestionLike(q, u) := 0][x] {
      assert LikePair(x) == k <==> x == QuestionLike(q, u);
    }
  }

  /** `DeleteLike` on a pair without rows changes nothing, and a second `DeleteLike` changes nothing. */
  lemma UnlikeIdempotent(likes: seq<QuestionLike>, q: uint64, u: uint64)
    ensures QuestionLike(q, u) !in likes ==> Unlike(likes, q, u) == likes
    ensures Unlike(Unlike(likes, q, u), q, u) == Unlike(likes, q, u)
  {
    var k := (q as int, u as int);
    if QuestionLike(q, u) !in likes {
      forall i | 0 <= i < |likes| ensures LikePair(likes[i]) != k {
        assert likes[i] != QuestionLike(q, u);
      }
      RemoveAbsent(likes, LikePair, k);
    }
    RemoveIdempotent(likes, LikePair, k);
  }

  /** `Like` followed by `DeleteLike` of the same pair is `DeleteLike` alone. */
  lemma LikeThenUnlike(likes: seq<QuestionLike>, q: uint64, u: uint64)
    ensures Unlike(likes + [QuestionLike(q, u)], q, u) == Unlike(likes, q, u)
    ensures QuestionLike(q, u) !in likes ==> Unlike(likes + [QuestionLike(q, u)], q, u) == likes
  {
    RemoveAppend(likes, LikePair, (q as int, u as int), QuestionLike(q, u));
    UnlikeIdempotent(likes, q, u);
  }

  /** Removing the rows of pair (q, u) lowers the count of question q by exactly their number. */
  lemma {:induction false} UnlikeCount(likes: seq<QuestionLike>, q: uint64, u: uint64, p: uint64)
    ensures LikeCount(Unlike(likes, q, u), p) == LikeCount(likes, p) - (if p == q then PairCount(likes, q, u) else 0)
  {
    if |likes| > 0 {
      UnlikeCount(likes[1..], q, u, p);
      var k := (q as int, u as int);
      var head := if LikePair(likes[0]) == k then [] else [likes[0]];
      var rest := Unlike(likes[1..], q, u);
      assert Unlike(likes, q, u) == head + rest;
      if head != [] {
        assert (head + rest)[0] == likes[0] && (head + rest)[1..] == rest;
      } else {
        assert head + rest == rest;
      }
    }
  }

  /** The page right after `Like(q, u)`: one more like, and liked by `u`. */
  lemma PageAfterLike(questions: seq<Question>, likes: seq<QuestionLike>, q: uint64, u: uint64)
    requires HasKey(questions, QuestionKey, q as int)
    ensures Page(questions, likes + [QuestionLike(q, u)], q, u)
         == Page(questions, likes, q, u).(numOfLikes := LikeCount(likes, q) + 1, isLiked := true)
  {
    LikeAddsOneRow(likes, q, u);
  }

  /** The page right after `DeleteLike(q, u)`: the pair's rows no longer count, and not liked by `u`. */
  lemma PageAfterUnlike(questions: seq<Question>, likes: seq<QuestionLike>, q: uint64, u: uint64)
    requires HasKey(questions, QuestionKey, q as int)
    ensures Page(questions, Unlike(likes, q, u), q, u)
         == Page(questions, likes, q, u).(numOfLikes := LikeCount(likes, q) - PairCount(likes, q, u), isLiked := false)
  {
    UnlikeCount(likes, q, u, q);
    UnlikeRemovesPair(likes, q, u);
  }

  /**
    The like-then-unlike walk through: question 42 owned by user 1 and without likes;
    user 2 likes it and sees it liked, then unlikes it and sees no likes, not liked,
    and not editable.
  */
  lemma LikeUnlikeWalkthrough(questions: seq<Question>, likes: seq<QuestionLike>)
    requires HasKey(questions, QuestionKey, 42) && FindQuestion(questions, 42).userId == 1
    requires LikeCount(likes, 42) == 0
    ensures Page(questions, likes + [QuestionLike(42, 2)], 42, 2).isLiked
    ensures Page(questions, Unlike(likes + [QuestionLike(42, 2)], 42, 2), 42, 2)
         == QuestionResult(42, FindQuestion(questions, 42).body, 0, false, false)
  {
    forall i | 0 <= i < |likes| ensures likes[i] != QuestionLike(42, 2) {
      assert LikeQuestionId(likes[i]) != 42;
    }
    LikeThenUnlike(likes, 42, 2);
  }

  /**
    DeleteLike as its statements stand. The raw DELETE names a table `QuestionLikes`,
    while GORM keeps QuestionLikes rows in `question_likes` (the table QuestionPage's
    query reads), and the `Delete(&questionLikes)` after it carries a zero primary
    key and no condition, which GORM refuses. No row goes.
  */
  function DeleteLikeAsWritten(likes: seq<QuestionLike>, q: uint64, u: uint64): (r: seq<QuestionLike>)
    ensures forall x :: x in likes ==> x in r
    ensures PairCount(r, q, u) == PairCount(likes, q, u)
  {
    likes
  }

  /** As written, a like survives DeleteLike: the page still shows it liked and counted. */
  lemma DeleteLikeAsWrittenKeepsLike(questions: seq<Question>, likes: seq<QuestionLike>, q: uint64, u: uint64)
    requires HasKey(questions, QuestionKey, q as int) && QuestionLike(q, u) in likes
    ensures Page(questions, DeleteLikeAsWritten(likes, q, u), q, u).isLiked
    ensures !Page(questions, Unlike(likes, q, u), q, u).isLiked
  {
    UnlikeRemovesPair(likes, q, u);
  }

  class QuestionRepository {
    const db: Database

    constructor (db: Database)
      ensures this.db == db
    {
      this.db := db;
    }

    /** Save the question and return it as stored (with its new id when it had none). */
    method InsertQuestion(q: Question) returns (saved: Question)
      requires db.Valid()
      modifies db`questions, db`nextQuestionId
      ensures db.Valid()
      ensures Saved(db.questions, db.nextQuestionId, saved) == SaveAndReloadQuestion(old(db.questions), old(db.nextQuestionId), q)
    {
      var s := SaveQuestion(db.questions, db.nextQuestionId, q);
      db.questions, db.nextQuestionId := s.rows, s.next;
      saved := ReloadQuestion(db.questions, s.row);
    }

    /** Same statements as InsertQuestion: GORM's Save, then a reload of the saved row. */
    method UpdateQuestion(q: Question) returns (saved: Question)
      requires db.Valid()
      modifies db`questions, db`nextQuestionId
      ensures db.Valid()
      ensures Saved(db.questions, db.nextQuestionId, saved) == SaveAndReloadQuestion(old(db.questions), old(db.nextQuestionId), q)
      ensures q.id != 0 ==> saved == q && FindQuestion(db.questions, q.id) == q
      ensures forall id :: id != saved.id ==> FindQuestion(db.questions, id) == FindQuestion(old(db.questions), id)
    {
      var s := SaveQuestion(db.questions, db.nextQuestionId, q);
      db.questions, db.nextQuestionId := s.rows, s.next;
      saved := ReloadQuestion(db.questions, s.row);
    }

    /** `Delete(&q)`: by primary key; id 0 matches no row. */
    method DeleteQuestion(q: Question)
      requires db.Valid()
      modifies db`questions
      ensures db.Valid()
      ensures db.questions == Remove(old(db.questions), QuestionKey, q.id as int)
      ensures FindQuestion(db.questions, q.id) == ZeroQuestion
      ensures forall id :: id != q.id ==> FindQuestion(db.questions, id) == FindQuestion(old(db.questions), id)
    {
      RemoveUnique(db.questions, QuestionKey, q.id as int);
      RemoveMembers(db.questions, QuestionKey, q.id as int);
      forall id ensures FindQuestion(Remove(db.questions, QuestionKey, q.id as int), id)
                     == if id == q.id then ZeroQuestion else FindQuestion(db.questions, id) {
        FindRemove(db.questions, QuestionKey, q.id as int, id as int, ZeroQuestion);
      }
      db.questions := Remove(db.questions, QuestionKey, q.id as int);
    }

    function FindQuestionByID(id: uint64): (r: Question)
      reads db
      ensures HasKey(db.questions, QuestionKey, id as int) ==> r in db.questions && r.id == id
      ensures !HasKey(db.questions, QuestionKey, id as int) ==> r == ZeroQuestion
    {
      FindQuestion(db.questions, id)
    }

    /** The 20 newest questions, newest first. */
    function AllQuestions(): (r: seq<Question>)
      reads db
      ensures |r| == Min(20, |db.questions|)
      ensures multiset(r) <= multiset(db.questions)
      ensures SortedDesc(r, QuestionCreatedAt)
      ensures forall x, i :: x in multiset(db.questions) - multiset(r) && 0 <= i < |r| ==> x.createdAt <= r[i].createdAt
    {
      Top(db.questions, QuestionCreatedAt, 20)
    }

    /** The 5 questions with the largest stored NumOfLikes, largest first. */
    function GetNumberOfLikesForQuestion(): (r: seq<Question>)
      reads db
      ensures |r| == Min(5, |db.questions|)
      ensures multiset(r) <= multiset(db.questions)
      ensures SortedDesc(r, QuestionNumOfLikes)
      ensures forall x, i :: x in multiset(db.questions) - multiset(r) && 0 <= i < |r| ==> x.numOfLikes <= r[i].numOfLikes
    {
      Top(db.questions, QuestionNumOfLikes, 5)
    }

    function QuestionPage(q: uint64, u: uint64): (r: QuestionResult)
      reads db
      ensures r == Page(db.questions, db.likes, q, u)
    {
      Page(db.questions, db.likes, q, u)
    }

    /** Store one more like row for the pair; nothing checks for an earlier one. */
    method Like(q: uint64, u: uint64)
      requires db.Valid()
      modifies db`likes
      ensures db.Valid()
      ensures db.likes == old(db.likes) + [QuestionLike(q, u)]
      ensures db.questions == old(db.questions)
    {
      db.likes := db.likes + [QuestionLike(q, u)];
    }

    /** Remove every like row of the pair (q, u): the intended DeleteLike, which DeleteLikeAsWritten contrasts. */
    method DeleteLike(q: uint64, u: uint64)
      requires db.Valid()
      modifies db`likes
      ensures db.Valid()
      ensures db.likes == Unlike(old(db.likes), q, u)
      ensures db.questions == old(db.questions)
    {
      db.likes := Unlike(db.likes, q, u);
    }
  }
}
