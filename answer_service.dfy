/**
  The answer service (service/answer-service.go): maps transfer objects to
  answer rows, forwards to the repository, and decides who may edit an answer
  by comparing the caller's id string with the `%v` rendering of its owner.
*/
module AnswerSvc {
  import opened Entities
  import opened Table
  import opened Decimal
  import opened Listing
  import opened Store
  import opened AnswerRepo

  /** The row smapping fills from a create request: no id yet. */
  function FromCreate(dto: AnswerCreateDTO): (a: Answer)
    ensures a.id == 0 && a.body == dto.body && a.questionId == dto.questionId && a.userId == dto.userId
  {
    Answer(0, dto.body, dto.questionId, dto.userId)
  }

  /** The row smapping fills from an update request. */
  function FromUpdate(dto: AnswerUpdateDTO): (a: Answer)
    ensures a.id == dto.id && a.body == dto.body && a.questionId == dto.questionId && a.userId == dto.userId
  {
    Answer(dto.id, dto.body, dto.questionId, dto.userId)
  }

  class AnswerService {
    const repo: AnswerRepository

    constructor (repo: AnswerRepository)
      ensures this.repo == repo
    {
      this.repo := repo;
    }

    method Insert(dto: AnswerCreateDTO) returns (r: Answer)
      requires repo.db.Valid()
      modifies repo.db`answers, repo.db`nextAnswerId
      ensures repo.db.Valid()
      ensures Saved(repo.db.answers, repo.db.nextAnswerId, r)
           == SaveAndReloadAnswer(old(repo.db.answers), old(repo.db.nextAnswerId), FromCreate(dto))
    {
      r := repo.InsertAnswer(FromCreate(dto));
    }

    method Update(dto: AnswerUpdateDTO) returns (r: Answer)
      requires repo.db.Valid()
      modifies repo.db`answers, repo.db`nextAnswerId
      ensures repo.db.Valid()
      ensures Saved(repo.db.answers, repo.db.nextAnswerId, r)
           == SaveAndReloadAnswer(old(repo.db.answers), old(repo.db.nextAnswerId), FromUpdate(dto))
    {
      r := repo.UpdateAnswer(FromUpdate(dto));
    }

    method Delete(a: Answer)
      requires repo.db.Valid()
      modifies repo.db`answers
      ensures repo.db.Valid()
      ensures repo.db.answers == Remove(old(repo.db.answers), AnswerKey, a.id as int)
      ensures FindAnswer(repo.db.answers, a.id) == ZeroAnswer
    {
      repo.DeleteAnswer(a);
    }

    function All(): (r: seq<Answer>)
      reads repo.db
      ensures multiset(r) == multiset(repo.db.answers)
    {
      repo.AllAnswers()
    }

    function UsersWithMostAnswers(): (r: seq<Answer>)
      reads repo.db
      ensures multiset(r) == multiset(repo.db.answers)
      ensures SortedDesc(r, AnswerUserId)
    {
      repo.UsersWithMostAnswers()
    }

    function FindById(id: uint64): (r: Answer)
      reads repo.db
      ensures r == repo.FindAnswerByID(id)
      ensures HasKey(repo.db.answers, AnswerKey, id as int) ==> r in repo.db.answers && r.id == id
      ensures !HasKey(repo.db.answers, AnswerKey, id as int) ==> r == ZeroAnswer
    {
      repo.FindAnswerByID(id)
    }

    /**
      True when `userId` is the text `%v` gives for the owner of the answer as
      stored now; a missing answer reads as owned by user 0.
    */
    function IsAllowedToEdit(userId: string, answerId: uint64): (allowed: bool)
      reads repo.db
      requires repo.db.Valid()
      ensures HasKey(repo.db.answers, AnswerKey, answerId as int) ==>
        (allowed <==> exists a :: a in repo.db.answers && a.id == answerId && userId == Render(a.userId as nat))
      ensures !HasKey(repo.db.answers, AnswerKey, answerId as int) ==> (allowed <==> userId == "0")
    {
      var a := repo.FindAnswerByID(answerId);
      assert Render(0) == "0";
      assert forall x :: x in repo.db.answers && x.id == answerId ==> x == a by {
        forall x | x in repo.db.answers && x.id == answerId ensures x == a {
          KeyIdentifies(repo.db.answers, AnswerKey, x, a);
        }
      }
      userId == Render(a.userId as nat)
    }
  }

  /** The string test is a numeric test on canonical numerals and refuses every other spelling. */
  lemma AllowedIffCanonicalOwner(s: AnswerService, userId: string, answerId: uint64)
    requires s.repo.db.Valid()
    ensures s.IsAllowedToEdit(userId, answerId)
        <==> IsCanonical(userId) && Value(userId) == s.FindById(answerId).userId as int
  {
    RenderMatches(userId, s.FindById(answerId).userId as nat);
  }

  /** For a missing answer, no positive id is allowed. */
  lemma AbsentAnswerOnlyZero(s: AnswerService, u: uint64, answerId: uint64)
    requires s.repo.db.Valid()
    requires !HasKey(s.repo.db.answers, AnswerKey, answerId as int)
    ensures s.IsAllowedToEdit(Render(u as nat), answerId) <==> u == 0
  {
    RenderInjective(u as nat, 0);
  }
}
