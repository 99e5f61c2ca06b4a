/**
  The question service (service/question-service.go): maps transfer objects to
  rows, forwards to the repository, and decides who may edit a question by
  comparing the caller's id string with the `%v` rendering of the stored owner.
*/
module QuestionSvc {
  import opened Entities
  import opened Table
  import opened Decimal
  import opened Store
  import opened QuestionRepo

  /** The row smapping fills from a create request: no id yet, not liked. */
  function FromCreate(dto: QuestionCreateDTO): (q: Question)
    ensures q.id == 0 && q.body == dto.body && q.userId == dto.userId && q.numOfLikes == dto.numOfLikes
  {
    Question(0, dto.body, dto.userId, dto.numOfLikes, false, dto.createdAt, dto.updatedAt)
  }

  /** The row smapping fills from an update request. */
  function FromUpdate(dto: QuestionUpdateDTO): (q: Question)
    ensures q.id == dto.id && q.body == dto.body && q.userId == dto.userId && q.numOfLikes == dto.numOfLikes
  {
    Question(dto.id, dto.body, dto.userId, dto.numOfLikes, false, dto.createdAt, dto.updatedAt)
  }

  class QuestionService {
    const repo: QuestionRepository

    constructor (repo: QuestionRepository)
      ensures this.repo == repo
    {
      this.repo := repo;
    }

    method Insert(dto: QuestionCreateDTO) returns (r: Question)
      requires repo.db.Valid()
      modifies repo.db`questions, repo.db`nextQuestionId
      ensures repo.db.Valid()
      ensures Saved(repo.db.questions, repo.db.nextQuestionId, r)
           == SaveAndReloadQuestion(old(repo.db.questions), old(repo.db.nextQuestionId), FromCreate(dto))
    {
      r := repo.InsertQuestion(FromCreate(dto));
    }

    method Update(dto: QuestionUpdateDTO) returns (r: Question)
      requires repo.db.Valid()
      modifies repo.db`questions, repo.db`nextQuestionId
      ensures repo.db.Valid()
      ensures Saved(repo.db.questions, repo.db.nextQuestionId, r)
           == SaveAndReloadQuestion(old(repo.db.questions), old(repo.db.nextQuestionId), FromUpdate(dto))
    {
      r := repo.UpdateQuestion(FromUpdate(dto));
    }

    method Delete(q: Question)
      requires repo.db.Valid()
      modifies repo.db`questions
      ensures repo.db.Valid()
      ensures repo.db.questions == Remove(old(repo.db.questions), QuestionKey, q.id as int)
    {
      repo.DeleteQuestion(q);
    }

    function FindById(id: uint64): (r: Question)
      reads repo.db
      ensures r == repo.FindQuestionByID(id)
      ensures HasKey(repo.db.questions, QuestionKey, id as int) ==> r in repo.db.questions && r.id == id
      ensures !HasKey(repo.db.questions, QuestionKey, id as int) ==> r == ZeroQuestion
    {
      repo.FindQuestionByID(id)
    }

    /**
      True when `userId` is the text `%v` gives for the owner of the question as
      stored now; a missing question reads as owned by user 0.
    */
    function IsAllowedToEdit(userId: string, questionId: uint64): (allowed: bool)
      reads repo.db
      requires repo.db.Valid()
      ensures HasKey(repo.db.questions, QuestionKey, questionId as int) ==>
        (allowed <==> exists q :: q in repo.db.questions && q.id == questionId && userId == Render(q.userId as nat))
      ensures !HasKey(repo.db.questions, QuestionKey, questionId as int) ==> (allowed <==> userId == "0")
    {
      var q := repo.FindQuestionByID(questionId);
      assert Render(0) == "0";
      assert HasKey(repo.db.questions, QuestionKey, questionId as int) ==> q in repo.db.questions && q.id == questionId;
      assert forall x :: x in repo.db.questions && x.id == questionId ==> x == q by {
        forall x | x in repo.db.questions && x.id == questionId ensures x == q {
          KeyIdentifies(repo.db.questions, QuestionKey, x, q);
        }
      }
      userId == Render(q.userId as nat)
    }

    function QuestionPage(q: uint64, u: uint64): (r: QuestionResult)
      reads repo.db
      ensures r == repo.QuestionPage(q, u)
    {
      repo.QuestionPage(q, u)
    }

    method Like(q: uint64, u: uint64)
      requires repo.db.Valid()
      modifies repo.db`likes
      ensures repo.db.Valid()
      ensures repo.db.likes == old(repo.db.likes) + [QuestionLike(q, u)]
    {
      repo.Like(q, u);
    }

    method DeleteLike(q: uint64, u: uint64)
      requires repo.db.Valid()
      modifies repo.db`likes
      ensures repo.db.Valid()
      ensures repo.db.likes == Unlike(old(repo.db.likes), q, u)
    {
      repo.DeleteLike(q, u);
    }

    function GetNumberOfLikesForQuestion(): (r: seq<Question>)
      reads repo.db
      ensures r == repo.GetNumberOfLikesForQuestion()
    {
      repo.GetNumberOfLikesForQuestion()
    }
  }

  /** The string test is a numeric test on canonical numerals and refuses every other spelling. */
  lemma AllowedIffCanonicalOwner(s: QuestionService, userId: string, questionId: uint64)
    requires s.repo.db.Valid()
    ensures s.IsAllowedToEdit(userId, questionId)
        <==> IsCanonical(userId) && Value(userId) == s.FindById(questionId).userId as int
  {
    RenderMatches(userId, s.FindById(questionId).userId as nat);
  }

  /** "07" or "+7" is never allowed, whoever owns the question. */
  lemma NonCanonicalNeverAllowed(s: QuestionService, userId: string, questionId: uint64)
    requires s.repo.db.Valid()
    requires !IsCanonical(userId)
    ensures !s.IsAllowedToEdit(userId, questionId)
  {
    AllowedIffCanonicalOwner(s, userId, questionId);
  }

  /** For a missing question, no positive id is allowed. */
  lemma AbsentQuestionOnlyZero(s: QuestionService, u: uint64, questionId: uint64)
    requires s.repo.db.Valid()
    requires !HasKey(s.repo.db.questions, QuestionKey, questionId as int)
    ensures s.IsAllowedToEdit(Render(u as nat), questionId) <==> u == 0
  {
    RenderInjective(u as nat, 0);
  }

  /**
    The page's numeric ownership flag agrees with the string check for a stored
    question, and disagrees for a missing one and the caller "0".
  */
  lemma EditableAgreesWithAllowed(s: QuestionService, q: uint64, u: uint64)
    requires s.repo.db.Valid()
    ensures HasKey(s.repo.db.questions, QuestionKey, q as int) ==>
      (s.QuestionPage(q, u).isEditable <==> s.IsAllowedToEdit(Render(u as nat), q))
    ensures !HasKey(s.repo.db.questions, QuestionKey, q as int) ==>
      !s.QuestionPage(q, 0).isEditable && s.IsAllowedToEdit("0", q)
  {
    RenderInjective(u as nat, s.FindById(q).userId as nat);
  }
}
