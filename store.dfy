/**
  The database behind the shared GORM connection: the four tables the core
  touches and the auto-increment counters of the three that have one.
*/
module Store {
  import opened Entities
  import opened Table

  class Database {
    var questions: seq<Question>
    var likes: seq<QuestionLike>
    var answers: seq<Answer>
    var users: seq<User>
    var nextQuestionId: nat
    var nextAnswerId: nat
    var nextUserId: nat

    /** Primary keys behave as auto-increment keys, and emails are unique (uniqueIndex). */
    ghost predicate Valid()
      reads this
    {
      && Keyed(questions, QuestionKey, nextQuestionId)
      && Keyed(answers, AnswerKey, nextAnswerId)
      && Keyed(users, UserKey, nextUserId)
      && UniqueKeys(users, UserEmail)
    }

    /** An empty database whose counters start at 1. */
    constructor ()
      ensures Valid()
      ensures questions == [] && likes == [] && answers == [] && users == []
      ensures nextQuestionId == 1 && nextAnswerId == 1 && nextUserId == 1
    {
      questions, likes, answers, users := [], [], [], [];
      nextQuestionId, nextAnswerId, nextUserId := 1, 1, 1;
    }
  }
}
