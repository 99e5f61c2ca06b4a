/**
  The persisted records and the transfer objects of the forum: one datatype per
  record in the entity and dto packages, keeping the fields the core reads or writes.
  Timestamps are plain integers; associations that GORM preloads are not kept.
*/
module Entities {

  /** Go's uint64, the type of every primary and foreign key. */
  newtype uint64 = x: int | 0 <= x <= 0xFFFF_FFFF_FFFF_FFFF

  const MaxUint64: int := 0xFFFF_FFFF_FFFF_FFFF

  /** A row of the questions table. */
  datatype Question = Question(
    id: uint64,
    body: string,
    userId: uint64,
    numOfLikes: int,
    isLiked: bool,
    createdAt: int,
    updatedAt: int)

  /** What GORM leaves in a Question variable when no row is found. */
  const ZeroQuestion: Question := Question(0, "", 0, 0, false, 0, 0)

  /** A row of the question_likes table: user `userId` likes question `questionId`. */
  datatype QuestionLike = QuestionLike(questionId: uint64, userId: uint64)

  /** A row of the answers table. */
  datatype Answer = Answer(id: uint64, body: string, questionId: uint64, userId: uint64)

  const ZeroAnswer: Answer := Answer(0, "", 0, 0)

  /** A row of the users table; `password` holds whatever the repository stored. */
  datatype User = User(id: uint64, firstname: string, lastname: string, email: string, password: string)

  const ZeroUser: User := User(0, "", "", "", "")

  /** The projection of one question as seen by one caller. */
  datatype QuestionResult = QuestionResult(
    questionId: int,
    body: string,
    numOfLikes: int,
    isLiked: bool,
    isEditable: bool)

  /** One line of the "users with most answers" report. */
  datatype MostAnswers = MostAnswers(userId: int, firstname: string, lastname: string, numberOfAnswers: int)

  /** Paging parameters taken from a request's query string. */
  datatype Pagination = Pagination(limit: int, page: int, sort: string)

  datatype QuestionCreateDTO = QuestionCreateDTO(body: string, numOfLikes: int, userId: uint64, createdAt: int, updatedAt: int)

  datatype QuestionUpdateDTO = QuestionUpdateDTO(id: uint64, body: string, numOfLikes: int, userId: uint64, createdAt: int, updatedAt: int)

  datatype AnswerCreateDTO = AnswerCreateDTO(body: string, questionId: uint64, userId: uint64)

  datatype AnswerUpdateDTO = AnswerUpdateDTO(id: uint64, body: string, questionId: uint64, userId: uint64)

  datatype RegisterDTO = RegisterDTO(firstname: string, lastname: string, email: string, password: string)

  // Column accessors, passed to the generic table operations.

  function QuestionKey(q: Question): int { q.id as int }
  function QuestionCreatedAt(q: Question): int { q.createdAt }
  function QuestionNumOfLikes(q: Question): int { q.numOfLikes }
  function AnswerKey(a: Answer): int { a.id as int }
  function AnswerUserId(a: Answer): int { a.userId as int }
  function UserKey(u: User): int { u.id as int }
  function UserEmail(u: User): string { u.email }
  function LikeQuestionId(l: QuestionLike): int { l.questionId as int }
  function LikePair(l: QuestionLike): (int, int) { (l.questionId as int, l.userId as int) }
  function MostAnswersCount(m: MostAnswers): int { m.numberOfAnswers }
  function MostAnswersUserId(m: MostAnswers): int { m.userId }
}
