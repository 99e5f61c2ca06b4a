/**
  The ownership gate of the question and answer controllers
  (controller/question-controller.go, controller/answer-controller.go): an
  update or a delete reaches the service only when the caller's id string is
  allowed to edit the row, and an allowed update is stamped with the caller's
  id parsed back from that string. Request binding and the token check are
  outside the gate; the caller's id arrives as the string `%v` made of the
  `user_id` claim.
*/
module Controllers {
  import opened Wrappers
  import opened Entities
  import opened Table
  import opened Decimal
  import opened Store
  import opened QuestionRepo
  import opened AnswerRepo
  import QuestionSvc
  import AnswerSvc

  datatype Status = StatusOK | StatusForbidden

  /** Update a question for the caller `userId`. */
  method UpdateQuestion(service: QuestionSvc.QuestionService, userId: string, dto: QuestionUpdateDTO)
    returns (status: Status, result: Question)
    requires service.repo.db.Valid()
    modifies service.repo.db`questions, service.repo.db`nextQuestionId
    ensures service.repo.db.Valid()
    ensures status == StatusOK <==> old(service.IsAllowedToEdit(userId, dto.id))
    ensures status == StatusForbidden ==>
      service.repo.db.questions == old(service.repo.db.questions)
      && service.repo.db.nextQuestionId == old(service.repo.db.nextQuestionId)
    ensures status == StatusOK ==>
      Saved(service.repo.db.questions, service.repo.db.nextQuestionId, result)
      == SaveAndReloadQuestion(old(service.repo.db.questions), old(service.repo.db.nextQuestionId),
                      QuestionSvc.FromUpdate(dto.(userId := old(service.FindById(dto.id).userId))))
    ensures status == StatusOK && old(HasKey(service.repo.db.questions, QuestionKey, dto.id as int)) ==>
      FindQuestion(service.repo.db.questions, dto.id).userId == old(FindQuestion(service.repo.db.questions, dto.id).userId)
  {
    if service.IsAllowedToEdit(userId, dto.id) {
      var owner := service.FindById(dto.id).userId;
      QuestionSvc.AllowedIffCanonicalOwner(service, userId, dto.id);
      var parsed := ParseUint(userId);
      var dto' := dto;
      if parsed.Some? {
        dto' := dto.(userId := parsed.value);
      }
      assert dto' == dto.(userId := owner);
      result := service.Update(dto');
      status := StatusOK;
    } else {
      result := ZeroQuestion;
      status := StatusForbidden;
    }
  }

  /** Delete the question `id` for the caller `userId`. */
  method DeleteQuestion(service: QuestionSvc.QuestionService, userId: string, id: uint64) returns (status: Status)
    requires service.repo.db.Valid()
    modifies service.repo.db`questions
    ensures service.repo.db.Valid()
    ensures status == StatusOK <==> old(service.IsAllowedToEdit(userId, id))
    ensures status == StatusForbidden ==> service.repo.db.questions == old(service.repo.db.questions)
    ensures status == StatusOK ==> service.repo.db.questions == Remove(old(service.repo.db.questions), QuestionKey, id as int)
  {
    if service.IsAllowedToEdit(userId, id) {
      service.Delete(ZeroQuestion.(id := id));
      status := StatusOK;
    } else {
      status := StatusForbidden;
    }
  }

  /** Update an answer for the caller `userId`. */
  method UpdateAnswer(service: AnswerSvc.AnswerService, userId: string, dto: AnswerUpdateDTO)
    returns (status: Status, result: Answer)
    requires service.repo.db.Valid()
    modifies service.repo.db`answers, service.repo.db`nextAnswerId
    ensures service.repo.db.Valid()
    ensures status == StatusOK <==> old(service.IsAllowedToEdit(userId, dto.id))
    ensures status == StatusForbidden ==>
      service.repo.db.answers == old(service.repo.db.answers)
      && service.repo.db.nextAnswerId == old(service.repo.db.nextAnswerId)
    ensures status == StatusOK ==>
      Saved(service.repo.db.answers, service.repo.db.nextAnswerId, result)
      == SaveAndReloadAnswer(old(service.repo.db.answers), old(service.repo.db.nextAnswerId),
                    AnswerSvc.FromUpdate(dto.(userId := old(service.FindById(dto.id).userId))))
    ensures status == StatusOK && old(HasKey(service.repo.db.answers, AnswerKey, dto.id as int)) ==>
      FindAnswer(service.repo.db.answers, dto.id).userId == old(FindAnswer(service.repo.db.answers, dto.id).userId)
  {
    if service.IsAllowedToEdit(userId, dto.id) {
      var owner := service.FindById(dto.id).userId;
      AnswerSvc.AllowedIffCanonicalOwner(service, userId, dto.id);
      var parsed := ParseUint(userId);
      var dto' := dto;
      if parsed.Some? {
        dto' := dto.(userId := parsed.value);
      }
      assert dto' == dto.(userId := owner);
      result := service.Update(dto');
      status := StatusOK;
    } else {
      result := ZeroAnswer;
      status := StatusForbidden;
    }
  }

  /** Delete the answer `id` for the caller `userId`. */
  method DeleteAnswer(service: AnswerSvc.AnswerService, userId: string, id: uint64) returns (status: Status)
    requires service.repo.db.Valid()
    modifies service.repo.db`answers
    ensures service.repo.db.Valid()
    ensures status == StatusOK <==> old(service.IsAllowedToEdit(userId, id))
    ensures status == StatusForbidden ==> service.repo.db.answers == old(service.repo.db.answers)
    ensures status == StatusOK ==> service.repo.db.answers == Remove(old(service.repo.db.answers), AnswerKey, id as int)
  {
    if service.IsAllowedToEdit(userId, id) {
      service.Delete(ZeroAnswer.(id := id));
      status := StatusOK;
    } else {
      status := StatusForbidden;
    }
  }
}
