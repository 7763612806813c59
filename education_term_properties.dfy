/**
 * Properties of EducationTermService's validation: the order of its checks,
 * the duplicate rule, and what the four-clause overlap test does and does not
 * catch.
 */
module EducationTermProperties {
  import opened Wrappers
  import opened Dates
  import opened EducationTerms

  /** The validation's checks, named by the error each raises, in the order they run. */
  const CHECK_ORDER: seq<TermError> :=
    [StartDateEarlierThanLastRegistration, EndDateEarlierThanStartDate, TermAndYearAlreadyExist, TermConflict]

  /** Does the check that raises `e`, taken on its own, reject `req` against `store`? */
  predicate CheckFails(store: TermStore, req: EducationTerm, e: TermError) {
    match e
    case StartDateEarlierThanLastRegistration => IsAfter(req.lastRegistrationDate, req.startDate)
    case EndDateEarlierThanStartDate => IsBefore(req.endDate, req.startDate)
    case TermAndYearAlreadyExist => ExistsByTermAndYear(store, req.term, Year(req))
    case TermConflict => AnyConflict(store, req)
    case TermNotFound(_) => false
  }

  /**
   * First failure wins: validation reports the error of a check exactly when
   * that check fails and every earlier one passes, and accepts exactly when
   * no check fails.
   */
  lemma FirstFailureWins(store: TermStore, req: EducationTerm)
    ensures forall i :: 0 <= i < |CHECK_ORDER| ==>
      (ValidateEducationTermDates(store, req) == Fail(CHECK_ORDER[i]) <==>
        CheckFails(store, req, CHECK_ORDER[i]) && forall j :: 0 <= j < i ==> !CheckFails(store, req, CHECK_ORDER[j]))
    ensures ValidateEducationTermDates(store, req) == Pass <==>
      forall i :: 0 <= i < |CHECK_ORDER| ==> !CheckFails(store, req, CHECK_ORDER[i])
    ensures ValidateEducationTermDates(store, req).Fail? ==> ValidateEducationTermDates(store, req).error in CHECK_ORDER
  {
    var c0, c1, c2, c3 := CHECK_ORDER[0], CHECK_ORDER[1], CHECK_ORDER[2], CHECK_ORDER[3];
    assert CheckFails(store, req, c0) <==> IsAfter(req.lastRegistrationDate, req.startDate);
    assert CheckFails(store, req, c1) <==> IsBefore(req.endDate, req.startDate);
    assert CheckFails(store, req, c2) <==> ExistsByTermAndYear(store, req.term, Year(req));
    assert CheckFails(store, req, c3) <==> AnyConflict(store, req);
  }

  /** A last-registration date after the start date is rejected whatever the store holds; an equal one passes this check. */
  lemma RegistrationAfterStartRejected(store: TermStore, req: EducationTerm)
    ensures ValidateEducationTermDates(store, req) == Fail(StartDateEarlierThanLastRegistration)
      <==> IsAfter(req.lastRegistrationDate, req.startDate)
    ensures req.lastRegistrationDate == req.startDate
      ==> ValidateEducationTermDates(store, req) != Fail(StartDateEarlierThanLastRegistration)
  {
  }

  /** An end date before the start date is rejected (once the registration check passed); an equal one passes. */
  lemma EndBeforeStartRejected(store: TermStore, req: EducationTerm)
    ensures ValidateEducationTermDates(store, req) == Fail(EndDateEarlierThanStartDate)
      <==> !IsAfter(req.lastRegistrationDate, req.startDate) && IsBefore(req.endDate, req.startDate)
    ensures req.endDate == req.startDate
      ==> ValidateEducationTermDates(store, req) != Fail(EndDateEarlierThanStartDate)
  {
  }

  /**
   * A request with well-ordered dates is rejected as a duplicate when a stored
   * term has its term name and year, however far apart their dates are.
   */
  lemma DuplicateTermAndYearRejected(store: TermStore, req: EducationTerm, id: TermId)
    requires WellFormed(req)
    requires id in store && store[id].term == req.term && Year(store[id]) == Year(req)
    ensures ValidateEducationTermDates(store, req) == Fail(TermAndYearAlreadyExist)
  {
  }

  /**
   * Terms of other years are invisible to validation: adding them to the store
   * changes no verdict.
   */
  lemma OtherYearsIgnored(store: TermStore, other: TermStore, req: EducationTerm)
    requires store.Keys !! other.Keys
    requires forall id :: id in other ==> Year(other[id]) != Year(req)
    ensures ValidateEducationTermDates(store + other, req) == ValidateEducationTermDates(store, req)
  {
    var both := store + other;
    if ExistsByTermAndYear(both, req.term, Year(req)) {
      var id :| id in both && both[id].term == req.term && Year(both[id]) == Year(req);
      assert id in store && store[id] == both[id];
    }
    if AnyConflict(both, req) {
      var id :| id in both && Year(both[id]) == Year(req) && Conflicts(both[id], req);
      assert id in store && store[id] == both[id];
    }
    if ExistsByTermAndYear(store, req.term, Year(req)) {
      var id :| id in store && store[id].term == req.term && Year(store[id]) == Year(req);
      assert id in both && both[id] == store[id];
    }
    if AnyConflict(store, req) {
      var id :| id in store && Year(store[id]) == Year(req) && Conflicts(store[id], req);
      assert id in both && both[id] == store[id];
    }
  }

  /** A term whose end date is not before its start date. */
  predicate InOrder(t: EducationTerm) {
    !IsBefore(t.endDate, t.startDate)
  }

  /** The closed date ranges of the two terms share at least one day. */
  predicate Overlap(e: EducationTerm, c: EducationTerm) {
    !IsAfter(e.startDate, c.endDate) && !IsAfter(c.startDate, e.endDate)
  }

  /** The stored term starts earlier and ends on the candidate's start date. */
  predicate EndsOnCandidateStart(e: EducationTerm, c: EducationTerm) {
    IsBefore(e.startDate, c.startDate) && e.endDate == c.startDate
  }

  /** The stored term starts later, on the candidate's end date. */
  predicate StartsOnCandidateEnd(e: EducationTerm, c: EducationTerm) {
    IsAfter(e.startDate, c.startDate) && e.startDate == c.endDate
  }

  /** The stored term starts later and ends on the candidate's end date. */
  predicate NestedSharingEnd(e: EducationTerm, c: EducationTerm) {
    IsAfter(e.startDate, c.startDate) && e.endDate == c.endDate
  }

  /**
   * For terms whose dates are in order, the four clauses flag exactly the
   * overlapping pairs except three shapes: a stored term ending on the
   * candidate's start, one starting on the candidate's end, and one nested
   * inside the candidate that ends on the same day.
   */
  lemma ConflictsCharacterisation(e: EducationTerm, c: EducationTerm)
    requires InOrder(e) && InOrder(c)
    ensures Conflicts(e, c) <==>
      && Overlap(e, c)
      && !EndsOnCandidateStart(e, c)
      && !StartsOnCandidateEnd(e, c)
      && !NestedSharingEnd(e, c)
  {
  }

  /** Touching endpoints are not flagged: a stored term that ends on the candidate's start day. */
  lemma EndTouchingStartNotFlagged(e: EducationTerm, c: EducationTerm)
    requires InOrder(e) && InOrder(c)
    requires e.endDate == c.startDate && e.startDate != c.startDate
    ensures Overlap(e, c) && !Conflicts(e, c)
  {
  }

  /** A stored term that starts after the candidate and ends on the candidate's end day is not flagged. */
  lemma NestedSharingEndNotFlagged(e: EducationTerm, c: EducationTerm)
    requires IsAfter(e.startDate, c.startDate) && e.endDate == c.endDate
    ensures !Conflicts(e, c)
  {
  }

  /** The four clauses are not a complete overlap test: some overlapping pair escapes them. */
  lemma ConflictsMissesSomeOverlap()
    ensures exists e, c :: InOrder(e) && InOrder(c) && Overlap(e, c) && !Conflicts(e, c)
  {
    var reg := Date(2024, 1, 1);
    var c := EducationTerm(FallSemester, Date(2024, 2, 1), Date(2024, 6, 1), reg);
    var e := EducationTerm(SpringSemester, Date(2024, 3, 1), Date(2024, 6, 1), reg);
    assert InOrder(e) && InOrder(c) && Overlap(e, c) && !Conflicts(e, c);
  }

  /**
   * The test is not symmetric, so saving can leave two overlapping terms of
   * one year in the store: a candidate that swallows a stored term and shares
   * its end date is accepted, although the stored term, taken as the
   * candidate, would be flagged against it.
   */
  lemma AcceptedTermMayOverlapStoredTerm()
    ensures exists store: TermStore, id, req ::
      && StoreInvariant(store)
      && ValidateEducationTermDates(store, req) == Pass
      && id in store && Year(store[id]) == Year(req) && Overlap(store[id], req)
      && Conflicts(req, store[id])
  {
    var e := EducationTerm(SpringSemester, Date(2024, 3, 1), Date(2024, 6, 1), Date(2024, 2, 1));
    var c := EducationTerm(FallSemester, Date(2024, 2, 1), Date(2024, 6, 1), Date(2024, 1, 15));
    var store := map[1 := e];
    assert !ExistsByTermAndYear(store, c.term, Year(c));
    assert !AnyConflict(store, c);
    assert StoreInvariant(store) && ValidateEducationTermDates(store, c) == Pass;
    assert Overlap(store[1], c) && Conflicts(c, store[1]);
  }

  /**
   * updateEducationTerm does not leave out the record it replaces: a request
   * keeping the stored term name and start year always fails, with the
   * duplicate error once its own dates are in order.
   */
  lemma UpdateKeepingTermAndYearFails(store: TermStore, id: TermId, req: EducationTerm)
    requires id in store
    requires req.term == store[id].term && Year(req) == Year(store[id])
    ensures ValidateEducationTermDates(store, req).Fail?
    ensures WellFormed(req) ==> ValidateEducationTermDates(store, req) == Fail(TermAndYearAlreadyExist)
  {
  }
}
