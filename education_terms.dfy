/**
 * EducationTermService: validation of a candidate education term against the
 * stored terms, and the save / update / delete operations on the term store.
 */
module EducationTerms {
  import opened Wrappers
  import opened Dates

  /** The named academic term of an education term. */
  datatype Term = FallSemester | SpringSemester

  /**
   * An education term. The request and the stored entity carry the same
   * fields (the mapper copies them), so one datatype stands for both.
   */
  datatype EducationTerm = EducationTerm(
    term: Term,
    startDate: Date,
    endDate: Date,
    lastRegistrationDate: Date)

  /** The service's failures, one per error message it raises. */
  datatype TermError =
    | StartDateEarlierThanLastRegistration
    | EndDateEarlierThanStartDate
    | TermAndYearAlreadyExist
    | TermConflict
    | TermNotFound(id: TermId)

  type TermId = int

  /** The contents of the education-term repository, keyed by id. */
  type TermStore = map<TermId, EducationTerm>

  /** The year a term belongs to: the year of its start date. */
  function Year(t: EducationTerm): int {
    t.startDate.year
  }

  /** The two checks on a request's own dates, in the order the service makes them. */
  function ValidateEducationTermDatesForRequest(req: EducationTerm): Outcome<TermError> {
    if IsAfter(req.lastRegistrationDate, req.startDate) then Fail(StartDateEarlierThanLastRegistration)
    else if IsBefore(req.endDate, req.startDate) then Fail(EndDateEarlierThanStartDate)
    else Pass
  }

  /** A term whose own dates pass both checks. */
  predicate WellFormed(t: EducationTerm) {
    !IsAfter(t.lastRegistrationDate, t.startDate) && !IsBefore(t.endDate, t.startDate)
  }

  /** The repository query existsByTermAndYear. */
  predicate ExistsByTermAndYear(store: TermStore, term: Term, year: int) {
    exists id :: id in store && store[id].term == term && Year(store[id]) == year
  }

  /**
   * The anyMatch lambda: does the stored term `e` conflict with the candidate
   * `c`? The four clauses exactly as the service writes them.
   */
  predicate Conflicts(e: EducationTerm, c: EducationTerm) {
    || e.startDate == c.startDate
    || (IsBefore(e.startDate, c.startDate) && IsAfter(e.endDate, c.startDate))
    || (IsBefore(e.startDate, c.endDate) && IsAfter(e.endDate, c.endDate))
    || (IsAfter(e.startDate, c.startDate) && IsBefore(e.endDate, c.endDate))
  }

  /** findByYear followed by anyMatch: some stored term of the candidate's year conflicts with it. */
  predicate AnyConflict(store: TermStore, req: EducationTerm) {
    exists id :: id in store && Year(store[id]) == Year(req) && Conflicts(store[id], req)
  }

  /** The whole validation of a request against the store; the first failing check decides the error. */
  function ValidateEducationTermDates(store: TermStore, req: EducationTerm): Outcome<TermError> {
    match ValidateEducationTermDatesForRequest(req)
    case Fail(e) => Fail(e)
    case Pass =>
      if ExistsByTermAndYear(store, req.term, Year(req)) then Fail(TermAndYearAlreadyExist)
      else if AnyConflict(store, req) then Fail(TermConflict)
      else Pass
  }

  /**
   * What the store keeps true when every term in it went through validation:
   * each term's dates are in order, and no two terms share a term name and a year.
   */
  ghost predicate StoreInvariant(store: TermStore) {
    && (forall id :: id in store ==> WellFormed(store[id]))
    && (forall i, j ::
          i in store && j in store && store[i].term == store[j].term && Year(store[i]) == Year(store[j])
          ==> i == j)
  }

  /** Storing an accepted request, under a new id or in place of an existing one, keeps the invariant. */
  lemma AcceptedTermKeepsInvariant(store: TermStore, id: TermId, req: EducationTerm)
    requires StoreInvariant(store)
    requires ValidateEducationTermDates(store, req) == Pass
    ensures StoreInvariant(store[id := req])
  {
  }

  /** The education-term service over its repository. */
  class EducationTermService {
    /** The repository's contents. */
    var terms: TermStore
    /** The id the repository hands out on the next save. */
    var nextId: TermId

    ghost predicate Valid()
      reads this
    {
      && StoreInvariant(terms)
      && forall id :: id in terms ==> id < nextId
    }

    constructor ()
      ensures Valid() && terms == map[]
    {
      terms := map[];
      nextId := 1;
    }

    /** isEducationTermExist: the stored term with this id, or the not-found error. */
    function IsEducationTermExist(id: TermId): (r: Result<EducationTerm, TermError>)
      reads this
      ensures r.Ok? <==> id in terms
      ensures r.Ok? ==> r.value == terms[id]
      ensures r.Err? ==> r.error == TermNotFound(id)
    {
      if id in terms then Ok(terms[id]) else Err(TermNotFound(id))
    }

    /** saveEducationTerm: validate, then store the request under a new id. */
    method SaveEducationTerm(req: EducationTerm) returns (r: Result<TermId, TermError>)
      requires Valid()
      modifies this
      ensures Valid()
      ensures r.Ok? <==> ValidateEducationTermDates(old(terms), req) == Pass
      ensures r.Ok? ==> r.value !in old(terms) && terms == old(terms)[r.value := req]
      ensures r.Err? ==> Fail(r.error) == ValidateEducationTermDates(old(terms), req)
      ensures r.Err? ==> terms == old(terms)
    {
      var verdict := ValidateEducationTermDates(terms, req);
      if verdict.Fail? {
        return Err(verdict.error);
      }
      AcceptedTermKeepsInvariant(terms, nextId, req);
      terms := terms[nextId := req];
      r := Ok(nextId);
      nextId := nextId + 1;
    }

    /**
     * updateEducationTerm: the id must exist; the request is then validated
     * against the whole store, the record being replaced included.
     */
    method UpdateEducationTerm(id: TermId, req: EducationTerm) returns (r: Outcome<TermError>)
      requires Valid()
      modifies this
      ensures Valid()
      ensures id !in old(terms) ==> r == Fail(TermNotFound(id))
      ensures id in old(terms) ==> r == ValidateEducationTermDates(old(terms), req)
      ensures r.Pass? ==> terms == old(terms)[id := req]
      ensures r.Fail? ==> terms == old(terms)
    {
      var existing := IsEducationTermExist(id);
      if existing.Err? {
        return Fail(existing.error);
      }
      r := ValidateEducationTermDates(terms, req);
      if r.Pass? {
        AcceptedTermKeepsInvariant(terms, id, req);
        terms := terms[id := req];
      }
    }

    /** deleteEducationTermById: the id must exist; then exactly that entry goes. */
    method DeleteEducationTermById(id: TermId) returns (r: Outcome<TermError>)
      requires Valid()
      modifies this
      ensures Valid()
      ensures r.Pass? <==> id in old(terms)
      ensures r.Fail? ==> r.error == TermNotFound(id) && terms == old(terms)
      ensures r.Pass? ==> terms == old(terms) - {id}
    {
      var existing := IsEducationTermExist(id);
      if existing.Err? {
        return Fail(existing.error);
      }
      terms := terms - {id};
      r := Pass;
    }
  }
}
