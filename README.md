# Education terms and advisor teachers, modelled in Dafny

This project models two services of a school-administration backend.

**EducationTermService** decides whether a candidate education term may be stored. A term has:

- a term name (fall or spring semester);
- a start date, an end date and a last-registration date.

The service runs four checks in a fixed order:

1. The last-registration date must not be after the start date.
2. The end date must not be before the start date.
3. No stored term may have the same term name and the same year. The year is the year of the start date.
4. No stored term of that year may conflict with the candidate under a fixed four-clause test.

Save, update and delete then change the term store, which is keyed by id.

**TeacherService** keeps a user table. Each user has:

- a nullable advisor flag;
- a nullable link to its advisor teacher;
- a set of lesson programs.

The service can flag a teacher as advisor. It can clear that flag and unlink the advisor's students. It can add lesson programs to a teacher. It can list advisors, and it can list the students of an advisor.

Files:

- `wrappers.dfy`: `Option`, `Result` and `Outcome`. These stand for nullable values and thrown exceptions.
- `dates.dfy`: dates compared field by field, as `LocalDate.isBefore` and `isAfter` do.
- `education_terms.dfy`: the validation functions. It also holds the class `EducationTermService`, which owns the term store (`map<TermId, EducationTerm>`), and the store invariant.
- `education_term_properties.dfy`: lemmas on the validation. They cover the order of the checks and the duplicate rule. They also say exactly which overlapping terms the four-clause test misses.
- `teachers.dfy`: the class `TeacherService` over the user table (`map<UserId, User>`), the two listing functions, and the unlinking step with its lemma.

The four-clause conflict test is written exactly as the code has it. The model does not correct it. `ConflictsCharacterisation` proves which pairs it flags, for terms whose dates are in order. It flags every pair of overlapping date ranges except three shapes:

- a stored term that ends on the candidate's start day;
- a stored term that starts on the candidate's end day;
- a stored term that starts after the candidate and ends on the same day.

The test is also asymmetric. `AcceptedTermMayOverlapStoredTerm` builds a store and a candidate that is accepted even though it overlaps a stored term of the same year.

The update does not leave the record being replaced out of the checks. The TODO at `EducationTermService.java:124` notes the resulting failure, and `UpdateKeepingTermAndYearFails` proves it. The two date checks raise different messages, and the model keeps them apart.

## Model

| member | source | states |
|---|---|---|
| `EducationTerms.EducationTermService.IsEducationTermExist` | src/main/java/com/project/service/business/EducationTermService.java:92-95 | Returns the stored term exactly when the id is present. Otherwise it returns the not-found error for that id. |
| `EducationTerms.AcceptedTermKeepsInvariant` | src/main/java/com/project/service/business/EducationTermService.java:57-83 | Storing a request that passed validation, under any id, keeps the invariant. Every term's dates stay in order and no two terms share a term name and a year. |
| `EducationTerms.EducationTermService.SaveEducationTerm` | src/main/java/com/project/service/business/EducationTermService.java:31-42 | Succeeds exactly when validation passes. Then the store gains one entry, the request under a fresh id, and nothing else changes. On failure it reports the validation error and leaves the store unchanged. |
| `EducationTerms.EducationTermService.UpdateEducationTerm` | src/main/java/com/project/service/business/EducationTermService.java:121-136 | A missing id gives not-found. Otherwise the result is validation against the whole store, including the record being replaced. On success only the entry at the id changes. On failure nothing changes. |
| `EducationTerms.EducationTermService.DeleteEducationTermById` | src/main/java/com/project/service/business/EducationTermService.java:111-119 | A missing id gives not-found and leaves the store unchanged. Otherwise exactly that id is removed. |
| `EducationTermProperties.FirstFailureWins` | src/main/java/com/project/service/business/EducationTermService.java:45-85 | Validation reports a check's error exactly when that check fails and every earlier check passes. It accepts exactly when no check fails. No other error can come out. |
| `EducationTermProperties.RegistrationAfterStartRejected` | src/main/java/com/project/service/business/EducationTermService.java:46-49 | The registration error comes out exactly when the last-registration date is after the start date, whatever the store holds. Equal dates do not cause it. |
| `EducationTermProperties.EndBeforeStartRejected` | src/main/java/com/project/service/business/EducationTermService.java:51-54 | The end-date error comes out exactly when the registration check passes and the end date is before the start date. An end date equal to the start date does not cause it. |
| `EducationTermProperties.DuplicateTermAndYearRejected` | src/main/java/com/project/service/business/EducationTermService.java:61-65 | Take a request whose dates are in order and a stored term with the same term name and year. The request is rejected with the term-and-year error, whatever the dates of the two terms. |
| `EducationTermProperties.OtherYearsIgnored` | src/main/java/com/project/service/business/EducationTermService.java:62-68 | Adding stored terms of other years never changes the verdict, for both the duplicate check and the conflict check. |
| `EducationTermProperties.ConflictsCharacterisation` | src/main/java/com/project/service/business/EducationTermService.java:68-83 | For terms whose dates are in order, the four clauses flag a pair exactly when the closed date ranges overlap and the pair is none of three shapes. The shapes are: the stored term ends on the candidate's start, it starts on the candidate's end, or it starts later and ends on the same day. |
| `EducationTermProperties.EndTouchingStartNotFlagged` | src/main/java/com/project/service/business/EducationTermService.java:72-74 | A stored term that ends on the candidate's start day overlaps the candidate but is not flagged. |
| `EducationTermProperties.NestedSharingEndNotFlagged` | src/main/java/com/project/service/business/EducationTermService.java:75-78 | A stored term that starts after the candidate and ends on the candidate's end date is not flagged. |
| `EducationTermProperties.ConflictsMissesSomeOverlap` | src/main/java/com/project/service/business/EducationTermService.java:70-80 | Some pair of terms with dates in order overlaps and is still not flagged. |
| `EducationTermProperties.AcceptedTermMayOverlapStoredTerm` | src/main/java/com/project/service/business/EducationTermService.java:68-83 | Some store that satisfies the invariant accepts a candidate that overlaps one of its terms of the same year. With the roles swapped, the same pair would be flagged. |
| `EducationTermProperties.UpdateKeepingTermAndYearFails` | src/main/java/com/project/service/business/EducationTermService.java:121-125 | An update that keeps the stored term name and start year always fails. If its dates are in order, it fails with the term-and-year error. |
| `Teachers.FindByAdvisorTeacherId` | src/main/java/com/project/repository/UserRepository.java:39 | Returns exactly the users whose advisor link is the given id, with their rows unchanged. |
| `Teachers.GetAllAdvisorTeacher` | src/main/java/com/project/service/user/TeacherService.java:152-158 | Returns exactly the users whose advisor flag is TRUE. A null flag does not count. |
| `Teachers.GetAllStudentByAdvisorUsername` | src/main/java/com/project/service/user/TeacherService.java:96-107 | An unknown username gives the username not-found error. A user who is not an advisor gives the advisor not-found error. Otherwise it returns exactly the students linked to that advisor. |
| `Teachers.UnlinkStudentsEffect` | src/main/java/com/project/service/user/TeacherService.java:139-143 | After unlinking, the advisor has no students left. Every other advisor keeps the same students, and the set of advisors does not change. No user changes in any field but its advisor link. |
| `Teachers.TeacherService.FindTeacher` | src/main/java/com/project/service/user/TeacherService.java:110-113 | Succeeds exactly for an existing user whose role is teacher. Otherwise it gives not-found, then wrong-role, in that order. |
| `Teachers.TeacherService.SaveTeacher` | src/main/java/com/project/service/user/TeacherService.java:44-69 | Fails only on the duplicate check, and then changes nothing. On success it stores one new teacher under a fresh id. The teacher's advisor flag equals the request's flag. |
| `Teachers.TeacherService.SaveAdvisorTeacher` | src/main/java/com/project/service/user/TeacherService.java:109-127 | Fails in this order: not-found, wrong role, already an advisor. A failure changes nothing. On success only that teacher changes: its flag becomes TRUE and it joins the advisors. |
| `Teachers.TeacherService.DeleteAdvisorTeacherById` | src/main/java/com/project/service/user/TeacherService.java:129-150 | Fails in this order: not-found, wrong role, not an advisor. A failure changes nothing. On success the flag becomes FALSE and the teacher leaves the advisors. Every student of that teacher is unlinked, and every other user is untouched. |
| `Teachers.TeacherService.UnlinkStudentsOf` | src/main/java/com/project/service/user/TeacherService.java:140-143 | Visits the advisor's students one at a time and sets each advisor link to null. The result is the table with exactly those links cleared. |
| `Teachers.TeacherService.AddLessonProgram` | src/main/java/com/project/service/user/TeacherService.java:160-182 | Fails in this order: not-found, wrong role, incompatible programs. An existing teacher whose programs are incompatible with the request gets the conflict error. A failure changes nothing. On success the teacher's programs become the old set united with the requested ones, so none is removed, and no other user changes. |

## Left out

- The lookups `getEducationTermById`, `findEducationTermById`, `getAllEducationTerms` and `getAllEducationTermByPage` are not modelled. They only wrap the id lookup (modelled by `IsEducationTermExist`), `findAll` or pagination.
- `updateTeacherForManagers` is not modelled. It is guards, field mapping and password encoding around a save.
- Response building, HTTP statuses and exception classes are not modelled. Each thrown exception is a typed error value.
- Mapping between requests and entities is not modelled: the mapper copies fields. An education-term request and a stored term therefore share one datatype. A teacher request keeps only the username, the advisor flag and the lesson-program ids.
- Password encoding and the role-entity lookup in `saveTeacher` are library calls and are not modelled.
- `UniquePropertyValidator.checkDuplicate` is not part of this model. `SaveTeacher` takes it as a function parameter.
- `DateTimeValidator.checkLessonPrograms` is not part of this model. `AddLessonProgram` takes it as a function parameter.
- `LessonProgramService.getLessonProgramById` is not part of this model. Lesson programs are their ids, and every requested id is taken as found, so its not-found error is not modelled.
- `MethodHelper` is not part of this model. Its checks are modelled by the meaning of their error messages:
  - `isUserExist` and `isUserExistByUsername` are table lookups;
  - `checkRole` is role equality;
  - `checkAdvisor` tests that the advisor flag is TRUE.
- GetAllStudentByAdvisorUsername: when several users share the username, the model may pick any of them. The repository's `findByUsername` choice is not visible.
- Persistence is an in-memory table, and the repository's id generator is a counter. The students unlinked at `TeacherService.java:142` are never saved explicitly. Whether the change reaches the database depends on the ORM's dirty checking, which is not visible. The model states it as an in-memory update.
- The stored term's `year` property is not part of this model. It is taken to be the year of the start date.
- The `Term` and `RoleType` enumerations are not part of this model. They are modelled with representative constructors, and only equality between their values matters.
- Date validity is not modelled. Month and day ranges are unchecked, and dates are compared by year, then month, then day.
- Concurrency and transactions are not modelled. Each operation runs on a consistent snapshot.
