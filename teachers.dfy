/**
 * TeacherService: the advisor flag of teachers, the advisor link of students
 * and the lesson programs of teachers, over an in-memory user table.
 */
module Teachers {
  import opened Wrappers

  type UserId = int
  type LessonProgramId = int

  /** The roles a user can hold. */
  datatype RoleType = Admin | Manager | AssistantManager | Teacher | Student

  /**
   * A row of the user table. `isAdvisor` is a nullable Boolean; a student's
   * `advisorTeacherId` is the id of its advisor teacher, or null.
   */
  datatype User = User(
    username: string,
    role: RoleType,
    isAdvisor: Option<bool>,
    advisorTeacherId: Option<UserId>,
    lessonPrograms: set<LessonProgramId>)

  /** The fields of a teacher request that the model follows. */
  datatype TeacherRequest = TeacherRequest(
    username: string,
    isAdvisorTeacher: bool,
    lessonIdList: set<LessonProgramId>)

  /** The service's failures, one per exception it or its helpers raise. */
  datatype UserError =
    | UserNotFound(id: UserId)
    | UserNotFoundWithUsername(username: string)
    | NotInRole(id: UserId, role: RoleType)
    | AdvisorAlreadyExists(id: UserId)
    | AdvisorNotFound(id: UserId)
    | DuplicateProperty
    | LessonProgramConflict

  /** Boolean.TRUE.equals(isAdvisor): null counts as not an advisor. */
  predicate IsAdvisor(u: User) {
    u.isAdvisor == Some(true)
  }

  /** The repository query findByAdvisorTeacherId: the students linked to this advisor. */
  function FindByAdvisorTeacherId(users: map<UserId, User>, advisorId: UserId): (r: map<UserId, User>)
    ensures forall id :: id in r <==> id in users && users[id].advisorTeacherId == Some(advisorId)
    ensures forall id :: id in r ==> r[id] == users[id]
  {
    map id | id in users && users[id].advisorTeacherId == Some(advisorId) :: users[id]
  }

  /** getAllAdvisorTeacher (the query findAllByAdvisor(TRUE)): exactly the users flagged as advisors. */
  function GetAllAdvisorTeacher(users: map<UserId, User>): (r: map<UserId, User>)
    ensures forall id :: id in r <==> id in users && IsAdvisor(users[id])
    ensures forall id :: id in r ==> r[id] == users[id]
  {
    map id | id in users && IsAdvisor(users[id]) :: users[id]
  }

  /**
   * getAllStudentByAdvisorUsername: find the user by username, require it to be
   * an advisor, then return exactly the users linked to it.
   */
  ghost function GetAllStudentByAdvisorUsername(users: map<UserId, User>, username: string)
    : (r: Result<map<UserId, User>, UserError>)
    ensures r == Err(UserNotFoundWithUsername(username))
      <==> !exists id :: id in users && users[id].username == username
    ensures r.Ok? ==>
      exists tid :: tid in users && users[tid].username == username && IsAdvisor(users[tid])
        && r.value == FindByAdvisorTeacherId(users, tid)
    ensures r.Err? && r.error.AdvisorNotFound? ==>
      r.error.id in users && users[r.error.id].username == username && !IsAdvisor(users[r.error.id])
    ensures r.Err? ==> r.error.UserNotFoundWithUsername? || r.error.AdvisorNotFound?
  {
    if exists id :: id in users && users[id].username == username then
      var tid :| tid in users && users[tid].username == username;
      if IsAdvisor(users[tid]) then Ok(FindByAdvisorTeacherId(users, tid))
      else Err(AdvisorNotFound(tid))
    else
      Err(UserNotFoundWithUsername(username))
  }

  /** The table after every student of `advisorId` is unlinked from it. */
  function UnlinkStudents(users: map<UserId, User>, advisorId: UserId): map<UserId, User> {
    map id | id in users ::
      if users[id].advisorTeacherId == Some(advisorId) then users[id].(advisorTeacherId := None) else users[id]
  }

  /**
   * Unlinking leaves the advisor without students, keeps every other advisor's
   * students and changes no advisor flag or lesson program.
   */
  lemma UnlinkStudentsEffect(users: map<UserId, User>, advisorId: UserId)
    ensures UnlinkStudents(users, advisorId).Keys == users.Keys
    ensures FindByAdvisorTeacherId(UnlinkStudents(users, advisorId), advisorId) == map[]
    ensures forall other :: other != advisorId ==>
      FindByAdvisorTeacherId(UnlinkStudents(users, advisorId), other).Keys == FindByAdvisorTeacherId(users, other).Keys
    ensures GetAllAdvisorTeacher(UnlinkStudents(users, advisorId)).Keys == GetAllAdvisorTeacher(users).Keys
    ensures forall id :: id in users ==>
      UnlinkStudents(users, advisorId)[id] == users[id].(advisorTeacherId := UnlinkStudents(users, advisorId)[id].advisorTeacherId)
  {
  }

  /** A non-empty set has a member to pick. */
  lemma HasMember(s: set<UserId>)
    requires s != {}
    ensures exists x :: x in s
  {
    if forall x :: x !in s {
      assert false;
    }
  }

  /** The user service over the user table. */
  class TeacherService {
    /** The user repository's contents. */
    var users: map<UserId, User>
    /** The id the repository hands out on the next save. */
    var nextId: UserId

    ghost predicate Valid()
      reads this
    {
      forall id :: id in users ==> id < nextId
    }

    constructor ()
      ensures Valid() && users == map[]
    {
      users := map[];
      nextId := 1;
    }

    /** MethodHelper.isUserExist followed by checkRole(TEACHER). */
    function FindTeacher(id: UserId): (r: Result<User, UserError>)
      reads this
      ensures r.Ok? <==> id in users && users[id].role == Teacher
      ensures r.Ok? ==> r.value == users[id]
      ensures r.Err? ==> r.error == (if id in users then NotInRole(id, Teacher) else UserNotFound(id))
    {
      if id !in users then Err(UserNotFound(id))
      else if users[id].role != Teacher then Err(NotInRole(id, Teacher))
      else Ok(users[id])
    }

    /**
     * saveTeacher: after the uniqueness check (`isDuplicate`, whose body is not
     * part of this model), store a teacher whose advisor flag is the request's.
     */
    method SaveTeacher(req: TeacherRequest, isDuplicate: (map<UserId, User>, TeacherRequest) -> bool)
      returns (r: Result<UserId, UserError>)
      requires Valid()
      modifies this
      ensures Valid()
      ensures r.Err? <==> isDuplicate(old(users), req)
      ensures r.Err? ==> r.error == DuplicateProperty && users == old(users)
      ensures r.Ok? ==> r.value !in old(users)
      ensures r.Ok? ==> users == old(users)[r.value := User(req.username, Teacher, Some(req.isAdvisorTeacher), None, req.lessonIdList)]
      ensures r.Ok? ==> (IsAdvisor(users[r.value]) <==> req.isAdvisorTeacher)
    {
      if isDuplicate(users, req) {
        return Err(DuplicateProperty);
      }
      var teacher := User(req.username, Teacher, None, None, req.lessonIdList);
      if req.isAdvisorTeacher {
        teacher := teacher.(isAdvisor := Some(true));
      } else {
        teacher := teacher.(isAdvisor := Some(false));
      }
      users := users[nextId := teacher];
      r := Ok(nextId);
      nextId := nextId + 1;
    }

    /** saveAdvisorTeacher: flag an existing teacher as advisor, unless it already is one. */
    method SaveAdvisorTeacher(teacherId: UserId) returns (r: Outcome<UserError>)
      requires Valid()
      modifies this
      ensures Valid()
      ensures old(FindTeacher(teacherId)).Err? ==> r == Fail(old(FindTeacher(teacherId)).error)
      ensures old(FindTeacher(teacherId)).Ok? && IsAdvisor(old(users)[teacherId]) ==> r == Fail(AdvisorAlreadyExists(teacherId))
      ensures r.Pass? <==> teacherId in old(users) && old(users)[teacherId].role == Teacher && !IsAdvisor(old(users)[teacherId])
      ensures r.Pass? ==> users == old(users)[teacherId := old(users)[teacherId].(isAdvisor := Some(true))]
      ensures r.Pass? ==> GetAllAdvisorTeacher(users).Keys == GetAllAdvisorTeacher(old(users)).Keys + {teacherId}
      ensures r.Fail? ==> users == old(users)
    {
      var found := FindTeacher(teacherId);
      if found.Err? {
        return Fail(found.error);
      }
      var teacher := found.value;
      if IsAdvisor(teacher) {
        return Fail(AdvisorAlreadyExists(teacherId));
      }
      users := users[teacherId := teacher.(isAdvisor := Some(true))];
      r := Pass;
    }

    /**
     * deleteAdvisorTeacherById: clear an advisor's flag, then unlink each of its
     * students, one at a time.
     */
    method DeleteAdvisorTeacherById(teacherId: UserId) returns (r: Outcome<UserError>)
      requires Valid()
      modifies this
      ensures Valid()
      ensures old(FindTeacher(teacherId)).Err? ==> r == Fail(old(FindTeacher(teacherId)).error)
      ensures old(FindTeacher(teacherId)).Ok? && !IsAdvisor(old(users)[teacherId]) ==> r == Fail(AdvisorNotFound(teacherId))
      ensures r.Pass? <==> teacherId in old(users) && old(users)[teacherId].role == Teacher && IsAdvisor(old(users)[teacherId])
      ensures r.Pass? ==>
        users == UnlinkStudents(old(users)[teacherId := old(users)[teacherId].(isAdvisor := Some(false))], teacherId)
      ensures r.Pass? ==> teacherId in users && users[teacherId].isAdvisor == Some(false)
      ensures r.Pass? ==> FindByAdvisorTeacherId(users, teacherId) == map[]
      ensures r.Pass? ==> GetAllAdvisorTeacher(users).Keys == GetAllAdvisorTeacher(old(users)).Keys - {teacherId}
      ensures r.Pass? ==>
        forall id :: id in old(users) && id != teacherId && old(users)[id].advisorTeacherId != Some(teacherId)
          ==> id in users && users[id] == old(users)[id]
      ensures r.Fail? ==> users == old(users)
    {
      var found := FindTeacher(teacherId);
      if found.Err? {
        return Fail(found.error);
      }
      var teacher := found.value;
      if !IsAdvisor(teacher) {
        return Fail(AdvisorNotFound(teacherId));
      }
      users := users[teacherId := teacher.(isAdvisor := Some(false))];

      UnlinkStudentsOf(teacherId);
      UnlinkStudentsEffect(old(users)[teacherId := teacher.(isAdvisor := Some(false))], teacherId);
      r := Pass;
    }

    /**
     * The forEach over findByAdvisorTeacherId: set the advisor link of each
     * student of `advisorId` to null, one student at a time.
     */
    method UnlinkStudentsOf(advisorId: UserId)
      requires Valid()
      modifies this
      ensures Valid()
      ensures users == UnlinkStudents(old(users), advisorId)
    {
      var students := FindByAdvisorTeacherId(users, advisorId).Keys;
      var pending, done := students, {};
      while pending != {}
        invariant Valid()
        invariant users.Keys == old(users).Keys
        invariant pending + done == students && pending !! done
        invariant forall id :: id in users ==>
          users[id] == if id in done then old(users)[id].(advisorTeacherId := None) else old(users)[id]
        decreases pending
      {
        HasMember(pending);
        var s :| s in pending;
        users := users[s := users[s].(advisorTeacherId := None)];
        pending, done := pending - {s}, done + {s};
      }
      forall id | id in users
        ensures users[id] == UnlinkStudents(old(users), advisorId)[id]
      {
      }
    }

    /**
     * addLessonProgram: after the compatibility check (`compatible`, standing
     * for DateTimeValidator.checkLessonPrograms, whose body is not part of this
     * model), add the requested programs to the teacher's own.
     */
    method AddLessonProgram(
      teacherId: UserId,
      lessonProgramIds: set<LessonProgramId>,
      compatible: (set<LessonProgramId>, set<LessonProgramId>) -> bool)
      returns (r: Outcome<UserError>)
      requires Valid()
      modifies this
      ensures Valid()
      ensures old(FindTeacher(teacherId)).Err? ==> r == Fail(old(FindTeacher(teacherId)).error)
      ensures old(FindTeacher(teacherId)).Ok? && !compatible(old(users)[teacherId].lessonPrograms, lessonProgramIds)
        ==> r == Fail(LessonProgramConflict)
      ensures r.Pass? <==>
        && teacherId in old(users) && old(users)[teacherId].role == Teacher
        && compatible(old(users)[teacherId].lessonPrograms, lessonProgramIds)
      ensures r.Pass? ==> users == old(users)[teacherId :=
        old(users)[teacherId].(lessonPrograms := old(users)[teacherId].lessonPrograms + lessonProgramIds)]
      ensures r.Pass? ==> old(users)[teacherId].lessonPrograms <= users[teacherId].lessonPrograms
      ensures r.Fail? ==> users == old(users)
    {
      var found := FindTeacher(teacherId);
      if found.Err? {
        return Fail(found.error);
      }
      var teacher := found.value;
      if !compatible(teacher.lessonPrograms, lessonProgramIds) {
        return Fail(LessonProgramConflict);
      }
      users := users[teacherId := teacher.(lessonPrograms := teacher.lessonPrograms + lessonProgramIds)];
      r := Pass;
    }
  }
}
