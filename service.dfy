/** `TeacherService` (src/services/teacherService.ts) over an in-memory store:
    the three tables are fields of the object, the operations are methods
    that read or update them, and each method is proved against the
    specification functions of module Store. */
module Service {
  import opened Collections
  import opened Strings
  import opened Helpers
  import opened Store

  /** The `string | string[]` parameter of `getCommonStudents`. */
  datatype TeacherEmails = One(email: string) | Many(emails: seq<string>)

  function AsList(t: TeacherEmails): seq<string> {
    match t
    case One(e) => [e]
    case Many(es) => es
  }

  class TeacherService {
    var teachers: map<string, nat>
    var students: map<string, StudentRow>
    var registrations: set<(nat, nat)>
    var nextTeacherId: nat
    var nextStudentId: nat

    /** The tables as one value. */
    function Snapshot(): Db
      reads this
    {
      Db(teachers, students, registrations, nextTeacherId, nextStudentId)
    }

    ghost predicate Valid()
      reads this
    {
      Store.Valid(Snapshot())
    }

    /** A service over freshly migrated, empty tables. */
    constructor ()
      ensures Snapshot() == EmptyDb() && Valid()
    {
      teachers := map[];
      students := map[];
      registrations := {};
      nextTeacherId := 1;
      nextStudentId := 1;
    }

    /** `transaction.rollback()`: the tables return to the saved state. */
    method Rollback(saved: Db)
      modifies this
      ensures Snapshot() == saved
    {
      teachers := saved.teachers;
      students := saved.students;
      registrations := saved.registrations;
      nextTeacherId := saved.nextTeacherId;
      nextStudentId := saved.nextStudentId;
    }

    /** `Teacher.findOrCreate` on the `email` index: the existing id, or a
        new row with the next auto-increment id. */
    method FindOrCreateTeacherRow(email: string) returns (id: nat)
      requires Valid()
      modifies this
      ensures (Snapshot(), id) == FindOrCreateTeacher(old(Snapshot()), email)
      ensures Valid() && id in teachers.Values
    {
      FindOrCreateTeacherValid(Snapshot(), email);
      if email in teachers {
        id := teachers[email];
      } else {
        id := nextTeacherId;
        teachers := teachers[email := id];
        nextTeacherId := nextTeacherId + 1;
      }
    }

    /** `Student.findOrCreate` with the default `isSuspended: false`. */
    method FindOrCreateStudentRow(email: string) returns (id: nat)
      requires Valid()
      modifies this
      ensures (Snapshot(), id) == FindOrCreateStudent(old(Snapshot()), email)
      ensures Valid() && id in StudentIds(Snapshot()) && teachers == old(teachers)
    {
      FindOrCreateStudentValid(Snapshot(), email);
      if email in students {
        id := students[email].id;
      } else {
        id := nextStudentId;
        students := students[email := StudentRow(id, false)];
        nextStudentId := nextStudentId + 1;
      }
    }

    /** `Registration.findOrCreate` on the unique (teacherId, studentId) pair. */
    method FindOrCreateRegistrationRow(teacherId: nat, studentId: nat)
      requires Valid() && teacherId in teachers.Values && studentId in StudentIds(Snapshot())
      modifies this
      ensures Snapshot() == FindOrCreateRegistration(old(Snapshot()), teacherId, studentId)
      ensures Valid()
    {
      FindOrCreateRegistrationValid(Snapshot(), teacherId, studentId);
      registrations := registrations + {(teacherId, studentId)};
    }

    /** The `for (const studentEmail of studentEmails)` loop of
        `registerStudents`. Storage calls are numbered from `firstCall` on,
        two per student; when call `failAt` throws, the loop stops with
        `ok == false` and leaves the tables to the caller's rollback. */
    method RegisterEachRow(teacherId: nat, studentEmails: seq<string>, firstCall: nat, failAt: Option<nat>)
      returns (ok: bool)
      requires Valid() && teacherId in teachers.Values
      requires failAt.None? || failAt.value >= firstCall
      modifies this
      ensures Valid()
      ensures ok <==> failAt.None? || failAt.value >= firstCall + 2 * |studentEmails|
      ensures ok ==> Snapshot() == RegisterEach(old(Snapshot()), teacherId, studentEmails)
    {
      var i := 0;
      while i < |studentEmails|
        invariant 0 <= i <= |studentEmails|
        invariant failAt.None? || failAt.value >= firstCall + 2 * i
        invariant RegisterEach(Snapshot(), teacherId, studentEmails[i..])
               == RegisterEach(old(Snapshot()), teacherId, studentEmails)
        invariant Valid() && teacherId in teachers.Values
      {
        ghost var before := Snapshot();
        if failAt == Some(firstCall + 2 * i) {
          return false;
        }
        var studentId := FindOrCreateStudentRow(Lower(studentEmails[i]));
        if failAt == Some(firstCall + 2 * i + 1) {
          return false;
        }
        FindOrCreateRegistrationRow(teacherId, studentId);
        assert Snapshot() == RegisterOne(before, teacherId, Lower(studentEmails[i]));
        RegisterEachStep(before, teacherId, studentEmails, i);
        i := i + 1;
      }
      return true;
    }

    /** `registerStudents(teacherEmail, studentEmails)` inside one transaction.

        `failAt` names the storage call that throws, if any: call 0 is the
        teacher's findOrCreate, calls 2i + 1 and 2i + 2 the student's and the
        registration's findOrCreate for `studentEmails[i]`, and call 2n + 1
        the commit. A failure rolls the transaction back and rethrows, so the
        tables are either the committed Register result or untouched. */
    method RegisterStudents(teacherEmail: string, studentEmails: seq<string>, failAt: Option<nat>)
      returns (r: Outcome)
      requires Valid()
      modifies this
      ensures Valid()
      ensures r.Done? <==> failAt.None? || failAt.value > 2 * |studentEmails| + 1
      ensures r.Done? ==> Snapshot() == Register(old(Snapshot()), teacherEmail, studentEmails)
      ensures r.Fail? ==> r.error == StorageError && Snapshot() == old(Snapshot())
    {
      var saved := Snapshot();
      if failAt == Some(0) {
        Rollback(saved);
        return Fail(StorageError);
      }
      var teacherId := FindOrCreateTeacherRow(Lower(teacherEmail));
      var ok := RegisterEachRow(teacherId, studentEmails, 1, failAt);
      if !ok || failAt == Some(2 * |studentEmails| + 1) {
        Rollback(saved);
        return Fail(StorageError);
      }
      assert Snapshot() == Register(saved, teacherEmail, studentEmails);
      RegisterValid(saved, teacherEmail, studentEmails);
      return Done;
    }

    /** `getCommonStudents(teacherEmails)`, as written: the request fails
        unless the number of teacher rows found equals the number of emails
        requested, so a missing teacher and a repeated one both fail, the
        latter with an empty list of missing emails. */
    method GetCommonStudents(teacherEmails: TeacherEmails) returns (r: Result<seq<string>>)
      requires Valid()
      ensures var emails := LowerAll(AsList(teacherEmails));
        r.Failure? <==> (exists e :: e in emails && e !in teachers) || !NoDup(emails)
      ensures var emails := LowerAll(AsList(teacherEmails));
        r.Failure? ==>
          && r.error.TeachersNotFound?
          && (forall e :: e in r.error.missing <==> e in emails && e !in teachers)
          && r.error.missing == Missing(emails, set e | e in emails && e in teachers)
      ensures r.Success? ==> StrictlySorted(r.value)
      ensures r.Success? ==> Elements(r.value) == Intersection(Snapshot(), LowerAll(AsList(teacherEmails)))
    {
      var emails := LowerAll(AsList(teacherEmails));
      var found := set e | e in emails && e in teachers;
      FoundCountMismatch(Snapshot(), emails);
      if |found| != |emails| {
        return Failure(TeachersNotFound(Missing(emails, found)));
      }
      var teacherIds := set e | e in found :: teachers[e];
      var common := set s | s in students
        && var joined := set id | id in teacherIds && (id, students[s].id) in registrations;
           joined != {} && |joined| == |found|;
      forall s | s in students
        ensures s in common <==> s in Intersection(Snapshot(), emails)
      {
        assert found == Elements(emails);
        HavingCountIsIntersection(Snapshot(), emails, s);
      }
      assert common == Intersection(Snapshot(), emails) by {
        forall s | s in Intersection(Snapshot(), emails) ensures s in students {
          IntersectionMembers(Snapshot(), emails, s);
          assert s in RegisteredTo(Snapshot(), emails[0]);
        }
      }
      var rows := Enumerate(common);
      SortDistinct(rows);
      return Success(Sort(rows));
    }

    /** `suspendStudent(studentEmail)`: sets the flag of the student with
        the lower-cased email, or fails with not-found. */
    method SuspendStudent(studentEmail: string) returns (r: Outcome)
      requires Valid()
      modifies this
      ensures Valid()
      ensures r.Fail? <==> Lower(studentEmail) !in old(students)
      ensures r.Fail? ==> r.error == StudentNotFound && Snapshot() == old(Snapshot())
      ensures r.Done? ==> Snapshot() == Suspend(old(Snapshot()), studentEmail).value
    {
      var email := Lower(studentEmail);
      if email !in students {
        return Fail(StudentNotFound);
      }
      SuspendEffect(Snapshot(), studentEmail);
      students := students[email := students[email].(isSuspended := true)];
      return Done;
    }

    /** `retrieveForNotifications(teacherEmail, notificationText)`: the
        non-suspended students of the teacher, if it exists, then the
        non-suspended students mentioned, gathered in a Set and sorted. */
    method RetrieveForNotifications(teacherEmail: string, notificationText: string) returns (r: seq<string>)
      ensures StrictlySorted(r)
      ensures Elements(r) == Recipients(Snapshot(), Lower(teacherEmail), LowerAll(Mentions(notificationText, 0)))
    {
      ghost var db := Snapshot();
      var recipientEmails: seq<string> := [];
      var email := Lower(teacherEmail);
      if email in teachers {
        var teacherId := teachers[email];
        var registered := Enumerate(set s | s in students
          && (teacherId, students[s].id) in registrations && !students[s].isSuspended);
        recipientEmails := AddEach(recipientEmails, registered);
      }
      ghost var fromTeacher := set s | s in RegisteredTo(db, email) && !db.students[s].isSuspended;
      assert Elements(recipientEmails) == fromTeacher;
      var mentions := ExtractMentions(notificationText);
      var lowered := LowerAll(mentions);
      ghost var fromText := set s | s in db.students && s in lowered && !db.students[s].isSuspended;
      if |lowered| > 0 {
        var mentioned := Enumerate(set s | s in students && s in lowered && !students[s].isSuspended);
        recipientEmails := AddEach(recipientEmails, mentioned);
      } else {
        assert fromText == {};
      }
      assert Elements(recipientEmails) == fromTeacher + fromText;
      SortDistinct(recipientEmails);
      r := Sort(recipientEmails);
    }
  }
}
