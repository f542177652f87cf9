/** The three tables the service works on, as one value, and what each of the
    service's operations does to it or reads from it.

    A teacher row is its unique email and an auto-increment id; a student row
    adds the `isSuspended` flag; a registration is a (teacherId, studentId)
    pair. Keying the teachers and students by email and keeping the
    registrations in a set make the three unique indexes of
    src/models/Teacher.ts, src/models/Student.ts and src/models/Registration.ts
    hold by construction; Valid states the rest (distinct ids, ids below the
    auto-increment counter, and the foreign keys of the migration). */
module Store {
  import opened Collections
  import opened Strings

  datatype StudentRow = StudentRow(id: nat, isSuspended: bool)

  datatype Db = Db(
    teachers: map<string, nat>,
    students: map<string, StudentRow>,
    registrations: set<(nat, nat)>,
    nextTeacherId: nat,
    nextStudentId: nat)

  /** The errors the service raises: a 404 naming the missing teachers, a
      404 for a missing student, and whatever the database throws inside a
      transaction (rethrown after the rollback). */
  datatype Error = TeachersNotFound(missing: seq<string>) | StudentNotFound | StorageError

  datatype Result<T> = Success(value: T) | Failure(error: Error)

  /** The outcome of an operation that returns nothing (`Promise<void>`). */
  datatype Outcome = Done | Fail(error: Error)

  /** The store as the migration creates it: empty, ids counting from 1. */
  function EmptyDb(): (db: Db)
    ensures Valid(db)
  {
    Db(map[], map[], {}, 1, 1)
  }

  ghost function StudentIds(db: Db): set<nat> {
    set e | e in db.students :: db.students[e].id
  }

  /** The constraints of the schema beyond the unique emails and the unique
      (teacher, student) pair, which the types already give. */
  ghost predicate Valid(db: Db) {
    && (forall e :: e in db.teachers ==> db.teachers[e] < db.nextTeacherId)
    && (forall e :: e in db.students ==> db.students[e].id < db.nextStudentId)
    && (forall a, b :: a in db.teachers && b in db.teachers && a != b ==> db.teachers[a] != db.teachers[b])
    && (forall a, b :: a in db.students && b in db.students && a != b ==> db.students[a].id != db.students[b].id)
    && (forall p :: p in db.registrations ==> p.0 in db.teachers.Values && p.1 in StudentIds(db))
  }

  /** Every stored email is in lower case, as the service writes them. */
  ghost predicate Normalized(db: Db) {
    && (forall e :: e in db.teachers ==> IsLower(e))
    && (forall e :: e in db.students ==> IsLower(e))
  }

  /** The lower-cased emails of a request. */
  function LowerSet(emails: seq<string>): set<string> {
    set e | e in emails :: Lower(e)
  }

  /** The registrations that link teacher `tid` to each student in `emails`. */
  ghost function Links(db: Db, tid: nat, emails: set<string>): set<(nat, nat)> {
    set e | e in emails && e in db.students :: (tid, db.students[e].id)
  }

  // ---------------------------------------------------------------------
  // The steps of registerStudents (src/services/teacherService.ts:20-45)
  // ---------------------------------------------------------------------

  /** `Teacher.findOrCreate({ where: { email } })`: the row and its id. */
  function FindOrCreateTeacher(db: Db, email: string): (Db, nat) {
    if email in db.teachers then (db, db.teachers[email])
    else
      var id := db.nextTeacherId;
      (db.(teachers := db.teachers[email := id], nextTeacherId := id + 1), id)
  }

  /** `Student.findOrCreate({ where: { email }, defaults: { isSuspended: false } })`. */
  function FindOrCreateStudent(db: Db, email: string): (Db, nat) {
    if email in db.students then (db, db.students[email].id)
    else
      var id := db.nextStudentId;
      (db.(students := db.students[email := StudentRow(id, false)], nextStudentId := id + 1), id)
  }

  /** `Registration.findOrCreate({ where: { teacherId, studentId } })`. */
  function FindOrCreateRegistration(db: Db, teacherId: nat, studentId: nat): Db {
    db.(registrations := db.registrations + {(teacherId, studentId)})
  }

  /** One iteration of the loop: find or create the student, then link it. */
  function RegisterOne(db: Db, teacherId: nat, email: string): Db {
    var (db1, studentId) := FindOrCreateStudent(db, email);
    FindOrCreateRegistration(db1, teacherId, studentId)
  }

  /** The `for (const studentEmail of studentEmails)` loop, one student after
      the other. */
  function RegisterEach(db: Db, teacherId: nat, studentEmails: seq<string>): Db
    decreases |studentEmails|
  {
    if studentEmails == [] then db
    else RegisterEach(RegisterOne(db, teacherId, Lower(studentEmails[0])), teacherId, studentEmails[1..])
  }

  /** The loop from index i is iteration i followed by the loop from i + 1. */
  lemma RegisterEachStep(db: Db, teacherId: nat, studentEmails: seq<string>, i: nat)
    requires i < |studentEmails|
    ensures RegisterEach(db, teacherId, studentEmails[i..])
         == RegisterEach(RegisterOne(db, teacherId, Lower(studentEmails[i])), teacherId, studentEmails[i + 1..])
  {
    assert studentEmails[i..][1..] == studentEmails[i + 1..];
  }

  /** The store after a committed `registerStudents(teacherEmail, studentEmails)`. */
  function Register(db: Db, teacherEmail: string, studentEmails: seq<string>): Db {
    var (db1, teacherId) := FindOrCreateTeacher(db, Lower(teacherEmail));
    RegisterEach(db1, teacherId, studentEmails)
  }

  lemma FindOrCreateTeacherValid(db: Db, email: string)
    requires Valid(db)
    ensures var (db1, id) := FindOrCreateTeacher(db, email);
      && Valid(db1) && email in db1.teachers && db1.teachers[email] == id
      && db1.teachers.Keys == db.teachers.Keys + {email}
      && (forall e :: e in db.teachers ==> db1.teachers[e] == db.teachers[e])
      && db1.students == db.students && db1.registrations == db.registrations
  {
    var (db1, id) := FindOrCreateTeacher(db, email);
    if email !in db.teachers {
      forall p | p in db1.registrations ensures p.0 in db1.teachers.Values {
        var e :| e in db.teachers && db.teachers[e] == p.0;
        assert db1.teachers[e] == p.0;
      }
    }
  }

  lemma FindOrCreateStudentValid(db: Db, email: string)
    requires Valid(db)
    ensures var (db1, id) := FindOrCreateStudent(db, email);
      && Valid(db1) && email in db1.students && db1.students[email].id == id
      && db1.students.Keys == db.students.Keys + {email}
      && (forall e :: e in db.students ==> db1.students[e] == db.students[e])
      && (email !in db.students ==> !db1.students[email].isSuspended)
      && db1.teachers == db.teachers && db1.registrations == db.registrations
      && db1.nextTeacherId == db.nextTeacherId
  {
    var (db1, id) := FindOrCreateStudent(db, email);
    if email !in db.students {
      forall p | p in db1.registrations ensures p.1 in StudentIds(db1) {
        var e :| e in db.students && db.students[e].id == p.1;
        assert db1.students[e].id == p.1;
      }
    }
  }

  /** One iteration finds or creates the student (a new one not suspended)
      and links it to the teacher; nothing else changes. */
  lemma RegisterOneRows(db: Db, teacherId: nat, email: string)
    ensures var db' := RegisterOne(db, teacherId, email);
      && db'.teachers == db.teachers && db'.nextTeacherId == db.nextTeacherId
      && db'.students.Keys == db.students.Keys + {email}
      && (forall e :: e in db.students ==> db'.students[e] == db.students[e])
      && (email !in db.students ==> !db'.students[email].isSuspended)
      && db'.registrations == db.registrations + {(teacherId, db'.students[email].id)}
  {
  }

  /** One iteration keeps the schema's constraints. */
  lemma RegisterOneValid(db: Db, teacherId: nat, email: string)
    requires Valid(db) && teacherId in db.teachers.Values
    ensures Valid(RegisterOne(db, teacherId, email))
  {
    FindOrCreateStudentValid(db, email);
    var (db1, studentId) := FindOrCreateStudent(db, email);
    assert studentId in StudentIds(db1);
    FindOrCreateRegistrationValid(db1, teacherId, studentId);
  }

  lemma FindOrCreateRegistrationValid(db: Db, teacherId: nat, studentId: nat)
    requires Valid(db) && teacherId in db.teachers.Values && studentId in StudentIds(db)
    ensures Valid(FindOrCreateRegistration(db, teacherId, studentId))
  {
  }

  /** The loop keeps the schema's constraints. */
  lemma {:induction false} RegisterEachValid(db: Db, teacherId: nat, studentEmails: seq<string>)
    requires Valid(db) && teacherId in db.teachers.Values
    ensures Valid(RegisterEach(db, teacherId, studentEmails))
    decreases |studentEmails|
  {
    if studentEmails != [] {
      var email := Lower(studentEmails[0]);
      RegisterOneValid(db, teacherId, email);
      RegisterEachValid(RegisterOne(db, teacherId, email), teacherId, studentEmails[1..]);
    }
  }

  /** The effect of the loop on the rows: the students named are found or
      created (new ones not suspended) and nothing else changes. */
  lemma {:induction false} RegisterEachRows(db: Db, teacherId: nat, studentEmails: seq<string>)
    ensures var db' := RegisterEach(db, teacherId, studentEmails);
      && db'.teachers == db.teachers && db'.nextTeacherId == db.nextTeacherId
      && db'.students.Keys == db.students.Keys + LowerSet(studentEmails)
      && (forall e :: e in db.students ==> db'.students[e] == db.students[e])
      && (forall e :: e in db'.students && e !in db.students ==> !db'.students[e].isSuspended)
    decreases |studentEmails|
  {
    if studentEmails != [] {
      var email := Lower(studentEmails[0]);
      var rest := studentEmails[1..];
      RegisterOneRows(db, teacherId, email);
      RegisterEachRows(RegisterOne(db, teacherId, email), teacherId, rest);
      assert LowerSet(studentEmails) == {email} + LowerSet(rest) by {
        assert studentEmails == [studentEmails[0]] + rest;
      }
    }
  }

  /** The effect of the loop on the registrations: each student named is
      linked to the teacher, and no other link is added. */
  lemma {:induction false} RegisterEachLinks(db: Db, teacherId: nat, studentEmails: seq<string>)
    ensures var db' := RegisterEach(db, teacherId, studentEmails);
      db'.registrations == db.registrations + Links(db', teacherId, LowerSet(studentEmails))
    decreases |studentEmails|
  {
    if studentEmails != [] {
      var email := Lower(studentEmails[0]);
      var rest := studentEmails[1..];
      RegisterOneRows(db, teacherId, email);
      var db2 := RegisterOne(db, teacherId, email);
      RegisterEachLinks(db2, teacherId, rest);
      RegisterEachRows(db2, teacherId, rest);
      var db' := RegisterEach(db2, teacherId, rest);
      assert db'.students[email] == db2.students[email];
      assert LowerSet(studentEmails) == {email} + LowerSet(rest) by {
        assert studentEmails == [studentEmails[0]] + rest;
      }
      LinksCons(db', teacherId, email, LowerSet(rest));
    }
  }

  lemma LinksCons(db: Db, teacherId: nat, email: string, emails: set<string>)
    requires {email} + emails <= db.students.Keys
    ensures Links(db, teacherId, {email} + emails)
         == {(teacherId, db.students[email].id)} + Links(db, teacherId, emails)
  {
  }

  /** The postcondition of a committed `registerStudents`: the teacher
      `lower(t)` exists, every `lower(s)` is a student linked to it, new
      students are not suspended, and existing rows (with their ids and
      suspension flags) are kept; no row is added beyond those named. */
  lemma RegisterEffect(db: Db, teacherEmail: string, studentEmails: seq<string>)
    requires Valid(db)
    ensures var db' := Register(db, teacherEmail, studentEmails);
      var t := Lower(teacherEmail);
      && Valid(db')
      && db'.teachers.Keys == db.teachers.Keys + {t}
      && (forall e :: e in db.teachers ==> db'.teachers[e] == db.teachers[e])
      && db'.students.Keys == db.students.Keys + LowerSet(studentEmails)
      && (forall e :: e in db.students ==> db'.students[e] == db.students[e])
      && (forall e :: e in db'.students && e !in db.students ==> !db'.students[e].isSuspended)
      && db'.registrations == db.registrations + Links(db', db'.teachers[t], LowerSet(studentEmails))
  {
    var t := Lower(teacherEmail);
    FindOrCreateTeacherValid(db, t);
    var (db1, teacherId) := FindOrCreateTeacher(db, t);
    RegisterEachValid(db1, teacherId, studentEmails);
    RegisterEachRows(db1, teacherId, studentEmails);
    RegisterEachLinks(db1, teacherId, studentEmails);
  }

  /** A committed `registerStudents` keeps the schema's constraints. */
  lemma RegisterValid(db: Db, teacherEmail: string, studentEmails: seq<string>)
    requires Valid(db)
    ensures Valid(Register(db, teacherEmail, studentEmails))
  {
    FindOrCreateTeacherValid(db, Lower(teacherEmail));
    var (db1, teacherId) := FindOrCreateTeacher(db, Lower(teacherEmail));
    RegisterEachValid(db1, teacherId, studentEmails);
  }

  /** When the teacher, the students and their links all exist, the loop
      changes nothing: every findOrCreate finds. */
  lemma {:induction false} RegisterEachFound(db: Db, teacherId: nat, studentEmails: seq<string>)
    requires LowerSet(studentEmails) <= db.students.Keys
    requires Links(db, teacherId, LowerSet(studentEmails)) <= db.registrations
    ensures RegisterEach(db, teacherId, studentEmails) == db
    decreases |studentEmails|
  {
    if studentEmails != [] {
      var email := Lower(studentEmails[0]);
      var rest := studentEmails[1..];
      assert email in LowerSet(studentEmails);
      assert (teacherId, db.students[email].id) in Links(db, teacherId, LowerSet(studentEmails));
      assert db.registrations + {(teacherId, db.students[email].id)} == db.registrations;
      assert LowerSet(rest) <= LowerSet(studentEmails) by {
        forall e | e in LowerSet(rest) ensures e in LowerSet(studentEmails) {
          var s :| s in rest && Lower(s) == e;
          assert s in studentEmails;
        }
      }
      RegisterEachFound(db, teacherId, rest);
    }
  }

  /** `registerStudents` is idempotent: a second identical call leaves the
      same teachers, students and registrations as the first. */
  lemma RegisterIdempotent(db: Db, teacherEmail: string, studentEmails: seq<string>)
    requires Valid(db)
    ensures var once := Register(db, teacherEmail, studentEmails);
      Register(once, teacherEmail, studentEmails) == once
  {
    var once := Register(db, teacherEmail, studentEmails);
    RegisterEffect(db, teacherEmail, studentEmails);
    var t := Lower(teacherEmail);
    assert FindOrCreateTeacher(once, t) == (once, once.teachers[t]);
    RegisterEachFound(once, once.teachers[t], studentEmails);
  }

  /** Registering writes only lower-cased emails. */
  lemma RegisterNormalized(db: Db, teacherEmail: string, studentEmails: seq<string>)
    requires Valid(db) && Normalized(db)
    ensures Normalized(Register(db, teacherEmail, studentEmails))
  {
    RegisterEffect(db, teacherEmail, studentEmails);
    LowerIdempotent(teacherEmail);
    forall s | s in studentEmails ensures IsLower(Lower(s)) {
      LowerIdempotent(s);
    }
  }

  // ---------------------------------------------------------------------
  // suspendStudent (src/services/teacherService.ts:99-110)
  // ---------------------------------------------------------------------

  /** The store after `suspendStudent(email)`, or the not-found error. */
  function Suspend(db: Db, email: string): Result<Db> {
    var e := Lower(email);
    if e !in db.students then Failure(StudentNotFound)
    else Success(db.(students := db.students[e := db.students[e].(isSuspended := true)]))
  }

  /** Suspending keeps the constraints, suspends exactly that student, and a
      second suspension changes nothing. */
  lemma SuspendEffect(db: Db, email: string)
    requires Valid(db)
    ensures var e := Lower(email);
      && (Suspend(db, email).Failure? <==> e !in db.students)
      && (Suspend(db, email).Success? ==>
            var db' := Suspend(db, email).value;
            && Valid(db')
            && db'.students[e] == StudentRow(db.students[e].id, true)
            && db'.students.Keys == db.students.Keys
            && (forall x :: x in db.students && x != e ==> db'.students[x] == db.students[x])
            && db'.teachers == db.teachers
            && db'.registrations == db.registrations
            && db'.nextTeacherId == db.nextTeacherId
            && db'.nextStudentId == db.nextStudentId
            && Suspend(db', email) == Success(db'))
  {
    var e := Lower(email);
    if e in db.students {
      var db' := Suspend(db, email).value;
      assert db'.students[e := db'.students[e].(isSuspended := true)] == db'.students;
      assert StudentIds(db') == StudentIds(db) by {
        forall id | id in StudentIds(db) ensures id in StudentIds(db') {
          var x :| x in db.students && db.students[x].id == id;
          assert db'.students[x].id == id;
        }
      }
    }
  }

  // ---------------------------------------------------------------------
  // The queries (src/services/teacherService.ts:58-164)
  // ---------------------------------------------------------------------

  /** The students registered to the teacher with this email (none if there
      is no such teacher). */
  ghost function RegisteredTo(db: Db, teacherEmail: string): set<string> {
    if teacherEmail !in db.teachers then {}
    else set s | s in db.students && (db.teachers[teacherEmail], db.students[s].id) in db.registrations
  }

  /** The intersection of the teachers' registered-student sets. */
  ghost function Intersection(db: Db, teacherEmails: seq<string>): set<string>
    decreases |teacherEmails|
  {
    if teacherEmails == [] then {}
    else if |teacherEmails| == 1 then RegisteredTo(db, teacherEmails[0])
    else RegisteredTo(db, teacherEmails[0]) * Intersection(db, teacherEmails[1..])
  }

  /** A student is in the intersection exactly when registered to every
      teacher of a non-empty request. */
  lemma {:induction false} IntersectionMembers(db: Db, teacherEmails: seq<string>, s: string)
    ensures s in Intersection(db, teacherEmails)
        <==> |teacherEmails| > 0 && forall e :: e in teacherEmails ==> s in RegisteredTo(db, e)
    decreases |teacherEmails|
  {
    if |teacherEmails| > 1 {
      IntersectionMembers(db, teacherEmails[1..], s);
      assert teacherEmails == [teacherEmails[0]] + teacherEmails[1..];
    }
  }

  /** The emails of `emails.filter((e) => !foundEmails.includes(e))`, in order. */
  function Missing(emails: seq<string>, found: set<string>): (r: seq<string>)
    ensures forall e :: e in r <==> e in emails && e !in found
    ensures |r| <= |emails|
    ensures NoDup(emails) ==> NoDup(r)
  {
    if emails == [] then []
    else if emails[0] in found then Missing(emails[1..], found)
    else
      var rest := Missing(emails[1..], found);
      assert NoDup(emails) ==> emails[0] !in emails[1..] && NoDup(emails[1..]) by {
        if NoDup(emails) {
          forall i | 0 <= i < |emails| - 1 ensures emails[1..][i] != emails[0] {
            assert emails[1..][i] == emails[i + 1];
          }
        }
      }
      [emails[0]] + rest
  }

  /** The list of missing emails keeps the request's order: the missing
      emails of a concatenation are those of each part, one after the
      other, so each missing email appears where and as often as it was
      requested. */
  lemma {:induction false} MissingConcat(a: seq<string>, b: seq<string>, found: set<string>)
    ensures Missing(a + b, found) == Missing(a, found) + Missing(b, found)
  {
    if a != [] {
      assert (a + b)[0] == a[0] && (a + b)[1..] == a[1..] + b;
      MissingConcat(a[1..], b, found);
    } else {
      assert a + b == b;
    }
  }

  /** `teachers.length !== emails.length`: the number of distinct teachers
      found differs from the number of emails requested exactly when one is
      missing or one is requested twice. */
  lemma FoundCountMismatch(db: Db, emails: seq<string>)
    ensures var found := set e | e in emails && e in db.teachers;
      |found| != |emails| <==> (exists e :: e in emails && e !in db.teachers) || !NoDup(emails)
  {
    var found := set e | e in emails && e in db.teachers;
    ElementsCard(emails);
    SubsetCard(found, Elements(emails));
    if found == Elements(emails) {
      assert forall e :: e in emails ==> e in db.teachers by {
        forall e | e in emails ensures e in db.teachers {
          assert e in Elements(emails);
        }
      }
    }
  }

  /** The `HAVING COUNT(DISTINCT registrations.teacher_id) = teacherIds.length`
      query over the inner join with the requested teachers' registrations,
      once every requested teacher is found: it selects exactly the
      intersection. */
  lemma HavingCountIsIntersection(db: Db, emails: seq<string>, s: string)
    requires Valid(db) && s in db.students
    requires forall e :: e in emails ==> e in db.teachers
    ensures var found := Elements(emails);
      var teacherIds := set e | e in found :: db.teachers[e];
      var joined := set id | id in teacherIds && (id, db.students[s].id) in db.registrations;
      (joined != {} && |joined| == |found|) <==> s in Intersection(db, emails)
  {
    var found := Elements(emails);
    var teacherIds := set e | e in found :: db.teachers[e];
    var joined := set id | id in teacherIds && (id, db.students[s].id) in db.registrations;
    InjectiveImageCard(db.teachers, found);
    assert teacherIds == Image(db.teachers, found);
    SubsetCard(joined, teacherIds);
    IntersectionMembers(db, emails, s);
    if emails == [] {
      assert found == {} && teacherIds == {};
    }
    if joined != {} && |joined| == |found| {
      assert joined == teacherIds;
      forall e | e in emails ensures s in RegisteredTo(db, e) {
        assert e in found;
        assert db.teachers[e] in joined;
      }
      assert s in Intersection(db, emails);
    }
    if s in Intersection(db, emails) {
      assert emails[0] in found;
      forall id | id in teacherIds ensures id in joined {
        var e :| e in found && db.teachers[e] == id;
        assert s in RegisteredTo(db, e);
      }
      assert joined == teacherIds;
      assert db.teachers[emails[0]] in joined;
    }
  }

  /** The students `retrieveForNotifications` notifies: the non-suspended
      students registered to the teacher, and the non-suspended students
      among the mentioned emails. */
  ghost function Recipients(db: Db, teacherEmail: string, mentioned: seq<string>): (r: set<string>)
    ensures forall s :: s in r ==> s in db.students && !db.students[s].isSuspended
  {
    (set s | s in RegisteredTo(db, teacherEmail) && !db.students[s].isSuspended)
    + (set s | s in db.students && s in mentioned && !db.students[s].isSuspended)
  }

  // ---------------------------------------------------------------------
  // How the operations combine
  // ---------------------------------------------------------------------

  /** After `registerStudents(t, ss)`, every student of `ss` that was not
      already suspended is notified by `t`, whatever the text mentions. */
  lemma RegisteredAreNotified(db: Db, teacherEmail: string, studentEmails: seq<string>, mentioned: seq<string>)
    requires Valid(db)
    ensures var db' := Register(db, teacherEmail, studentEmails);
      forall s :: s in studentEmails && (Lower(s) in db.students ==> !db.students[Lower(s)].isSuspended)
        ==> Lower(s) in Recipients(db', Lower(teacherEmail), mentioned)
  {
    var db' := Register(db, teacherEmail, studentEmails);
    var t := Lower(teacherEmail);
    RegisterEffect(db, teacherEmail, studentEmails);
    forall s | s in studentEmails && (Lower(s) in db.students ==> !db.students[Lower(s)].isSuspended)
      ensures Lower(s) in Recipients(db', t, mentioned)
    {
      var e := Lower(s);
      assert e in LowerSet(studentEmails);
      assert (db'.teachers[t], db'.students[e].id) in Links(db', db'.teachers[t], LowerSet(studentEmails));
      assert e in RegisteredTo(db', t);
    }
  }

  /** After `registerStudents(t, ss)`, `getCommonStudents([t])` includes
      every student of `ss`. */
  lemma RegisteredAreCommon(db: Db, teacherEmail: string, studentEmails: seq<string>)
    requires Valid(db)
    ensures var db' := Register(db, teacherEmail, studentEmails);
      forall s :: s in studentEmails ==> Lower(s) in Intersection(db', [Lower(teacherEmail)])
  {
    var db' := Register(db, teacherEmail, studentEmails);
    var t := Lower(teacherEmail);
    RegisterEffect(db, teacherEmail, studentEmails);
    forall s | s in studentEmails ensures Lower(s) in Intersection(db', [t]) {
      var e := Lower(s);
      assert e in LowerSet(studentEmails);
      assert (db'.teachers[t], db'.students[e].id) in Links(db', db'.teachers[t], LowerSet(studentEmails));
      assert e in RegisteredTo(db', t);
    }
  }

  /** After `suspendStudent(e)` succeeds, `lower(e)` is notified by no
      teacher, even when mentioned, while every other recipient stays. */
  lemma SuspendedAreNotNotified(db: Db, email: string, teacherEmail: string, mentioned: seq<string>)
    requires Valid(db) && Suspend(db, email).Success?
    ensures var db' := Suspend(db, email).value;
      && Lower(email) !in Recipients(db', teacherEmail, mentioned)
      && Recipients(db', teacherEmail, mentioned) == Recipients(db, teacherEmail, mentioned) - {Lower(email)}
  {
    SuspendEffect(db, email);
    var db' := Suspend(db, email).value;
    assert RegisteredTo(db', teacherEmail) == RegisteredTo(db, teacherEmail);
  }
}
