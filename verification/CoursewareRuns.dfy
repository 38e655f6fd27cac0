/** What courseware stores after any operations, said by the list of operations alone: the records hold the
    arguments of the operations that set them last, and every list holds exactly the entries made and not
    taken back since, in the order in which they were made. */
module CoursewareRuns {
  import opened Lists
  import opened CoursewareData

  /** Students and courses are kept in the same way. */
  datatype Side = Student | Course

  function ListOf(side: Side): Key {
    if side.Student? then Students else Courses
  }

  function RecordOf(side: Side, id: int): Key {
    if side.Student? then StudentKey(id) else CourseKey(id)
  }

  function EnrollmentOf(side: Side, id: int): Key {
    if side.Student? then OfStudent(id) else OfCourse(id)
  }

  predicate Adds(ops: seq<Action>, j: nat, side: Side, id: int) {
    j < |ops| && (if side.Student? then ops[j].AddStudent? && ops[j].id == id else ops[j].AddCourse? && ops[j].id == id)
  }

  predicate Deletes(ops: seq<Action>, j: nat, side: Side, id: int) {
    j < |ops| && (if side.Student? then ops[j] == DeleteStudent(id) else ops[j] == DeleteCourse(id))
  }

  /** The data after the first `n` operations. */
  function After(ops: seq<Action>, n: nat): Data
    requires n <= |ops|
  {
    Run(map[], ops[..n])
  }

  lemma AfterStep(ops: seq<Action>, n: nat)
    requires n < |ops|
    ensures After(ops, n + 1) == Apply(After(ops, n), ops[n])
  {
    RunPrefix(ops, n);
  }

  lemma AfterNothing(ops: seq<Action>)
    ensures After(ops, 0) == map[]
  {
    assert ops[..0] == [];
  }

  // ---------------------------------------------------------------- the records

  /** What one operation leaves of a record it does not add. */
  lemma RecordAfter(m: Data, op: Action, side: Side, id: int)
    requires !Adds([op], 0, side, id)
    ensures RecordOf(side, id) in Apply(m, op) <==> RecordOf(side, id) in m
    ensures CourseKey(id) in m && m[CourseKey(id)].CourseRecord? && side.Course? ==>
              var r, r' := m[CourseKey(id)], Apply(m, op)[CourseKey(id)];
              r'.CourseRecord? && r'.title == r.title && r'.department == r.department && r'.capacity == r.capacity
    ensures StudentKey(id) in m && m[StudentKey(id)].StudentRecord? && side.Student? ==>
              var r, r' := m[StudentKey(id)], Apply(m, op)[StudentKey(id)];
              r'.StudentRecord? && r'.name == r.name && r'.rollNumber == r.rollNumber
  {}

  /** A record exists exactly when it was added. */
  lemma {:induction false} KnownIffAdded(ops: seq<Action>, n: nat, side: Side, id: int)
    requires n <= |ops|
    ensures RecordOf(side, id) in After(ops, n) <==> exists j: nat :: j < n && Adds(ops, j, side, id)
  {
    if n == 0 {
      AfterNothing(ops);
    } else {
      KnownIffAdded(ops, n - 1, side, id);
      AfterStep(ops, n - 1);
      if !Adds(ops, n - 1, side, id) {
        RecordAfter(After(ops, n - 1), ops[n - 1], side, id);
      }
    }
  }

  ghost predicate AddedLastAt(ops: seq<Action>, n: nat, side: Side, id: int, p: nat) {
    p < n <= |ops| && Adds(ops, p, side, id) && forall j: nat :: p < j < n ==> !Adds(ops, j, side, id)
  }

  predicate HoldsCourse(m: Data, c: int, title: string, department: string, capacity: int) {
    && CourseKey(c) in m && m[CourseKey(c)].CourseRecord?
    && m[CourseKey(c)].title == title && m[CourseKey(c)].department == department && m[CourseKey(c)].capacity == capacity
  }

  predicate HoldsStudent(m: Data, s: int, name: string, rollNumber: string) {
    && StudentKey(s) in m && m[StudentKey(s)].StudentRecord?
    && m[StudentKey(s)].name == name && m[StudentKey(s)].rollNumber == rollNumber
  }

  /** The stored title, department and capacity are those of the operation that added the course last. */
  lemma {:induction false} CourseIsAsAdded(ops: seq<Action>, n: nat, c: int, p: nat)
    requires AddedLastAt(ops, n, Course, c, p)
    ensures HoldsCourse(After(ops, n), c, ops[p].title, ops[p].department, ops[p].capacity)
    decreases n
  {
    if p < n - 1 {
      CourseIsAsAdded(ops, n - 1, c, p);
      assert !Adds(ops, n - 1, Course, c);
      RecordAfter(After(ops, n - 1), ops[n - 1], Course, c);
    }
    AfterStep(ops, n - 1);
  }

  /** The stored name and roll number are those of the operation that added the student last. */
  lemma {:induction false} StudentIsAsAdded(ops: seq<Action>, n: nat, s: int, p: nat)
    requires AddedLastAt(ops, n, Student, s, p)
    ensures HoldsStudent(After(ops, n), s, ops[p].name, ops[p].rollNumber)
    decreases n
  {
    if p < n - 1 {
      StudentIsAsAdded(ops, n - 1, s, p);
      assert !Adds(ops, n - 1, Student, s);
      RecordAfter(After(ops, n - 1), ops[n - 1], Student, s);
    }
    AfterStep(ops, n - 1);
  }

  /** No course ever has more students than the capacity it was given when it was added last. */
  lemma CapacityIsRespected(ops: seq<Action>, n: nat, c: int, p: nat)
    requires AddedLastAt(ops, n, Course, c, p)
    ensures |Items(After(ops, n), OfCourse(c))| <= if ops[p].capacity > 0 then ops[p].capacity else 0
  {
    CourseIsAsAdded(ops, n, c, p);
    ListsMatchCountAndCapacity(ops[..n]);
  }

  // ---------------------------------------------------------------- registration and status

  predicate Registered(m: Data, s: int) {
    StudentKey(s) in m && m[StudentKey(s)].StudentRecord? && m[StudentKey(s)].registered
  }

  predicate Open(m: Data, c: int) {
    CourseKey(c) in m && m[CourseKey(c)].CourseRecord? && m[CourseKey(c)].status == "open"
  }

  predicate Full(m: Data, c: int) {
    CourseKey(c) in m && m[CourseKey(c)].CourseRecord? && |Items(m, OfCourse(c))| >= m[CourseKey(c)].capacity
  }

  predicate SetsRegistration(op: Action, s: int) {
    (op.AddStudent? || op.DeleteStudent? || op.RegisterStudent? || op.DeregisterStudent?) && op.id == s
  }

  lemma RegistrationUnlessSet(m: Data, op: Action, s: int)
    requires !SetsRegistration(op, s)
    ensures Registered(Apply(m, op), s) <==> Registered(m, s)
  {}

  lemma RegistrationOnceSet(m: Data, op: Action, s: int)
    requires SetsRegistration(op, s)
    requires op.AddStudent? || (StudentKey(s) in m && m[StudentKey(s)].StudentRecord?)
    ensures Registered(Apply(m, op), s) <==> if op.AddStudent? then op.registered else op.RegisterStudent?
  {}

  /** A student that was added is registered exactly as the last operation says that set the registration. */
  lemma {:induction false} RegistrationIsAsSet(ops: seq<Action>, n: nat, s: int, p: nat, q: nat)
    requires p <= q < n <= |ops| && Adds(ops, p, Student, s) && SetsRegistration(ops[q], s)
    requires forall j: nat :: q < j < n ==> !SetsRegistration(ops[j], s)
    ensures Registered(After(ops, n), s) <==> if ops[q].AddStudent? then ops[q].registered else ops[q].RegisterStudent?
    decreases n
  {
    AfterStep(ops, n - 1);
    if q < n - 1 {
      RegistrationIsAsSet(ops, n - 1, s, p, q);
      RegistrationUnlessSet(After(ops, n - 1), ops[n - 1], s);
    } else {
      if p < q {
        KnownHasItsType(ops, q, Student, s, p);
      }
      RegistrationOnceSet(After(ops, q), ops[q], s);
    }
  }

  lemma KnownHasItsType(ops: seq<Action>, n: nat, side: Side, id: int, p: nat)
    requires p < n <= |ops| && Adds(ops, p, side, id)
    ensures RecordOf(side, id) in After(ops, n)
    ensures if side.Student? then After(ops, n)[StudentKey(id)].StudentRecord? else After(ops, n)[CourseKey(id)].CourseRecord?
  {
    KnownIffAdded(ops, n, side, id);
    ListsMatchCountAndCapacity(ops[..n]);
    assert HasType(RecordOf(side, id), After(ops, n)[RecordOf(side, id)]);
  }

  /** Operation `j` is an enrollment in `c` that finds the course full. */
  predicate FindsFull(ops: seq<Action>, j: nat, c: int)
    requires j < |ops|
  {
    && ops[j].Enroll? && ops[j].course == c
    && var m := After(ops, j); Registered(m, ops[j].student) && Open(m, c) && Full(m, c)
  }

  predicate SetsStatus(ops: seq<Action>, j: nat, c: int)
    requires j < |ops|
  {
    || ((ops[j].AddCourse? || ops[j].DeleteCourse? || ops[j].OpenCourse? || ops[j].CloseCourse?) && ops[j].id == c)
    || FindsFull(ops, j, c)
  }

  lemma StatusUnlessSet(m: Data, op: Action, c: int)
    requires CourseKey(c) in m && m[CourseKey(c)].CourseRecord?
    requires !((op.AddCourse? || op.DeleteCourse? || op.OpenCourse? || op.CloseCourse?) && op.id == c)
    requires !(op.Enroll? && op.course == c && Registered(m, op.student) && Open(m, c) && Full(m, c))
    ensures CourseKey(c) in Apply(m, op) && Apply(m, op)[CourseKey(c)] == m[CourseKey(c)]
  {}

  lemma StatusOnceSet(m: Data, op: Action, c: int)
    requires op.AddCourse? || (CourseKey(c) in m && m[CourseKey(c)].CourseRecord?)
    requires if op.Enroll? then op.course == c && Registered(m, op.student) && Open(m, c) && Full(m, c)
             else (op.AddCourse? || op.DeleteCourse? || op.OpenCourse? || op.CloseCourse?) && op.id == c
    ensures CourseKey(c) in Apply(m, op) && Apply(m, op)[CourseKey(c)].CourseRecord?
    ensures Apply(m, op)[CourseKey(c)].status ==
            if op.AddCourse? then op.status else if op.OpenCourse? then "open" else "close"
  {}

  /** The status of a course that was added is the one set last: by the operation that added it, by opening it,
      or by closing it, deleting it, or an enrollment that found it full. */
  lemma {:induction false} StatusIsAsSet(ops: seq<Action>, n: nat, c: int, p: nat, q: nat)
    requires p <= q < n <= |ops| && Adds(ops, p, Course, c) && SetsStatus(ops, q, c)
    requires forall j: nat :: q < j < n ==> !SetsStatus(ops, j, c)
    ensures CourseKey(c) in After(ops, n) && After(ops, n)[CourseKey(c)].CourseRecord?
    ensures After(ops, n)[CourseKey(c)].status ==
            if ops[q].AddCourse? then ops[q].status else if ops[q].OpenCourse? then "open" else "close"
    decreases n
  {
    AfterStep(ops, n - 1);
    if q < n - 1 {
      StatusIsAsSet(ops, n - 1, c, p, q);
      assert !SetsStatus(ops, n - 1, c);
      StatusUnlessSet(After(ops, n - 1), ops[n - 1], c);
    } else {
      if p < q {
        KnownHasItsType(ops, q, Course, c, p);
      }
      StatusOnceSet(After(ops, q), ops[q], c);
    }
  }

  // ---------------------------------------------------------------- the lists of students and of courses

  function IdAt(ops: seq<Action>, j: nat): int {
    if j < |ops| && !ops[j].Enroll? then ops[j].id else 0
  }

  ghost function IdOf(ops: seq<Action>): nat -> int {
    (j: nat) => IdAt(ops, j)
  }

  ghost predicate DeletedBetween(ops: seq<Action>, j: nat, n: nat, side: Side, id: int) {
    exists r: nat :: j < r < n && Deletes(ops, r, side, id)
  }

  /** Operation `j` adds an id that is not deleted up to operation `n`. */
  ghost predicate RemainsAt(ops: seq<Action>, n: nat, side: Side, j: nat) {
    Adds(ops, j, side, IdAt(ops, j)) && !DeletedBetween(ops, j, n, side, IdAt(ops, j))
  }

  ghost function Remains(ops: seq<Action>, n: nat, side: Side): nat -> bool {
    (j: nat) => RemainsAt(ops, n, side, j)
  }

  lemma DeletedStep(ops: seq<Action>, j: nat, n: nat, side: Side, id: int)
    ensures DeletedBetween(ops, j, n + 1, side, id) <==>
            DeletedBetween(ops, j, n, side, id) || (j < n && Deletes(ops, n, side, id))
  {
    if DeletedBetween(ops, j, n, side, id) {
      var r: nat :| j < r < n && Deletes(ops, r, side, id);
      assert j < r < n + 1;
    }
  }

  /** What one operation does to the list of students or of courses. */
  lemma ListAfter(m: Data, op: Action, side: Side)
    ensures Items(Apply(m, op), ListOf(side)) ==
            if op.Enroll? then Items(m, ListOf(side))
            else if Adds([op], 0, side, op.id) then Items(m, ListOf(side)) + [op.id]
            else if Deletes([op], 0, side, op.id) then Without(Items(m, ListOf(side)), op.id)
            else Items(m, ListOf(side))
  {}

  /** The list of students, and that of courses, holds exactly the ids added and not deleted since, once for
      every time, in the order in which they were added. */
  lemma {:induction false} ListsHoldWhatWasAdded(ops: seq<Action>, n: nat, side: Side)
    requires n <= |ops|
    ensures IsSelection(Items(After(ops, n), ListOf(side)), n, Remains(ops, n, side), IdOf(ops))
  {
    if n == 0 {
      AfterNothing(ops);
      NothingSelected(0, Remains(ops, 0, side), IdOf(ops));
    } else {
      ListsHoldWhatWasAdded(ops, n - 1, side);
      AfterStep(ops, n - 1);
      ListStep(After(ops, n - 1), ops, n - 1, side);
    }
  }

  lemma ListStep(m: Data, ops: seq<Action>, n: nat, side: Side)
    requires n < |ops| && IsSelection(Items(m, ListOf(side)), n, Remains(ops, n, side), IdOf(ops))
    ensures IsSelection(Items(Apply(m, ops[n]), ListOf(side)), n + 1, Remains(ops, n + 1, side), IdOf(ops))
  {
    var p, p', f, list := Remains(ops, n, side), Remains(ops, n + 1, side), IdOf(ops), Items(m, ListOf(side));
    forall j: nat | j < n ensures p'(j) <==> p(j) && !Deletes(ops, n, side, f(j)) {
      DeletedStep(ops, j, n, side, f(j));
    }
    ListAfter(m, ops[n], side);
    var x := IdAt(ops, n);
    if Deletes(ops, n, side, x) {
      SelectionShrinks(list, n, p, f, x, p', f);
      SelectionGrows(Without(list, x), n, p', f, p', f);
    } else {
      assert !DeletedBetween(ops, n, n + 1, side, x);
      SelectionGrows(list, n, p, f, p', f);
    }
  }

  /** A delete keeps all other entries of its list, in their order. */
  lemma DeletesKeepRest(m: Data, id: int)
    ensures IsRest(Items(Apply(m, DeleteStudent(id)), Students), Items(m, Students), id)
    ensures Items(Apply(m, DeleteStudent(id)), Courses) == Items(m, Courses)
    ensures IsRest(Items(Apply(m, DeleteCourse(id)), Courses), Items(m, Courses), id)
    ensures Items(Apply(m, DeleteCourse(id)), Students) == Items(m, Students)
  {
    ListAfter(m, DeleteStudent(id), Student);
    ListAfter(m, DeleteStudent(id), Course);
    ListAfter(m, DeleteCourse(id), Student);
    ListAfter(m, DeleteCourse(id), Course);
    WithoutIsRest(Items(m, Students), id);
    WithoutIsRest(Items(m, Courses), id);
  }

  // ---------------------------------------------------------------- the enrollment lists

  /** Operation `j` enrolls a registered student in an open course with room. */
  predicate EntersAt(ops: seq<Action>, j: nat) {
    j < |ops| && ops[j].Enroll? &&
    var m := After(ops, j); Registered(m, ops[j].student) && Open(m, ops[j].course) && !Full(m, ops[j].course)
  }

  predicate Concerns(op: Action, side: Side, id: int) {
    op.Enroll? && id == if side.Student? then op.student else op.course
  }

  predicate Resets(ops: seq<Action>, j: nat, side: Side, id: int) {
    Adds(ops, j, side, id) || Deletes(ops, j, side, id)
  }

  ghost predicate ResetBetween(ops: seq<Action>, j: nat, n: nat, side: Side, id: int) {
    exists r: nat :: j < r < n && Resets(ops, r, side, id)
  }

  ghost predicate EnrolledAt(ops: seq<Action>, n: nat, side: Side, id: int, j: nat) {
    EntersAt(ops, j) && Concerns(ops[j], side, id) && !ResetBetween(ops, j, n, side, id)
  }

  ghost function Enrolled(ops: seq<Action>, n: nat, side: Side, id: int): nat -> bool {
    (j: nat) => EnrolledAt(ops, n, side, id, j)
  }

  function PartnerAt(ops: seq<Action>, side: Side, j: nat): int {
    if j < |ops| && ops[j].Enroll? then (if side.Student? then ops[j].course else ops[j].student) else 0
  }

  ghost function PartnerOf(ops: seq<Action>, side: Side): nat -> int {
    (j: nat) => PartnerAt(ops, side, j)
  }

  lemma ResetStep(ops: seq<Action>, j: nat, n: nat, side: Side, id: int)
    ensures ResetBetween(ops, j, n + 1, side, id) <==>
            ResetBetween(ops, j, n, side, id) || (j < n && Resets(ops, n, side, id))
  {
    if ResetBetween(ops, j, n, side, id) {
      var r: nat :| j < r < n && Resets(ops, r, side, id);
      assert j < r < n + 1;
    }
  }

  /** Nobody is enrolled on either side before the first student, or the first course, is added. */
  ghost predicate NothingUnlisted(m: Data) {
    && (Students !in m ==> forall s :: Items(m, OfStudent(s)) == [] && StudentKey(s) !in m)
    && (Courses !in m ==> forall c :: Items(m, OfCourse(c)) == [] && CourseKey(c) !in m)
  }

  lemma NothingUnlistedStep(m: Data, op: Action)
    requires NothingUnlisted(m)
    ensures NothingUnlisted(Apply(m, op))
  {}

  lemma {:induction false} NothingIsUnlisted(ops: seq<Action>, n: nat)
    requires n <= |ops|
    ensures NothingUnlisted(After(ops, n))
  {
    if n == 0 {
      AfterNothing(ops);
    } else {
      NothingIsUnlisted(ops, n - 1);
      AfterStep(ops, n - 1);
      NothingUnlistedStep(After(ops, n - 1), ops[n - 1]);
    }
  }

  /** What one operation does to an enrollment list. */
  lemma EnrollmentAfter(m: Data, op: Action, side: Side, id: int)
    requires NothingUnlisted(m)
    ensures Items(Apply(m, op), EnrollmentOf(side, id)) ==
            if Resets([op], 0, side, id) then []
            else if Concerns(op, side, id) && Registered(m, op.student) && Open(m, op.course) && !Full(m, op.course)
            then Items(m, EnrollmentOf(side, id)) + [PartnerAt([op], side, 0)]
            else Items(m, EnrollmentOf(side, id))
  {}

  /** A student's list holds exactly the courses of the enrollments that went through since the student was added
      or deleted last, in order; a course's list holds the students in the same way. */
  lemma {:induction false} EnrollmentsHoldWhoEntered(ops: seq<Action>, n: nat, side: Side, id: int)
    requires n <= |ops|
    ensures IsSelection(Items(After(ops, n), EnrollmentOf(side, id)), n, Enrolled(ops, n, side, id), PartnerOf(ops, side))
  {
    if n == 0 {
      AfterNothing(ops);
      NothingSelected(0, Enrolled(ops, 0, side, id), PartnerOf(ops, side));
    } else {
      EnrollmentsHoldWhoEntered(ops, n - 1, side, id);
      AfterStep(ops, n - 1);
      NothingIsUnlisted(ops, n - 1);
      EnrollmentStep(After(ops, n - 1), ops, n - 1, side, id);
    }
  }

  lemma EnrolledStep(ops: seq<Action>, n: nat, side: Side, id: int, j: nat)
    requires j <= n < |ops|
    ensures EnrolledAt(ops, n + 1, side, id, j) <==>
            if j < n then EnrolledAt(ops, n, side, id, j) && !Resets(ops, n, side, id)
            else EntersAt(ops, n) && Concerns(ops[n], side, id)
  {
    ResetStep(ops, j, n, side, id);
    assert !ResetBetween(ops, n, n, side, id);
  }

  lemma EnrollmentStep(m: Data, ops: seq<Action>, n: nat, side: Side, id: int)
    requires n < |ops| && m == After(ops, n) && NothingUnlisted(m)
    requires IsSelection(Items(m, EnrollmentOf(side, id)), n, Enrolled(ops, n, side, id), PartnerOf(ops, side))
    ensures IsSelection(Items(Apply(m, ops[n]), EnrollmentOf(side, id)), n + 1, Enrolled(ops, n + 1, side, id),
                        PartnerOf(ops, side))
  {
    var p, p', f := Enrolled(ops, n, side, id), Enrolled(ops, n + 1, side, id), PartnerOf(ops, side);
    forall j: nat | j <= n
      ensures p'(j) <==> if j < n then p(j) && !Resets(ops, n, side, id) else EntersAt(ops, n) && Concerns(ops[n], side, id)
    {
      EnrolledStep(ops, n, side, id, j);
    }
    EnrollmentAfter(m, ops[n], side, id);
    if Resets(ops, n, side, id) {
      NothingSelected(n + 1, p', f);
    } else {
      SelectionGrows(Items(m, EnrollmentOf(side, id)), n, p, f, p', f);
    }
  }
}
