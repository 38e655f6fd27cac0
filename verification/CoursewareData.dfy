/** The data courseware keeps in the store, what each operation does to it, and what every sequence of
    operations keeps. Operations run as atomic transactions on a linearizable store. */
module CoursewareData {
  import opened ReadSelectors
  import opened Lists

  datatype Key = Students | Courses | StudentKey(id: int) | CourseKey(id: int) | OfStudent(id: int) | OfCourse(id: int)

  datatype Record =
    | Listing(items: seq<int>, count: int)
    | StudentRecord(name: string, registered: bool, rollNumber: string)
    | CourseRecord(title: string, department: string, status: string, capacity: int)

  type Data = map<Key, Record>

  // ---------------------------------------------------------------- what each operation does to the data

  function ListAt(m: Data, k: Key): Record {
    if k in m && m[k].Listing? then m[k] else Listing([], 0)
  }

  function Items(m: Data, k: Key): seq<int> {
    if k in m && m[k].Listing? then m[k].items else []
  }

  function Entered(l: Record, x: int): Record
    requires l.Listing?
  {
    Listing(l.items + [x], l.count + 1)
  }

  function SetRegistered(m: Data, id: int, registered: bool): Data {
    if StudentKey(id) in m && m[StudentKey(id)].StudentRecord?
    then m[StudentKey(id) := m[StudentKey(id)].(registered := registered)] else m
  }

  function SetStatus(m: Data, id: int, status: string): Data {
    if CourseKey(id) in m && m[CourseKey(id)].CourseRecord?
    then m[CourseKey(id) := m[CourseKey(id)].(status := status)] else m
  }

  /** Takes `id` out of a list; and empties the enrollment list, unless the list does not exist. */
  function Unlist(m: Data, list: Key, id: int, enrollment: Key): Data {
    if list !in m then m else
      var rest := Without(Items(m, list), id);
      m[list := Listing(rest, |rest|)][enrollment := Listing([], 0)]
  }

  predicate IsRegistered(m: Data, s: int) {
    StudentKey(s) in m && m[StudentKey(s)].StudentRecord? && m[StudentKey(s)].registered
  }

  predicate IsOpen(m: Data, c: int) {
    CourseKey(c) in m && m[CourseKey(c)].CourseRecord? && m[CourseKey(c)].status == "open"
  }

  datatype Action =
    | AddStudent(id: int, name: string, registered: bool, rollNumber: string)
    | DeleteStudent(id: int)
    | AddCourse(id: int, title: string, department: string, status: string, capacity: int)
    | DeleteCourse(id: int)
    | RegisterStudent(id: int)
    | DeregisterStudent(id: int)
    | OpenCourse(id: int)
    | CloseCourse(id: int)
    | Enroll(student: int, course: int)

  function Apply(m: Data, op: Action): Data {
    match op
    case AddStudent(id, name, registered, rollNumber) =>
      m[Students := Entered(ListAt(m, Students), id)]
       [StudentKey(id) := StudentRecord(name, registered, rollNumber)]
       [OfStudent(id) := Listing([], 0)]
    case DeleteStudent(id) => Unlist(SetRegistered(m, id, false), Students, id, OfStudent(id))
    case AddCourse(id, title, department, status, capacity) =>
      m[Courses := Entered(ListAt(m, Courses), id)]
       [CourseKey(id) := CourseRecord(title, department, status, capacity)]
       [OfCourse(id) := Listing([], 0)]
    case DeleteCourse(id) => Unlist(SetStatus(m, id, "close"), Courses, id, OfCourse(id))
    case RegisterStudent(id) => SetRegistered(m, id, true)
    case DeregisterStudent(id) => SetRegistered(m, id, false)
    case OpenCourse(id) => SetStatus(m, id, "open")
    case CloseCourse(id) => SetStatus(m, id, "close")
    case Enroll(s, c) =>
      if !IsRegistered(m, s) || !IsOpen(m, c) then m
      else if |Items(m, OfCourse(c))| >= m[CourseKey(c)].capacity then SetStatus(m, c, "close")
      else m[OfCourse(c) := Entered(ListAt(m, OfCourse(c)), s)][OfStudent(s) := Entered(ListAt(m, OfStudent(s)), c)]
  }

  function Run(m: Data, ops: seq<Action>): Data {
    if ops == [] then m else Apply(Run(m, ops[..|ops| - 1]), ops[|ops| - 1])
  }

  // ---------------------------------------------------------------- the data is well kept

  predicate HasType(k: Key, r: Record) {
    match k
    case StudentKey(_) => r.StudentRecord?
    case CourseKey(_) => r.CourseRecord?
    case _ => r.Listing? && r.count == |r.items|
  }

  /** Every record has the type of its key, and every list has the length its `count` says. */
  ghost predicate Counted(m: Data) {
    forall k :: k in m ==> HasType(k, m[k])
  }

  function Room(m: Data, c: int): int {
    if CourseKey(c) in m && m[CourseKey(c)].CourseRecord? && m[CourseKey(c)].capacity > 0 then m[CourseKey(c)].capacity else 0
  }

  /** No course has more enrollments than its capacity (none, if that is negative). */
  ghost predicate WithinCapacity(m: Data) {
    && (forall c :: |Items(m, OfCourse(c))| <= Room(m, c))
    && (forall c :: CourseKey(c) in m ==> Courses in m)
  }

  lemma UnlistKeepsCounted(m: Data, list: Key, id: int, enrollment: Key)
    requires Counted(m)
    requires (list == Students && enrollment == OfStudent(id)) || (list == Courses && enrollment == OfCourse(id))
    ensures Counted(Unlist(m, list, id, enrollment))
  {}

  lemma ApplyKeepsCounted(m: Data, op: Action)
    requires Counted(m)
    ensures Counted(Apply(m, op))
  {}

  lemma CapacityKept(m: Data, op: Action, c: int)
    requires Counted(m) && |Items(m, OfCourse(c))| <= Room(m, c)
    ensures |Items(Apply(m, op), OfCourse(c))| <= Room(Apply(m, op), c)
  {}

  lemma ApplyKeepsCapacity(m: Data, op: Action)
    requires Counted(m) && WithinCapacity(m)
    ensures WithinCapacity(Apply(m, op))
  {
    forall c ensures |Items(Apply(m, op), OfCourse(c))| <= Room(Apply(m, op), c) {
      CapacityKept(m, op, c);
    }
  }

  lemma {:induction false} ListsMatchCountAndCapacity(ops: seq<Action>)
    ensures Counted(Run(map[], ops)) && WithinCapacity(Run(map[], ops))
  {
    if ops != [] {
      ListsMatchCountAndCapacity(ops[..|ops| - 1]);
      ApplyKeepsCounted(Run(map[], ops[..|ops| - 1]), ops[|ops| - 1]);
      ApplyKeepsCapacity(Run(map[], ops[..|ops| - 1]), ops[|ops| - 1]);
    }
  }

  // ---------------------------------------------------------------- deleted courses stay empty

  predicate Reopens(op: Action, c: int) {
    (op.OpenCourse? || op.AddCourse?) && op.id == c
  }

  predicate ClosedAndEmpty(m: Data, c: int) {
    !IsOpen(m, c) && Items(m, OfCourse(c)) == []
  }

  lemma ApplyKeepsClosed(m: Data, op: Action, c: int)
    requires ClosedAndEmpty(m, c) && !Reopens(op, c)
    ensures ClosedAndEmpty(Apply(m, op), c)
  {}

  lemma DeleteEmpties(m: Data, c: int)
    requires WithinCapacity(m)
    ensures ClosedAndEmpty(Apply(m, DeleteCourse(c)), c)
  {
    assert |Items(m, OfCourse(c))| <= Room(m, c);
  }

  /** After a course is deleted nobody is enrolled in it until it is opened or added again. */
  lemma {:induction false} DeletedCoursesStayEmpty(before: seq<Action>, c: int, after: seq<Action>)
    requires forall i :: 0 <= i < |after| ==> !Reopens(after[i], c)
    ensures ClosedAndEmpty(Run(Apply(Run(map[], before), DeleteCourse(c)), after), c)
    decreases |after|
  {
    if after == [] {
      ListsMatchCountAndCapacity(before);
      DeleteEmpties(Run(map[], before), c);
    } else {
      var front := after[..|after| - 1];
      DeletedCoursesStayEmpty(before, c, front);
      ApplyKeepsClosed(Run(Apply(Run(map[], before), DeleteCourse(c)), front), after[|after| - 1], c);
    }
  }

  // ---------------------------------------------------------------- the two sides of an enrollment

  /** How often the course side, and the student side, record that `s` takes `c`. */
  function CourseSide(m: Data, s: int, c: int): nat {
    multiset(Items(m, OfCourse(c)))[s]
  }

  function StudentSide(m: Data, s: int, c: int): nat {
    multiset(Items(m, OfStudent(s)))[c]
  }

  predicate SidesAgreeOn(m: Data, s: int, c: int) {
    CourseSide(m, s, c) == StudentSide(m, s, c)
  }

  ghost predicate SidesAgree(m: Data) {
    forall s, c :: SidesAgreeOn(m, s, c)
  }

  /** The enrollment list an operation empties, if any. */
  function Emptied(m: Data, op: Action): Option<Key> {
    match op
    case AddStudent(id, _, _, _) => Some(OfStudent(id))
    case DeleteStudent(id) => if Students in m then Some(OfStudent(id)) else None
    case AddCourse(id, _, _, _, _) => Some(OfCourse(id))
    case DeleteCourse(id) => if Courses in m then Some(OfCourse(id)) else None
    case _ => None
  }

  predicate DropsNothing(m: Data, op: Action) {
    Emptied(m, op).Some? ==> Items(m, Emptied(m, op).value) == []
  }

  predicate Enrolls(m: Data, s: int, c: int) {
    IsRegistered(m, s) && IsOpen(m, c) && |Items(m, OfCourse(c))| < m[CourseKey(c)].capacity
  }

  lemma ItemsAfter(m: Data, op: Action, k: Key)
    requires !op.Enroll? && (k.OfStudent? || k.OfCourse?)
    ensures Items(Apply(m, op), k) == if Emptied(m, op) == Some(k) then [] else Items(m, k)
  {}

  lemma ItemsAfterEnroll(m: Data, s: int, c: int, k: Key)
    requires k.OfStudent? || k.OfCourse?
    ensures Items(Apply(m, Enroll(s, c)), k) ==
            Items(m, k) + if !Enrolls(m, s, c) then [] else if k == OfCourse(c) then [s] else if k == OfStudent(s) then [c] else []
  {}

  lemma EnrollKeepsAgreement(m: Data, s: int, c: int)
    requires SidesAgree(m)
    ensures SidesAgree(Apply(m, Enroll(s, c)))
  {
    var m' := Apply(m, Enroll(s, c));
    forall s', c' ensures SidesAgreeOn(m', s', c') {
      assert SidesAgreeOn(m, s', c');
      ItemsAfterEnroll(m, s, c, OfCourse(c'));
      ItemsAfterEnroll(m, s, c, OfStudent(s'));
    }
  }

  lemma DroppingBreaksAgreement(m: Data, op: Action)
    requires SidesAgree(m) && !DropsNothing(m, op)
    ensures !SidesAgree(Apply(m, op))
  {
    var m', k := Apply(m, op), Emptied(m, op).value;
    var x := Items(m, k)[0];
    assert x in multiset(Items(m, k));
    var s, c := if k.OfStudent? then k.id else x, if k.OfStudent? then x else k.id;
    assert SidesAgreeOn(m, s, c);
    ItemsAfter(m, op, OfStudent(s));
    ItemsAfter(m, op, OfCourse(c));
    assert !SidesAgreeOn(m', s, c);
  }

  /** An operation keeps the two sides in agreement exactly when it empties no list with entries:
      deleting, or adding an id again, leaves the other side's entries behind. */
  lemma AgreementKeptIff(m: Data, op: Action)
    requires SidesAgree(m)
    ensures SidesAgree(Apply(m, op)) <==> DropsNothing(m, op)
  {
    if op.Enroll? {
      EnrollKeepsAgreement(m, op.student, op.course);
    } else if DropsNothing(m, op) {
      var m' := Apply(m, op);
      forall s, c ensures SidesAgreeOn(m', s, c) {
        assert SidesAgreeOn(m, s, c);
        ItemsAfter(m, op, OfStudent(s));
        ItemsAfter(m, op, OfCourse(c));
      }
    } else {
      DroppingBreaksAgreement(m, op);
    }
  }

  lemma RunPrefix(ops: seq<Action>, i: nat)
    requires i < |ops|
    ensures Run(map[], ops[..i + 1]) == Apply(Run(map[], ops[..i]), ops[i])
  {
    assert ops[..i + 1][..i] == ops[..i];
  }

  ghost predicate SidesAgreeAfter(ops: seq<Action>, i: nat)
    requires i <= |ops|
  {
    SidesAgree(Run(map[], ops[..i]))
  }

  ghost predicate DropsNothingAt(ops: seq<Action>, i: nat)
    requires i < |ops|
  {
    DropsNothing(Run(map[], ops[..i]), ops[i])
  }

  lemma AgreementStep(ops: seq<Action>, i: nat)
    requires i < |ops| && SidesAgreeAfter(ops, i)
    ensures SidesAgreeAfter(ops, i + 1) <==> DropsNothingAt(ops, i)
  {
    AgreementKeptIff(Run(map[], ops[..i]), ops[i]);
    RunPrefix(ops, i);
  }

  lemma SidesAgreeAtStart(ops: seq<Action>)
    ensures SidesAgreeAfter(ops, 0)
  {}

  ghost predicate SidesAgreeThroughout(ops: seq<Action>) {
    forall i: nat :: i <= |ops| ==> SidesAgreeAfter(ops, i)
  }

  ghost predicate DropsNothingThroughout(ops: seq<Action>) {
    forall i: nat :: i < |ops| ==> DropsNothingAt(ops, i)
  }

  lemma {:induction false} DroppingNothingKeepsAgreement(ops: seq<Action>, i: nat)
    requires i <= |ops| && DropsNothingThroughout(ops)
    ensures SidesAgreeAfter(ops, i)
  {
    if i == 0 {
      SidesAgreeAtStart(ops);
    } else {
      DroppingNothingKeepsAgreement(ops, i - 1);
      AgreementStep(ops, i - 1);
    }
  }

  /** A run keeps the two sides in agreement throughout exactly when no operation of it empties a list
      with entries. */
  lemma SidesAgreeThroughoutIff(ops: seq<Action>)
    ensures SidesAgreeThroughout(ops) <==> DropsNothingThroughout(ops)
  {
    if DropsNothingThroughout(ops) {
      forall i: nat | i <= |ops| ensures SidesAgreeAfter(ops, i) {
        DroppingNothingKeepsAgreement(ops, i);
      }
    }
    if SidesAgreeThroughout(ops) {
      forall i: nat | i < |ops| ensures DropsNothingAt(ops, i) {
        assert SidesAgreeAfter(ops, i + 1);
        AgreementStep(ops, i);
      }
    }
  }

  /** One registered student in one open course. */
  function Signup(): seq<Action> {
    [AddCourse(1, "Logic", "CS", "open", 1), AddStudent(1, "Ada", true, "A1"), Enroll(1, 1)]
  }

  lemma AfterSignup(m: Data)
    requires m == Run(map[], Signup())
    ensures Items(m, OfCourse(1)) == [1] && Items(m, OfStudent(1)) == [1]
    ensures Students in m && Courses in m && IsRegistered(m, 1)
  {
    var ops := Signup();
    RunPrefix(ops, 0);
    RunPrefix(ops, 1);
    RunPrefix(ops, 2);
    assert ops[..3] == ops;
    var m2 := Run(map[], ops[..2]);
    assert Items(m2, OfCourse(1)) == [] && Items(m2, OfStudent(1)) == [];
    assert Enrolls(m2, 1, 1);
    ItemsAfterEnroll(m2, 1, 1, OfCourse(1));
    ItemsAfterEnroll(m2, 1, 1, OfStudent(1));
  }

  lemma RunOneMore(ops: seq<Action>, op: Action)
    ensures Run(map[], ops + [op]) == Apply(Run(map[], ops), op)
  {
    assert (ops + [op])[..|ops|] == ops;
  }

  /** After either delete, only one of the two sides still has the enrollment. */
  lemma DeletesSplitTheSides()
    ensures !SidesAgree(Run(map[], Signup() + [DeleteStudent(1)]))
    ensures !SidesAgree(Run(map[], Signup() + [DeleteCourse(1)]))
  {
    var m := Run(map[], Signup());
    AfterSignup(m);
    forall op | op in {DeleteStudent(1), DeleteCourse(1)} ensures !SidesAgree(Run(map[], Signup() + [op])) {
      RunOneMore(Signup(), op);
      ItemsAfter(m, op, OfCourse(1));
      ItemsAfter(m, op, OfStudent(1));
      assert !SidesAgreeOn(Apply(m, op), 1, 1);
    }
  }

  /** Not a delete, and what is added has an id that is not in the data yet. */
  predicate OnlyAdds(m: Data, op: Action) {
    && !op.DeleteStudent? && !op.DeleteCourse?
    && (op.AddStudent? ==> StudentKey(op.id) !in m)
    && (op.AddCourse? ==> CourseKey(op.id) !in m)
  }

  ghost predicate EnrolledAreKnown(m: Data) {
    && (forall s :: Items(m, OfStudent(s)) != [] ==> StudentKey(s) in m)
    && (forall c :: Items(m, OfCourse(c)) != [] ==> CourseKey(c) in m)
  }

  lemma ApplyKeepsKnown(m: Data, op: Action)
    requires EnrolledAreKnown(m)
    ensures EnrolledAreKnown(Apply(m, op))
  {
    var m' := Apply(m, op);
    forall s | Items(m', OfStudent(s)) != [] ensures StudentKey(s) in m' {
      assert Items(m, OfStudent(s)) != [] ==> StudentKey(s) in m;
    }
    forall c | Items(m', OfCourse(c)) != [] ensures CourseKey(c) in m' {
      assert Items(m, OfCourse(c)) != [] ==> CourseKey(c) in m;
    }
  }

  /** Over runs without deletes and with fresh ids, both sides hold the same (student, course) pairs. */
  lemma {:induction false} SidesAgreeWithoutDeletes(ops: seq<Action>)
    requires forall i :: 0 <= i < |ops| ==> OnlyAdds(Run(map[], ops[..i]), ops[i])
    ensures SidesAgree(Run(map[], ops)) && EnrolledAreKnown(Run(map[], ops))
  {
    if ops != [] {
      var front, op := ops[..|ops| - 1], ops[|ops| - 1];
      forall i | 0 <= i < |front| ensures OnlyAdds(Run(map[], front[..i]), front[i]) {
        assert front[..i] == ops[..i] && front[i] == ops[i];
      }
      SidesAgreeWithoutDeletes(front);
      var m := Run(map[], front);
      assert OnlyAdds(m, op);
      AgreementKeptIff(m, op);
      ApplyKeepsKnown(m, op);
    }
  }

  // ---------------------------------------------------------------- only registered students are enrolled?

  ghost predicate IsEnrolled(m: Data, s: int) {
    exists c :: s in Items(m, OfCourse(c))
  }

  ghost predicate OnlyRegistered(m: Data) {
    forall s :: IsEnrolled(m, s) ==> IsRegistered(m, s)
  }

  /** The operation takes no enrolled student's registration away. */
  ghost predicate KeepsRegistrations(m: Data, op: Action) {
    match op
    case AddStudent(id, _, registered, _) => registered || !IsEnrolled(m, id)
    case DeleteStudent(id) => !IsEnrolled(m, id)
    case DeregisterStudent(id) => !IsEnrolled(m, id)
    case _ => true
  }

  lemma RegistrationAfter(m: Data, op: Action, s: int)
    ensures IsRegistered(Apply(m, op), s) ==
            match op
            case AddStudent(id, _, registered, _) => if s == id then registered else IsRegistered(m, s)
            case DeleteStudent(id) => s != id && IsRegistered(m, s)
            case DeregisterStudent(id) => s != id && IsRegistered(m, s)
            case RegisterStudent(id) => IsRegistered(m, s) || (s == id && StudentKey(s) in m && m[StudentKey(s)].StudentRecord?)
            case _ => IsRegistered(m, s)
  {}

  lemma EnrolledAfter(m: Data, op: Action, s: int)
    ensures IsEnrolled(Apply(m, op), s) ==> IsEnrolled(m, s) || (op.Enroll? && s == op.student && IsRegistered(m, s))
    ensures !op.AddCourse? && !op.DeleteCourse? && IsEnrolled(m, s) ==> IsEnrolled(Apply(m, op), s)
  {
    var m' := Apply(m, op);
    if c :| s in Items(m', OfCourse(c)) {
      if op.Enroll? {
        ItemsAfterEnroll(m, op.student, op.course, OfCourse(c));
      } else {
        ItemsAfter(m, op, OfCourse(c));
      }
    }
    if c :| s in Items(m, OfCourse(c)) {
      if op.Enroll? {
        ItemsAfterEnroll(m, op.student, op.course, OfCourse(c));
        assert s in Items(m', OfCourse(c));
      } else if !op.AddCourse? && !op.DeleteCourse? {
        ItemsAfter(m, op, OfCourse(c));
        assert s in Items(m', OfCourse(c));
      }
    }
  }

  /** "Only registered students are enrolled" survives an operation exactly when that operation takes
      no enrolled student's registration away: courses keep students that deregister or are deleted. */
  lemma OnlyRegisteredKeptIff(m: Data, op: Action)
    requires OnlyRegistered(m)
    ensures OnlyRegistered(Apply(m, op)) <==> KeepsRegistrations(m, op)
  {
    var m' := Apply(m, op);
    forall s ensures KeepsRegistrations(m, op) && IsEnrolled(m', s) ==> IsRegistered(m', s) {
      RegistrationAfter(m, op, s);
      EnrolledAfter(m, op, s);
    }
    if !KeepsRegistrations(m, op) {
      RegistrationAfter(m, op, op.id);
      EnrolledAfter(m, op, op.id);
    }
  }

  ghost predicate OnlyRegisteredAfter(ops: seq<Action>, i: nat)
    requires i <= |ops|
  {
    OnlyRegistered(Run(map[], ops[..i]))
  }

  ghost predicate KeepsRegistrationsAt(ops: seq<Action>, i: nat)
    requires i < |ops|
  {
    KeepsRegistrations(Run(map[], ops[..i]), ops[i])
  }

  lemma RegistrationStep(ops: seq<Action>, i: nat)
    requires i < |ops| && OnlyRegisteredAfter(ops, i)
    ensures OnlyRegisteredAfter(ops, i + 1) <==> KeepsRegistrationsAt(ops, i)
  {
    OnlyRegisteredKeptIff(Run(map[], ops[..i]), ops[i]);
    RunPrefix(ops, i);
  }

  ghost predicate OnlyRegisteredThroughout(ops: seq<Action>) {
    forall i: nat :: i <= |ops| ==> OnlyRegisteredAfter(ops, i)
  }

  ghost predicate KeepsRegistrationsThroughout(ops: seq<Action>) {
    forall i: nat :: i < |ops| ==> KeepsRegistrationsAt(ops, i)
  }

  lemma OnlyRegisteredAtStart(ops: seq<Action>)
    ensures OnlyRegisteredAfter(ops, 0)
  {}

  lemma {:induction false} KeepingRegistrationsKeepsOnlyRegistered(ops: seq<Action>, i: nat)
    requires i <= |ops| && KeepsRegistrationsThroughout(ops)
    ensures OnlyRegisteredAfter(ops, i)
  {
    if i == 0 {
      OnlyRegisteredAtStart(ops);
    } else {
      KeepingRegistrationsKeepsOnlyRegistered(ops, i - 1);
      RegistrationStep(ops, i - 1);
    }
  }

  /** Only registered students are enrolled throughout a run exactly when no operation of it takes an
      enrolled student's registration away. */
  lemma OnlyRegisteredThroughoutIff(ops: seq<Action>)
    ensures OnlyRegisteredThroughout(ops) <==> KeepsRegistrationsThroughout(ops)
  {
    if KeepsRegistrationsThroughout(ops) {
      forall i: nat | i <= |ops| ensures OnlyRegisteredAfter(ops, i) {
        KeepingRegistrationsKeepsOnlyRegistered(ops, i);
      }
    }
    if OnlyRegisteredThroughout(ops) {
      forall i: nat | i < |ops| ensures KeepsRegistrationsAt(ops, i) {
        assert OnlyRegisteredAfter(ops, i + 1);
        RegistrationStep(ops, i);
      }
    }
  }

  /** A student that deregisters or is deleted stays in the course's list. */
  lemma UnregisteredStayEnrolled()
    ensures !OnlyRegistered(Run(map[], Signup() + [DeregisterStudent(1)]))
    ensures !OnlyRegistered(Run(map[], Signup() + [DeleteStudent(1)]))
  {
    var m := Run(map[], Signup());
    AfterSignup(m);
    assert 1 in Items(m, OfCourse(1));
    forall op | op in {DeregisterStudent(1), DeleteStudent(1)}
      ensures !OnlyRegistered(Run(map[], Signup() + [op]))
    {
      RunOneMore(Signup(), op);
      EnrolledAfter(m, op, 1);
      RegistrationAfter(m, op, 1);
    }
  }
}
