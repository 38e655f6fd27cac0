/** The courseware object: every operation reads records from the store, edits them and writes them back. */
module Coursewares {
  import opened Stores
  import opened KvStores
  import opened LinearizableStores
  import opened Lists
  import opened CoursewareData

  /** Assignment to index `i` of a JSON array: overwrites an entry or appends one. */
  function SetAt(items: seq<int>, i: int, x: int): seq<int>
    requires 0 <= i <= |items|
  {
    if i < |items| then items[i := x] else items + [x]
  }

  method RemoveAll(items: seq<int>, x: int) returns (rest: seq<int>)
    ensures rest == Without(items, x) && IsRest(rest, items, x)
  {
    rest := [];
    for i := 0 to |items|
      invariant rest == Without(items[..i], x)
    {
      assert items[..i + 1][..i] == items[..i];
      if items[i] != x {
        rest := rest + [items[i]];
      }
    }
    assert items[..|items|] == items;
    WithoutIsRest(items, x);
  }

  class Courseware {
    const store: KvStore<Key, Record>

    ghost predicate Valid()
      reads store
    {
      Ready(store) && Counted(Now(store))
    }

    constructor (store: KvStore<Key, Record>)
      requires Ready(store) && Counted(Now(store))
      ensures this.store == store && Valid()
    {
      this.store := store;
    }

    /** The list stored at `list`, or a new empty one. */
    method FetchList(list: Key, s: Session) returns (listing: Record)
      requires Valid() && (list.Students? || list.Courses? || list.OfStudent? || list.OfCourse?)
      modifies store
      ensures LoggedBy(old(store.history), store.history, s)
      ensures Valid() && Now(store) == old(Now(store))
      ensures listing == ListAt(Now(store), list) && HasType(list, listing)
    {
      var got := Read(store, list, s);
      listing := if got.Some? then got.value else Listing([], 0);
    }

    /** `count` is where the next entry goes. */
    method SaveLonger(list: Key, listing: Record, id: int, s: Session)
      requires Valid() && listing.Listing? && HasType(list, listing)
      modifies store
      ensures LoggedBy(old(store.history), store.history, s)
      ensures Valid() && Now(store) == old(Now(store))[list := Entered(listing, id)]
    {
      var count := listing.count;
      Write(store, list, Listing(SetAt(listing.items, count, id), count + 1), s);
    }

    method AddToList(list: Key, id: int, s: Session)
      requires Valid() && (list.Students? || list.Courses? || list.OfStudent? || list.OfCourse?)
      modifies store
      ensures LoggedBy(old(store.history), store.history, s)
      ensures Valid()
      ensures Now(store) == old(Now(store))[list := Entered(ListAt(old(Now(store)), list), id)]
    {
      var listing := FetchList(list, s);
      SaveLonger(list, listing, id, s);
    }

    method AddStudent(id: int, name: string, registered: bool, rollNumber: string, s: Session)
      requires Valid()
      modifies store
      ensures LoggedBy(old(store.history), store.history, s)
      ensures Valid()
      ensures Now(store) == Apply(old(Now(store)), Action.AddStudent(id, name, registered, rollNumber))
    {
      AddToList(Students, id, s);
      Write(store, StudentKey(id), StudentRecord(name, registered, rollNumber), s);
      Write(store, OfStudent(id), Listing([], 0), s);
    }

    method AddCourse(id: int, title: string, department: string, status: string, capacity: int, s: Session)
      requires Valid()
      modifies store
      ensures LoggedBy(old(store.history), store.history, s)
      ensures Valid()
      ensures Now(store) == Apply(old(Now(store)), Action.AddCourse(id, title, department, status, capacity))
    {
      AddToList(Courses, id, s);
      Write(store, CourseKey(id), CourseRecord(title, department, status, capacity), s);
      Write(store, OfCourse(id), Listing([], 0), s);
    }

    method RemoveFromList(list: Key, id: int, enrollment: Key, s: Session)
      requires Valid()
      requires (list == Students && enrollment == OfStudent(id)) || (list == Courses && enrollment == OfCourse(id))
      modifies store
      ensures LoggedBy(old(store.history), store.history, s)
      ensures Valid()
      ensures Now(store) == Unlist(old(Now(store)), list, id, enrollment)
    {
      var got := Read(store, list, s);
      if got.None? {
        return;
      }
      var rest := RemoveAll(got.value.items, id);
      Write(store, list, Listing(rest, |rest|), s);
      Write(store, enrollment, Listing([], 0), s);
      UnlistKeepsCounted(old(Now(store)), list, id, enrollment);
    }

    method DeleteStudent(id: int, s: Session)
      requires Valid()
      modifies store
      ensures LoggedBy(old(store.history), store.history, s)
      ensures Valid()
      ensures Now(store) == Apply(old(Now(store)), Action.DeleteStudent(id))
    {
      DeregisterStudent(id, s);
      RemoveFromList(Students, id, OfStudent(id), s);
    }

    method DeleteCourse(id: int, s: Session)
      requires Valid()
      modifies store
      ensures LoggedBy(old(store.history), store.history, s)
      ensures Valid()
      ensures Now(store) == Apply(old(Now(store)), Action.DeleteCourse(id))
    {
      CloseCourse(id, s);
      RemoveFromList(Courses, id, OfCourse(id), s);
    }

    method RegisterStudent(id: int, s: Session)
      requires Valid()
      modifies store
      ensures LoggedBy(old(store.history), store.history, s)
      ensures Valid()
      ensures Now(store) == Apply(old(Now(store)), Action.RegisterStudent(id))
    {
      var got := Read(store, StudentKey(id), s);
      if got.Some? {
        Write(store, StudentKey(id), got.value.(registered := true), s);
      }
    }

    method DeregisterStudent(id: int, s: Session)
      requires Valid()
      modifies store
      ensures LoggedBy(old(store.history), store.history, s)
      ensures Valid()
      ensures Now(store) == Apply(old(Now(store)), Action.DeregisterStudent(id))
    {
      var got := Read(store, StudentKey(id), s);
      if got.Some? {
        Write(store, StudentKey(id), got.value.(registered := false), s);
      }
    }

    method OpenCourse(id: int, s: Session)
      requires Valid()
      modifies store
      ensures LoggedBy(old(store.history), store.history, s)
      ensures Valid()
      ensures Now(store) == Apply(old(Now(store)), Action.OpenCourse(id))
    {
      var got := Read(store, CourseKey(id), s);
      if got.Some? {
        Write(store, CourseKey(id), got.value.(status := "open"), s);
      }
    }

    method CloseCourse(id: int, s: Session)
      requires Valid()
      modifies store
      ensures LoggedBy(old(store.history), store.history, s)
      ensures Valid()
      ensures Now(store) == Apply(old(Now(store)), Action.CloseCourse(id))
    {
      var got := Read(store, CourseKey(id), s);
      if got.Some? {
        Write(store, CourseKey(id), got.value.(status := "close"), s);
      }
    }

    method Enroll(student: int, course: int, s: Session)
      requires Valid()
      modifies store
      ensures LoggedBy(old(store.history), store.history, s)
      ensures Valid()
      ensures Now(store) == Apply(old(Now(store)), Action.Enroll(student, course))
    {
      var studentDetails := Read(store, StudentKey(student), s);
      if studentDetails.None? {
        return;
      }
      var courseDetails := Read(store, CourseKey(course), s);
      if courseDetails.None? || !studentDetails.value.registered || courseDetails.value.status != "open" {
        return;
      }
      EnterEnrollment(student, course, courseDetails.value.capacity, s);
    }

    /** The part of `enroll` after its two checks. */
    method EnterEnrollment(student: int, course: int, capacity: int, s: Session)
      requires Valid() && IsRegistered(Now(store), student) && IsOpen(Now(store), course)
      requires capacity == Now(store)[CourseKey(course)].capacity
      modifies store
      ensures LoggedBy(old(store.history), store.history, s)
      ensures Valid()
      ensures Now(store) == Apply(old(Now(store)), Action.Enroll(student, course))
    {
      var courseEnrollment := FetchList(OfCourse(course), s);
      if courseEnrollment.count >= capacity {
        CloseCourse(course, s);
        return;
      }
      SaveLonger(OfCourse(course), courseEnrollment, student, s);
      AddToList(OfStudent(student), course, s);
    }

    method GetItems(list: Key, s: Session) returns (r: seq<int>)
      requires Valid() && (list.OfStudent? || list.OfCourse?)
      modifies store
      ensures LoggedBy(old(store.history), store.history, s)
      ensures Valid() && Now(store) == old(Now(store))
      ensures r == Items(Now(store), list)
    {
      r := [];
      var got := Read(store, list, s);
      if got.None? {
        return;
      }
      var items := got.value.items;
      for i := 0 to |items|
        invariant r == items[..i]
      {
        r := r + [items[i]];
      }
    }

    /** The enrolled students of every listed course. */
    method GetEnrollments(s: Session) returns (enrollments: map<int, seq<int>>)
      requires Valid()
      modifies store
      ensures LoggedBy(old(store.history), store.history, s)
      ensures Valid() && Now(store) == old(Now(store))
      ensures forall c :: c in enrollments <==> c in Items(Now(store), Courses)
      ensures forall c :: c in enrollments ==> enrollments[c] == Items(Now(store), OfCourse(c))
    {
      enrollments := map[];
      var got := Read(store, Courses, s);
      if got.None? {
        return;
      }
      var courses := got.value.items;
      for i := 0 to |courses|
        invariant Valid() && Now(store) == old(Now(store))
        invariant LoggedBy(old(store.history), store.history, s)
        invariant forall c :: c in enrollments <==> c in courses[..i]
        invariant forall c :: c in enrollments ==> enrollments[c] == Items(Now(store), OfCourse(c))
      {
        var students := GetItems(OfCourse(courses[i]), s);
        assert courses[..i + 1] == courses[..i] + [courses[i]];
        enrollments := enrollments[courses[i] := students];
      }
    }
  }
}
