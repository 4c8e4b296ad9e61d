/** The in-memory `student.StudentService`: a map from id to student and an
    id counter, seeded with three students, where created students take the
    next counter value and deleted ids are never handed out again. */
module InMemoryStudents {
  import opened Wrappers

  /** The request body of a create or update. */
  datatype StudentRequest = StudentRequest(fullName: string, email: string, major: string)

  /** The stored record. */
  datatype Student = Student(id: int, fullName: string, email: string, major: string)

  /** The message of the `NoSuchElementException` of `update` and `delete`. */
  const NotFoundMessage: string := "Student not found"

  /** A non-empty set of keys has a member to pick. */
  lemma NonEmptyHasMember(keys: set<int>)
    requires keys != {}
    ensures exists k :: k in keys
  {
    if forall k :: k !in keys {
      assert false;
    }
  }

  /** Among the keys, one not above any other. */
  lemma {:induction false} MinExists(keys: set<int>)
    requires keys != {}
    ensures exists m :: m in keys && forall k :: k in keys ==> m <= k
  {
    NonEmptyHasMember(keys);
    var x :| x in keys;
    if keys != {x} {
      var rest := keys - {x};
      MinExists(rest);
      var m :| m in rest && forall k :: k in rest ==> m <= k;
      var least := if x < m then x else m;
      forall k | k in keys
        ensures least <= k
      {
        if k != x {
          assert k in rest;
        }
      }
    } else {
      forall k | k in keys
        ensures x <= k
      {
      }
    }
  }

  /** `keys.stream().max().orElse(0L)`. */
  method MaxKey(keys: set<int>) returns (m: int)
    ensures keys == {} ==> m == 0
    ensures keys != {} ==> m in keys && forall k :: k in keys ==> k <= m
  {
    m := 0;
    var seen: set<int> := {};
    var rest := keys;
    while rest != {}
      invariant seen + rest == keys && seen !! rest
      invariant seen == {} ==> m == 0
      invariant seen != {} ==> m in seen && forall k :: k in seen ==> k <= m
      decreases |rest|
    {
      NonEmptyHasMember(rest);
      var k :| k in rest;
      if seen == {} || k > m {
        m := k;
      }
      seen, rest := seen + {k}, rest - {k};
    }
  }

  class StudentStore {
    var students: map<int, Student>
    var idGenerator: int

    /** Each key maps to the student with that id, and every key lies in
        1 ..= the counter, so the next id is free. */
    ghost predicate Valid()
      reads this
    {
      && idGenerator >= 0
      && forall k :: k in students ==> students[k].id == k && 1 <= k <= idGenerator
    }

    /** The fields' initialisers: an empty map and a counter at 0. */
    constructor ()
      ensures Valid() && students == map[] && idGenerator == 0
    {
      students := map[];
      idGenerator := 0;
    }

    /** `seedInitialData` (`@PostConstruct`): puts the three sample students
        under ids 1, 2, 3 and sets the counter to the largest key. */
    method SeedInitialData()
      requires Valid()
      modifies this
      ensures Valid()
      ensures students == old(students)
        [1 := Student(1, "Alice Nguyen", "alice@example.com", "Computer Science")]
        [2 := Student(2, "Bob Tran", "bob@example.com", "Information Systems")]
        [3 := Student(3, "Charlie Pham", "charlie@example.com", "Software Engineering")]
      ensures idGenerator in students && forall k :: k in students ==> k <= idGenerator
    {
      students := students[1 := Student(1, "Alice Nguyen", "alice@example.com", "Computer Science")];
      students := students[2 := Student(2, "Bob Tran", "bob@example.com", "Information Systems")];
      students := students[3 := Student(3, "Charlie Pham", "charlie@example.com", "Software Engineering")];
      assert 3 in students.Keys;
      idGenerator := MaxKey(students.Keys);
    }

    /** `findAll`: every stored student once, in ascending id order. */
    method FindAll() returns (r: seq<Student>)
      requires Valid()
      ensures forall i, j :: 0 <= i < j < |r| ==> r[i].id < r[j].id
      ensures forall i :: 0 <= i < |r| ==> r[i].id in students && students[r[i].id] == r[i]
      ensures forall k :: k in students ==> students[k] in r
    {
      r := [];
      var rest := students.Keys;
      while rest != {}
        invariant rest <= students.Keys
        invariant forall i, j :: 0 <= i < j < |r| ==> r[i].id < r[j].id
        invariant forall i :: 0 <= i < |r| ==> r[i].id in students && r[i].id !in rest && students[r[i].id] == r[i]
        invariant forall i, k :: 0 <= i < |r| && k in rest ==> r[i].id < k
        invariant forall k :: k in students && k !in rest ==> students[k] in r
        decreases |rest|
      {
        MinExists(rest);
        var m :| m in rest && forall k :: k in rest ==> m <= k;
        r := r + [students[m]];
        rest := rest - {m};
      }
    }

    /** `findById`: the student under `id`, if any. */
    function FindById(id: int): (r: Option<Student>)
      reads this
      ensures r.Some? <==> id in students
      ensures r.Some? ==> r.value == students[id]
    {
      if id in students then Some(students[id]) else None
    }

    /** `create`: takes the next counter value as id and stores the request
        under it; that key was free, so nothing is overwritten. */
    method Create(request: StudentRequest) returns (student: Student)
      requires Valid()
      modifies this
      ensures Valid()
      ensures idGenerator == old(idGenerator) + 1 && student.id !in old(students)
      ensures student == Student(idGenerator, request.fullName, request.email, request.major)
      ensures students == old(students)[student.id := student]
    {
      idGenerator := idGenerator + 1;
      student := Student(idGenerator, request.fullName, request.email, request.major);
      students := students[idGenerator := student];
    }

    /** `update`: "Student not found" for an absent id, leaving the store as
        it was; otherwise replaces only that entry, keeping its id. */
    method Update(id: int, request: StudentRequest) returns (r: Result<Student, string>)
      requires Valid()
      modifies this
      ensures Valid() && idGenerator == old(idGenerator)
      ensures id !in old(students) ==> r == Failure(NotFoundMessage) && students == old(students)
      ensures id in old(students) ==>
        && r == Success(Student(id, request.fullName, request.email, request.major))
        && students == old(students)[id := r.value]
    {
      if id !in students {
        return Failure(NotFoundMessage);
      }
      var updated := Student(id, request.fullName, request.email, request.major);
      students := students[id := updated];
      r := Success(updated);
    }

    /** `delete`: "Student not found" for an absent id; otherwise removes
        only that entry. The counter stays, so the id is never reused. */
    method Delete(id: int) returns (r: Outcome<string>)
      requires Valid()
      modifies this
      ensures Valid() && idGenerator == old(idGenerator)
      ensures id !in old(students) ==> r == Fail(NotFoundMessage) && students == old(students)
      ensures id in old(students) ==> r == Pass && students == old(students) - {id}
    {
      if id !in students {
        return Fail(NotFoundMessage);
      }
      students := students - {id};
      r := Pass;
    }
  }

  /** The store as the application starts it: Alice, Bob and Charlie under
      1, 2, 3, and the counter at 3, so the first create gets id 4. */
  method StartedStore() returns (store: StudentStore)
    ensures fresh(store) && store.Valid()
    ensures store.students.Keys == {1, 2, 3} && store.idGenerator == 3
    ensures store.FindById(1) == Some(Student(1, "Alice Nguyen", "alice@example.com", "Computer Science"))
  {
    store := new StudentStore();
    store.SeedInitialData();
    assert store.students.Keys == {1, 2, 3};
  }

  /** Deleting a student and creating another never gives the new one the
      deleted id, and the deleted id stays absent. */
  method DeleteThenCreate(store: StudentStore, id: int, request: StudentRequest) returns (deleted: Outcome<string>, created: Student)
    requires store.Valid()
    modifies store
    ensures store.Valid()
    ensures deleted.Pass? ==> created.id != id && id !in store.students
    ensures deleted.Pass? <==> id in old(store.students)
  {
    deleted := store.Delete(id);
    created := store.Create(request);
  }
}
