/** The persistence-backed student service: a mutable `Student` entity, the
    repository as a map from identifier to stored fields with an identity
    counter, and the service that validates, trims and writes through it. */
module PersistenceService {
  import opened Wrappers
  import opened JavaText
  import opened Framework
  import opened Exceptions
  import opened StudentValidation

  /** The `Student` entity, changed in place by its setters. */
  class Student {
    var id: Option<int>
    var firstName: Option<string>
    var lastName: Option<string>
    var email: Option<string>
    var dateOfBirth: Option<Date>

    constructor (id: Option<int>, data: StudentData)
      ensures this.id == id && Data() == data
    {
      this.id := id;
      firstName := data.firstName;
      lastName := data.lastName;
      email := data.email;
      dateOfBirth := data.dateOfBirth;
    }

    /** The entity's fields other than the identifier. */
    function Data(): StudentData
      reads this
    {
      StudentData(firstName, lastName, email, dateOfBirth)
    }
  }

  /** The fields of a payload that may be `null`, as the validator sees them. */
  function Snapshot(student: Student?): (p: Option<StudentData>)
    reads student
    ensures p.None? <==> student == null
  {
    if student == null then None else Some(student.Data())
  }

  /** The three text fields trimmed, the date of birth as it is. */
  function TrimmedData(d: StudentData): (r: StudentData)
    requires d.firstName.Some? && d.lastName.Some? && d.email.Some?
    ensures r.firstName.Some? && IsTrimmed(r.firstName.value)
    ensures r.lastName.Some? && IsTrimmed(r.lastName.value)
    ensures r.email.Some? && IsTrimmed(r.email.value)
    ensures r.dateOfBirth == d.dateOfBirth
  {
    StudentData(Some(Trim(d.firstName.value)), Some(Trim(d.lastName.value)), Some(Trim(d.email.value)), d.dateOfBirth)
  }

  /** What the service leaves in a row it writes: every field present, the
      text fields trimmed and the e-mail matching the pattern. */
  predicate IsStoredForm(d: StudentData)
  {
    && d.firstName.Some? && d.lastName.Some? && d.email.Some? && d.dateOfBirth.Some?
    && IsTrimmed(d.firstName.value) && IsTrimmed(d.lastName.value) && IsTrimmed(d.email.value)
    && MatchesEmailPattern(d.email.value)
  }

  /** Trimming an accepted payload gives the stored form. */
  lemma AcceptedPayloadStoredForm(d: StudentData)
    requires ValidateStudent(Some(d)).Pass?
    ensures IsStoredForm(TrimmedData(d))
  {
  }

  /** The stored form does not promise a non-empty first name: a name of
      control characters passes `hasText` and is stored trimmed to "". */
  lemma StoredFirstNameMayBeEmpty()
    ensures ValidateStudent(Some(ControlNamePayload)).Pass?
    ensures TrimmedData(ControlNamePayload).firstName == Some("")
  {
    ControlCharacterNameAccepted();
  }

  ghost predicate AllStoredForm(rows: map<int, StudentData>)
  {
    forall k :: k in rows ==> IsStoredForm(rows[k])
  }

  /** The repository: stored rows by identifier and the last identifier the
      database generated. */
  class StudentRepository {
    var rows: map<int, StudentData>
    var lastId: int

    /** Every identifier was generated: positive and at most the last one. */
    ghost predicate Valid()
      reads this
    {
      lastId >= 0 && forall k :: k in rows ==> 0 < k <= lastId
    }

    constructor ()
      ensures Valid() && rows == map[] && lastId == 0
    {
      rows := map[];
      lastId := 0;
    }

    /** `findById`: a new entity object loaded from the row, if there is one. */
    method FindById(id: int) returns (r: Option<Student>)
      ensures r.None? <==> id !in rows
      ensures r.Some? ==> fresh(r.value) && r.value.id == Some(id) && r.value.Data() == rows[id]
    {
      if id in rows {
        var s := new Student(Some(id), rows[id]);
        r := Some(s);
      } else {
        r := None;
      }
    }

    /** `save`: an entity without identifier is inserted under a newly
        generated one, which is set on the entity itself, and that entity is
        returned; an entity with an identifier overwrites its row and a new
        copy is returned. */
    method Save(s: Student) returns (saved: Student)
      requires Valid()
      requires s.id.None? || s.id.value in rows
      modifies this, s
      ensures Valid()
      ensures old(s.id).None? ==>
        && saved == s && s.id == Some(old(lastId) + 1) && s.Data() == old(s.Data())
        && old(lastId) + 1 !in old(rows)
        && rows == old(rows)[old(lastId) + 1 := s.Data()] && lastId == old(lastId) + 1
      ensures old(s.id).Some? ==>
        && fresh(saved) && unchanged(s) && saved.id == s.id && saved.Data() == s.Data()
        && rows == old(rows)[s.id.value := s.Data()] && lastId == old(lastId)
    {
      if s.id.None? {
        lastId := lastId + 1;
        s.id := Some(lastId);
        rows := rows[lastId := s.Data()];
        saved := s;
      } else {
        rows := rows[s.id.value := s.Data()];
        saved := new Student(s.id, s.Data());
      }
    }

    /** `deleteById`: the row goes; the identifier counter stays. */
    method DeleteById(id: int)
      requires Valid()
      modifies this
      ensures Valid()
      ensures rows == old(rows) - {id} && lastId == old(lastId)
    {
      rows := rows - {id};
    }
  }

  /** The service. */
  class StudentService {
    const repository: StudentRepository

    constructor (repository: StudentRepository)
      ensures this.repository == repository
    {
      this.repository := repository;
    }

    /** `getStudentById`: the stored student, or not-found naming the id. */
    method GetStudentById(id: int) returns (r: Result<Student, AppException>)
      ensures r.Failure? <==> id !in repository.rows
      ensures r.Failure? ==> r.error == ResourceNotFound("Student", "id", JLong(id))
      ensures r.Success? ==> fresh(r.value) && r.value.id == Some(id) && r.value.Data() == repository.rows[id]
    {
      var found := repository.FindById(id);
      if found.None? {
        r := Failure(ResourceNotFound("Student", "id", JLong(id)));
      } else {
        r := Success(found.value);
      }
    }

    /** `createStudent`: validate, clear the identifier and trim, then save.
        A rejected payload touches neither the store nor the payload; an
        accepted one is stored under a newly generated identifier whatever
        identifier it came with, and the saved entity is returned. */
    method CreateStudent(student: Student?) returns (r: Result<Student, AppException>)
      requires repository.Valid()
      modifies repository, student
      ensures repository.Valid()
      ensures ValidateStudent(old(Snapshot(student))).Fail? ==>
        && r == Failure(ValidateStudent(old(Snapshot(student))).error)
        && unchanged(repository) && (student != null ==> unchanged(student))
      ensures ValidateStudent(old(Snapshot(student))).Pass? ==>
        && student != null && r == Success(student)
        && student.id == Some(old(repository.lastId) + 1)
        && repository.lastId == old(repository.lastId) + 1
        && old(repository.lastId) + 1 !in old(repository.rows)
        && student.Data() == TrimmedData(old(student.Data()))
        && repository.rows == old(repository.rows)[old(repository.lastId) + 1 := student.Data()]
      ensures AllStoredForm(old(repository.rows)) ==> AllStoredForm(repository.rows)
    {
      var validation := ValidateStudent(Snapshot(student));
      if validation.Fail? {
        return Failure(validation.error);
      }
      AcceptedPayloadStoredForm(student.Data());
      ResetIdentifier(student);
      var saved := repository.Save(student);
      r := Success(saved);
    }

    /** `resetIdentifier`: clear the identifier and trim the text fields in
        place. */
    method ResetIdentifier(student: Student)
      requires student.firstName.Some? && student.lastName.Some? && student.email.Some?
      modifies student
      ensures student.id.None? && student.Data() == TrimmedData(old(student.Data()))
    {
      student.id := None;
      student.firstName := Some(Trim(student.firstName.value));
      student.lastName := Some(Trim(student.lastName.value));
      student.email := Some(Trim(student.email.value));
    }

    /** `updateStudent`: look the student up (not-found before any
        validation), validate the payload, overwrite the loaded entity's
        fields with the trimmed values, then save it. Nothing is written
        unless both steps succeed; the identifier never changes. */
    method UpdateStudent(id: int, details: Student?) returns (r: Result<Student, AppException>)
      requires repository.Valid()
      modifies repository
      ensures repository.Valid() && repository.lastId == old(repository.lastId)
      ensures id !in old(repository.rows) ==>
        r == Failure(ResourceNotFound("Student", "id", JLong(id))) && repository.rows == old(repository.rows)
      ensures id in old(repository.rows) && ValidateStudent(Snapshot(details)).Fail? ==>
        r == Failure(ValidateStudent(Snapshot(details)).error) && repository.rows == old(repository.rows)
      ensures id in old(repository.rows) && ValidateStudent(Snapshot(details)).Pass? ==>
        && details != null && r.Success? && fresh(r.value)
        && r.value.id == Some(id) && r.value.Data() == TrimmedData(details.Data())
        && repository.rows == old(repository.rows)[id := TrimmedData(details.Data())]
      ensures AllStoredForm(old(repository.rows)) ==> AllStoredForm(repository.rows)
    {
      var found := GetStudentById(id);
      if found.Failure? {
        return Failure(found.error);
      }
      var existing := found.value;
      var validation := ValidateStudent(Snapshot(details));
      if validation.Fail? {
        return Failure(validation.error);
      }
      AcceptedPayloadStoredForm(details.Data());
      existing.firstName := Some(Trim(details.firstName.value));
      existing.lastName := Some(Trim(details.lastName.value));
      existing.email := Some(Trim(details.email.value));
      existing.dateOfBirth := details.dateOfBirth;
      var saved := repository.Save(existing);
      r := Success(saved);
    }

    /** `deleteStudent`: look the student up, then delete exactly that id. */
    method DeleteStudent(id: int) returns (r: Outcome<AppException>)
      requires repository.Valid()
      modifies repository
      ensures repository.Valid() && repository.lastId == old(repository.lastId)
      ensures id !in old(repository.rows) ==>
        r == Fail(ResourceNotFound("Student", "id", JLong(id))) && repository.rows == old(repository.rows)
      ensures id in old(repository.rows) ==> r == Pass && repository.rows == old(repository.rows) - {id}
      ensures AllStoredForm(old(repository.rows)) ==> AllStoredForm(repository.rows)
    {
      var found := GetStudentById(id);
      if found.Failure? {
        return Fail(found.error);
      }
      repository.DeleteById(found.value.id.value);
      r := Pass;
    }
  }

  /** Create then get: the trimmed payload under the new identifier. */
  method CreateThenGet(service: StudentService, payload: Student) returns (fetched: Result<Student, AppException>)
    requires service.repository.Valid() && ValidateStudent(Snapshot(payload)).Pass?
    modifies service.repository, payload
    ensures service.repository.Valid()
    ensures fetched.Success? && fetched.value.Data() == TrimmedData(old(payload.Data()))
    ensures fetched.value.id == Some(old(service.repository.lastId) + 1)
  {
    var created := service.CreateStudent(payload);
    fetched := service.GetStudentById(created.value.id.value);
  }

  /** Update then get: the trimmed new values under the same identifier. */
  method UpdateThenGet(service: StudentService, id: int, changes: Student) returns (fetched: Result<Student, AppException>)
    requires service.repository.Valid() && id in service.repository.rows
    requires ValidateStudent(Snapshot(changes)).Pass?
    modifies service.repository
    ensures service.repository.Valid()
    ensures fetched.Success? && fetched.value.id == Some(id) && fetched.value.Data() == TrimmedData(changes.Data())
  {
    var updated := service.UpdateStudent(id, changes);
    fetched := service.GetStudentById(id);
  }

  /** Delete then get: not-found. */
  method DeleteThenGet(service: StudentService, id: int) returns (fetched: Result<Student, AppException>)
    requires service.repository.Valid() && id in service.repository.rows
    modifies service.repository
    ensures service.repository.Valid()
    ensures fetched == Failure(ResourceNotFound("Student", "id", JLong(id)))
  {
    var deleted := service.DeleteStudent(id);
    fetched := service.GetStudentById(id);
  }
}
