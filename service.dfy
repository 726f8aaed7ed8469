/**
 * StudentServiceImpl: the single write path to the student repository. It
 * looks records up by email, turns a miss into StudentNotFoundException and
 * a duplicate email on creation into EmailAlreadyInUseException, both
 * modelled here as failure values carrying the exception's message.
 */
module StudentService {
  import opened Wrappers
  import opened StudentModel
  import opened StudentStore

  datatype StudentError =
    | StudentNotFound(message: string)
    | EmailAlreadyInUse(message: string)

  datatype Result<+T> = Success(value: T) | Failure(error: StudentError)

  function NotFoundMessage(email: string): string {
    "Student with email " + email + " not found"
  }

  function InUseMessage(email: string): string {
    email + " is already in use"
  }

  class StudentServiceImpl {
    const studentRepository: StudentRepository

    constructor (studentRepository: StudentRepository)
      ensures this.studentRepository == studentRepository
    {
      this.studentRepository := studentRepository;
    }

    /** getAllStudents: exactly the stored records, in store order; nothing changes. */
    method GetAllStudents() returns (r: seq<Student>)
      ensures r == studentRepository.docs
    {
      r := studentRepository.FindAll();
    }

    /**
     * getStudentByEmail: the stored record with this email, or a not-found
     * failure naming the email; nothing changes either way.
     */
    method GetStudentByEmail(email: string) returns (r: Result<Student>)
      ensures r.Success? <==> email in Emails(studentRepository.docs)
      ensures r.Success? ==> r.value in studentRepository.docs && r.value.email == email
      ensures r.Failure? ==> r.error == StudentNotFound("Student with email " + email + " not found")
    {
      var found := studentRepository.FindStudentByEmail(email);
      match found {
        case Some(student) =>
          r := Success(student);
        case None =>
          r := Failure(StudentNotFound(NotFoundMessage(email)));
      }
    }

    /**
     * deleteStudentByEmail: removes the record with this email, or fails with
     * not-found and removes nothing.
     */
    method DeleteStudentByEmail(email: string) returns (r: Result<()>)
      requires studentRepository.Valid()
      modifies studentRepository
      ensures studentRepository.Valid() && studentRepository.nextId == old(studentRepository.nextId)
      ensures match FindEmailFrom(old(studentRepository.docs), email, 0)
        case None =>
          && r == Failure(StudentNotFound(NotFoundMessage(email)))
          && studentRepository.docs == old(studentRepository.docs)
        case Some(i) =>
          && r == Success(())
          && studentRepository.docs == RemoveAt(old(studentRepository.docs), i)
      ensures EmailsUnique(old(studentRepository.docs)) ==>
        && EmailsUnique(studentRepository.docs)
        && email !in Emails(studentRepository.docs)
    {
      ghost var docs := studentRepository.docs;
      var found := studentRepository.FindStudentByEmail(email);
      match found {
        case None =>
          r := Failure(StudentNotFound(NotFoundMessage(email)));
        case Some(student) =>
          ghost var i := FindEmailFrom(docs, email, 0).value;
          RemoveByIdAt(docs, i);
          RemoveAtKeepsUnique(docs, i);
          studentRepository.Delete(student);
          r := Success(());
      }
    }

    /**
     * updateStudentSpecializationByEmail: the record with this email gets the
     * new specialization and is saved back under its own id; every other
     * field and every other record stays as it was.
     */
    method UpdateStudentSpecializationByEmail(email: string, newSpecialization: Specialization)
      returns (r: Result<Student>)
      requires studentRepository.Valid()
      modifies studentRepository
      ensures studentRepository.Valid() && studentRepository.nextId == old(studentRepository.nextId)
      ensures match FindEmailFrom(old(studentRepository.docs), email, 0)
        case None =>
          && r == Failure(StudentNotFound(NotFoundMessage(email)))
          && studentRepository.docs == old(studentRepository.docs)
        case Some(i) =>
          && r == Success(old(studentRepository.docs)[i].(specialization := Some(newSpecialization)))
          && studentRepository.docs == old(studentRepository.docs)[i := r.value]
      ensures EmailsUnique(old(studentRepository.docs)) ==> EmailsUnique(studentRepository.docs)
    {
      ghost var docs := studentRepository.docs;
      var found := studentRepository.FindStudentByEmail(email);
      match found {
        case None =>
          r := Failure(StudentNotFound(NotFoundMessage(email)));
        case Some(student) =>
          ghost var i := FindEmailFrom(docs, email, 0).value;
          var updated := student.(specialization := Some(newSpecialization));
          assert docs[i] in docs;
          UpsertExisting(docs, i, updated);
          if EmailsUnique(docs) {
            UpsertKeepsEmailsUnique(docs, updated);
          }
          var saved := studentRepository.Save(updated);
          r := Success(saved);
      }
    }

    /**
     * createStudent: refuses an email that is already stored and writes
     * nothing; otherwise saves the candidate as it is, so that a candidate
     * without an id is added under a fresh one and a candidate that carries
     * the id of a stored record replaces that record.
     */
    method CreateStudent(student: Student) returns (r: Result<Student>)
      requires studentRepository.Valid()
      modifies studentRepository
      ensures studentRepository.Valid()
      ensures student.email in Emails(old(studentRepository.docs)) ==>
        && r == Failure(EmailAlreadyInUse(student.email + " is already in use"))
        && studentRepository.docs == old(studentRepository.docs)
        && studentRepository.nextId == old(studentRepository.nextId)
      ensures student.email !in Emails(old(studentRepository.docs)) ==>
        && r.Success?
        && r.value == (if student.id.Some? then student else student.(id := Some(old(studentRepository.nextId))))
        && studentRepository.docs == Upsert(old(studentRepository.docs), r.value)
        && LookupEmail(studentRepository.docs, student.email) == Some(r.value)
      ensures student.id.None? && r.Success? ==> studentRepository.docs == old(studentRepository.docs) + [r.value]
      ensures EmailsUnique(old(studentRepository.docs)) ==> EmailsUnique(studentRepository.docs)
    {
      ghost var docs := studentRepository.docs;
      var found := studentRepository.FindStudentByEmail(student.email);
      if found.Some? {
        r := Failure(EmailAlreadyInUse(InUseMessage(student.email)));
        return;
      }
      ghost var saving := if student.id.Some? then student else student.(id := Some(studentRepository.nextId));
      assert forall k :: 0 <= k < |docs| ==> docs[k].email != saving.email by {
        forall k | 0 <= k < |docs| ensures docs[k].email != saving.email {
          assert docs[k] in docs;
        }
      }
      if EmailsUnique(docs) {
        UpsertKeepsEmailsUnique(docs, saving);
      }
      var saved := studentRepository.Save(student);
      LookupAfterSave(docs, saved);
      r := Success(saved);
    }
  }
}
