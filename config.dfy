/**
 * StudentConfig's command-line runner: at startup it builds one sample
 * student and saves it unless a record with its email is already stored.
 * The duplicate case raises IllegalStateException, which the runner itself
 * catches and logs, so startup never fails on it.
 */
module StudentConfig {
  import opened Wrappers
  import opened Constraints
  import opened AddressModel
  import opened StudentModel
  import opened StudentStore

  /** The sample record, built with the six-argument constructor at time `now`. */
  function SeedStudent(now: Time): (s: Student)
    ensures s.id == None && s.created == now
    ensures s.firstName == "maria" && s.lastName == "abu sammour" && s.email == "maria@gmail.com"
    ensures s.gender == Some(FEMALE) && s.specialization == Some(CSE)
    ensures s.address == Some(Address("palestine", "hebron", "12345"))
  {
    var address := Address("palestine", "hebron", "12345");
    NewStudent("maria", "abu sammour", "maria@gmail.com", Some(FEMALE), Some(address), Some(CSE), now)
  }

  /** The sample record meets Student's constraints, and its address meets Address's. */
  lemma SeedIsValid(now: Time)
    ensures ValidStudent(SeedStudent(now))
    ensures SeedStudent(now).address.Some? && ValidAddress(SeedStudent(now).address.value)
  {
    var s := SeedStudent(now);
    ValidStudentIff(s);
    ValidAddressIff(s.address.value);
    MatchesPostCodeCorrect("12345");
    assert s.firstName[0] == 'm' && s.lastName[0] == 'a' && s.email[0] == 'm';
    assert s.address.value.country[0] == 'p' && s.address.value.city[0] == 'h';
  }

  /**
   * One run of the runner. `caught` is the message of the exception it
   * catches and logs, or None when it saved the sample record.
   */
  method CommandLineRunner(studentRepository: StudentRepository, now: Time) returns (caught: Option<string>)
    requires studentRepository.Valid()
    modifies studentRepository
    ensures studentRepository.Valid()
    ensures caught.Some? <==> "maria@gmail.com" in Emails(old(studentRepository.docs))
    ensures caught.Some? ==>
      && caught.value == "This Email Already Used"
      && studentRepository.docs == old(studentRepository.docs)
      && studentRepository.nextId == old(studentRepository.nextId)
    ensures caught.None? ==>
      studentRepository.docs == old(studentRepository.docs) + [SeedStudent(now).(id := Some(old(studentRepository.nextId)))]
    ensures EmailsUnique(old(studentRepository.docs)) ==> EmailsUnique(studentRepository.docs)
    ensures "maria@gmail.com" in Emails(studentRepository.docs)
  {
    var student := SeedStudent(now);
    ghost var docs := studentRepository.docs;
    var existing := studentRepository.FindStudentByEmail(student.email);
    if existing.Some? {
      caught := Some("This Email Already Used");
    } else {
      ghost var saving := student.(id := Some(studentRepository.nextId));
      assert forall k :: 0 <= k < |docs| ==> docs[k].email != saving.email by {
        forall k | 0 <= k < |docs| ensures docs[k].email != saving.email {
          assert docs[k] in docs;
        }
      }
      if EmailsUnique(docs) {
        UpsertKeepsEmailsUnique(docs, saving);
      }
      var saved := studentRepository.Save(student);
      LookupAfterSave(docs, saved);
      caught := None;
    }
  }
}
