/**
 * The Student document: its fields, the six-argument constructor and the
 * constraints its annotations declare. Gender and Specialization are
 * enumerations whose source files are not part of this model; they carry
 * the members the program names.
 */
module StudentModel {
  import opened Wrappers
  import opened Constraints
  import opened AddressModel

  datatype Gender = MALE | FEMALE

  datatype Specialization = CSE | EEE

  /** The store-assigned identifier (a Mongo ObjectId, abstracted to a number). */
  type Id = nat

  /** LocalDateTime, abstracted to a point on a line. */
  type Time = int

  /**
   * A student record. The reference-typed fields that the class may leave
   * null (gender, address, specialization, and the id before the first save)
   * are options.
   */
  datatype Student = Student(
    id: Option<Id>,
    firstName: string,
    lastName: string,
    email: string,
    gender: Option<Gender>,
    address: Option<Address>,
    specialization: Option<Specialization>,
    created: Time)

  /**
   * The six-argument constructor, called at time `now`: it stores each
   * argument in the field of the same name, leaves the id unassigned and
   * stamps the creation time.
   */
  function NewStudent(firstName: string, lastName: string, email: string, gender: Option<Gender>,
                      address: Option<Address>, specialization: Option<Specialization>, now: Time): (s: Student)
    ensures s.id == None && s.created == now
    ensures s.firstName == firstName && s.lastName == lastName && s.email == email
    ensures s.gender == gender && s.address == address && s.specialization == specialization
  {
    Student(None, firstName, lastName, email, gender, address, specialization, now)
  }

  /**
   * The constraints the annotations on Student's fields declare. The address
   * field carries @NotNull but not @Valid, so the Address constraints are not
   * part of a Student's validation.
   */
  predicate ValidStudent(s: Student) {
    && NotBlank(s.firstName) && SizeBetween(s.firstName, 2, 50)
    && NotBlank(s.lastName) && SizeBetween(s.lastName, 2, 50)
    && NotBlank(s.email)
    && s.gender.Some?
    && s.address.Some?
    && s.specialization.Some?
  }

  /** What a valid student is, field by field. */
  lemma {:induction false} ValidStudentIff(s: Student)
    ensures ValidStudent(s) <==>
      && 2 <= |s.firstName| <= 50 && HasVisibleChar(s.firstName)
      && 2 <= |s.lastName| <= 50 && HasVisibleChar(s.lastName)
      && HasVisibleChar(s.email)
      && s.gender != None && s.address != None && s.specialization != None
  {
    NotBlankIff(s.firstName);
    NotBlankIff(s.lastName);
    NotBlankIff(s.email);
  }
}
