# Student registration: a verified model of the student directory

This project models the core of a Spring Boot student-registration service.
Students are stored in a MongoDB collection and looked up by email.
The model covers four parts of the program:

- the `Student` document and its embedded `Address`, with the constraints their Bean Validation annotations declare;
- the repository, as an in-memory store with `findAll`, `findStudentByEmail`, `save` (an upsert keyed by id that assigns a fresh id) and `delete` (by id);
- `StudentServiceImpl`, the single write path. It lists, looks up, deletes, re-specialises and creates students, and it keeps the one invariant of the domain: no two stored students share an email;
- `StudentConfig`'s startup runner, which seeds one sample student unless its email is already stored.

Modules follow the program's packages:

- `Constraints` (constraints.dfy) models `@NotBlank`, using `String.trim`, and `@Size`.
- `AddressModel` (address.dfy) holds `Address` and a matcher for the postcode pattern `\d{5}(-\d{4})?`.
- `StudentModel` (student.dfy) holds `Student`, its constructor and its constraints.
- `StudentStore` (store.dfy) holds the repository, as pure functions on the sequence of stored documents plus the `StudentRepository` class that holds that sequence.
- `StudentService` (service.dfy) holds `StudentServiceImpl`.
- `StudentConfig` (config.dfy) holds the runner.
- `Wrappers` holds `Option`.

The two exceptions become the failure values `StudentNotFound(message)` and `EmailAlreadyInUse(message)`. Each carries the exception's message text.

The program's behaviour as modelled:

- `save` of a record without an id appends it under a fresh id. The store keeps a counter above every stored id for this.
- `save` of a record with an id replaces the stored record with that id, or appends it when there is none.
- `createStudent` saves the candidate as it arrives. A candidate that already carries the id of a stored student therefore replaces that student. The model proves that email uniqueness survives this, and it does not require the id to be empty.
- `delete(entity)` removes by id.
- `findStudentByEmail` returns the first match in store order. With unique emails, that is the only match (`LookupUnique`).
- `Student.address` carries `@NotNull` but not `@Valid`. Validating a `Student` therefore does not validate its address, and the two predicates are kept apart.
- The all-args constructor of `Address` is the datatype constructor `Address(country, city, postCode)`. Its fields come back in declaration order by construction.

Where the code and the design description differ, the model follows the code:

- `createStudent` neither clears the id nor sets `created`. The creation time comes from the `Student` constructor or field initialiser.
- The seed record is `("maria", "abu sammour", "maria@gmail.com", FEMALE, ("palestine", "hebron", "12345"), CSE)`.
- The runner writes through the repository directly, not through `createStudent`. Its duplicate case is an `IllegalStateException("This Email Already Used")` that it catches itself.

## Model

| member | source | states |
|---|---|---|
| Constraints.TrimStart | src/main/java/com/exalt/training/StudentRegistration/model/Student.java:24 | leading trim: the result is a suffix of the input, starts with a character above ' ', and everything dropped is at most ' ' |
| Constraints.TrimEnd | src/main/java/com/exalt/training/StudentRegistration/model/Student.java:24 | trailing trim: the result is a prefix of the input, ends with a character above ' ', and everything dropped is at most ' ' |
| Constraints.NotBlankIff | src/main/java/com/exalt/training/StudentRegistration/model/Student.java:24 | @NotBlank (trim, then non-empty) holds exactly when some character is above ' ' |
| AddressModel.RunFollowsPattern | src/main/java/com/exalt/training/StudentRegistration/model/Address.java:22 | from any state the matcher consumes the pattern five digits, '-', four digits symbol by symbol, and gets stuck on the first misfit or past the end |
| AddressModel.MatchesPostCodeCorrect | src/main/java/com/exalt/training/StudentRegistration/model/Address.java:22 | the postcode matcher accepts exactly five digits, or five digits, '-' and four digits; every accepted code has length 5 or 10 |
| AddressModel.PostCodeExamples | src/main/java/com/exalt/training/StudentRegistration/model/Address.java:22 | "12345" and "12345-6789" are accepted; 4 or 6 digits, a trailing '-', a non-digit, a 3- or 5-digit extension and a wrong separator are rejected |
| AddressModel.PostCodeNotBlank | src/main/java/com/exalt/training/StudentRegistration/model/Address.java:21-22 | a code that matches the pattern also satisfies @NotBlank |
| AddressModel.ValidAddressIff | src/main/java/com/exalt/training/StudentRegistration/model/Address.java:15-22 | an address is valid iff country and city have 2 to 100 characters with one above ' ', and the postcode has the pattern's shape |
| StudentModel.NewStudent | src/main/java/com/exalt/training/StudentRegistration/model/Student.java:52-59 | the six-argument constructor stores each argument in its same-named field, leaves the id unassigned and sets created to the construction time |
| StudentModel.ValidStudentIff | src/main/java/com/exalt/training/StudentRegistration/model/Student.java:24-38 | a student is valid iff both names have 2 to 50 characters with one above ' ', the email has a character above ' ', and gender, address and specialization are present |
| StudentStore.FindEmailFrom | src/main/java/com/exalt/training/StudentRegistration/repository/StudentRepository.java:21 | the result is the first position from the start point whose email matches; None means no record from there on has the email |
| StudentStore.FindIdFrom | src/main/java/com/exalt/training/StudentRegistration/repository/StudentRepository.java:13 | the result is a position whose record has the id; None means no record from there on has it |
| StudentStore.LookupEmail | src/main/java/com/exalt/training/StudentRegistration/repository/StudentRepository.java:21 | findStudentByEmail returns a stored record with that email, and returns empty exactly when no stored record has it |
| StudentStore.Upsert | src/main/java/com/exalt/training/StudentRegistration/repository/StudentRepository.java:13 | after save the record is stored, every stored record is the saved one or an old one, and every old record with another id is kept |
| StudentStore.RemoveById | src/main/java/com/exalt/training/StudentRegistration/repository/StudentRepository.java:13 | after delete the stored records are exactly the old ones whose id differs from the entity's |
| StudentStore.LookupUnique | src/main/java/com/exalt/training/StudentRegistration/service/impl/StudentServiceImpl.java:49 | with unique emails, looking up a stored record's email yields that very record |
| StudentStore.RemoveAbsentId | src/main/java/com/exalt/training/StudentRegistration/service/impl/StudentServiceImpl.java:71 | deleting an id that no record carries changes nothing |
| StudentStore.RemoveByIdAt | src/main/java/com/exalt/training/StudentRegistration/service/impl/StudentServiceImpl.java:71 | with unique ids, deleting a stored record removes exactly that record and keeps the others in order |
| StudentStore.RemoveAtKeepsUnique | src/main/java/com/exalt/training/StudentRegistration/service/impl/StudentServiceImpl.java:66-71 | removing a record keeps ids and emails unique, and its email is no longer stored |
| StudentStore.UpsertKeepsIdsUnique | src/main/java/com/exalt/training/StudentRegistration/repository/StudentRepository.java:13 | save keeps the ids unique |
| StudentStore.UpsertKeepsEmailsUnique | src/main/java/com/exalt/training/StudentRegistration/service/impl/StudentServiceImpl.java:106-114 | save keeps emails unique when any record sharing the new email is the one replaced, and the saved record is then what a lookup of its email finds |
| StudentStore.LookupAfterSave | src/main/java/com/exalt/training/StudentRegistration/service/impl/StudentServiceImpl.java:112 | after saving a record whose email was not stored, looking that email up finds the saved record |
| StudentStore.UpsertExisting | src/main/java/com/exalt/training/StudentRegistration/service/impl/StudentServiceImpl.java:92-93 | saving a record under the id stored at position i replaces that record in place |
| StudentStore.UpsertFresh | src/main/java/com/exalt/training/StudentRegistration/repository/StudentRepository.java:13 | saving a record whose id is not stored appends it |
| StudentStore.StudentRepository.FindAll | src/main/java/com/exalt/training/StudentRegistration/repository/StudentRepository.java:13 | findAll returns exactly the stored records, in store order |
| StudentStore.StudentRepository.FindStudentByEmail | src/main/java/com/exalt/training/StudentRegistration/repository/StudentRepository.java:21 | findStudentByEmail returns what LookupEmail specifies and changes nothing |
| StudentStore.StudentRepository.Save | src/main/java/com/exalt/training/StudentRegistration/repository/StudentRepository.java:13 | save assigns the fresh id when the record has none, upserts by id, keeps the store invariant and appends an id-less record |
| StudentStore.StudentRepository.Delete | src/main/java/com/exalt/training/StudentRegistration/repository/StudentRepository.java:13 | delete removes the records with the entity's id and keeps the store invariant |
| StudentService.StudentServiceImpl.constructor | src/main/java/com/exalt/training/StudentRegistration/service/impl/StudentServiceImpl.java:21-24 | the service holds the repository it is given |
| StudentService.StudentServiceImpl.GetAllStudents | src/main/java/com/exalt/training/StudentRegistration/service/impl/StudentServiceImpl.java:33-35 | returns exactly the stored records and changes nothing |
| StudentService.StudentServiceImpl.GetStudentByEmail | src/main/java/com/exalt/training/StudentRegistration/service/impl/StudentServiceImpl.java:47-53 | succeeds iff the email is stored, with a stored record of that email; otherwise fails with not-found "Student with email <email> not found"; changes nothing |
| StudentService.StudentServiceImpl.DeleteStudentByEmail | src/main/java/com/exalt/training/StudentRegistration/service/impl/StudentServiceImpl.java:64-73 | an absent email fails with not-found and removes nothing; a present one removes exactly its record and keeps the rest in order; uniqueness is kept and the email is then absent |
| StudentService.StudentServiceImpl.UpdateStudentSpecializationByEmail | src/main/java/com/exalt/training/StudentRegistration/service/impl/StudentServiceImpl.java:85-96 | an absent email fails with not-found and changes nothing; a present one returns the stored record with only specialization replaced, stored in place of the old one; uniqueness is kept |
| StudentService.StudentServiceImpl.CreateStudent | src/main/java/com/exalt/training/StudentRegistration/service/impl/StudentServiceImpl.java:106-115 | a stored email fails with "<email> is already in use" and writes nothing; a fresh email is saved (fresh id if it had none, upsert by id otherwise) and a later lookup finds it; uniqueness is kept |
| StudentConfig.SeedStudent | src/main/java/com/exalt/training/StudentRegistration/Config/StudentConfig.java:34-35 | the sample record has email "maria@gmail.com", FEMALE, CSE, address ("palestine", "hebron", "12345"), no id and the construction time |
| StudentConfig.SeedIsValid | src/main/java/com/exalt/training/StudentRegistration/Config/StudentConfig.java:34-35 | the sample record satisfies Student's constraints and its address satisfies Address's, postcode pattern included |
| StudentConfig.CommandLineRunner | src/main/java/com/exalt/training/StudentRegistration/Config/StudentConfig.java:31-46 | with the sample email stored it catches "This Email Already Used" and changes nothing; otherwise it appends exactly the sample record under a fresh id; it never fails, the email is stored afterwards and uniqueness is kept |

## Left out

- `@Email` syntax validation is left out. Its regular expression belongs to the validation library, and the model only requires the email to be non-blank.
- `@Size` is modelled as a count of Dafny characters, i.e. Unicode scalar values. Java's `String.length` counts UTF-16 code units, so the two differ on characters outside the Basic Multilingual Plane.
- String fields are never null in the model. `@NotBlank` rejects null exactly as it rejects the empty string, so validity is unaffected.
- The validation messages are not modelled. They are texts for the transport layer, including the city's size message, which reads "Country name must be between 2 and 100 characters".
- The ids are modelled as natural numbers. MongoDB's ObjectId generator becomes a counter kept above every stored id.
- `StudentModel.NewStudent` takes the result of `LocalDateTime.now()` as a parameter, because the clock is outside the model. `StudentConfig.CommandLineRunner` does the same.
- `findStudentByEmail` over a store that already holds duplicate emails returns the first one in the model. Spring Data raises an error in that case. The service never creates duplicates, so this only arises if uniqueness was already broken.
- `Student` is modelled as a value, and the Lombok setter used by the update is a record update. Each lookup materialises a fresh object from the store, so mutating it in place aliases no stored state.
- Logging, `@Transactional`, and the concurrent check-then-act race in `createStudent` are left out. All properties are for sequential calls.
- `StudentController`, `GlobalExceptionHandler` and the `StudentService` interface are not part of this model. They are HTTP routing, status-code mapping and an interface declaration.
- The `Gender` and `Specialization` enumeration files are not part of this model. Their members here are those the program and its description name: MALE, FEMALE, CSE and EEE.
