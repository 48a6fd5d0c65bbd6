/** The non-interactive core of the student login in student_menu.py: the
    student-id generator `_generate_student_id` ("S001", "S002", ...) and the
    lookup-or-register step of `_get_or_create_student`, which finds a
    student by e-mail address ignoring case and otherwise registers a new
    one under a generated id. The prompts become parameters: the e-mail and
    name the user would type.
 */
module StudentLogin {
  import opened Wrappers
  import opened Text
  import opened Seqs
  import opened SequenceIds
  import opened Ledger

  function StudentIds(students: seq<Student>): (ids: seq<string>)
    ensures |ids| == |students| && forall i :: 0 <= i < |students| ==> ids[i] == students[i].studentId
  {
    seq(|students|, i requires 0 <= i < |students| => students[i].studentId)
  }

  /** `_generate_student_id`: the transaction-id scheme with prefix 'S'. */
  function GenerateStudentId(m: Manager): (id: string)
    ensures IsSeqId('S', id) && |id| >= 4
    ensures |id| == 4 || id[1] != '0'
    ensures MaxSeqNum('S', StudentIds(m.students)).None? ==> SeqNum('S', id) == 1
    ensures MaxSeqNum('S', StudentIds(m.students)).Some? ==>
      SeqNum('S', id) == MaxSeqNum('S', StudentIds(m.students)).value + 1
    ensures forall i :: 0 <= i < |m.students| && IsSeqId('S', m.students[i].studentId) ==>
      SeqNum('S', m.students[i].studentId) < SeqNum('S', id)
    ensures !HasStudent(m, id)
  {
    var ids := StudentIds(m.students);
    var id := NextId('S', ids);
    assert forall i :: 0 <= i < |m.students| ==> ids[i] == m.students[i].studentId;
    id
  }

  /** With no student id of the form "S" + digits, the first id is "S001". */
  lemma FirstStudentId(m: Manager)
    requires forall i :: 0 <= i < |m.students| ==> !IsSeqId('S', m.students[i].studentId)
    ensures GenerateStudentId(m) == "S001"
  {
    FirstId('S', StudentIds(m.students));
  }

  /** The existing-student loop: the first student whose stored e-mail,
      lower-cased, equals the (already normalised) input. */
  function FindStudentByEmail(m: Manager, email: string): (r: Option<nat>)
    ensures r.None? <==> forall j :: 0 <= j < |m.students| ==> Lower(m.students[j].email) != email
    ensures r.Some? ==> r.value < |m.students| && Lower(m.students[r.value].email) == email
    ensures r.Some? ==> forall j :: 0 <= j < r.value ==> Lower(m.students[j].email) != email
  {
    FirstIndex(m.students, (s: Student) => Lower(s.email) == email)
  }

  /** `_get_or_create_student` after its prompts: the typed e-mail is
      stripped and lower-cased; an empty one cancels; a known address logs
      in as its student; otherwise an empty name cancels and a non-empty one
      registers a new student through `add_student`. Returns the new state
      and the student id, None when the login is cancelled or fails. */
  function GetOrCreateStudent(m: Manager, emailInput: string, nameInput: string): (out: (Manager, Option<string>))
    ensures AllSpace(emailInput) ==> out == (m, None)
    ensures !AllSpace(emailInput) && FindStudentByEmail(m, Lower(Trim(emailInput))).Some? ==>
      out == (m, Some(m.students[FindStudentByEmail(m, Lower(Trim(emailInput))).value].studentId))
    ensures !AllSpace(emailInput) && FindStudentByEmail(m, Lower(Trim(emailInput))).None? && AllSpace(nameInput) ==>
      out == (m, None)
    ensures !AllSpace(emailInput) && FindStudentByEmail(m, Lower(Trim(emailInput))).None? && !AllSpace(nameInput) ==>
      out.1 == Some(GenerateStudentId(m))
      && AddStudent(m, GenerateStudentId(m), nameInput, Lower(Trim(emailInput))) == Ok(out.0)
  {
    var email := Lower(Trim(emailInput));
    if email == [] then (m, None)
    else
      match FindStudentByEmail(m, email)
      case Some(i) => (m, Some(m.students[i].studentId))
      case None =>
        NormalisedEmail(emailInput);
        Register(m, nameInput, email)
  }

  /** The registration branch of `_get_or_create_student`, for a normalised
      address nobody has: an empty name cancels; otherwise the student is
      added under a generated id, and an `add_student` failure would cancel
      too. */
  function Register(m: Manager, nameInput: string, email: string): (out: (Manager, Option<string>))
    requires email != [] && Trimmed(email)
    ensures AllSpace(nameInput) ==> out == (m, None)
    ensures !AllSpace(nameInput) ==>
      out.1 == Some(GenerateStudentId(m)) && AddStudent(m, GenerateStudentId(m), nameInput, email) == Ok(out.0)
  {
    var name := Trim(nameInput);
    if name == [] then (m, None)
    else
      var id := GenerateStudentId(m);
      RegistrationAccepted(m, id, nameInput, email);
      match AddStudent(m, id, name, email)
      case Ok(m') => (m', Some(id))
      case Fail(_) => (m, None)
  }

  /** A generated id, a non-empty name and a non-empty normalised address
      always pass `add_student`: the error branch of the registration is
      never taken. */
  lemma RegistrationAccepted(m: Manager, id: string, nameInput: string, email: string)
    requires id == GenerateStudentId(m)
    requires !AllSpace(nameInput) && email != [] && Trimmed(email)
    ensures AddStudent(m, id, Trim(nameInput), email).Ok?
    ensures AddStudent(m, id, Trim(nameInput), email) == AddStudent(m, id, nameInput, email)
    ensures AddStudent(m, id, nameInput, email).value.students
         == m.students + [Student(id, Trim(nameInput), email)]
  {
    SeqIdTrimmed('S', id);
  }

  /** Lower-casing a stripped address keeps it stripped, and a non-empty
      input stays non-empty. */
  lemma NormalisedEmail(emailInput: string)
    requires !AllSpace(emailInput)
    ensures Lower(Trim(emailInput)) != [] && Trimmed(Lower(Trim(emailInput)))
  {
    LowerKeepsTrimmed(Trim(emailInput));
  }

  /** Registering a new student appends exactly that student, under the
      generated id, with the stripped name and the normalised address. */
  lemma RegistrationAppends(m: Manager, emailInput: string, nameInput: string)
    requires !AllSpace(emailInput) && !AllSpace(nameInput)
    requires FindStudentByEmail(m, Lower(Trim(emailInput))).None?
    ensures var (m', id) := GetOrCreateStudent(m, emailInput, nameInput);
      && id == Some(GenerateStudentId(m))
      && m'.students == m.students + [Student(GenerateStudentId(m), Trim(nameInput), Lower(Trim(emailInput)))]
      && m'.resources == m.resources && m'.transactions == m.transactions
  {
    NormalisedEmail(emailInput);
    RegistrationAccepted(m, GenerateStudentId(m), nameInput, Lower(Trim(emailInput)));
  }

  /** Logging in again with the same address (in any case, with any
      padding) after registering finds the student just created, whatever
      name is typed. */
  lemma LoginAfterRegistration(m: Manager, emailInput: string, nameInput: string, again: string, anyName: string)
    requires !AllSpace(emailInput) && !AllSpace(nameInput)
    requires FindStudentByEmail(m, Lower(Trim(emailInput))).None?
    requires Lower(Trim(again)) == Lower(Trim(emailInput))
    ensures var (m', id) := GetOrCreateStudent(m, emailInput, nameInput);
      GetOrCreateStudent(m', again, anyName) == (m', id)
  {
    var email := Lower(Trim(emailInput));
    RegistrationAppends(m, emailInput, nameInput);
    var (m', id) := GetOrCreateStudent(m, emailInput, nameInput);
    LowerIdempotent(Trim(emailInput));
    FoundAfterAppend(m, Student(GenerateStudentId(m), Trim(nameInput), email), email, m');
    assert !AllSpace(again);
  }

  /** A student appended with an address nobody else has is the one the
      lookup finds. */
  lemma FoundAfterAppend(m: Manager, s: Student, email: string, m': Manager)
    requires FindStudentByEmail(m, email).None? && Lower(s.email) == email
    requires m'.students == m.students + [s]
    ensures FindStudentByEmail(m', email) == Some(|m.students|)
  {
    assert m'.students[|m.students|] == s;
    assert forall j :: 0 <= j < |m.students| ==> m'.students[j] == m.students[j];
  }
}
