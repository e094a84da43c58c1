/**
 * The student register: the list of records the page keeps in memory, the
 * sort direction remembered for each column and the index of the record
 * whose deletion awaits confirmation, with the handlers that change them.
 */
module Register {
  import opened Wrappers
  import opened Records
  import opened Validator
  import opened Sorting

  /**
   * A record passes every field rule when its id, name and phone are well
   * formed, its course is set, its semester and GPA are in range and its
   * email is put together as `local@host.tld` from well-formed parts.
   */
  lemma ValidFromParts(s: Student, local: string, host: string, tld: string)
    requires IsStudentId(s.id) && IsName(s.name) && IsPhone(s.phone) && s.course != []
    requires s.semester.Some? && 1 <= s.semester.value <= 8
    requires s.gpa.Some? && 0 <= s.gpa.value <= 400
    requires IsEmailPart(local) && IsEmailPart(host) && IsEmailPart(tld)
    requires s.email == local + "@" + host + "." + tld
    ensures IsValid(s)
  {
    EmailFromParts(local, host, tld);
    AllRules(s);
  }

  /** The first seed record passes every field rule. */
  lemma FirstSampleValid()
    ensures IsValid(SampleData()[0])
  {
    ValidFromParts(SampleData()[0], "rahul.kumar", "email", "com");
  }

  /** The second seed record passes every field rule. */
  lemma SecondSampleValid()
    ensures IsValid(SampleData()[1])
  {
    ValidFromParts(SampleData()[1], "priya.singh", "email", "com");
  }

  /** The third seed record passes every field rule. */
  lemma ThirdSampleValid()
    ensures IsValid(SampleData()[2])
  {
    ValidFromParts(SampleData()[2], "amit.patel", "email", "com");
  }

  /** Every seed record passes every field rule. */
  lemma SampleDataValid()
    ensures forall s | s in SampleData() :: IsValid(s)
  {
    FirstSampleValid();
    SecondSampleValid();
    ThirdSampleValid();
  }

  /**
   * The position of the first record holding `id`, passing over position
   * `skip` when there is one; `None` when there is no such record.
   */
  method FindIndex(ss: seq<Student>, id: string, skip: Option<nat>) returns (r: Option<nat>)
    ensures r.Some? ==> r.value < |ss| && ss[r.value].id == id && skip != Some(r.value)
    ensures r.Some? ==> forall j | 0 <= j < r.value && skip != Some(j) :: ss[j].id != id
    ensures r.None? <==> forall j | 0 <= j < |ss| && skip != Some(j) :: ss[j].id != id
  {
    var i := 0;
    while i < |ss|
      invariant 0 <= i <= |ss|
      invariant forall j | 0 <= j < i && skip != Some(j) :: ss[j].id != id
    {
      if ss[i].id == id && skip != Some(i) {
        return Some(i);
      }
      i := i + 1;
    }
    return None;
  }

  /** What submitting the add form leads to. */
  datatype AddOutcome =
    | Added
    | Invalid(errors: map<Field, Reason>)
    | DuplicateId

  /** What submitting the edit form leads to. */
  datatype EditOutcome =
    | Updated
    | InvalidField(field: Field)
    | IdTaken

  /** The message shown beside each field after the add form is submitted. */
  function AddFormErrors(outcome: AddOutcome): map<Field, string> {
    match outcome
    case Added => map[]
    case Invalid(errors) => map f | f in errors :: Message(f, errors[f])
    case DuplicateId => map[Id := DuplicateIdMessage]
  }

  /** The alert the edit form shows after it is submitted. */
  function EditFormAlert(outcome: EditOutcome): string {
    match outcome
    case Updated => UpdatedMessage
    case InvalidField(f) => EditAlert(f)
    case IdTaken => DuplicateIdMessage
  }

  /**
   * A taken id is reported by both forms with the same text, beside the id
   * field only on the add form, and that text differs from every other
   * message either form can show about the id.
   */
  lemma DuplicateIdReported()
    ensures AddFormErrors(DuplicateId) == map[Id := DuplicateIdMessage]
    ensures EditFormAlert(IdTaken) == DuplicateIdMessage
    ensures forall r :: DuplicateIdMessage != Message(Id, r)
    ensures forall f :: DuplicateIdMessage != EditAlert(f) && DuplicateIdMessage != UpdatedMessage
  {
  }

  class StudentRegister {
    var students: seq<Student>
    var sortDirection: map<Field, Dir>
    var indexToDelete: Option<nat>

    /**
     * Ids are unique, every record passed validation, and a pending
     * deletion names a record of the register.
     */
    ghost predicate Valid()
      reads this
    {
      && UniqueIds(students)
      && (forall i | 0 <= i < |students| :: IsValid(students[i]))
      && (indexToDelete.Some? ==> indexToDelete.value < |students|)
    }

    /** The page before it is loaded: no records, no sort, nothing pending. */
    constructor()
      ensures Valid()
      ensures students == [] && sortDirection == map[] && indexToDelete == None
    {
      students := [];
      sortDirection := map[];
      indexToDelete := None;
    }

    /** Seeds the register with the sample records when it is empty. */
    method LoadSampleData()
      requires Valid()
      modifies this
      ensures Valid()
      ensures students == if old(students) == [] then SampleData() else old(students)
      ensures sortDirection == old(sortDirection) && indexToDelete == old(indexToDelete)
    {
      if |students| == 0 {
        SampleDataUnique();
        SampleDataValid();
        students := SampleData();
      }
    }

    /**
     * The add form's submit handler: the record built from the form is
     * validated field by field; if it passes and its id is new it is
     * appended, otherwise the register is left as it was.
     */
    method SubmitAdd(form: Form) returns (outcome: AddOutcome)
      requires Valid()
      modifies this
      ensures Valid()
      ensures var data := FromForm(form);
        && (outcome.Invalid? <==> !IsValid(data))
        && (outcome.Invalid? ==> forall f :: ErrorOf(outcome.errors, f) == Check(data, f))
        && (outcome.DuplicateId? <==> IsValid(data) && HasId(old(students), data.id))
        && (outcome.Added? ==> students == old(students) + [data])
      ensures !outcome.Added? ==> students == old(students)
      ensures sortDirection == old(sortDirection) && indexToDelete == old(indexToDelete)
    {
      var data := FromForm(form);
      var isValid, errors := ValidateForm(data);
      if !isValid {
        return Invalid(errors);
      }
      var existing := FindIndex(students, data.id, None);
      if existing.Some? {
        return DuplicateId;
      }
      AppendUnique(students, data);
      students := students + [data];
      return Added;
    }

    /**
     * The edit form's submit handler for the record at `index`: the record
     * built from the form is validated up to its first failing field; if it
     * passes and no other record holds its id, it replaces the record at
     * `index`.
     */
    method SubmitEdit(index: nat, form: Form) returns (outcome: EditOutcome)
      requires Valid() && index < |students|
      modifies this
      ensures Valid()
      ensures var data := FromForm(form);
        && (outcome.InvalidField? <==> !IsValid(data))
        && (outcome.InvalidField? ==> ValidateEditForm(data) == Some(outcome.field))
        && (outcome.IdTaken? <==> IsValid(data) && IdHeldElsewhere(old(students), data.id, index))
        && (outcome.Updated? ==> students == old(students)[index := data])
      ensures !outcome.Updated? ==> students == old(students)
      ensures sortDirection == old(sortDirection) && indexToDelete == old(indexToDelete)
    {
      var data := FromForm(form);
      var failed := ValidateEditForm(data);
      if failed.Some? {
        return InvalidField(failed.value);
      }
      var existing := FindIndex(students, data.id, Some(index));
      if existing.Some? {
        return IdTaken;
      }
      ReplaceUnique(students, index, data);
      students := students[index := data];
      return Updated;
    }

    /** Opens the delete dialog for the record at `index` and returns the record it shows. */
    method DeleteStudent(index: nat) returns (shown: Student)
      requires Valid() && index < |students|
      modifies this
      ensures Valid()
      ensures students == old(students) && sortDirection == old(sortDirection)
      ensures shown == students[index]
      ensures indexToDelete == Some(index)
    {
      indexToDelete := Some(index);
      shown := students[index];
    }

    /** Closes the delete dialog; nothing is pending any more. */
    method CloseDeleteModal()
      requires Valid()
      modifies this
      ensures Valid()
      ensures indexToDelete == None
      ensures students == old(students) && sortDirection == old(sortDirection)
    {
      indexToDelete := None;
    }

    /**
     * Confirms the pending deletion: the record at the pending index is
     * removed and the dialog is closed; without a pending index nothing
     * happens.
     */
    method ConfirmDelete()
      requires Valid()
      modifies this
      ensures Valid()
      ensures old(indexToDelete).Some? ==> students == RemoveAt(old(students), old(indexToDelete).value)
      ensures old(indexToDelete).Some? ==> indexToDelete == None
      ensures old(indexToDelete).None? ==> students == old(students) && indexToDelete == None
      ensures sortDirection == old(sortDirection)
    {
      if indexToDelete.Some? {
        var i := indexToDelete.value;
        RemoveAtUnique(students, i);
        students := RemoveAt(students, i);
        indexToDelete := None;
      }
    }

    /**
     * A click on the header of column `col`: the column's direction is
     * toggled and the records are reordered by that column in the new
     * direction.
     */
    method SortTable(col: Field)
      requires Valid()
      modifies this
      ensures Valid()
      ensures sortDirection == old(sortDirection)[col := NextDir(old(sortDirection), col)]
      ensures multiset(students) == multiset(old(students))
      ensures Sorted(students, col, NextDir(old(sortDirection), col))
      ensures |students| == |old(students)|
      ensures indexToDelete == old(indexToDelete)
    {
      sortDirection := sortDirection[col := NextDir(sortDirection, col)];
      var sorted := SortBy(col, sortDirection[col], students);
      SortByKeepsRecords(col, sortDirection[col], students);
      UniqueIdsPermutation(students, sorted);
      forall i | 0 <= i < |sorted| ensures IsValid(sorted[i]) {
        assert sorted[i] in students;
      }
      students := sorted;
    }
  }

  /** Keeping a record's own id when editing it is never reported as taken. */
  lemma KeepOwnIdAllowed(ss: seq<Student>, index: nat, data: Student)
    requires UniqueIds(ss) && index < |ss| && data.id == ss[index].id
    ensures !IdHeldElsewhere(ss, data.id, index)
  {
  }
}
