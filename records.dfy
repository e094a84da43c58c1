/**
 * The student record, the seven form fields, the seed data and the
 * identity invariant of the register (no two records share an id).
 */
module Records {
  import opened Wrappers
  import opened Strings

  /** The seven form fields, which are also the seven sortable table columns. */
  datatype Field = Id | Name | Email | Phone | Course | Semester | Gpa

  /**
   * A student record as the forms hand it over. Semester and GPA are `None`
   * when their field is empty; otherwise semester is a whole number and the
   * GPA a number of hundredths ("3.5" is 350).
   */
  datatype Student = Student(
    id: string,
    name: string,
    email: string,
    phone: string,
    course: string,
    semester: Option<int>,
    gpa: Option<int>)

  /**
   * The seven inputs of the add or edit form as the user left them, before
   * the submit handler reads them (semester and GPA already as numbers).
   */
  datatype Form = Form(
    id: string,
    name: string,
    email: string,
    phone: string,
    course: string,
    semester: Option<int>,
    gpa: Option<int>)

  /**
   * The record a submit handler builds from the form: id, name, email and
   * phone are trimmed, course, semester and GPA are taken as they are.
   */
  function FromForm(f: Form): Student {
    Student(Trim(f.id), Trim(f.name), Trim(f.email), Trim(f.phone), f.course, f.semester, f.gpa)
  }

  /** The edit form filled in from a stored record, as opening the edit dialog does. */
  function ToForm(s: Student): Form {
    Form(s.id, s.name, s.email, s.phone, s.course, s.semester, s.gpa)
  }

  /**
   * Opening the edit dialog on a record a form built and submitting it
   * unchanged gives back the same record: nothing is trimmed twice.
   */
  lemma FormRoundTrip(f: Form)
    ensures FromForm(ToForm(FromForm(f))) == FromForm(f)
  {
    TrimIdempotent(f.id);
    TrimIdempotent(f.name);
    TrimIdempotent(f.email);
    TrimIdempotent(f.phone);
  }

  /** The three records the register starts with. */
  function SampleData(): seq<Student> {
    [ Student("1001", "Rahul Kumar", "rahul.kumar@email.com", "9876543210", "BCA", Some(4), Some(350)),
      Student("1002", "Priya Singh", "priya.singh@email.com", "8765432109", "BCA", Some(3), Some(380)),
      Student("1003", "Amit Patel", "amit.patel@email.com", "7654321098", "B.Tech", Some(5), Some(320)) ]
  }

  // ---------------------------------------------------------------------------
  // identity

  /** No two positions hold the same id. */
  predicate UniqueIds(ss: seq<Student>) {
    forall i, j | 0 <= i < j < |ss| :: ss[i].id != ss[j].id
  }

  /** Some record holds `id`. */
  predicate HasId(ss: seq<Student>, id: string) {
    exists i | 0 <= i < |ss| :: ss[i].id == id
  }

  /** Some record other than the one at position `k` holds `id`. */
  predicate IdHeldElsewhere(ss: seq<Student>, id: string, k: int) {
    exists i | 0 <= i < |ss| && i != k :: ss[i].id == id
  }

  /** `ss` without its element at position `i`; later elements move down by one. */
  function RemoveAt(ss: seq<Student>, i: nat): (r: seq<Student>)
    requires i < |ss|
    ensures |r| == |ss| - 1
    ensures forall j | 0 <= j < i :: r[j] == ss[j]
    ensures forall j | i <= j < |r| :: r[j] == ss[j + 1]
    ensures multiset(r) + multiset{ss[i]} == multiset(ss)
  {
    assert ss == ss[..i] + [ss[i]] + ss[i + 1..];
    ss[..i] + ss[i + 1..]
  }

  /** Removing the record just appended gives back the list it was appended to. */
  lemma RemoveAppended(ss: seq<Student>, x: Student)
    ensures RemoveAt(ss + [x], |ss|) == ss
  {
  }

  /** Removing a record from a register with unique ids keeps them unique and drops that id. */
  lemma RemoveAtUnique(ss: seq<Student>, i: nat)
    requires i < |ss| && UniqueIds(ss)
    ensures UniqueIds(RemoveAt(ss, i))
    ensures !HasId(RemoveAt(ss, i), ss[i].id)
  {
  }

  /** Taking a record out of both of two permutations of each other leaves permutations. */
  lemma RemoveFromPermutation(a: seq<Student>, k: nat, b: seq<Student>)
    requires multiset(a) == multiset(b) && b != [] && k < |a| && a[k] == b[0]
    ensures multiset(RemoveAt(a, k)) == multiset(b[1..])
  {
    var a' := RemoveAt(a, k);
    assert b == [b[0]] + b[1..];
    assert multiset(b) == multiset{b[0]} + multiset(b[1..]);
    assert multiset(a') + multiset{b[0]} == multiset(b[1..]) + multiset{b[0]};
    assert multiset(a') == multiset(a') + multiset{b[0]} - multiset{b[0]};
  }

  /** An id no record of `a` holds is held by no record of a permutation of `a`. */
  lemma NoIdInPermutation(a: seq<Student>, b: seq<Student>, id: string)
    requires multiset(a) == multiset(b) && !HasId(a, id)
    ensures !HasId(b, id)
  {
    forall j | 0 <= j < |b| ensures b[j].id != id {
      assert b[j] in multiset(a);
    }
  }

  /** Putting a record with a fresh id in front of a list with unique ids keeps them unique. */
  lemma UniqueCons(x: Student, t: seq<Student>)
    requires UniqueIds(t) && !HasId(t, x.id)
    ensures UniqueIds([x] + t)
  {
  }

  /** Reordering the records keeps their ids unique. */
  lemma {:induction false} UniqueIdsPermutation(a: seq<Student>, b: seq<Student>)
    requires multiset(a) == multiset(b) && UniqueIds(a)
    ensures UniqueIds(b)
    decreases |b|
  {
    if b != [] {
      assert b[0] in multiset(a);
      var k :| 0 <= k < |a| && a[k] == b[0];
      var a' := RemoveAt(a, k);
      RemoveAtUnique(a, k);
      RemoveFromPermutation(a, k, b);
      UniqueIdsPermutation(a', b[1..]);
      NoIdInPermutation(a', b[1..], b[0].id);
      UniqueCons(b[0], b[1..]);
      assert b == [b[0]] + b[1..];
    }
  }

  /** Appending a record whose id is not yet taken keeps the ids unique. */
  lemma AppendUnique(ss: seq<Student>, x: Student)
    requires UniqueIds(ss) && !HasId(ss, x.id)
    ensures UniqueIds(ss + [x])
  {
  }

  /**
   * Overwriting position `k` with a record whose id no other position holds
   * keeps the ids unique.
   */
  lemma ReplaceUnique(ss: seq<Student>, k: nat, x: Student)
    requires k < |ss| && UniqueIds(ss) && !IdHeldElsewhere(ss, x.id, k)
    ensures UniqueIds(ss[k := x])
  {
  }

  /** The seed records carry three different ids. */
  lemma SampleDataUnique()
    ensures UniqueIds(SampleData())
  {
  }
}
