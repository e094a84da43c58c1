/**
 * Sorting the register by a column: the per-column direction toggle, the
 * sort key of a record, and the ordering the sort establishes.
 */
module Sorting {
  import opened Wrappers
  import opened Strings
  import opened Records

  /** The two sort directions. */
  datatype Dir = Asc | Desc

  /**
   * The value a column compares by: a number for the id, semester and GPA
   * columns, the lowercased text for the others.
   */
  datatype Key = Num(n: int) | Text(t: string)

  /** The numeric columns. */
  predicate IsNumericColumn(col: Field) {
    col == Id || col == Semester || col == Gpa
  }

  /**
   * The key of record `s` in column `col`: a number for a numeric column, and
   * otherwise a text as long as the field with no upper-case letter left.
   */
  function KeyOf(s: Student, col: Field): (k: Key)
    ensures k.Num? <==> IsNumericColumn(col)
    ensures k.Text? ==> forall i | 0 <= i < |k.t| :: !IsUpper(k.t[i])
    ensures col == Name ==> |k.t| == |s.name|
    ensures col == Email ==> |k.t| == |s.email|
    ensures col == Phone ==> |k.t| == |s.phone|
    ensures col == Course ==> |k.t| == |s.course|
  {
    match col
    case Id => Num(DigitsValue(s.id))
    case Semester => Num(s.semester.GetOr(0))
    case Gpa => Num(s.gpa.GetOr(0))
    case Name => Text(ToLower(s.name))
    case Email => Text(ToLower(s.email))
    case Phone => Text(ToLower(s.phone))
    case Course => Text(ToLower(s.course))
  }

  /** `s` with its four text fields lowercased. */
  function LowerCased(s: Student): Student {
    s.(name := ToLower(s.name), email := ToLower(s.email), phone := ToLower(s.phone), course := ToLower(s.course))
  }

  /** Lowercasing a record's text fields changes none of its keys. */
  lemma KeyIgnoresCase(s: Student, col: Field)
    ensures KeyOf(LowerCased(s), col) == KeyOf(s, col)
  {
    ToLowerIdempotent(s.name);
    ToLowerIdempotent(s.email);
    ToLowerIdempotent(s.phone);
    ToLowerIdempotent(s.course);
  }

  /**
   * `a <= b` between keys: numbers by value, texts lexicographically. Keys of
   * one column are all of one kind; numbers are put first only to make the
   * order total.
   */
  predicate KeyLe(a: Key, b: Key) {
    match (a, b)
    case (Num(x), Num(y)) => x <= y
    case (Text(x), Text(y)) => LexLe(x, y)
    case (Num(_), Text(_)) => true
    case (Text(_), Num(_)) => false
  }

  lemma KeyLeTotal(a: Key, b: Key)
    ensures KeyLe(a, b) || KeyLe(b, a)
  {
    if a.Text? && b.Text? {
      LexLeTotal(a.t, b.t);
    }
  }

  lemma KeyLeTransitive(a: Key, b: Key, c: Key)
    requires KeyLe(a, b) && KeyLe(b, c)
    ensures KeyLe(a, c)
  {
    if a.Text? && b.Text? && c.Text? {
      LexLeTransitive(a.t, b.t, c.t);
    }
  }

  /** Record `x` may stand before record `y` when the table is sorted by `col` in direction `dir`. */
  predicate Before(col: Field, dir: Dir, x: Student, y: Student) {
    match dir
    case Asc => KeyLe(KeyOf(x, col), KeyOf(y, col))
    case Desc => KeyLe(KeyOf(y, col), KeyOf(x, col))
  }

  /** Of any two records, one may stand before the other. */
  lemma BeforeTotal(col: Field, dir: Dir, x: Student, y: Student)
    ensures Before(col, dir, x, y) || Before(col, dir, y, x)
  {
    KeyLeTotal(KeyOf(x, col), KeyOf(y, col));
  }

  /**
   * The sort ignores case: in every column and direction, two records stand
   * in the same order as their copies with lowercased text fields.
   */
  lemma BeforeIgnoresCase(col: Field, dir: Dir, x: Student, y: Student)
    ensures Before(col, dir, LowerCased(x), LowerCased(y)) <==> Before(col, dir, x, y)
  {
    KeyIgnoresCase(x, col);
    KeyIgnoresCase(y, col);
  }

  /**
   * In the id column two ids of the same length stand in the order of their
   * text, which is the order of their numeric values.
   */
  lemma IdOrderOfEqualLength(x: Student, y: Student)
    requires AllDigits(x.id) && AllDigits(y.id) && |x.id| == |y.id|
    ensures Before(Id, Asc, x, y) <==> LexLe(x.id, y.id)
  {
    DigitsValueOrder(x.id, y.id);
  }

  /** Standing before is transitive. */
  lemma BeforeTransitive(col: Field, dir: Dir, x: Student, y: Student, z: Student)
    requires Before(col, dir, x, y) && Before(col, dir, y, z)
    ensures Before(col, dir, x, z)
  {
    match dir
    case Asc => KeyLeTransitive(KeyOf(x, col), KeyOf(y, col), KeyOf(z, col));
    case Desc => KeyLeTransitive(KeyOf(z, col), KeyOf(y, col), KeyOf(x, col));
  }

  /** Every record stands before every later one. */
  predicate Sorted(ss: seq<Student>, col: Field, dir: Dir) {
    forall i, j | 0 <= i < j < |ss| :: Before(col, dir, ss[i], ss[j])
  }

  /** `x` may stand before every record of `ss`. */
  predicate BeforeAll(col: Field, dir: Dir, x: Student, ss: seq<Student>) {
    forall j | 0 <= j < |ss| :: Before(col, dir, x, ss[j])
  }

  /** A record that may stand before the head of a sorted list may stand before all of it. */
  lemma BeforeHeadBeforeAll(col: Field, dir: Dir, x: Student, ss: seq<Student>)
    requires Sorted(ss, col, dir) && ss != [] && Before(col, dir, x, ss[0])
    ensures BeforeAll(col, dir, x, ss)
  {
    forall j | 0 < j < |ss| ensures Before(col, dir, x, ss[j]) {
      BeforeTransitive(col, dir, x, ss[0], ss[j]);
    }
  }

  /** Putting a record that may stand before all of a sorted list in front of it keeps it sorted. */
  lemma SortedCons(col: Field, dir: Dir, x: Student, ss: seq<Student>)
    requires Sorted(ss, col, dir) && BeforeAll(col, dir, x, ss)
    ensures Sorted([x] + ss, col, dir)
  {
  }

  /**
   * A record that may stand before all of `ss` and before `x` may stand
   * before every arrangement of `ss` with `x` added.
   */
  lemma BeforeAllPermutation(col: Field, dir: Dir, y: Student, ss: seq<Student>, x: Student, r: seq<Student>)
    requires BeforeAll(col, dir, y, ss) && Before(col, dir, y, x)
    requires multiset(r) == multiset(ss) + multiset{x}
    ensures BeforeAll(col, dir, y, r)
  {
    forall j | 0 <= j < |r| ensures Before(col, dir, y, r[j]) {
      assert r[j] in multiset(r);
      if r[j] != x {
        assert r[j] in multiset(ss);
      }
    }
  }

  /** `x` put into the sorted `ss` at the first place where it may stand. */
  function Insert(col: Field, dir: Dir, x: Student, ss: seq<Student>): (r: seq<Student>)
    requires Sorted(ss, col, dir)
    ensures multiset(r) == multiset(ss) + multiset{x}
    ensures Sorted(r, col, dir)
    decreases |ss|
  {
    if ss == [] then [x]
    else if Before(col, dir, x, ss[0]) then
      BeforeHeadBeforeAll(col, dir, x, ss);
      SortedCons(col, dir, x, ss);
      [x] + ss
    else
      var rest := Insert(col, dir, x, ss[1..]);
      BeforeTotal(col, dir, x, ss[0]);
      BeforeAllPermutation(col, dir, ss[0], ss[1..], x, rest);
      SortedCons(col, dir, ss[0], rest);
      assert ss == [ss[0]] + ss[1..];
      [ss[0]] + rest
  }

  /** The records of `ss` in the order of column `col`, direction `dir`. */
  function SortBy(col: Field, dir: Dir, ss: seq<Student>): (r: seq<Student>)
    ensures multiset(r) == multiset(ss)
    ensures Sorted(r, col, dir)
    decreases |ss|
  {
    if ss == [] then []
    else
      assert ss == [ss[0]] + ss[1..];
      Insert(col, dir, ss[0], SortBy(col, dir, ss[1..]))
  }

  /** A sorted permutation keeps the length and the records of the register. */
  lemma SortByKeepsRecords(col: Field, dir: Dir, ss: seq<Student>)
    ensures |SortBy(col, dir, ss)| == |ss|
    ensures forall s :: s in SortBy(col, dir, ss) <==> s in ss
  {
    var r := SortBy(col, dir, ss);
    assert |multiset(r)| == |multiset(ss)|;
    forall s ensures s in r <==> s in ss {
      assert s in r <==> s in multiset(r);
      assert s in ss <==> s in multiset(ss);
    }
  }

  // ---------------------------------------------------------------------------
  // the direction toggle

  /** The direction a click on column `col` sorts in: ascending unless it was ascending. */
  function NextDir(dirs: map<Field, Dir>, col: Field): Dir {
    if col in dirs && dirs[col] == Asc then Desc else Asc
  }

  /**
   * The first click on a column sorts it ascending, and every later click
   * on it reverses the direction of the click before.
   */
  lemma NextDirAlternates(dirs: map<Field, Dir>, col: Field)
    ensures col !in dirs ==> NextDir(dirs, col) == Asc
    ensures var after := dirs[col := NextDir(dirs, col)];
      NextDir(after, col) != NextDir(dirs, col)
  {
  }

  /** A click on one column leaves the direction recorded for every other column alone. */
  lemma NextDirOthersUnchanged(dirs: map<Field, Dir>, col: Field, other: Field)
    requires other != col
    ensures var after := dirs[col := NextDir(dirs, col)];
      (other in after <==> other in dirs) && (other in dirs ==> after[other] == dirs[other])
  {
  }
}
