/**
 * The search box: the typed term is lowercased and trimmed, and the table
 * then shows, in register order, the records whose name, id, email or
 * course contains it, ignoring case. The register itself is not touched.
 */
module Search {
  import opened Strings
  import opened Records

  /** Record `s` is a hit for the (already lowercased) term. */
  predicate Matches(s: Student, term: string) {
    Contains(ToLower(s.name), term) || Contains(ToLower(s.id), term)
    || Contains(ToLower(s.email), term) || Contains(ToLower(s.course), term)
  }

  /** The hits among `ss`, in the order they have in `ss`. */
  function Filter(ss: seq<Student>, term: string): (r: seq<Student>)
    ensures |r| <= |ss|
    ensures forall s :: s in r <==> s in ss && Matches(s, term)
  {
    if ss == [] then []
    else if Matches(ss[0], term) then [ss[0]] + Filter(ss[1..], term)
    else Filter(ss[1..], term)
  }

  /** The search term a raw input stands for. */
  function Term(raw: string): string {
    Trim(ToLower(raw))
  }

  /** The records the table shows for the raw search input `raw`. */
  function Search(ss: seq<Student>, raw: string): (r: seq<Student>)
    ensures Term(raw) == [] ==> r == ss
    ensures Term(raw) != [] ==> forall s :: s in r <==> s in ss && Matches(s, Term(raw))
  {
    if Term(raw) == [] then ss else Filter(ss, Term(raw))
  }

  // ---------------------------------------------------------------------------
  // properties

  /** The filter keeps the register order: filtering a concatenation filters each part. */
  lemma {:induction false} FilterAppend(a: seq<Student>, b: seq<Student>, term: string)
    ensures Filter(a + b, term) == Filter(a, term) + Filter(b, term)
    decreases |a|
  {
    if a == [] {
      assert a + b == b;
    } else {
      assert (a + b)[1..] == a[1..] + b;
      FilterAppend(a[1..], b, term);
    }
  }

  /** Searching the hits again with the same term finds all of them. */
  lemma {:induction false} FilterIdempotent(ss: seq<Student>, term: string)
    ensures Filter(Filter(ss, term), term) == Filter(ss, term)
    decreases |ss|
  {
    if ss != [] {
      FilterIdempotent(ss[1..], term);
    }
  }

  /** A term every record matches (the empty one, say) shows the whole register. */
  lemma {:induction false} FilterAllMatch(ss: seq<Student>, term: string)
    requires forall i | 0 <= i < |ss| :: Matches(ss[i], term)
    ensures Filter(ss, term) == ss
    decreases |ss|
  {
    if ss != [] {
      FilterAllMatch(ss[1..], term);
    }
  }

  /**
   * A hit is a record in one of whose four searched fields, lowercased, the
   * term occurs at some position.
   */
  lemma MatchesOccurs(s: Student, term: string)
    ensures Matches(s, term) <==>
      (exists i :: OccursAt(ToLower(s.name), term, i)) || (exists i :: OccursAt(ToLower(s.id), term, i))
      || (exists i :: OccursAt(ToLower(s.email), term, i)) || (exists i :: OccursAt(ToLower(s.course), term, i))
  {
    ContainsOccurs(ToLower(s.name), term);
    ContainsOccurs(ToLower(s.id), term);
    ContainsOccurs(ToLower(s.email), term);
    ContainsOccurs(ToLower(s.course), term);
  }

  /** The search ignores the case of what is typed. */
  lemma SearchIgnoresCase(ss: seq<Student>, raw: string)
    ensures Search(ss, ToLower(raw)) == Search(ss, raw)
  {
    ToLowerIdempotent(raw);
  }
}
