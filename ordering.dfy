/**
 * The orders `findAll` can ask the store for: estimated GDP, population or name, each
 * ascending or descending, and a sort of rows by one of them standing in for the
 * store's ORDER BY.
 */
module Ordering {
  import opened Wrappers
  import opened Countries

  datatype Direction = Asc | Desc
  datatype SortField = EstimatedGdp | Population | Name

  /** Lexicographic order on strings, character by character. */
  predicate LexLe(a: string, b: string)
    decreases |a|
  {
    a == [] || (b != [] && (a[0] < b[0] || (a[0] == b[0] && LexLe(a[1..], b[1..]))))
  }

  /** Ascending order on a nullable GDP; a null GDP sorts after every number. */
  predicate GdpLe(a: Option<real>, b: Option<real>) {
    b.None? || (a.Some? && a.value <= b.value)
  }

  /** `a` may come before `b` when sorting by `field` ascending. */
  predicate AscLe(field: SortField, a: Country, b: Country) {
    match field
    case EstimatedGdp => GdpLe(a.estimated_gdp, b.estimated_gdp)
    case Population => a.population <= b.population
    case Name => LexLe(a.name, b.name)
  }

  /** `a` may come before `b` when sorting by `field` in direction `dir`. */
  predicate Le(field: SortField, dir: Direction, a: Country, b: Country) {
    if dir == Asc then AscLe(field, a, b) else AscLe(field, b, a)
  }

  predicate SortedBy(s: seq<Country>, field: SortField, dir: Direction) {
    forall i, j | 0 <= i < j < |s| :: Le(field, dir, s[i], s[j])
  }

  lemma {:induction false} LexTotal(a: string, b: string)
    ensures LexLe(a, b) || LexLe(b, a)
    decreases |a|
  {
    if a != [] && b != [] && a[0] == b[0] {
      LexTotal(a[1..], b[1..]);
    }
  }

  /** Every pair of rows is comparable, in every order. */
  lemma LeTotal(field: SortField, dir: Direction, a: Country, b: Country)
    ensures Le(field, dir, a, b) || Le(field, dir, b, a)
  {
    if field == Name {
      LexTotal(a.name, b.name);
    }
  }

  /** Putting `a` in front of a sorted sequence whose elements all follow `a` keeps it sorted. */
  lemma SortedCons(a: Country, t: seq<Country>, field: SortField, dir: Direction)
    requires SortedBy(t, field, dir)
    requires forall y | y in t :: Le(field, dir, a, y)
    ensures SortedBy([a] + t, field, dir)
  {
    var s := [a] + t;
    forall i, j | 0 <= i < j < |s| ensures Le(field, dir, s[i], s[j]) {
      if i == 0 {
        assert s[j] == t[j - 1];
        assert t[j - 1] in t;
      } else {
        assert s[i] == t[i - 1] && s[j] == t[j - 1];
      }
    }
  }

  /** Inserts `x` into sorted `s` before the first element it may precede. */
  function Insert(x: Country, s: seq<Country>, field: SortField, dir: Direction): (r: seq<Country>)
    requires SortedBy(s, field, dir)
    ensures SortedBy(r, field, dir)
    ensures multiset(r) == multiset(s) + multiset{x}
  {
    if s == [] then [x]
    else if Le(field, dir, x, s[0]) then
      PrecedesHead(x, s, field, dir);
      SortedCons(x, s, field, dir);
      [x] + s
    else
      assert s == [s[0]] + s[1..];
      var rest := Insert(x, s[1..], field, dir);
      LeTotal(field, dir, x, s[0]);
      HeadPrecedesInserted(x, s, rest, field, dir);
      SortedCons(s[0], rest, field, dir);
      [s[0]] + rest
  }

  /** What may precede the head of a sorted sequence may precede all of it. */
  lemma PrecedesHead(x: Country, s: seq<Country>, field: SortField, dir: Direction)
    requires SortedBy(s, field, dir) && s != []
    requires Le(field, dir, x, s[0])
    ensures forall y | y in s :: Le(field, dir, x, y)
  {
    forall y | y in s ensures Le(field, dir, x, y) {
      var j :| 0 <= j < |s| && s[j] == y;
      if j > 0 {
        LeTransitive(field, dir, x, s[0], s[j]);
      }
    }
  }

  /** The head of a sorted sequence precedes whatever the rest becomes after an insertion behind it. */
  lemma HeadPrecedesInserted(x: Country, s: seq<Country>, rest: seq<Country>, field: SortField, dir: Direction)
    requires SortedBy(s, field, dir) && s != []
    requires Le(field, dir, s[0], x)
    requires multiset(rest) == multiset(s[1..]) + multiset{x}
    ensures forall y | y in rest :: Le(field, dir, s[0], y)
  {
    forall y | y in rest ensures Le(field, dir, s[0], y) {
      assert y in multiset(rest);
      if y != x {
        assert y in multiset(s[1..]);
        var j :| 0 <= j < |s[1..]| && s[1..][j] == y;
        assert s[j + 1] == y;
      }
    }
  }

  lemma {:induction false} LexTransitive(a: string, b: string, c: string)
    requires LexLe(a, b) && LexLe(b, c)
    ensures LexLe(a, c)
    decreases |a|
  {
    if a != [] && b != [] && c != [] && a[0] == b[0] && b[0] == c[0] {
      LexTransitive(a[1..], b[1..], c[1..]);
    }
  }

  /** Each order is transitive. */
  lemma LeTransitive(field: SortField, dir: Direction, a: Country, b: Country, c: Country)
    requires Le(field, dir, a, b) && Le(field, dir, b, c)
    ensures Le(field, dir, a, c)
  {
    if field == Name {
      if dir == Asc {
        LexTransitive(a.name, b.name, c.name);
      } else {
        LexTransitive(c.name, b.name, a.name);
      }
    }
  }

  /** The rows of `s` ordered by `field` in direction `dir`. */
  function Sort(s: seq<Country>, field: SortField, dir: Direction): (r: seq<Country>)
    ensures SortedBy(r, field, dir)
    ensures multiset(r) == multiset(s)
  {
    if s == [] then []
    else
      assert s == [s[0]] + s[1..];
      Insert(s[0], Sort(s[1..], field, dir), field, dir)
  }
}
