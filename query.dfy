/**
 * The read side of the store and the row selection of a delete:
 * GET /countries (filter and order), GET /countries/:name (case-insensitive
 * lookup) and the rows that DELETE /countries/:name leaves behind.
 */
module Query {
  import opened Wrappers
  import opened Countries
  import opened Table
  import opened Seqs

  // ---------------------------------------------------------------- lookup

  /** `SELECT * FROM countries WHERE LOWER(name) = LOWER(?)`, first row;
      None is the 404 "Country not found". */
  function Lookup(rows: seq<Country>, name: string): (r: Option<Country>)
    ensures r.None? <==> forall i :: 0 <= i < |rows| ==> !SameName(rows[i].name, name)
    ensures r.Some? ==> r.value in rows && SameName(r.value.name, name)
    ensures r.Some? && UniqueNames(rows) ==>
              forall i :: 0 <= i < |rows| && SameName(rows[i].name, name) ==> rows[i] == r.value
  {
    match FindName(rows, name)
    case Some(i) => Some(rows[i])
    case None =>
      assert forall i :: 0 <= i < |rows| ==> Lower(rows[i].name) in LowerNames(rows);
      None
  }

  // ---------------------------------------------------------------- delete

  /** The rows `DELETE FROM countries WHERE LOWER(name) = LOWER(?)` keeps. */
  function RemoveByName(rows: seq<Country>, name: string): seq<Country> {
    Filter((row: Country) => !SameName(row.name, name), rows)
  }

  /** Delete removes exactly the rows whose name matches case-insensitively; it
      affects no row at all exactly when no row matches, and then leaves the
      table as it was. */
  lemma RemoveByNameSpec(rows: seq<Country>, name: string)
    ensures forall x :: x in RemoveByName(rows, name) <==> x in rows && !SameName(x.name, name)
    ensures |RemoveByName(rows, name)| <= |rows|
    ensures |RemoveByName(rows, name)| == |rows| <==> forall i :: 0 <= i < |rows| ==> !SameName(rows[i].name, name)
    ensures (forall i :: 0 <= i < |rows| ==> !SameName(rows[i].name, name)) ==> RemoveByName(rows, name) == rows
  {
    var p := (row: Country) => !SameName(row.name, name);
    forall x ensures x in Filter(p, rows) <==> x in rows && p(x) {
      FilterMembership(p, rows, x);
    }
    FilterAll(p, rows);
  }

  lemma ConsKeepsNamesUnique(x: Country, t: seq<Country>)
    requires UniqueNames(t)
    requires forall y :: y in t ==> Lower(y.name) != Lower(x.name)
    ensures UniqueNames([x] + t)
  {
    var r := [x] + t;
    forall i, j | 0 <= i < j < |r| ensures Lower(r[i].name) != Lower(r[j].name) {
      assert r[j] == t[j - 1];
      if i > 0 { assert r[i] == t[i - 1]; }
    }
  }

  /** Removing rows keeps the names unique. */
  lemma {:induction false} FilterKeepsNamesUnique(p: Country -> bool, rows: seq<Country>)
    requires UniqueNames(rows)
    ensures UniqueNames(Filter(p, rows))
  {
    if rows != [] {
      var t := rows[1..];
      assert UniqueNames(t);
      FilterKeepsNamesUnique(p, t);
      var ft := Filter(p, t);
      forall y | y in ft ensures Lower(y.name) != Lower(rows[0].name) {
        FilterMembership(p, t, y);
        var i :| 0 <= i < |t| && t[i] == y;
        assert rows[i + 1] == y;
      }
      if p(rows[0]) {
        ConsKeepsNamesUnique(rows[0], ft);
      }
    }
  }

  // ---------------------------------------------------------------- filter

  /** A query parameter applies when it is truthy (present and non-empty). */
  function Criterion(param: Option<string>): Option<string> {
    NullIfFalsy(param)
  }

  /** `WHERE 1=1 [AND region = ?] [AND currency_code = ?]`; a NULL column
      matches no filter value. */
  predicate Selected(region: Option<string>, currency: Option<string>, row: Country) {
    && (Criterion(region).Some? ==> row.region == Criterion(region))
    && (Criterion(currency).Some? ==> row.currencyCode == Criterion(currency))
  }

  // ---------------------------------------------------------------- order

  datatype SortKey = GdpDesc | GdpAsc | NameAsc | NameDesc

  /** The `sort` query parameter; anything else, and no parameter, is name ascending. */
  function ParseSort(sort: Option<string>): SortKey {
    if sort == Some("gdp_desc") then GdpDesc
    else if sort == Some("gdp_asc") then GdpAsc
    else if sort == Some("name_desc") then NameDesc
    else NameAsc
  }

  /** Names in code-point lexicographic order (a prefix comes first). */
  predicate NameLe(a: string, b: string) {
    |a| == 0 || (|b| > 0 && (a[0] < b[0] || (a[0] == b[0] && NameLe(a[1..], b[1..]))))
  }

  /** MySQL's order on a nullable number: NULL sorts before every value. */
  predicate GdpLe(a: Option<real>, b: Option<real>) {
    a.None? || (b.Some? && a.value <= b.value)
  }

  /** x may precede y in the ORDER BY of the sort key. */
  predicate Le(k: SortKey, x: Country, y: Country) {
    match k
    case GdpAsc => GdpLe(x.estimatedGdp, y.estimatedGdp)
    case GdpDesc => GdpLe(y.estimatedGdp, x.estimatedGdp)
    case NameAsc => NameLe(x.name, y.name)
    case NameDesc => NameLe(y.name, x.name)
  }

  predicate Sorted(k: SortKey, s: seq<Country>) {
    forall i, j :: 0 <= i < j < |s| ==> Le(k, s[i], s[j])
  }

  lemma {:induction false} NameLeReflexive(a: string)
    ensures NameLe(a, a)
  {
    if |a| > 0 {
      NameLeReflexive(a[1..]);
    }
  }

  lemma {:induction false} NameLeTotal(a: string, b: string)
    ensures NameLe(a, b) || NameLe(b, a)
  {
    if |a| > 0 && |b| > 0 && a[0] == b[0] {
      NameLeTotal(a[1..], b[1..]);
    }
  }

  lemma {:induction false} NameLeTrans(a: string, b: string, c: string)
    requires NameLe(a, b) && NameLe(b, c)
    ensures NameLe(a, c)
  {
    if |a| > 0 && |b| > 0 && |c| > 0 && a[0] == b[0] == c[0] {
      NameLeTrans(a[1..], b[1..], c[1..]);
    }
  }

  lemma {:induction false} NameLeAntisymmetric(a: string, b: string)
    requires NameLe(a, b) && NameLe(b, a)
    ensures a == b
  {
    if |a| > 0 {
      NameLeAntisymmetric(a[1..], b[1..]);
      assert a == [a[0]] + a[1..] && b == [b[0]] + b[1..];
    }
  }

  lemma LeTotal(k: SortKey, x: Country, y: Country)
    ensures Le(k, x, y) || Le(k, y, x)
  {
    if k.NameAsc? || k.NameDesc? {
      NameLeTotal(x.name, y.name);
    }
  }

  lemma LeTrans(k: SortKey, x: Country, y: Country, z: Country)
    requires Le(k, x, y) && Le(k, y, z)
    ensures Le(k, x, z)
  {
    match k
    case NameAsc => NameLeTrans(x.name, y.name, z.name);
    case NameDesc => NameLeTrans(z.name, y.name, x.name);
    case _ =>
  }

  // ---------------------------------------------------------------- sort

  /** Insertion of one row into an ordered sequence. */
  function Insert(k: SortKey, x: Country, s: seq<Country>): (r: seq<Country>)
    ensures multiset(r) == multiset(s) + multiset{x}
  {
    if s == [] then [x]
    else if Le(k, x, s[0]) then [x] + s
    else
      assert s == [s[0]] + s[1..];
      [s[0]] + Insert(k, x, s[1..])
  }

  /** The rows in the order of the sort key. */
  function SortBy(k: SortKey, s: seq<Country>): (r: seq<Country>)
    ensures multiset(r) == multiset(s)
  {
    if s == [] then []
    else
      assert s == [s[0]] + s[1..];
      Insert(k, s[0], SortBy(k, s[1..]))
  }

  lemma {:induction false} InsertSorted(k: SortKey, x: Country, s: seq<Country>)
    requires Sorted(k, s)
    ensures Sorted(k, Insert(k, x, s))
  {
    if s != [] {
      var r := Insert(k, x, s);
      if Le(k, x, s[0]) {
        forall j | 1 <= j < |r| ensures Le(k, r[0], r[j]) {
          assert r[j] == s[j - 1];
          if j > 1 { LeTrans(k, x, s[0], s[j - 1]); }
        }
      } else {
        LeTotal(k, x, s[0]);
        var t := Insert(k, x, s[1..]);
        InsertSorted(k, x, s[1..]);
        forall y | y in t ensures Le(k, s[0], y) {
          assert y in multiset(t);
          if y != x {
            assert y in multiset(s[1..]);
            var i :| 0 <= i < |s[1..]| && s[1..][i] == y;
            assert s[i + 1] == y;
          }
        }
        forall i, j | 0 <= i < j < |r| ensures Le(k, r[i], r[j]) {
          assert r[j] == t[j - 1];
          if i > 0 { assert r[i] == t[i - 1]; }
        }
      }
    }
  }

  lemma {:induction false} SortBySorted(k: SortKey, s: seq<Country>)
    ensures Sorted(k, SortBy(k, s))
  {
    if s != [] {
      SortBySorted(k, s[1..]);
      InsertSorted(k, s[0], SortBy(k, s[1..]));
    }
  }

  // ---------------------------------------------------------------- listing

  /** GET /countries: the rows that pass both filters, each as often as it is
      stored, in the order of the sort key. */
  function List(rows: seq<Country>, region: Option<string>, currency: Option<string>, sort: Option<string>): (r: seq<Country>)
    ensures forall x :: multiset(r)[x] == if Selected(region, currency, x) then multiset(rows)[x] else 0
    ensures forall x :: x in r <==> x in rows && Selected(region, currency, x)
    ensures Sorted(ParseSort(sort), r)
  {
    var selected := Filter((row: Country) => Selected(region, currency, row), rows);
    SortBySorted(ParseSort(sort), selected);
    var r := SortBy(ParseSort(sort), selected);
    assert forall x :: x in r <==> x in multiset(r);
    assert forall x :: x in rows <==> x in multiset(rows);
    r
  }

  /** No two distinct rows of m share a name. */
  ghost predicate NameKeyed(m: multiset<Country>) {
    forall x, y :: x in m && y in m && x.name == y.name ==> x == y
  }

  lemma SameTails(a: seq<Country>, b: seq<Country>)
    requires a != [] && b != [] && a[0] == b[0] && multiset(a) == multiset(b)
    ensures multiset(a[1..]) == multiset(b[1..]) && multiset(a[1..]) <= multiset(a)
  {
    assert a == [a[0]] + a[1..] && b == [b[0]] + b[1..];
    assert multiset(a) == multiset{a[0]} + multiset(a[1..]);
    assert multiset(b) == multiset{a[0]} + multiset(b[1..]);
    assert multiset(a[1..]) == multiset(a) - multiset{a[0]};
    assert multiset(b[1..]) == multiset(b) - multiset{a[0]};
  }

  lemma SortedTail(k: SortKey, s: seq<Country>)
    requires s != [] && Sorted(k, s)
    ensures Sorted(k, s[1..])
  {
  }

  lemma NameKeyedSubset(m: multiset<Country>, n: multiset<Country>)
    requires m <= n && NameKeyed(n)
    ensures NameKeyed(m)
  {
  }

  /** Two orderings of the same rows by name start with the same row. */
  lemma SortedByNameSameHead(k: SortKey, a: seq<Country>, b: seq<Country>)
    requires k == NameAsc || k == NameDesc
    requires a != [] && multiset(a) == multiset(b) && NameKeyed(multiset(a))
    requires Sorted(k, a) && Sorted(k, b)
    ensures b != [] && a[0] == b[0]
  {
    assert a[0] in multiset(b) && b[0] in multiset(a) by { assert a[0] in multiset(a); }
    var i :| 0 <= i < |b| && b[i] == a[0];
    var j :| 0 <= j < |a| && a[j] == b[0];
    NameLeReflexive(a[0].name);
    assert Le(k, b[0], a[0]) by { if i > 0 { assert Le(k, b[0], b[i]); } }
    assert Le(k, a[0], b[0]) by { if j > 0 { assert Le(k, a[0], a[j]); } }
    if k == NameAsc {
      NameLeAntisymmetric(a[0].name, b[0].name);
    } else {
      NameLeAntisymmetric(b[0].name, a[0].name);
    }
  }

  /** Two orderings of the same rows by name, with no two rows sharing a name,
      are the same sequence. */
  lemma {:induction false} NameSortedUnique(k: SortKey, a: seq<Country>, b: seq<Country>)
    requires k == NameAsc || k == NameDesc
    requires multiset(a) == multiset(b) && NameKeyed(multiset(a))
    requires Sorted(k, a) && Sorted(k, b)
    ensures a == b
  {
    if a == [] {
      assert |b| == |multiset(b)| == 0;
    } else {
      SortedByNameSameHead(k, a, b);
      SameTails(a, b);
      var ta, tb := a[1..], b[1..];
      SortedTail(k, a);
      SortedTail(k, b);
      NameKeyedSubset(multiset(ta), multiset(a));
      NameSortedUnique(k, ta, tb);
      assert a == [a[0]] + ta && b == [b[0]] + tb;
    }
  }

  /** In a table with unique names, a listing ordered by name is fully
      determined: every ordering of the selected rows that respects the sort
      key is the one List returns. */
  lemma ListByNameDetermined(rows: seq<Country>, region: Option<string>, currency: Option<string>,
                             sort: Option<string>, s: seq<Country>)
    requires UniqueNames(rows)
    requires ParseSort(sort) == NameAsc || ParseSort(sort) == NameDesc
    requires multiset(s) == multiset(List(rows, region, currency, sort))
    requires Sorted(ParseSort(sort), s)
    ensures s == List(rows, region, currency, sort)
  {
    var r := List(rows, region, currency, sort);
    forall x: Country, y: Country | x in multiset(r) && y in multiset(r) && x.name == y.name ensures x == y {
      assert x in rows && y in rows;
      var i :| 0 <= i < |rows| && rows[i] == x;
      var j :| 0 <= j < |rows| && rows[j] == y;
      assert Lower(rows[i].name) == Lower(rows[j].name);
    }
    NameSortedUnique(ParseSort(sort), s, r);
  }
}
