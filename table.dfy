/** The `countries` table as a sequence of rows in id order, and its
    case-insensitive name key. */
module Table {
  import opened Wrappers
  import opened Countries

  /** At most one row per lower-cased name. */
  predicate UniqueNames(rows: seq<Country>) {
    forall i, j :: 0 <= i < j < |rows| ==> Lower(rows[i].name) != Lower(rows[j].name)
  }

  /** The lower-cased names present in the table. */
  function LowerNames(rows: seq<Country>): set<string> {
    set i | 0 <= i < |rows| :: Lower(rows[i].name)
  }

  /** `SELECT ... WHERE LOWER(name) = LOWER(?)`, first row in id order: the
      index of the first row whose name matches, if any. */
  function FindName(rows: seq<Country>, name: string): (r: Option<nat>)
    ensures r.Some? ==> r.value < |rows| && SameName(rows[r.value].name, name)
    ensures r.Some? ==> forall j :: 0 <= j < r.value ==> !SameName(rows[j].name, name)
    ensures r.None? <==> Lower(name) !in LowerNames(rows)
  {
    if rows == [] then None
    else if SameName(rows[0].name, name) then Some(0)
    else
      match FindName(rows[1..], name)
      case Some(k) => Some(k + 1)
      case None =>
        assert LowerNames(rows) == {Lower(rows[0].name)} + LowerNames(rows[1..]) by {
          forall i | 0 < i < |rows| ensures Lower(rows[i].name) in LowerNames(rows[1..]) {
            assert rows[i] == rows[1..][i - 1];
          }
        }
        None
  }

  /** In a table with unique names the row count is the number of distinct
      lower-cased names. */
  lemma {:induction false} UniqueCount(rows: seq<Country>)
    requires UniqueNames(rows)
    ensures |rows| == |LowerNames(rows)|
  {
    if rows != [] {
      var n := |rows| - 1;
      var front := rows[..n];
      assert UniqueNames(front);
      UniqueCount(front);
      assert LowerNames(rows) == LowerNames(front) + {Lower(rows[n].name)} by {
        forall i | 0 <= i < n ensures Lower(rows[i].name) in LowerNames(front) {
          assert rows[i] == front[i];
        }
      }
      assert Lower(rows[n].name) !in LowerNames(front);
    }
  }
}
