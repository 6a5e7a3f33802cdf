/**
 * What one refresh transaction does to the `countries` table: each merged
 * source record is upserted, in feed order, on the lower-cased name.
 */
module Reconcile {
  import opened Wrappers
  import opened Countries
  import opened Table

  /** `UPDATE countries SET capital = ?, ..., last_refreshed_at = NOW() WHERE id = ?`:
      every column of the incoming row except the name. */
  function Overwrite(existing: Country, incoming: Country): Country {
    incoming.(name := existing.name)
  }

  /** One iteration of the refresh loop: update the first row whose name matches
      case-insensitively, keeping its stored name, or append the incoming row. */
  function Upsert(rows: seq<Country>, incoming: Country): (r: seq<Country>)
    ensures |r| == if Lower(incoming.name) in LowerNames(rows) then |rows| else |rows| + 1
    ensures forall i :: 0 <= i < |rows| ==>
              r[i] == rows[i] || (SameName(rows[i].name, incoming.name) && r[i] == Overwrite(rows[i], incoming))
    ensures |r| > |rows| ==> r[|rows|] == incoming
  {
    match FindName(rows, incoming.name)
    case Some(i) => rows[i := Overwrite(rows[i], incoming)]
    case None => rows + [incoming]
  }

  /** After an upsert the incoming name is present and nothing else changed in
      the set of lower-cased names. */
  lemma UpsertNames(rows: seq<Country>, incoming: Country)
    ensures LowerNames(Upsert(rows, incoming)) == LowerNames(rows) + {Lower(incoming.name)}
  {
    var r := Upsert(rows, incoming);
    forall k | 0 <= k < |rows| ensures Lower(r[k].name) == Lower(rows[k].name) { }
    if |r| == |rows| {
      var i := FindName(rows, incoming.name).value;
      assert Lower(r[i].name) == Lower(incoming.name);
    } else {
      assert Lower(r[|rows|].name) == Lower(incoming.name);
    }
  }

  /** An upsert keeps at most one row per lower-cased name. */
  lemma UpsertKeepsNamesUnique(rows: seq<Country>, incoming: Country)
    requires UniqueNames(rows)
    ensures UniqueNames(Upsert(rows, incoming))
  {
    var r := Upsert(rows, incoming);
    forall k | 0 <= k < |rows| ensures Lower(r[k].name) == Lower(rows[k].name) { }
  }

  /** After an upsert a case-insensitive lookup of the incoming name finds a row
      carrying every column of the incoming row but the name. */
  lemma UpsertStores(rows: seq<Country>, incoming: Country)
    ensures var r := Upsert(rows, incoming);
            var k := FindName(r, incoming.name);
            k.Some? && r[k.value] == Overwrite(r[k.value], incoming)
  {
    var r := Upsert(rows, incoming);
    forall k | 0 <= k < |rows| ensures Lower(r[k].name) == Lower(rows[k].name) { }
    match FindName(rows, incoming.name)
    case Some(i) =>
      assert FindName(r, incoming.name) == Some(i);
    case None =>
      assert FindName(r, incoming.name) == Some(|rows|);
  }

  /** Upserting a row leaves where every other name is found unchanged. */
  lemma UpsertKeepsOtherNames(rows: seq<Country>, incoming: Country, name: string)
    requires !SameName(name, incoming.name)
    ensures FindName(Upsert(rows, incoming), name) == FindName(rows, name)
  {
    var r := Upsert(rows, incoming);
    assert forall k :: 0 <= k < |r| ==> (SameName(r[k].name, name) <==> k < |rows| && SameName(rows[k].name, name)) by {
      forall k | 0 <= k < |rows| ensures r[k].name == rows[k].name { }
    }
    match FindName(rows, name)
    case Some(k) =>
      assert FindName(r, name) == Some(k);
    case None =>
      assert FindName(r, name) == None;
  }

  /** The full target rows of a batch of source records, one multiplier per
      record, all stamped with this refresh's NOW(). */
  function MergeAll(cs: seq<CountrySource>, rates: Rates, ms: seq<real>, now: Timestamp): (ops: seq<Country>)
    requires |ms| == |cs|
    ensures |ops| == |cs|
  {
    seq(|cs|, i requires 0 <= i < |cs| => SourceRow(cs[i], rates, ms[i], now))
  }

  /** The rows after the refresh loop has upserted `ops`, in order, starting
      from `rows`. */
  function UpsertAll(rows: seq<Country>, ops: seq<Country>): seq<Country> {
    if ops == [] then rows
    else Upsert(UpsertAll(rows, ops[..|ops| - 1]), ops[|ops| - 1])
  }

  /** Upserting one more row of the batch is one more step of `UpsertAll`. */
  lemma UpsertAllSnoc(rows: seq<Country>, ops: seq<Country>, k: nat)
    requires k < |ops|
    ensures UpsertAll(rows, ops[..k + 1]) == Upsert(UpsertAll(rows, ops[..k]), ops[k])
  {
    assert ops[..k + 1][..k] == ops[..k];
  }

  /** The lower-cased names of a batch of incoming rows. */
  function IncomingNames(ops: seq<Country>): set<string> {
    set i | 0 <= i < |ops| :: Lower(ops[i].name)
  }

  lemma IncomingNamesSnoc(ops: seq<Country>)
    requires ops != []
    ensures IncomingNames(ops) == IncomingNames(ops[..|ops| - 1]) + {Lower(ops[|ops| - 1].name)}
  {
    var n := |ops| - 1;
    forall i | 0 <= i < n ensures Lower(ops[i].name) in IncomingNames(ops[..n]) {
      assert ops[i] == ops[..n][i];
    }
  }

  /** A refresh keeps at most one row per lower-cased name, even when the batch
      itself holds case variants of one name. */
  lemma {:induction false} UpsertAllKeepsNamesUnique(rows: seq<Country>, ops: seq<Country>)
    requires UniqueNames(rows)
    ensures UniqueNames(UpsertAll(rows, ops))
  {
    if ops != [] {
      UpsertAllKeepsNamesUnique(rows, ops[..|ops| - 1]);
      UpsertKeepsNamesUnique(UpsertAll(rows, ops[..|ops| - 1]), ops[|ops| - 1]);
    }
  }

  /** A refresh never removes a row: the lower-cased names afterwards are the
      old ones united with the incoming ones. */
  lemma {:induction false} UpsertAllNames(rows: seq<Country>, ops: seq<Country>)
    ensures LowerNames(UpsertAll(rows, ops)) == LowerNames(rows) + IncomingNames(ops)
  {
    if ops != [] {
      UpsertAllNames(rows, ops[..|ops| - 1]);
      UpsertNames(UpsertAll(rows, ops[..|ops| - 1]), ops[|ops| - 1]);
      IncomingNamesSnoc(ops);
    }
  }

  /** Existing rows keep their place and their stored name (an update never
      renames), and rows are only ever appended. */
  lemma {:induction false} UpsertAllKeepsRows(rows: seq<Country>, ops: seq<Country>)
    ensures var r := UpsertAll(rows, ops);
            |rows| <= |r| && forall i :: 0 <= i < |rows| ==> r[i].name == rows[i].name
  {
    if ops != [] {
      UpsertAllKeepsRows(rows, ops[..|ops| - 1]);
    }
  }

  /** A batch whose names are all present already only updates: the row count
      and every stored name stay as they were. */
  lemma {:induction false} UpsertAllOfKnownNames(rows: seq<Country>, ops: seq<Country>)
    requires IncomingNames(ops) <= LowerNames(rows)
    ensures var r := UpsertAll(rows, ops);
            |r| == |rows| && forall i :: 0 <= i < |rows| ==> r[i].name == rows[i].name
  {
    if ops != [] {
      var n := |ops| - 1;
      IncomingNamesSnoc(ops);
      UpsertAllOfKnownNames(rows, ops[..n]);
      UpsertAllNames(rows, ops[..n]);
      UpsertNames(UpsertAll(rows, ops[..n]), ops[n]);
    }
  }

  /** Refreshing twice with the same source records (with fresh multipliers, a
      new rate table and a later clock) gives the same stored names and the
      same row count as refreshing once. */
  lemma RefreshTwiceSameNames(rows: seq<Country>, cs: seq<CountrySource>, rates1: Rates, rates2: Rates,
                              ms1: seq<real>, ms2: seq<real>, now1: Timestamp, now2: Timestamp)
    requires |ms1| == |cs| && |ms2| == |cs|
    ensures var once := UpsertAll(rows, MergeAll(cs, rates1, ms1, now1));
            var twice := UpsertAll(once, MergeAll(cs, rates2, ms2, now2));
            |twice| == |once| && forall i :: 0 <= i < |once| ==> twice[i].name == once[i].name
  {
    var ops1, ops2 := MergeAll(cs, rates1, ms1, now1), MergeAll(cs, rates2, ms2, now2);
    assert IncomingNames(ops2) == IncomingNames(ops1) by {
      forall i | 0 <= i < |cs| ensures ops1[i].name == cs[i].name == ops2[i].name { }
    }
    UpsertAllNames(rows, ops1);
    UpsertAllOfKnownNames(UpsertAll(rows, ops1), ops2);
  }

  /** The stored data reflects the last incoming row with a given lower-cased
      name: a case-insensitive lookup of that name finds a row carrying every
      column of it but the name. */
  lemma {:induction false} LastRowWins(rows: seq<Country>, ops: seq<Country>, j: nat)
    requires j < |ops|
    requires forall k :: j < k < |ops| ==> !SameName(ops[k].name, ops[j].name)
    ensures var r := UpsertAll(rows, ops);
            var i := FindName(r, ops[j].name);
            i.Some? && r[i.value] == Overwrite(r[i.value], ops[j])
  {
    var n := |ops| - 1;
    var front := UpsertAll(rows, ops[..n]);
    if j < n {
      assert forall k :: j < k < n ==> ops[..n][k] == ops[k];
      LastRowWins(rows, ops[..n], j);
      assert ops[..n][j] == ops[j];
      assert !SameName(ops[j].name, ops[n].name);
      UpsertKeepsOtherNames(front, ops[n], ops[j].name);
      var i := FindName(front, ops[j].name).value;
      assert Upsert(front, ops[n])[i] == front[i];
    } else {
      UpsertStores(front, ops[n]);
    }
  }
}
