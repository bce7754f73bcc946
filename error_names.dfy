/**
 * The error-name table that `DataProvider::new` builds at startup from the
 * rows of the `error` table: numeric code -> display name.
 */
module ErrorNames {
  import opened Base

  /** A row of `SELECT id, error_name FROM public.error`. */
  datatype ErrorRow = ErrorRow(id: I32, errorName: string)

  /**
   * `names` is the table built from the first `n` rows: its keys are exactly
   * their ids, and each id names the last of those rows that carries it.
   */
  ghost predicate LastWins(rows: seq<ErrorRow>, n: nat, names: map<int, string>)
    requires n <= |rows|
  {
    && (forall k :: k in names <==> exists i :: 0 <= i < n && rows[i].id == k)
    && (forall i :: 0 <= i < n && (forall j :: i < j < n ==> rows[j].id != rows[i].id) ==>
          rows[i].id in names && names[rows[i].id] == rows[i].errorName)
  }

  /**
   * The error map of `DataProvider::new`: `fetched` is the result of the query,
   * None when it failed. A failed load gives the empty table, and construction
   * goes on either way.
   */
  method LoadErrorNames(fetched: Option<seq<ErrorRow>>) returns (names: map<int, string>)
    ensures fetched.None? ==> names == map[]
    ensures fetched.Some? ==> LastWins(fetched.value, |fetched.value|, names)
  {
    var rows := fetched.GetOr([]);
    names := map[];
    for n := 0 to |rows|
      invariant LastWins(rows, n, names)
      invariant n == 0 ==> names == map[]
    {
      var row := rows[n];
      forall i | 0 <= i < n + 1 && (forall j :: i < j < n + 1 ==> rows[j].id != rows[i].id)
        ensures rows[i].id in names[row.id := row.errorName]
        ensures names[row.id := row.errorName][rows[i].id] == rows[i].errorName
      {
        if i < n {
          assert rows[n].id != rows[i].id;
        }
      }
      names := names[row.id := row.errorName];
    }
  }
}
