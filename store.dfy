/**
 * The relational store as the core sees it: row identifiers, the one
 * error the model surfaces, and the two query shapes the SQL statements
 * use over a table held in insertion (= auto-increment id) order:
 * `fetch_one` of a `SELECT ... WHERE ...` and `count(*)` of one.
 */
module Store {

  /** `dbId` is an unsigned 64-bit integer; the model does not bound it. */
  type DbId = nat

  /** The error `fetch_one` reports when no row matches. */
  datatype DbError = RowNotFound

  datatype Result<T> = Ok(value: T) | Err(error: DbError)

  datatype Option<T> = None | Some(value: T)

  /** Position of the first row satisfying `p`, scanning in table order. */
  function FirstIndex<T>(rows: seq<T>, p: T -> bool): (k: Option<nat>)
    ensures k.Some? ==> k.value < |rows| && p(rows[k.value])
    ensures k.Some? ==> forall j :: 0 <= j < k.value ==> !p(rows[j])
    ensures k.None? <==> forall i :: 0 <= i < |rows| ==> !p(rows[i])
  {
    if |rows| == 0 then None
    else if p(rows[0]) then Some(0)
    else match FirstIndex(rows[1..], p)
      case None => None
      case Some(k) => Some(k + 1)
  }

  /**
   * `fetch_one`: the first row the filter selects, or `RowNotFound` when
   * the filter selects none.
   */
  function FetchOne<T>(rows: seq<T>, p: T -> bool): (r: Result<T>)
    ensures r.Ok? ==> r.value in rows && p(r.value)
    ensures r.Ok? ==> exists k :: 0 <= k < |rows| && rows[k] == r.value && forall j :: 0 <= j < k ==> !p(rows[j])
    ensures r.Err? <==> forall i :: 0 <= i < |rows| ==> !p(rows[i])
    ensures r.Err? ==> r.error == RowNotFound
  {
    match FirstIndex(rows, p)
    case Some(k) => Ok(rows[k])
    case None => Err(RowNotFound)
  }

  /** `count(*)` of the rows the filter selects. */
  function CountWhere<T>(rows: seq<T>, p: T -> bool): (n: nat)
    ensures n <= |rows|
    ensures n > 0 <==> exists i :: 0 <= i < |rows| && p(rows[i])
  {
    if |rows| == 0 then 0
    else
      var rest := CountWhere(rows[1..], p);
      assert forall i :: 1 <= i < |rows| ==> rows[i] == rows[1..][i - 1];
      if p(rows[0]) then rest + 1 else rest
  }
}
