/** The generated paging queries, on a table given as the sequence of its matching rows. */
module Paging {

  /** `Offset(offset).Limit(limit)`: an offset below one skips nothing, a negative limit takes
      everything. */
  function Page<T>(rows: seq<T>, offset: int, limit: int): seq<T> {
    var from := if offset <= 0 then 0 else if offset < |rows| then offset else |rows|;
    var to := if limit < 0 || from + limit > |rows| then |rows| else from + limit;
    rows[from..to]
  }

  /** The page is the longest run of rows from the offset on that the limit allows; without an
      offset it starts at the first row, and without a limit it goes to the last. */
  lemma PageIsLongest<T>(rows: seq<T>, offset: int, limit: int)
    ensures var page, from := Page(rows, offset, limit), if offset > 0 then offset else 0;
            && (forall i :: 0 <= i < |page| ==> from + i < |rows| && page[i] == rows[from + i])
            && (limit >= 0 ==> |page| <= limit)
            && (|page| == limit || from + |page| >= |rows|)
    ensures offset <= 0 && limit < 0 ==> Page(rows, offset, limit) == rows
  {
  }

  /** The shortcut of FindByPage: the page is not empty and not full. */
  predicate Shortcut<T>(rows: seq<T>, offset: int, limit: int) {
    0 < limit && 0 < |Page(rows, offset, limit)| < limit
  }

  /** The count that the page query reports: the page's end when the shortcut is taken, and the
      result of the count query otherwise. */
  function ReportedCount<T>(rows: seq<T>, offset: int, limit: int): int {
    if Shortcut(rows, offset, limit) then |Page(rows, offset, limit)| + offset else |rows|
  }

  /** The reported count is that of all matches if and only if the offset is not negative or the
      shortcut is not taken. */
  lemma CountIsRightIff<T>(rows: seq<T>, offset: int, limit: int)
    ensures ReportedCount(rows, offset, limit) == |rows| <==> offset >= 0 || !Shortcut(rows, offset, limit)
  {
  }

  /** A table of one row, read from offset -1, is reported to be empty. */
  lemma NegativeOffsetMiscounts()
    ensures Page(["row"], -1, 2) == ["row"] && ReportedCount(["row"], -1, 2) == 0
  {
    assert Page(["row"], -1, 2) == ["row"];
  }

  /** The page, and a count without a count query when the page ends the table. Errors come from
      the page query, or from the count query when it is made. */
  method FindByPage<T>(rows: seq<T>, offset: int, limit: int, findError: bool, countError: bool)
    returns (result: seq<T>, count: int, err: bool)
    ensures err <==> findError || (countError && !Shortcut(rows, offset, limit))
    ensures !findError ==> result == Page(rows, offset, limit)
    ensures !err ==> count == ReportedCount(rows, offset, limit)
    ensures !err ==> (count == |rows| <==> offset >= 0 || !Shortcut(rows, offset, limit))
  {
    result, count, err := [], 0, findError;
    if err {
      return;
    }
    result := Page(rows, offset, limit);
    var size := |result|;
    if 0 < limit && 0 < size && size < limit {
      count := size + offset;
      return;
    }
    if countError {
      err := true;
      return;
    }
    count := |rows|;
  }

  method ScanByPage<T>(rows: seq<T>, offset: int, limit: int, countError: bool, scanError: bool)
    returns (result: seq<T>, count: int, err: bool)
    ensures err <==> countError || scanError
    ensures !err ==> result == Page(rows, offset, limit) && count == |rows|
  {
    result, count, err := [], 0, countError;
    if err {
      return;
    }
    count := |rows|;
    if scanError {
      err := true;
      return;
    }
    result := Page(rows, offset, limit);
  }

  /** The first `k` pages of a fixed size, one after the other. */
  function Pages<T>(rows: seq<T>, limit: int, k: nat): seq<T> {
    if k == 0 then [] else Pages(rows, limit, k - 1) + Page(rows, (k - 1) * limit, limit)
  }

  lemma {:induction false} PagesArePrefix<T>(rows: seq<T>, limit: int, k: nat)
    requires limit > 0
    ensures k * limit >= 0
    ensures Pages(rows, limit, k) == rows[..if k * limit < |rows| then k * limit else |rows|]
  {
    if k > 0 {
      PagesArePrefix(rows, limit, k - 1);
      assert k * limit == (k - 1) * limit + limit;
    }
  }

  /** Consecutive pages up to the end of the table are the whole table, in order. */
  lemma PagesAreTheTable<T>(rows: seq<T>, limit: int, k: nat)
    requires limit > 0 && k * limit >= |rows|
    ensures Pages(rows, limit, k) == rows
  {
    PagesArePrefix(rows, limit, k);
  }
}
