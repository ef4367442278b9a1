/** The leaderboard query of get_leaderboard (app.py:38-42),
    SELECT username, psnr FROM scores ORDER BY psnr DESC: every stored row,
    highest score first, one row per submission (rows are not merged per
    user). */
module Ranking {
  import opened Base

  /** One row of the scores table; its position in the store stands for
      the AUTOINCREMENT id. */
  datatype Record = Record(username: string, psnr: Score)

  predicate Descending(rows: seq<Record>)
  {
    forall i, j :: 0 <= i < j < |rows| ==> AtLeast(rows[i].psnr, rows[j].psnr)
  }

  lemma AtLeastTotalOrder(a: Score, b: Score, c: Score)
    ensures AtLeast(a, b) || AtLeast(b, a)
    ensures AtLeast(a, b) && AtLeast(b, c) ==> AtLeast(a, c)
  {
  }

  /** A score at or above every row of `rows` and above `rec` is at or
      above every row of any rearrangement of them. */
  lemma AboveAll(top: Score, rows: seq<Record>, rec: Record, r: seq<Record>)
    requires forall k :: 0 <= k < |rows| ==> AtLeast(top, rows[k].psnr)
    requires AtLeast(top, rec.psnr)
    requires multiset(r) == multiset(rows) + multiset{rec}
    ensures forall k :: 0 <= k < |r| ==> AtLeast(top, r[k].psnr)
  {
    forall k | 0 <= k < |r|
      ensures AtLeast(top, r[k].psnr)
    {
      assert r[k] in multiset(r);
      if r[k] != rec {
        assert r[k] in rows;
      }
    }
  }

  /** Places `rec` after every row that scores at least as high. */
  function Insert(rec: Record, sorted: seq<Record>): (r: seq<Record>)
    requires Descending(sorted)
    ensures Descending(r)
    ensures multiset(r) == multiset(sorted) + multiset{rec}
  {
    if sorted == [] then [rec]
    else if AtLeast(sorted[0].psnr, rec.psnr) then
      var rest := Insert(rec, sorted[1..]);
      assert sorted == [sorted[0]] + sorted[1..];
      AboveAll(sorted[0].psnr, sorted[1..], rec, rest);
      [sorted[0]] + rest
    else
      assert forall k :: 0 <= k < |sorted| ==> AtLeast(rec.psnr, sorted[k].psnr) by {
        forall k | 0 <= k < |sorted|
          ensures AtLeast(rec.psnr, sorted[k].psnr)
        {
          AtLeastTotalOrder(rec.psnr, sorted[0].psnr, sorted[k].psnr);
        }
      }
      [rec] + sorted
  }

  /** The leaderboard: the rows of the store, ordered by psnr descending
      (+inf first). */
  function OrderByPsnrDesc(rows: seq<Record>): (board: seq<Record>)
    ensures Descending(board)
    ensures multiset(board) == multiset(rows)
  {
    if rows == [] then []
    else
      assert rows == rows[..|rows| - 1] + [rows[|rows| - 1]];
      Insert(rows[|rows| - 1], OrderByPsnrDesc(rows[..|rows| - 1]))
  }
}
