/** One run of main() (app.py:56-135) against a persistent score table:
    the table is the only state, and it changes only by save_score. */
module App {
  import opened Base
  import opened References
  import opened Ranking
  import opened Evaluation

  /** The scores table of scores.db, in insertion order. */
  class ScoreStore {
    var rows: seq<Record>

    /** init_db on a fresh database file (app.py:14-25): an empty table. */
    constructor ()
      ensures rows == []
    {
      rows := [];
    }

    /** save_score (app.py:28-35): one INSERT, nothing else changes. */
    method SaveScore(username: string, psnr: Score)
      modifies this
      ensures rows == old(rows) + [Record(username, psnr)]
    {
      rows := rows + [Record(username, psnr)];
    }
  }

  /** The `return`s at app.py:74, 78, 87 and 102 leave main() before the
      leaderboard is shown; every other outcome reaches app.py:124-127. */
  predicate EndsEarly(outcome: Outcome)
  {
    outcome.FolderMissing? || outcome.NoReferenceImages? || outcome.CountMismatch? || outcome.MissingEntry?
  }

  /** main() leaves before the leaderboard exactly when the folder is
      missing, holds no reference image, or a readable zip under a username
      has the wrong number of entries or lacks a reference's name. */
  lemma EarlyReturns(folder: Folder, username: string, upload: Option<Upload>, db: real -> real)
    ensures EndsEarly(Evaluate(folder, username, upload, db)) <==>
            folder.NoFolder? ||
            (var refs := ReferenceFiles(folder.listing);
             refs == [] ||
             (upload.Some? && upload.value.Readable? && username != "" &&
              var zip := upload.value.zip;
              |zip.names| != |refs| ||
              (PairAll(refs, folder.images, zip, db).Failure? && PairAll(refs, folder.images, zip, db).error.Absent?)))
  {
  }

  /** main(): the outcome is the one Evaluate describes; exactly one row,
      the user's average, is saved when and only when the whole evaluation
      succeeded, and the store is untouched otherwise; the leaderboard
      shown, if any, is read after the save. */
  method HandleRequest(store: ScoreStore, folder: Folder, username: string, upload: Option<Upload>, db: real -> real)
    returns (outcome: Outcome, shown: Option<seq<Record>>)
    modifies store
    ensures outcome == Evaluate(folder, username, upload, db)
    ensures outcome.Evaluated? ==> store.rows == old(store.rows) + [Record(username, outcome.average)]
    ensures !outcome.Evaluated? ==> store.rows == old(store.rows)
    ensures shown == if EndsEarly(outcome) then None else Some(OrderByPsnrDesc(store.rows))
  {
    if folder.NoFolder? {
      outcome := FolderMissing;
    } else {
      var originalImageFiles := ReferenceFiles(folder.listing);
      if originalImageFiles == [] {
        outcome := NoReferenceImages;
      } else if upload.Some? && username != "" {
        match upload.value
        case Corrupt =>
          outcome := Crashed(CorruptArchive);
        case Readable(zip) =>
          assert Evaluate(folder, username, upload, db) == EvaluateZip(originalImageFiles, folder.images, zip, db);
          if |zip.names| != |originalImageFiles| {
            outcome := CountMismatch(|originalImageFiles|, |zip.names|);
          } else {
            var pairing := ScoreReferences(originalImageFiles, folder.images, zip, db);
            match pairing
            case Failure(Absent(name)) =>
              outcome := MissingEntry(name);
            case Failure(Raised(cause)) =>
              outcome := Crashed(cause);
            case Success(psnrValues) =>
              var averagePsnr := Average(psnrValues);
              store.SaveScore(username, averagePsnr);
              outcome := Evaluated(psnrValues, averagePsnr);
          }
      } else if upload.Some? {
        outcome := UsernameRequired;
      } else {
        outcome := NoSubmission;
      }
    }
    // the outcomes that `return` early never reach the leaderboard
    shown := if EndsEarly(outcome) then None else Some(OrderByPsnrDesc(store.rows));
  }
}
