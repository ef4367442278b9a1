# PSNR submission leaderboard: the evaluation engine

This project models the core of a small image-submission leaderboard, written in
Python with Streamlit (`app.py`). A user uploads a zip of generated images under
a username. Each image is compared with the reference image of the same name in
the `test_images` folder by PSNR (peak signal-to-noise ratio). The average PSNR
is saved as one row of a score table, and the table is shown as a leaderboard,
highest score first.

The model covers:

- **Reference selection** (`References`). The folder listing is filtered to the
  names ending in `.png`, `.jpg` or `.jpeg`. The filter keeps listing order and
  keeps nothing else.
- **The comparator** (`Psnr`). This is `calculate_psnr` on decoded RGB images,
  including numpy's broadcasting of `original - generated`. It returns +inf
  exactly when the mean squared difference is 0. The finite value
  `20 * log10(255 / sqrt(mse))` is floating point and is passed in as a
  parameter `db: real -> real` applied to the exact mse.
- **The evaluation flow** (`Evaluation`). This covers the gates of `main()`:
  the folder exists, there are references, a zip was uploaded, the username is
  non-empty, and the entry count matches. Then comes the loop that scores each
  reference in order and stops at the first failure. The score list is
  averaged with Python's `sum(...) / len(...)`, where +inf absorbs.
  `Evaluate` specifies the whole decision chain and `PairAll` the loop;
  `ScoreReferences` is the loop as a `while` loop proved against `PairAll`.
  Each iteration compares with `calculate_psnr` as written, broadcasting
  included.
- **The score store and leaderboard** (`Ranking`, `App`). `ScoreStore` is a
  class holding the table as a `seq` of rows. `SaveScore` appends one row.
  `OrderByPsnrDesc` is the `ORDER BY psnr DESC` query. `HandleRequest` is one
  run of `main()`. It saves exactly one row when the evaluation succeeds and
  none otherwise. It also shows the leaderboard unless `main()` returned early.

Inputs from outside the program become parameters:

- the folder listing, and the reference images that decode, as a `Folder`;
- the zip's `namelist()`, and the entries that decode, as a `Zip`;
- an upload that is not a zip at all, as `Corrupt`;
- the finite PSNR formula, as `db`.

A name with no image in a map stands for a file whose decoding raised.
Decoded images are the subset type `Image`: at least one row and one column,
and every row the same width.

Three facts about `app.py` shape the model:

- the leaderboard lists every submission, with no grouping per user;
- there is one image modality, with peak 255;
- `calculate_psnr` has no shape check (see Findings).

## Model

| member | source | states |
|---|---|---|
| `References.ImageNameEndsInG` | app.py:75 | every name the filter keeps ends in a lower-case g |
| `References.IsImageNameCases` | app.py:75 | names ending in .png, .jpg or .jpeg are kept; the match is case-sensitive, so .PNG, .JPG and .JPEG are dropped, and so is .gif |
| `References.ReferenceFiles` | app.py:75 | every reference is an image name, and there are no more references than listing entries |
| `References.ReferenceFilesCounts` | app.py:75 | each name occurs among the references as often as in the listing if it ends in .png/.jpg/.jpeg, and not at all otherwise |
| `References.ReferenceFilesConcat` | app.py:75 | filtering keeps listing order: the filter of a concatenation is the concatenation of the filters |
| `References.ReferenceFilesDistinct` | app.py:75 | a listing with no repeated name gives references with no repeated name |
| `Psnr.SquaredError` | app.py:46-48 | the squared channel difference of two pixels is 0 iff the pixels are equal |
| `Psnr.RowErrorZero` | app.py:48 | the squared error summed over a row prefix is 0 iff the two broadcast images agree on every cell of it |
| `Psnr.GridErrorZero` | app.py:48 | the squared error summed over the grid is 0 iff the two broadcast images agree on every cell |
| `Psnr.ScoreOver` | app.py:48-53 | the score is +inf iff the broadcast images agree everywhere, that is, iff the mean squared difference is 0 |
| `Psnr.CalculatePsnrAsWritten` | app.py:45-53 | the comparison fails (numpy raises) iff some axis is neither equal nor of size 1; otherwise the score is +inf iff the two images agree on every cell of the broadcast grid, that is, iff the mse is 0 |
| `Psnr.BroadcastFalseMatch` | app.py:45-50 | a two-row black reference and a one-pixel black submission differ, yet the code scores them +inf; the corrected comparator refuses them |
| `Psnr.CalculatePsnr` | app.py:45-53 | a score exists iff the images have the same shape, and then it equals the code's result |
| `Psnr.AgreeOnIsEquality` | app.py:48 | on images of the same shape, agreeing on every cell is image equality |
| `Psnr.ExactMatchIffIdentical` | app.py:48-50 | the comparator returns +inf iff the two images are identical |
| `Ranking.AtLeastTotalOrder` | app.py:40 | the psnr order, with +inf highest, is total and transitive |
| `Ranking.Insert` | app.py:40 | inserting a row into a descending board keeps it descending and adds exactly that row |
| `Ranking.OrderByPsnrDesc` | app.py:38-42 | the leaderboard is sorted by psnr descending and is a permutation of the stored rows |
| `Evaluation.PairOne` | app.py:91-105 | an entry is reported missing iff its reference loaded and its name is not in the zip; a score exists iff the reference and the entry both decode and broadcast against each other, and it is calculate_psnr's result as written |
| `Evaluation.PairAll` | app.py:89-106 | a successful loop, which scores each pair with calculate_psnr as written, yields exactly one score per reference |
| `Evaluation.PairAllPrefixFailure` | app.py:97-102 | a failure among the first j references is the result of the whole loop |
| `Evaluation.PairAllScoresEach` | app.py:89-106 | a successful loop has one score per reference, and score k is the pairing result of reference k |
| `Evaluation.PairAllCollects` | app.py:89-106 | when every reference scores, the loop returns those scores in reference order |
| `Evaluation.PairAllSucceeds` | app.py:89-106 | the loop succeeds with a list iff the list has one entry per reference and entry k is the score of reference k |
| `Evaluation.FailureHasFirstFailure` | app.py:91-106 | a failed loop has a first failing reference, which fails with the reported error |
| `Evaluation.FirstFailureFails` | app.py:91-106 | when reference k is the first to fail, the loop fails with its error |
| `Evaluation.PairAllFails` | app.py:91-106 | the loop fails with e iff some reference fails with e and every earlier reference scored |
| `Evaluation.Total` | app.py:109 | the left-to-right sum is +inf iff some score is +inf |
| `Evaluation.Average` | app.py:109 | the average is +inf iff some reference scored +inf |
| `Evaluation.TotalOfConstant` | app.py:109 | the sum of n equal finite scores v is n * v |
| `Evaluation.AverageOfConstant` | app.py:109 | the average of equal scores is that score |
| `Evaluation.Evaluate` | app.py:71-112 | no folder gives FolderMissing; no reference image gives NoReferenceImages; an evaluation, a count mismatch or a missing entry happens only with references, a readable zip and a non-empty username |
| `Evaluation.EvaluateZip` | app.py:84-109 | the outcome is a count mismatch iff the entry count differs from the reference count; an evaluation has one score per reference and their average |
| `Evaluation.EvaluatedScoresEveryReference` | app.py:80-112 | an evaluation happens only with a folder, references, a readable zip and a non-empty username, and with as many entries as references; every reference is among the entries, score k is that of reference k, and the average is their mean |
| `Evaluation.CoveringListIsPermutation` | app.py:85-102 | a list as long as a list of distinct names that contains all of them is a permutation of it |
| `Evaluation.EvaluatedEntriesAreReferences` | app.py:85-102 | with a duplicate-free listing, success means the zip entries are exactly the reference names, each once |
| `Evaluation.MissingEntryIsFirstAbsent` | app.py:97-102 | a missing-entry outcome names the first reference, in order, that is absent from the zip; every earlier reference scored |
| `Evaluation.IdenticalCopiesScoreInf` | app.py:45-112 | a zip with an identical copy of each reference scores +inf on every item and on average |
| `Evaluation.BroadcastSubmissionScoresInf` | app.py:45-112 | end to end, a one-pixel black submission for a two-row black reference is evaluated as an exact match, average +inf, though the images differ |
| `Evaluation.ScoreReferences` | app.py:89-106 | the while loop returns exactly `PairAll`: all scores in reference order, or the first failure |
| `App.ScoreStore.constructor` | app.py:14-25 | a fresh score table is empty |
| `App.ScoreStore.SaveScore` | app.py:28-35 | saving appends exactly one (username, psnr) row and leaves earlier rows untouched |
| `App.EarlyReturns` | app.py:71-102 | main() leaves before the leaderboard iff the folder is missing, has no reference image, or a readable zip under a username has the wrong entry count or the pairing loop's first failing reference is absent from the zip |
| `App.HandleRequest` | app.py:56-127 | the outcome is the specified one; one row (username, average) is appended iff the evaluation succeeded, and the store is unchanged on every other outcome; the leaderboard read after the save is shown unless main() returned early |

## Left out

- The Streamlit interface: titles, text input, uploader, messages, `st.table`, and the reference-image grid (app.py:57-58, 65-68, 114, 125-135). This is presentation only. The model keeps only which outcomes reach the leaderboard display.
- The finite PSNR value `20 * log10(255 / sqrt(mse))` and the float32 casts (app.py:46-47, 51-53). These are floating point. The finite value is the parameter `db`, and arithmetic is on exact reals. The exact-match branch does not depend on rounding: the pixel values, their differences and squares are exact in float32, and a sum of non-negative terms is 0 only if every term is 0.
- `Evaluation.Average`: treats the float sum as an exact real sum. NaN and -inf cannot arise from well-formed images.
- Image decoding by PIL, `convert('RGB')`, and zip parsing (app.py:83-84, 94, 98-99). These are foreign libraries. They are replaced by name lists and name-to-image maps.
- Zero-size images: PNG and JPEG cannot encode them. The `Image` type excludes them, so the NaN mean of an empty array is not modelled.
- `os.path.exists` and `os.listdir` (app.py:72, 75): filesystem I/O. The folder is an input. That the listing has no repeated names is a requirement of `Evaluation.EvaluatedEntriesAreReferences` only.
- SQLite and pandas (app.py:14-25, 29-35, 39-42). The table is a `seq` of rows. The order of rows with equal psnr is not fixed by SQL. The model's sort puts rows of equal psnr in insertion order, so the board that `App.HandleRequest` shows has that tie order. The query does not promise it; it is the model's choice. Database errors inside `save_score` are not modelled.
- The `AUTOINCREMENT` id column: a row's position in the sequence stands for it.
- inference.py `run_inference` is not part of this model: it loads a torch model and runs it on random input.

## Findings

| source | as written | input that shows it | evidently intended | confidence | as-written member | corrected member |
|---|---|---|---|---|---|---|
| app.py:45-53 | `original - generated` broadcasts. Images of different shapes are compared whenever each axis is equal or of size 1, and the smaller image is stretched over the larger. | reference of 2 rows x 1 column, both pixels black; submission of 1 x 1, black: mse is 0 and the score is +inf | images of different shapes are not compared, and +inf means the two images are identical | medium, not executed | `Psnr.BroadcastFalseMatch` | `Psnr.ExactMatchIffIdentical` |

The evaluation flow (`Evaluation.PairOne`, `Evaluation.ScoreReferences`,
`App.HandleRequest`) models `main()` as written: it compares with
`Psnr.CalculatePsnrAsWritten`, so a submission that merely broadcasts is
scored and saved (`Evaluation.BroadcastSubmissionScoresInf`), and only an
incompatible axis stops the evaluation with `Unbroadcastable`, like any other
exception caught at app.py:118-119. `Psnr.CalculatePsnr` is the corrected
comparator. It refuses images of different shapes, returns exactly the code's
result on images of equal shape, and gives +inf only for identical images
(`Psnr.ExactMatchIffIdentical`). `Evaluation.IdenticalCopiesScoreInf` holds
for both.
