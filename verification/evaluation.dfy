/** The evaluation flow of main() (app.py:71-122): the reference gate, the
    upload and username gate, the entry-count check, the pairing loop that
    scores each reference against the submitted image of the same name,
    and the average. Image decoding and zip reading are replaced by what
    they deliver: a list of names and a map from name to decoded image, in
    which a name without an image is one whose decoding raised. */
module Evaluation {
  import opened Base
  import opened Psnr
  import opened References

  /** The reference folder 'test_images': absent, or its listing with the
      images that decode (Image.open(...).convert('RGB') at app.py:94). */
  datatype Folder = NoFolder | Folder(listing: seq<string>, images: map<string, Image>)

  /** A readable zip: its namelist() and the entries that decode (app.py:99). */
  datatype Zip = Zip(names: seq<string>, images: map<string, Image>)

  /** The uploaded file: not a zip at all (zipfile raises), or a readable one. */
  datatype Upload = Corrupt | Readable(zip: Zip)

  /** Exceptions that reach the catch-all at app.py:118-119. */
  datatype Cause =
    | CorruptArchive
    | UnreadableReference(name: string)
    | UnreadableSubmission(name: string)
    | Unbroadcastable(name: string)              // numpy cannot broadcast the two arrays

  /** Why scoring one reference stopped the loop: the early return at
      app.py:100-102, or an exception. */
  datatype PairError = Absent(name: string) | Raised(cause: Cause)

  /** What one run of main() ends with. */
  datatype Outcome =
    | FolderMissing                              // app.py:72-74
    | NoReferenceImages                          // app.py:76-78
    | NoSubmission                               // app.py:80, nothing uploaded
    | UsernameRequired                           // app.py:121-122
    | CountMismatch(expected: nat, actual: nat)  // app.py:85-87
    | MissingEntry(name: string)                 // app.py:100-102
    | Crashed(cause: Cause)                      // app.py:118-119
    | Evaluated(scores: seq<Score>, average: Score)

  /** One iteration of the loop at app.py:91-106: load the reference, look
      its name up among the zip entries, decode the submitted image, and
      compare the two with calculate_psnr as written. A missing entry is
      reported only for a reference that loaded, and a score exists only
      for an entry that is present and broadcasts against its reference. */
  function PairOne(ref: string, refImages: map<string, Image>, zip: Zip, db: real -> real): (r: Result<Score, PairError>)
    ensures r == Failure(Absent(ref)) <==> ref in refImages && ref !in zip.names
    ensures r.Success? <==>
              ref in refImages && ref in zip.names && ref in zip.images &&
              CalculatePsnrAsWritten(refImages[ref], zip.images[ref], db).Some?
    ensures r.Success? ==> Some(r.value) == CalculatePsnrAsWritten(refImages[ref], zip.images[ref], db)
  {
    if ref !in refImages then Failure(Raised(UnreadableReference(ref)))
    else if ref !in zip.names then Failure(Absent(ref))
    else if ref !in zip.images then Failure(Raised(UnreadableSubmission(ref)))
    else match CalculatePsnrAsWritten(refImages[ref], zip.images[ref], db)
      case None => Failure(Raised(Unbroadcastable(ref)))
      case Some(s) => Success(s)
  }

  /** The whole loop: the scores of all references in order, or the first
      failure. */
  function PairAll(refs: seq<string>, refImages: map<string, Image>, zip: Zip, db: real -> real): (r: Result<seq<Score>, PairError>)
    ensures r.Success? ==> |r.value| == |refs|
  {
    if refs == [] then Success([])
    else match PairAll(refs[..|refs| - 1], refImages, zip, db)
      case Failure(e) => Failure(e)
      case Success(scores) =>
        match PairOne(refs[|refs| - 1], refImages, zip, db)
        case Failure(e) => Failure(e)
        case Success(s) => Success(scores + [s])
  }

  /** A failure on a prefix of the references is the failure of the whole
      loop: later references are never looked at. */
  lemma {:induction false} PairAllPrefixFailure(refs: seq<string>, j: nat, refImages: map<string, Image>, zip: Zip, db: real -> real)
    requires j <= |refs|
    requires PairAll(refs[..j], refImages, zip, db).Failure?
    ensures PairAll(refs, refImages, zip, db) == PairAll(refs[..j], refImages, zip, db)
  {
    if j == |refs| {
      assert refs[..j] == refs;
    } else {
      var front := refs[..|refs| - 1];
      assert front[..j] == refs[..j];
      PairAllPrefixFailure(front, j, refImages, zip, db);
    }
  }

  /** A successful loop scored every reference, in reference order. */
  lemma {:induction false} PairAllScoresEach(refs: seq<string>, refImages: map<string, Image>, zip: Zip, db: real -> real, scores: seq<Score>)
    requires PairAll(refs, refImages, zip, db) == Success(scores)
    ensures |scores| == |refs|
    ensures forall k :: 0 <= k < |refs| ==> PairOne(refs[k], refImages, zip, db) == Success(scores[k])
  {
    if refs != [] {
      var n := |refs| - 1;
      var front := scores[..n];
      assert PairAll(refs[..n], refImages, zip, db) == Success(front);
      PairAllScoresEach(refs[..n], refImages, zip, db, front);
      forall k | 0 <= k < n
        ensures PairOne(refs[k], refImages, zip, db) == Success(scores[k])
      {
        assert refs[..n][k] == refs[k] && front[k] == scores[k];
      }
    }
  }

  /** When every reference scores, the loop returns those scores in order. */
  lemma {:induction false} PairAllCollects(refs: seq<string>, refImages: map<string, Image>, zip: Zip, db: real -> real, scores: seq<Score>)
    requires |scores| == |refs|
    requires forall k :: 0 <= k < |refs| ==> PairOne(refs[k], refImages, zip, db) == Success(scores[k])
    ensures PairAll(refs, refImages, zip, db) == Success(scores)
  {
    if refs != [] {
      var n := |refs| - 1;
      forall k | 0 <= k < n
        ensures PairOne(refs[..n][k], refImages, zip, db) == Success(scores[..n][k])
      {
        assert refs[..n][k] == refs[k] && scores[..n][k] == scores[k];
      }
      PairAllCollects(refs[..n], refImages, zip, db, scores[..n]);
      assert scores == scores[..n] + [scores[n]];
    }
  }

  /** The loop succeeds exactly when every reference scores, and then it
      yields one score per reference, in reference order. */
  lemma PairAllSucceeds(refs: seq<string>, refImages: map<string, Image>, zip: Zip, db: real -> real, scores: seq<Score>)
    ensures PairAll(refs, refImages, zip, db) == Success(scores) <==>
            |scores| == |refs| &&
            forall k :: 0 <= k < |refs| ==> PairOne(refs[k], refImages, zip, db) == Success(scores[k])
  {
    if PairAll(refs, refImages, zip, db) == Success(scores) {
      PairAllScoresEach(refs, refImages, zip, db, scores);
    }
    if |scores| == |refs| && forall k :: 0 <= k < |refs| ==> PairOne(refs[k], refImages, zip, db) == Success(scores[k]) {
      PairAllCollects(refs, refImages, zip, db, scores);
    }
  }

  /** Reference k is the first one that fails, and it fails with `e`. */
  predicate FirstFailure(refs: seq<string>, refImages: map<string, Image>, zip: Zip, db: real -> real, k: nat, e: PairError)
  {
    k < |refs| && PairOne(refs[k], refImages, zip, db) == Failure(e) &&
    forall j :: 0 <= j < k ==> PairOne(refs[j], refImages, zip, db).Success?
  }

  lemma {:induction false} FailureHasFirstFailure(refs: seq<string>, refImages: map<string, Image>, zip: Zip, db: real -> real, e: PairError)
    returns (k: nat)
    requires PairAll(refs, refImages, zip, db) == Failure(e)
    ensures FirstFailure(refs, refImages, zip, db, k, e)
  {
    var n := |refs| - 1;
    var front := refs[..n];
    match PairAll(front, refImages, zip, db)
    case Failure(_) =>
      k := FailureHasFirstFailure(front, refImages, zip, db, e);
      assert refs[k] == front[k];
      forall j | 0 <= j < k
        ensures PairOne(refs[j], refImages, zip, db).Success?
      {
        assert refs[j] == front[j];
      }
    case Success(scores) =>
      k := n;
      PairAllSucceeds(front, refImages, zip, db, scores);
      forall j | 0 <= j < k
        ensures PairOne(refs[j], refImages, zip, db).Success?
      {
        assert refs[j] == front[j];
      }
  }

  lemma FirstFailureFails(refs: seq<string>, refImages: map<string, Image>, zip: Zip, db: real -> real, k: nat, e: PairError)
    requires FirstFailure(refs, refImages, zip, db, k, e)
    ensures PairAll(refs, refImages, zip, db) == Failure(e)
  {
    var front := refs[..k];
    var scores := seq(k, j requires 0 <= j < k => PairOne(front[j], refImages, zip, db).value);
    forall j | 0 <= j < k
      ensures PairOne(front[j], refImages, zip, db) == Success(scores[j])
    {
      assert front[j] == refs[j];
    }
    PairAllSucceeds(front, refImages, zip, db, scores);
    assert refs[..k + 1][..k] == front;
    PairAllPrefixFailure(refs, k + 1, refImages, zip, db);
  }

  /** The loop fails with `e` exactly when some reference fails with `e`
      and every reference before it scored. */
  lemma PairAllFails(refs: seq<string>, refImages: map<string, Image>, zip: Zip, db: real -> real, e: PairError)
    ensures PairAll(refs, refImages, zip, db) == Failure(e) <==>
            exists k :: FirstFailure(refs, refImages, zip, db, k, e)
  {
    if PairAll(refs, refImages, zip, db) == Failure(e) {
      var k := FailureHasFirstFailure(refs, refImages, zip, db, e);
    }
    if k :| FirstFailure(refs, refImages, zip, db, k, e) {
      FirstFailureFails(refs, refImages, zip, db, k, e);
    }
  }

  /** Python's sum(psnr_values) (app.py:109): the values are added left
      to right starting from 0, and the sum is +inf exactly when some value
      is +inf. */
  function Total(scores: seq<Score>): (t: Score)
    ensures t == Inf <==> exists k :: 0 <= k < |scores| && scores[k] == Inf
  {
    if scores == [] then Finite(0.0)
    else
      var n := |scores| - 1;
      var front := Total(scores[..n]);
      assert (exists k :: 0 <= k < n && scores[..n][k] == Inf) <==> (exists k :: 0 <= k < n && scores[k] == Inf) by {
        if exists k :: 0 <= k < n && scores[k] == Inf {
          var k :| 0 <= k < n && scores[k] == Inf;
          assert scores[..n][k] == Inf;
        }
      }
      Plus(front, scores[n])
  }

  /** sum(psnr_values) / len(psnr_values) (app.py:109): the average is +inf
      exactly when one reference was matched exactly. */
  function Average(scores: seq<Score>): (avg: Score)
    requires |scores| > 0
    ensures avg == Inf <==> exists k :: 0 <= k < |scores| && scores[k] == Inf
  {
    match Total(scores)
    case Inf => Inf
    case Finite(t) => Finite(t / |scores| as real)
  }

  lemma {:induction false} TotalOfConstant(scores: seq<Score>, v: real)
    requires forall k :: 0 <= k < |scores| ==> scores[k] == Finite(v)
    ensures Total(scores) == Finite(|scores| as real * v)
  {
    if scores != [] {
      TotalOfConstant(scores[..|scores| - 1], v);
    }
  }

  /** When every reference scores the same, the average is that score. */
  lemma AverageOfConstant(scores: seq<Score>, s: Score)
    requires |scores| > 0
    requires forall k :: 0 <= k < |scores| ==> scores[k] == s
    ensures Average(scores) == s
  {
    if s.Inf? {
      assert scores[0] == Inf;
    } else {
      TotalOfConstant(scores, s.value);
      var n := |scores| as real;
      assert Total(scores) == Finite(n * s.value);
      assert n * s.value / n == s.value;
    }
  }

  /** The decisions main() takes before and around the loop. Nothing is
      read from the upload without a folder that holds reference images,
      and nothing is evaluated without a readable zip and a username. */
  function Evaluate(folder: Folder, username: string, upload: Option<Upload>, db: real -> real): (outcome: Outcome)
    ensures folder.NoFolder? ==> outcome == FolderMissing
    ensures folder.Folder? && ReferenceFiles(folder.listing) == [] ==> outcome == NoReferenceImages
    ensures outcome.Evaluated? || outcome.CountMismatch? || outcome.MissingEntry? ==>
              folder.Folder? && ReferenceFiles(folder.listing) != [] &&
              upload.Some? && upload.value.Readable? && username != ""
  {
    if folder.NoFolder? then FolderMissing
    else
      var refs := ReferenceFiles(folder.listing);
      if refs == [] then NoReferenceImages
      else if upload.None? then NoSubmission
      else if username == "" then UsernameRequired
      else match upload.value
        case Corrupt => Crashed(CorruptArchive)
        case Readable(zip) => EvaluateZip(refs, folder.images, zip, db)
  }

  /** The body of the `with zipfile.ZipFile(...)` block (app.py:84-109):
      the count check comes first, and an evaluation yields one score per
      reference. */
  function EvaluateZip(refs: seq<string>, refImages: map<string, Image>, zip: Zip, db: real -> real): (outcome: Outcome)
    requires refs != []
    ensures outcome.CountMismatch? <==> |zip.names| != |refs|
    ensures outcome.CountMismatch? ==> outcome == CountMismatch(|refs|, |zip.names|)
    ensures outcome.Evaluated? ==> |outcome.scores| == |refs| && outcome.average == Average(outcome.scores)
  {
    if |zip.names| != |refs| then CountMismatch(|refs|, |zip.names|)
    else match PairAll(refs, refImages, zip, db)
      case Failure(Absent(name)) => MissingEntry(name)
      case Failure(Raised(cause)) => Crashed(cause)
      case Success(scores) => Evaluated(scores, Average(scores))
  }

  /** Evaluation happens only behind every gate, and then yields one score
      per reference file, in reference order, with their average. */
  lemma EvaluatedScoresEveryReference(folder: Folder, username: string, upload: Option<Upload>, db: real -> real)
    ensures var outcome := Evaluate(folder, username, upload, db);
            outcome.Evaluated? ==>
              folder.Folder? && upload.Some? && upload.value.Readable? && username != "" &&
              var refs, zip := ReferenceFiles(folder.listing), upload.value.zip;
              |refs| > 0 && |zip.names| == |refs| && |outcome.scores| == |refs| &&
              (forall k :: 0 <= k < |refs| ==>
                 refs[k] in zip.names &&
                 PairOne(refs[k], folder.images, zip, db) == Success(outcome.scores[k])) &&
              outcome.average == Average(outcome.scores)
  {
    var outcome := Evaluate(folder, username, upload, db);
    if outcome.Evaluated? {
      var refs, zip := ReferenceFiles(folder.listing), upload.value.zip;
      PairAllSucceeds(refs, folder.images, zip, db, outcome.scores);
    }
  }

  /** A list as long as a list of distinct names that contains all of them
      holds exactly those names, each once. */
  lemma CoveringListIsPermutation(refs: seq<string>, names: seq<string>)
    requires Distinct(refs) && |names| == |refs|
    requires forall k :: 0 <= k < |refs| ==> refs[k] in names
    ensures multiset(names) == multiset(refs)
  {
    var want, got := multiset(refs), multiset(names);
    forall n
      ensures want[n] <= got[n]
    {
      if want[n] > 0 {
        assert n in refs;
        var k :| 0 <= k < |refs| && refs[k] == n;
        assert n in names;
      }
    }
    assert want <= got;
    var extra := got - want;
    assert got == want + extra;
    assert |extra| == 0;
  }

  /** Since reference names are distinct and the count check passed, a
      successful evaluation also means that the zip held nothing but the
      reference files, each once. */
  lemma EvaluatedEntriesAreReferences(folder: Folder, username: string, upload: Option<Upload>, db: real -> real)
    requires folder.Folder? && Distinct(folder.listing)
    ensures Evaluate(folder, username, upload, db).Evaluated? ==>
              upload.Some? && upload.value.Readable? &&
              multiset(upload.value.zip.names) == multiset(ReferenceFiles(folder.listing))
  {
    if Evaluate(folder, username, upload, db).Evaluated? {
      var refs, zip := ReferenceFiles(folder.listing), upload.value.zip;
      EvaluatedScoresEveryReference(folder, username, upload, db);
      ReferenceFilesDistinct(folder.listing);
      CoveringListIsPermutation(refs, zip.names);
    }
  }

  /** A missing entry is reported for the first reference, in reference
      order, whose name is not among the zip entries; every earlier
      reference was scored. */
  lemma MissingEntryIsFirstAbsent(folder: Folder, username: string, upload: Option<Upload>, db: real -> real, name: string)
    requires Evaluate(folder, username, upload, db) == MissingEntry(name)
    ensures folder.Folder? && upload.Some? && upload.value.Readable?
    ensures var refs, zip := ReferenceFiles(folder.listing), upload.value.zip;
            exists k: nat :: FirstFailure(refs, folder.images, zip, db, k, Absent(name)) &&
                        refs[k] == name && name !in zip.names && name in folder.images
  {
    assert folder.Folder?;
    var refs := ReferenceFiles(folder.listing);
    assert upload.Some? && upload.value.Readable?;
    var zip := upload.value.zip;
    assert EvaluateZip(refs, folder.images, zip, db) == MissingEntry(name);
    assert PairAll(refs, folder.images, zip, db) == Failure(Absent(name));
    var k := FailureHasFirstFailure(refs, folder.images, zip, db, Absent(name));
    assert refs[k] == name && name !in zip.names && name in folder.images;
    assert refs == ReferenceFiles(folder.listing) && zip == upload.value.zip;
  }

  /** End to end: a zip holding an identical copy of every reference image
      scores +inf on every item and on average. */
  lemma IdenticalCopiesScoreInf(folder: Folder, username: string, zip: Zip, db: real -> real)
    requires folder.Folder? && username != ""
    requires var refs := ReferenceFiles(folder.listing);
             refs != [] && |zip.names| == |refs| &&
             forall k :: 0 <= k < |refs| ==>
               refs[k] in zip.names && refs[k] in folder.images && refs[k] in zip.images &&
               zip.images[refs[k]] == folder.images[refs[k]]
    ensures var refs := ReferenceFiles(folder.listing);
            Evaluate(folder, username, Some(Readable(zip)), db) == Evaluated(seq(|refs|, _ => Inf), Inf)
  {
    var refs := ReferenceFiles(folder.listing);
    var scores := seq(|refs|, _ => Inf);
    forall k | 0 <= k < |refs|
      ensures PairOne(refs[k], folder.images, zip, db) == Success(scores[k])
    {
      var ref := refs[k];
      ExactMatchIffIdentical(folder.images[ref], zip.images[ref], db);
      assert CalculatePsnrAsWritten(folder.images[ref], zip.images[ref], db) == Some(Inf);
    }
    PairAllSucceeds(refs, folder.images, zip, db, scores);
    assert PairAll(refs, folder.images, zip, db) == Success(scores);
    AverageOfConstant(scores, Inf);
    assert EvaluateZip(refs, folder.images, zip, db) == Evaluated(scores, Inf);
  }

  /** End to end, as written: a one-pixel black submission for a reference
      of two black rows broadcasts, scores +inf, and is saved as an exact
      match although the two images differ. */
  lemma BroadcastSubmissionScoresInf(username: string, db: real -> real)
    requires username != ""
    ensures var reference: Image, submitted: Image := [[Rgb(0, 0, 0)], [Rgb(0, 0, 0)]], [[Rgb(0, 0, 0)]];
            var folder, zip := Folder(["a.png"], map["a.png" := reference]), Zip(["a.png"], map["a.png" := submitted]);
            reference != submitted &&
            Evaluate(folder, username, Some(Readable(zip)), db) == Evaluated([Inf], Inf)
  {
    var reference: Image, submitted: Image := [[Rgb(0, 0, 0)], [Rgb(0, 0, 0)]], [[Rgb(0, 0, 0)]];
    var folder, zip := Folder(["a.png"], map["a.png" := reference]), Zip(["a.png"], map["a.png" := submitted]);
    BroadcastFalseMatch(db);
    var refs := ["a.png"];
    assert refs[..0] == [];
    assert ReferenceFiles(refs) == refs;
    assert PairOne("a.png", folder.images, zip, db) == Success(Inf);
    PairAllSucceeds(refs, folder.images, zip, db, [Inf]);
    AverageOfConstant([Inf], Inf);
    assert EvaluateZip(refs, folder.images, zip, db) == Evaluated([Inf], Inf);
  }

  /** The loop of app.py:89-106: walks the references in order, appending
      one score per reference, and leaves at the first failure. */
  method ScoreReferences(refs: seq<string>, refImages: map<string, Image>, zip: Zip, db: real -> real)
    returns (r: Result<seq<Score>, PairError>)
    ensures r == PairAll(refs, refImages, zip, db)
  {
    var psnrValues: seq<Score> := [];
    var i := 0;
    while i < |refs|
      invariant 0 <= i <= |refs|
      invariant PairAll(refs[..i], refImages, zip, db) == Success(psnrValues)
    {
      var ref := refs[i];
      var step: Result<Score, PairError>;
      if ref !in refImages {
        step := Failure(Raised(UnreadableReference(ref)));
      } else if ref !in zip.names {
        step := Failure(Absent(ref));
      } else if ref !in zip.images {
        step := Failure(Raised(UnreadableSubmission(ref)));
      } else {
        var psnr := CalculatePsnrAsWritten(refImages[ref], zip.images[ref], db);
        step := if psnr.Some? then Success(psnr.value) else Failure(Raised(Unbroadcastable(ref)));
        assert step == PairOne(ref, refImages, zip, db);
      }
      assert step == PairOne(ref, refImages, zip, db);
      assert refs[..i + 1][..i] == refs[..i] && refs[..i + 1][i] == ref;
      if step.Failure? {
        r := Failure(step.error);
        PairAllPrefixFailure(refs, i + 1, refImages, zip, db);
        return;
      }
      psnrValues := psnrValues + [step.value];
      i := i + 1;
    }
    assert refs[..i] == refs;
    r := Success(psnrValues);
  }
}
