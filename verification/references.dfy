/** Reference selection (app.py:75): the entries of the reference folder
    whose names end in .png, .jpg or .jpeg, in listing order. */
module References {

  predicate EndsWith(name: string, suffix: string)
  {
    |suffix| <= |name| && name[|name| - |suffix|..] == suffix
  }

  /** Python's name.endswith(('.png', '.jpg', '.jpeg')), case-sensitive. */
  predicate IsImageName(name: string)
  {
    EndsWith(name, ".png") || EndsWith(name, ".jpg") || EndsWith(name, ".jpeg")
  }

  /** A name that passes the filter ends in a lower-case `g`. */
  lemma ImageNameEndsInG(name: string)
    requires IsImageName(name)
    ensures name[|name| - 1] == 'g'
  {
    if EndsWith(name, ".png") {
      assert name[|name| - 1] == name[|name| - 4..][3];
    } else if EndsWith(name, ".jpg") {
      assert name[|name| - 1] == name[|name| - 4..][3];
    } else {
      assert name[|name| - 1] == name[|name| - 5..][4];
    }
  }

  lemma EndsWithAppend(stem: string, ext: string)
    ensures EndsWith(stem + ext, ext)
  {
    assert (stem + ext)[|stem|..] == ext;
  }

  /** A name whose last character is not `g` is not an image name. */
  lemma RejectedByLastChar(stem: string, ext: string)
    requires |ext| > 0 && ext[|ext| - 1] != 'g'
    ensures !IsImageName(stem + ext)
  {
    var name := stem + ext;
    assert name[|name| - 1] == ext[|ext| - 1];
    if IsImageName(name) {
      ImageNameEndsInG(name);
    }
  }

  /** The filter matches the lower-case suffix only: `.png`, `.jpg` and
      `.jpeg` names are kept, and `.PNG`, `.JPG`, `.JPEG` and `.gif` names
      are not. */
  lemma IsImageNameCases(stem: string)
    ensures IsImageName(stem + ".png") && IsImageName(stem + ".jpg") && IsImageName(stem + ".jpeg")
    ensures !IsImageName(stem + ".PNG") && !IsImageName(stem + ".JPG") && !IsImageName(stem + ".JPEG") && !IsImageName(stem + ".gif")
  {
    EndsWithAppend(stem, ".png");
    EndsWithAppend(stem, ".jpg");
    EndsWithAppend(stem, ".jpeg");
    RejectedByLastChar(stem, ".PNG");
    RejectedByLastChar(stem, ".JPG");
    RejectedByLastChar(stem, ".JPEG");
    RejectedByLastChar(stem, ".gif");
  }

  /** No name occurs twice (os.listdir never repeats a name). */
  ghost predicate Distinct(names: seq<string>)
  {
    forall n :: multiset(names)[n] <= 1
  }

  /** The list comprehension over os.listdir: the image names of the
      listing, in listing order. */
  function ReferenceFiles(listing: seq<string>): (refs: seq<string>)
    ensures |refs| <= |listing|
    ensures forall k :: 0 <= k < |refs| ==> IsImageName(refs[k])
  {
    if listing == [] then []
    else
      var last := listing[|listing| - 1];
      ReferenceFiles(listing[..|listing| - 1]) + (if IsImageName(last) then [last] else [])
  }

  /** The references are every image name of the listing, as often as it
      occurs there, and nothing else. */
  lemma {:induction false} ReferenceFilesCounts(listing: seq<string>)
    ensures forall n :: multiset(ReferenceFiles(listing))[n] == if IsImageName(n) then multiset(listing)[n] else 0
  {
    if listing != [] {
      var front, last := listing[..|listing| - 1], listing[|listing| - 1];
      assert listing == front + [last];
      ReferenceFilesCounts(front);
    }
  }

  /** The filter keeps the listing order: filtering a concatenation
      concatenates the filtered parts. */
  lemma {:induction false} ReferenceFilesConcat(front: seq<string>, back: seq<string>)
    ensures ReferenceFiles(front + back) == ReferenceFiles(front) + ReferenceFiles(back)
  {
    if back == [] {
      assert front + back == front;
    } else {
      var n := |back| - 1;
      var whole, last := front + back, back[n];
      var kept := if IsImageName(last) then [last] else [];
      assert whole[..|whole| - 1] == front + back[..n] && whole[|whole| - 1] == last;
      assert ReferenceFiles(whole) == ReferenceFiles(front + back[..n]) + kept;
      ReferenceFilesConcat(front, back[..n]);
      assert ReferenceFiles(back) == ReferenceFiles(back[..n]) + kept;
    }
  }

  /** A listing without duplicates yields references without duplicates,
      which the pairing relies on. */
  lemma ReferenceFilesDistinct(listing: seq<string>)
    requires Distinct(listing)
    ensures Distinct(ReferenceFiles(listing))
  {
    var refs := ReferenceFiles(listing);
    ReferenceFilesCounts(listing);
    forall n
      ensures multiset(refs)[n] <= 1
    {
      assert multiset(listing)[n] <= 1;
    }
  }
}
