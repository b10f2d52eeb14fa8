/** The media rules shared by tweets, direct messages and profile pictures:
    the mimetype allow-lists, the size limits, the per-file classification,
    the compression quality and the upload loop
    (backEnd/src/controllers/tweet.controller.js, message.controller.js and
    user.controller.js). */
module Media {
  import opened Wrappers
  import opened Text

  const MIB: nat := 1024 * 1024
  const MAX_IMAGE: nat := 5 * MIB
  const MAX_GIF: nat := 5 * MIB
  const MAX_VIDEO: nat := 10 * MIB
  const MAX_DOCUMENT: nat := 10 * MIB
  /** Images are compressed towards this size. */
  const TARGET_SIZE: nat := 1 * MIB

  const MAX_TWEET_FILES: nat := 4
  const MAX_MESSAGE_FILES: nat := 5

  /** One multipart file: whether it has a buffer, its mimetype ("" when
      missing), its size in bytes and its original name. */
  datatype Upload = Upload(hasBuffer: bool, mimetype: string, size: nat, originalName: string)

  const IMAGE_TYPES: seq<string> := ["image/jpeg", "image/png", "image/gif", "image/webp", "image/svg+xml"]
  const VIDEO_TYPES: seq<string> := ["video/mp4", "video/quicktime", "video/x-msvideo", "video/webm"]
  const DOCUMENT_TYPES: seq<string> := [
    "application/pdf", "application/msword",
    "application/vnd.openxmlformats-officedocument.wordprocessingml.document",
    "text/plain", "application/rtf"]

  /** The storage resource type an accepted file is uploaded as. */
  datatype Resource = Image | Video | Raw

  /** What the per-file rules decide: reject the request with 400, upload the
      file (with a JPEG quality when it is re-encoded first), or neither. */
  datatype Verdict = Reject | Accept(resource: Resource, quality: Option<nat>) | Skip

  /** `calculateImageQuality` of the tweet and message controllers, with the
      factors 0.5 and 0.8 written as integer comparisons. */
  function ImageQuality(size: nat, maxSize: nat): (q: nat)
    ensures q in {65, 75, 85}
    ensures q == 85 <==> 2 * size <= maxSize
  {
    if 2 * size <= maxSize then 85
    else if 10 * size <= 8 * maxSize then 75
    else 65
  }

  /** A larger file never gets a higher quality. */
  lemma ImageQualityNonIncreasing(small: nat, large: nat, maxSize: nat)
    requires small <= large
    ensures ImageQuality(large, maxSize) <= ImageQuality(small, maxSize)
  {
  }

  /** `calculateImageQuality` of the user controller:
      `floor(70 * target / original)` clamped to [10, 90]. A zero original
      size makes the ratio infinite, which the clamp turns into 90. */
  function ProfileImageQuality(original: nat, target: nat): (q: nat)
    ensures 10 <= q <= 90
    ensures original == 0 || 70 * target >= 90 * original ==> q == 90
    ensures original > 0 && 70 * target < 10 * original ==> q == 10
  {
    if original == 0 then 90
    else
      var raw := 70 * target / original;
      DivBounds(70 * target, original, 90);
      DivBounds(70 * target, original, 10);
      if raw < 10 then 10 else if raw > 90 then 90 else raw
  }

  /** `n / d` reaches k exactly when n reaches k * d. */
  lemma DivBounds(n: nat, d: nat, k: nat)
    requires d > 0
    ensures n / d >= k <==> n >= k * d
  {
    var q := n / d;
    assert n == q * d + n % d;
    if q >= k {
      MulLe(d, k, q);
    } else {
      MulLe(d, q + 1, k);
    }
  }

  /** The profile quality only falls as the original grows. */
  lemma {:induction false} ProfileImageQualityNonIncreasing(small: nat, large: nat, target: nat)
    requires 0 < small <= large
    ensures ProfileImageQuality(large, target) <= ProfileImageQuality(small, target)
  {
    DivMonotone(70 * target, small, large);
  }

  lemma {:induction false} DivMonotone(n: nat, small: nat, large: nat)
    requires 0 < small <= large
    ensures n / large <= n / small
  {
    var ql, qs := n / large, n / small;
    assert ql * large <= n;
    assert ql * small <= ql * large by {
      MulLe(ql, small, large);
    }
    assert n < (qs + 1) * small;
    if ql > qs {
      MulLe(small, qs + 1, ql);
      assert false;
    }
  }

  lemma MulLe(k: nat, a: nat, b: nat)
    requires a <= b
    ensures k * a <= k * b && a * k <= b * k
  {
  }

  /** The per-file rules of `createTweet` and `updateTweet`. */
  function TweetFileVerdict(f: Upload): (v: Verdict)
    ensures v != Reject ==> f.hasBuffer && (f.mimetype in IMAGE_TYPES || f.mimetype in VIDEO_TYPES)
    ensures v.Accept? && v.resource == Video ==> f.size <= MAX_VIDEO
    ensures v.Accept? && v.resource == Image ==> f.size <= MAX_IMAGE
  {
    if !f.hasBuffer || f.mimetype == "" then Reject
    else if f.mimetype !in IMAGE_TYPES && f.mimetype !in VIDEO_TYPES then Reject
    else if StartsWith(f.mimetype, "image/") && !Contains(f.mimetype, "gif") then
      if f.size > MAX_IMAGE then Reject else Accept(Image, Some(ImageQuality(f.size, TARGET_SIZE)))
    else if Contains(f.mimetype, "gif") then
      if f.size > MAX_GIF then Reject else Accept(Image, None)
    else if StartsWith(f.mimetype, "video/") then
      if f.size > MAX_VIDEO then Reject else Accept(Video, None)
    else Skip
  }

  /** Every allow-listed type falls in one of the three branches, so a tweet
      file is never silently dropped, and it is rejected exactly when it is
      malformed, not allow-listed or over its size limit. */
  lemma TweetFileNeverSkipped(f: Upload)
    ensures TweetFileVerdict(f) != Skip
    ensures TweetFileVerdict(f) == Reject <==>
      !f.hasBuffer || (f.mimetype !in IMAGE_TYPES && f.mimetype !in VIDEO_TYPES)
      || (f.mimetype in IMAGE_TYPES && f.size > MAX_IMAGE)
      || (f.mimetype in VIDEO_TYPES && f.size > MAX_VIDEO)
  {
    if f.hasBuffer && f.mimetype in IMAGE_TYPES {
      assert StartsWith(f.mimetype, "image/");
    } else if f.hasBuffer && f.mimetype in VIDEO_TYPES {
      assert StartsWith(f.mimetype, "video/");
      assert !Contains(f.mimetype, "gif") by {
        NoGifInVideoTypes(f.mimetype);
      }
    }
  }

  lemma NoGifInVideoTypes(m: string)
    requires m in VIDEO_TYPES
    ensures !Contains(m, "gif")
  {
    assert 'g' !in m by {
      assert m == VIDEO_TYPES[0] || m == VIDEO_TYPES[1] || m == VIDEO_TYPES[2] || m == VIDEO_TYPES[3];
    }
    if Contains(m, "gif") {
      ContainsFirst(m, "gif");
    }
  }

  /** The per-file rules of `sendMessage`. */
  function MessageFileVerdict(f: Upload): (v: Verdict)
    ensures v != Skip
  {
    if !f.hasBuffer || f.mimetype == "" then Reject
    else if f.mimetype in IMAGE_TYPES && !Contains(f.mimetype, "gif") then
      if f.size > MAX_IMAGE then Reject else Accept(Image, Some(ImageQuality(f.size, TARGET_SIZE)))
    else if Contains(f.mimetype, "gif") then
      if f.size > MAX_GIF then Reject else Accept(Image, None)
    else if f.mimetype in VIDEO_TYPES then
      if f.size > MAX_VIDEO then Reject else Accept(Video, None)
    else if f.mimetype in DOCUMENT_TYPES then
      if f.size > MAX_DOCUMENT then Reject else Accept(Raw, None)
    else Reject
  }

  /** A message file whose type mentions "gif" is accepted exactly when it
      has content and is within the GIF limit, whatever else its type says. */
  lemma MessageGifAccepted(f: Upload)
    requires Contains(f.mimetype, "gif")
    ensures MessageFileVerdict(f).Accept? <==> f.hasBuffer && f.size <= MAX_GIF
  {
  }

  /** Any other message file is accepted exactly when it has content, is a
      listed image, video or document, and is within the limit of its
      class. */
  lemma MessageFileAccepted(f: Upload)
    requires !Contains(f.mimetype, "gif")
    ensures MessageFileVerdict(f).Accept? <==>
      f.hasBuffer &&
      ((f.mimetype in IMAGE_TYPES && f.size <= MAX_IMAGE)
       || (f.mimetype in VIDEO_TYPES && f.size <= MAX_VIDEO)
       || (f.mimetype in DOCUMENT_TYPES && f.size <= MAX_DOCUMENT))
  {
    TypeListsDisjoint(f.mimetype);
  }

  /** No mimetype is in two of the lists, and none is empty. */
  lemma TypeListsDisjoint(m: string)
    ensures m in IMAGE_TYPES ==> m !in VIDEO_TYPES && m !in DOCUMENT_TYPES && m != ""
    ensures m in VIDEO_TYPES ==> m !in DOCUMENT_TYPES && m != ""
    ensures m in DOCUMENT_TYPES ==> m != ""
  {
    if m in IMAGE_TYPES {
      assert m[0] == 'i';
    } else if m in VIDEO_TYPES {
      assert m[0] == 'v';
    }
  }

  /** One stored media entry: the uploaded URL, the mimetype and the original
      file name. Tweets keep only the URL. */
  datatype Medium = Medium(url: string, mimetype: string, name: string)

  function Urls(ms: seq<Medium>): (r: seq<string>)
    ensures |r| == |ms|
    ensures forall i :: 0 <= i < |ms| ==> r[i] == ms[i].url
  {
    if ms == [] then [] else [ms[0].url] + Urls(ms[1..])
  }

  /** The upload loop over `files`, the first of which is file number `start`:
      `verdict` is the per-file rule and `upload(i)` the `secure_url` the
      storage service returns for file i ("" when the upload fails). The first
      rejected file stops the request with 400, the first failed upload with
      500; otherwise the uploaded files are listed in order. */
  function UploadSpec(files: seq<Upload>, verdict: Upload -> Verdict, upload: nat -> string, start: nat)
    : (r: Checked<seq<Medium>>)
    ensures r.Stop? ==> r.status == BAD_REQUEST || r.status == SERVER_ERROR
    decreases |files|
  {
    if files == [] then Pass([])
    else
      match verdict(files[0])
      case Reject => Stop(BAD_REQUEST)
      case Skip => UploadSpec(files[1..], verdict, upload, start + 1)
      case Accept(_, _) =>
        if upload(start) == "" then Stop(SERVER_ERROR)
        else
          match UploadSpec(files[1..], verdict, upload, start + 1)
          case Stop(s) => Stop(s)
          case Pass(rest) => Pass([Medium(upload(start), files[0].mimetype, files[0].originalName)] + rest)
  }

  predicate FilePasses(f: Upload, verdict: Upload -> Verdict, url: string) {
    verdict(f) != Reject && (verdict(f).Accept? ==> url != "")
  }

  /** The loop succeeds exactly when every file passes its rule and every
      upload succeeds; a 400 means some file was rejected. */
  lemma {:induction false} UploadSucceedsIff(files: seq<Upload>, verdict: Upload -> Verdict, upload: nat -> string, start: nat)
    ensures UploadSpec(files, verdict, upload, start).Pass? <==>
      forall i :: 0 <= i < |files| ==> FilePasses(files[i], verdict, upload(start + i))
    ensures UploadSpec(files, verdict, upload, start) == Stop(BAD_REQUEST) ==>
      exists i :: 0 <= i < |files| && verdict(files[i]) == Reject
    ensures UploadSpec(files, verdict, upload, start).Stop? ==>
      UploadSpec(files, verdict, upload, start).status in {BAD_REQUEST, SERVER_ERROR}
    decreases |files|
  {
    if files != [] {
      UploadSucceedsIff(files[1..], verdict, upload, start + 1);
      var r := UploadSpec(files[1..], verdict, upload, start + 1);
      if r == Stop(BAD_REQUEST) {
        var i :| 0 <= i < |files[1..]| && verdict(files[1..][i]) == Reject;
        assert verdict(files[i + 1]) == Reject;
      }
      if forall i :: 0 <= i < |files| ==> FilePasses(files[i], verdict, upload(start + i)) {
        assert FilePasses(files[0], verdict, upload(start));
        forall i | 0 <= i < |files[1..]|
          ensures FilePasses(files[1..][i], verdict, upload(start + 1 + i))
        {
          assert FilePasses(files[i + 1], verdict, upload(start + (i + 1)));
        }
      } else {
        var i :| 0 <= i < |files| && !FilePasses(files[i], verdict, upload(start + i));
        if i > 0 {
          assert !FilePasses(files[1..][i - 1], verdict, upload(start + 1 + (i - 1)));
        }
      }
    }
  }

  /** When no file is skipped, a successful loop keeps one entry per file, in
      file order, carrying that file's URL, mimetype and name. */
  lemma {:induction false} UploadKeepsOrder(files: seq<Upload>, verdict: Upload -> Verdict, upload: nat -> string, start: nat)
    requires forall i :: 0 <= i < |files| ==> verdict(files[i]) != Skip
    requires UploadSpec(files, verdict, upload, start).Pass?
    ensures var ms := UploadSpec(files, verdict, upload, start).value;
      |ms| == |files| &&
      forall i :: 0 <= i < |files| ==>
        ms[i] == Medium(upload(start + i), files[i].mimetype, files[i].originalName)
    decreases |files|
  {
    if files != [] {
      assert verdict(files[0]) != Skip;
      UploadKeepsOrder(files[1..], verdict, upload, start + 1);
      var ms := UploadSpec(files, verdict, upload, start).value;
      var rest := UploadSpec(files[1..], verdict, upload, start + 1).value;
      forall i | 0 < i < |files|
        ensures ms[i] == Medium(upload(start + i), files[i].mimetype, files[i].originalName)
      {
        assert ms[i] == rest[i - 1];
        assert files[1..][i - 1] == files[i];
        assert start + 1 + (i - 1) == start + i;
      }
    }
  }

  /** With a rule that never skips, the loop succeeds exactly when every
      file is accepted and every upload returns a URL, and then the URLs
      are the uploads' in file order. */
  lemma UploadAllOrNothing(files: seq<Upload>, verdict: Upload -> Verdict, upload: nat -> string)
    requires forall f :: verdict(f) != Skip
    ensures UploadSpec(files, verdict, upload, 0).Pass? <==>
      forall i :: 0 <= i < |files| ==> verdict(files[i]) != Reject && upload(i) != ""
    ensures UploadSpec(files, verdict, upload, 0).Pass? ==>
      var urls := Urls(UploadSpec(files, verdict, upload, 0).value);
      |urls| == |files| && forall i :: 0 <= i < |files| ==> urls[i] == upload(i)
    ensures UploadSpec(files, verdict, upload, 0).Stop? ==>
      UploadSpec(files, verdict, upload, 0).status in {BAD_REQUEST, SERVER_ERROR}
  {
    UploadSucceedsIff(files, verdict, upload, 0);
    assert (forall i :: 0 <= i < |files| ==> FilePasses(files[i], verdict, upload(0 + i))) <==>
           (forall i :: 0 <= i < |files| ==> verdict(files[i]) != Reject && upload(i) != "");
    if UploadSpec(files, verdict, upload, 0).Pass? {
      UploadKeepsOrder(files, verdict, upload, 0);
    }
  }

  /** No tweet file is ever skipped. */
  lemma TweetFilesNeverSkipped()
    ensures forall f :: TweetFileVerdict(f) != Skip
  {
    forall f {
      TweetFileNeverSkipped(f);
    }
  }

  function Prepend(acc: seq<Medium>, c: Checked<seq<Medium>>): Checked<seq<Medium>> {
    match c
    case Stop(s) => Stop(s)
    case Pass(ms) => Pass(acc + ms)
  }

  /** The `for (const file of req.files)` loop: checks, uploads and collects
      the files one at a time, stopping at the first failure. */
  method UploadFiles(files: seq<Upload>, verdict: Upload -> Verdict, upload: nat -> string)
    returns (r: Checked<seq<Medium>>)
    ensures r == UploadSpec(files, verdict, upload, 0)
  {
    var media: seq<Medium> := [];
    var i := 0;
    assert files[0..] == files;
    match UploadSpec(files, verdict, upload, 0) {
      case Stop(_) =>
      case Pass(ms) => assert [] + ms == ms;
    }
    while i < |files|
      decreases |files| - i
      invariant 0 <= i <= |files|
      invariant UploadSpec(files, verdict, upload, 0) == Prepend(media, UploadSpec(files[i..], verdict, upload, i))
    {
      var f := files[i];
      assert files[i..][0] == f && files[i..][1..] == files[i + 1..];
      match verdict(f) {
        case Reject =>
          return Stop(BAD_REQUEST);
        case Skip =>
        case Accept(_, _) =>
          var url := upload(i);
          if url == "" {
            return Stop(SERVER_ERROR);
          }
          var m := Medium(url, f.mimetype, f.originalName);
          assert UploadSpec(files[i..], verdict, upload, i) == Prepend([m], UploadSpec(files[i + 1..], verdict, upload, i + 1));
          assert forall c :: Prepend(media, Prepend([m], c)) == Prepend(media + [m], c) by {
            forall c: Checked<seq<Medium>> ensures Prepend(media, Prepend([m], c)) == Prepend(media + [m], c) {
              if c.Pass? {
                assert media + ([m] + c.value) == (media + [m]) + c.value;
              }
            }
          }
          media := media + [m];
      }
      i := i + 1;
    }
    assert files[i..] == [];
    assert media + [] == media;
    return Pass(media);
  }
}
