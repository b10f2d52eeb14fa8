/** `getPublicId` of backEnd/src/utils/cloudinary.js: the storage key of an
    uploaded asset, read off its URL. */
module PublicId {
  import opened Wrappers
  import opened Text

  /** The part of `url` after its last '/'. */
  function LastSegment(url: string): (r: string)
    ensures '/' !in r
  {
    var parts := Split(url, '/');
    parts[|parts| - 1]
  }

  /** `getPublicId(url)`: null for a missing or empty url, otherwise the last
      '/'-separated segment cut before its first '.'. */
  function GetPublicId(url: Option<string>): (r: Option<string>)
    ensures r.None? <==> url.None? || url.value == ""
    ensures r.Some? ==> '/' !in r.value && '.' !in r.value
  {
    if url.None? || url.value == "" then None
    else
      SplitFirst(LastSegment(url.value), '.');
      Some(Split(LastSegment(url.value), '.')[0])
  }

  /** The public id is a prefix of the URL's last segment, ending where that
      segment ends or at its first '.', and that segment is a suffix of the URL
      that starts at its beginning or right after a '/'. */
  lemma PublicIdPosition(url: string)
    requires url != ""
    ensures var seg := LastSegment(url); var id := GetPublicId(Some(url)).value;
      |seg| <= |url| && seg == url[|url| - |seg|..]
      && (|seg| == |url| || url[|url| - |seg| - 1] == '/')
      && |id| <= |seg| && id == seg[..|id|]
      && (|id| == |seg| || seg[|id|] == '.')
  {
    SplitLast(url, '/');
    SplitFirst(LastSegment(url), '.');
  }

  /** A URL with neither '/' nor '.' is its own public id. */
  lemma PlainNameUnchanged(url: string)
    requires url != "" && '/' !in url && '.' !in url
    ensures GetPublicId(Some(url)) == Some(url)
  {
    SplitWithout(url, '/');
    SplitWithout(url, '.');
  }

  /** Only the first '.' of the last segment counts. */
  lemma FirstDotCounts()
    ensures GetPublicId(Some("x/a.b.c")) == Some("a")
  {
    var url := "x/a.b.c";
    SplitLast(url, '/');
    var seg := LastSegment(url);
    assert url[1] == '/' && url[2] == 'a';
    assert url[..2] == "x/" && url[2..] == "a.b.c";
    assert seg == "a.b.c";
    SplitFirst(seg, '.');
    var id := Split(seg, '.')[0];
    assert seg[..1] == "a";
  }
}
