/** Classification and normalisation of the media references of an apartment
    record: `isValidVideoUrl`, `getVideoType` and the `processedMedia`
    construction of src/app/apartmentInfo.js. */
module Media {
  import opened Wrappers

  /** The two browser built-ins the classifier relies on, left uninterpreted.
      `decodeUriComponent(s)` is `Some(decoded)`, or `None` where
      `decodeURIComponent` throws; `urlParses(s)` says whether `new URL(s)`
      constructs rather than throws. */
  datatype Builtins = Builtins(
    decodeUriComponent: string -> Option<string>,
    urlParses: string -> bool)

  /** A media entry as it arrives in the payload: a string, or null (`None`). */
  type RawUrl = Option<string>

  /** The recognised video extensions, in the order `isValidVideoUrl` lists them. */
  const VideoExtensions: seq<string> := [".mp4", ".mov", ".webm", ".ogg"]

  /** The MIME type `getVideoType` assigns to each recognised extension. */
  const VideoMimeTypes: map<string, string> :=
    map[".mp4" := "video/mp4", ".webm" := "video/webm", ".ogg" := "video/ogg", ".mov" := "video/quicktime"]

  /** The MIME type used when no extension matches. */
  const DefaultVideoMimeType: string := "video/mp4"

  /** `toLowerCase` on one character; only the ASCII capitals are folded. */
  function LowerChar(c: char): char {
    if 'A' <= c <= 'Z' then (c as int + 32) as char else c
  }

  /** `toLowerCase` on a string, character by character. */
  function Lower(s: string): (r: string)
    ensures |r| == |s|
    ensures forall i :: 0 <= i < |s| ==> r[i] == LowerChar(s[i])
  {
    if s == [] then [] else [LowerChar(s[0])] + Lower(s[1..])
  }

  /** `s.endsWith(suffix)`. */
  predicate EndsWith(s: string, suffix: string) {
    |suffix| <= |s| && s[|s| - |suffix|..] == suffix
  }

  /** `videoExtensions.some(ext => decoded.toLowerCase().endsWith(ext))`:
      the lower-cased string ends in one of the four extensions. */
  predicate HasVideoExtension(decoded: string)
    ensures HasVideoExtension(decoded) <==>
              || EndsWith(Lower(decoded), ".mp4") || EndsWith(Lower(decoded), ".mov")
              || EndsWith(Lower(decoded), ".webm") || EndsWith(Lower(decoded), ".ogg")
  {
    assert VideoExtensions[0] == ".mp4" && VideoExtensions[1] == ".mov";
    assert VideoExtensions[2] == ".webm" && VideoExtensions[3] == ".ogg";
    exists ext :: ext in VideoExtensions && EndsWith(Lower(decoded), ext)
  }

  /** `isValidVideoUrl(url)`: false for a falsy entry, false where decoding or
      URL construction throws, otherwise whether the lower-cased decoded
      string ends in a video extension. It never throws. */
  function IsValidVideoUrl(b: Builtins, url: RawUrl): (valid: bool)
    ensures url == None || url == Some("") ==> !valid
    ensures url.Some? && b.decodeUriComponent(url.value).None? ==> !valid
    ensures (url.Some? && b.decodeUriComponent(url.value).Some?
             && !b.urlParses(b.decodeUriComponent(url.value).value)) ==> !valid
    ensures valid ==> url.Some? && b.decodeUriComponent(url.value).Some?
                      && HasVideoExtension(b.decodeUriComponent(url.value).value)
  {
    match url
    case None => false
    case Some(s) =>
      if s == "" then false
      else
        match b.decodeUriComponent(s)
        case None => false
        case Some(decoded) => b.urlParses(decoded) && HasVideoExtension(decoded)
  }

  /** Lower-casing commutes with taking a suffix. */
  lemma LowerSuffix(s: string, n: nat)
    requires n <= |s|
    ensures Lower(s)[|s| - n..] == Lower(s[|s| - n..])
  {
  }

  /** A decodable, parsable URL whose decoded form ends in a video extension
      written in ANY letter case is accepted. */
  lemma AcceptsVideoExtensionInAnyCase(b: Builtins, url: string, decoded: string, ext: string)
    requires url != "" && b.decodeUriComponent(url) == Some(decoded) && b.urlParses(decoded)
    requires ext in VideoExtensions && |ext| <= |decoded|
    requires Lower(decoded[|decoded| - |ext|..]) == ext
    ensures IsValidVideoUrl(b, Some(url))
  {
    LowerSuffix(decoded, |ext|);
    assert EndsWith(Lower(decoded), ext);
  }

  /** `getVideoType(url)`: decodes again (this decode is not guarded, so a
      failure is `None`: the call throws) and maps the lower-cased extension
      to a MIME type, `video/mp4` when none matches. */
  function GetVideoType(b: Builtins, url: string): (mime: Option<string>)
    ensures mime.Some? <==> b.decodeUriComponent(url).Some?
    ensures mime.Some? ==> mime.value in VideoMimeTypes.Values
  {
    match b.decodeUriComponent(url)
    case None => None
    case Some(decoded) =>
      var lower := Lower(decoded);
      assert VideoMimeTypes[".mp4"] == "video/mp4" && VideoMimeTypes[".webm"] == "video/webm";
      assert VideoMimeTypes[".ogg"] == "video/ogg" && VideoMimeTypes[".mov"] == "video/quicktime";
      if EndsWith(lower, ".mp4") then Some("video/mp4")
      else if EndsWith(lower, ".webm") then Some("video/webm")
      else if EndsWith(lower, ".ogg") then Some("video/ogg")
      else if EndsWith(lower, ".mov") then Some("video/quicktime")
      else Some(DefaultVideoMimeType)
  }

  /** The last character of a string that ends with a given suffix. */
  lemma EndsWithLast(s: string, suffix: string)
    requires EndsWith(s, suffix) && suffix != []
    ensures s[|s| - 1] == suffix[|suffix| - 1]
  {
  }

  /** The extension table and the extension list name the same extensions. */
  lemma VideoMimeTypesCoverExtensions()
    ensures forall ext :: ext in VideoMimeTypes <==> ext in VideoExtensions
  {
  }

  /** A decoded URL ending in a recognised extension (in any letter case) gets
      that extension's MIME type from the table. */
  lemma GetVideoTypeByExtension(b: Builtins, url: string, ext: string)
    requires b.decodeUriComponent(url).Some?
    requires ext in VideoMimeTypes
    requires EndsWith(Lower(b.decodeUriComponent(url).value), ext)
    ensures GetVideoType(b, url) == Some(VideoMimeTypes[ext])
  {
    var lower := Lower(b.decodeUriComponent(url).value);
    EndsWithLast(lower, ext);
    if EndsWith(lower, ".mp4") { EndsWithLast(lower, ".mp4"); }
    if EndsWith(lower, ".webm") { EndsWithLast(lower, ".webm"); }
    if EndsWith(lower, ".ogg") { EndsWithLast(lower, ".ogg"); }
  }

  /** A decoded URL with no recognised extension falls back to `video/mp4`. */
  lemma GetVideoTypeDefault(b: Builtins, url: string)
    requires b.decodeUriComponent(url).Some?
    requires !HasVideoExtension(b.decodeUriComponent(url).value)
    ensures GetVideoType(b, url) == Some(DefaultVideoMimeType)
  {
  }

  /** The `media` object of the payload; either list may be absent. */
  datatype RawMedia = RawMedia(images: Option<seq<string>>, videos: Option<seq<RawUrl>>)

  /** The processed media kept in component state. */
  datatype ProcessedMedia = ProcessedMedia(images: seq<string>, videos: seq<string>)

  /** `response.data.media?.images || []`: the payload's image list, or the
      empty list when the media object or its image list is absent. */
  function RawImages(media: Option<RawMedia>): (images: seq<string>)
    ensures media.None? || media.value.images.None? ==> images == []
    ensures media.Some? && media.value.images.Some? ==> images == media.value.images.value
  {
    if media.Some? && media.value.images.Some? then media.value.images.value else []
  }

  /** `response.data.media?.videos || []`: the payload's video list, or the
      empty list when the media object or its video list is absent. */
  function RawVideos(media: Option<RawMedia>): (videos: seq<RawUrl>)
    ensures media.None? || media.value.videos.None? ==> videos == []
    ensures media.Some? && media.value.videos.Some? ==> videos == media.value.videos.value
  {
    if media.Some? && media.value.videos.Some? then media.value.videos.value else []
  }

  /** `.filter(video => isValidVideoUrl(video))`: keeps exactly the valid
      entries, in their original order. */
  function FilterValidVideos(b: Builtins, raw: seq<RawUrl>): (kept: seq<RawUrl>)
    ensures |kept| <= |raw|
    ensures forall i :: 0 <= i < |kept| ==> IsValidVideoUrl(b, kept[i])
    ensures forall u :: u in kept <==> u in raw && IsValidVideoUrl(b, u)
  {
    if raw == [] then []
    else if IsValidVideoUrl(b, raw[0]) then [raw[0]] + FilterValidVideos(b, raw[1..])
    else FilterValidVideos(b, raw[1..])
  }

  /** The decoded form of an entry that passed the filter. */
  function Decoded(b: Builtins, url: RawUrl): (decoded: string)
    requires IsValidVideoUrl(b, url)
    ensures b.decodeUriComponent(url.value) == Some(decoded)
  {
    b.decodeUriComponent(url.value).value
  }

  /** `.map(video => decodeURIComponent(video))` over the filtered entries:
      as long as its input, entry `i` being what `decodeURIComponent` makes
      of filtered entry `i`. */
  function DecodeAll(b: Builtins, kept: seq<RawUrl>): (decoded: seq<string>)
    requires forall i :: 0 <= i < |kept| ==> IsValidVideoUrl(b, kept[i])
    ensures |decoded| == |kept|
    ensures forall i :: 0 <= i < |kept| ==>
              kept[i].Some? && b.decodeUriComponent(kept[i].value) == Some(decoded[i])
  {
    var decoded := seq(|kept|, i requires 0 <= i < |kept| => Decoded(b, kept[i]));
    assert forall i :: 0 <= i < |kept| ==> IsValidVideoUrl(b, kept[i]) && kept[i].Some?;
    decoded
  }

  /** The `processedMedia` object: images unchanged (empty when absent), videos
      the decoded valid entries. Every processed video is a parsable URL with a
      video extension, and there are never more videos than raw entries. */
  function ProcessMedia(b: Builtins, media: Option<RawMedia>): (m: ProcessedMedia)
    ensures media.None? || media.value.images.None? ==> m.images == []
    ensures media.None? || media.value.videos.None? ==> m.videos == []
    ensures media.Some? && media.value.images.Some? ==> m.images == media.value.images.value
    ensures |m.videos| <= |RawVideos(media)|
    ensures forall v :: v in m.videos ==> b.urlParses(v) && HasVideoExtension(v)
  {
    ProcessedMedia(RawImages(media), DecodeAll(b, FilterValidVideos(b, RawVideos(media))))
  }

  /** `xs` is `ys` with some entries removed, order kept. */
  ghost predicate IsSubsequence<T>(xs: seq<T>, ys: seq<T>)
    decreases |ys|
  {
    if xs == [] then true
    else if ys == [] then false
    else (xs[0] == ys[0] && IsSubsequence(xs[1..], ys[1..])) || IsSubsequence(xs, ys[1..])
  }

  /** The filter keeps the order of the raw list. */
  lemma {:induction false} FilterIsSubsequence(b: Builtins, raw: seq<RawUrl>)
    ensures IsSubsequence(FilterValidVideos(b, raw), raw)
  {
    if raw != [] {
      FilterIsSubsequence(b, raw[1..]);
      var kept := FilterValidVideos(b, raw);
      if IsValidVideoUrl(b, raw[0]) {
        assert kept[0] == raw[0] && kept[1..] == FilterValidVideos(b, raw[1..]);
      }
    }
  }

  /** The filter keeps every copy of a valid entry and no copy of an invalid
      one: each value occurs in the result as often as it occurs in the raw
      list if it is valid, and not at all otherwise. */
  lemma {:induction false} FilterKeepsEveryValidCopy(b: Builtins, raw: seq<RawUrl>)
    ensures forall u :: multiset(FilterValidVideos(b, raw))[u] ==
                        (if IsValidVideoUrl(b, u) then multiset(raw)[u] else 0)
  {
    if raw != [] {
      FilterKeepsEveryValidCopy(b, raw[1..]);
      assert raw == [raw[0]] + raw[1..];
    }
  }

  /** The processed videos are the decoded forms of the valid raw entries:
      the filtered list is an order-preserving subsequence of the raw list
      that holds every valid entry as many times as the raw list does, and
      processed video `i` is the decoded form of filtered entry `i`. */
  lemma ProcessedVideosAreDecodedSubsequence(b: Builtins, media: Option<RawMedia>)
    ensures var kept := FilterValidVideos(b, RawVideos(media));
            var m := ProcessMedia(b, media);
            && IsSubsequence(kept, RawVideos(media))
            && (forall u :: multiset(kept)[u] ==
                            (if IsValidVideoUrl(b, u) then multiset(RawVideos(media))[u] else 0))
            && |m.videos| == |kept|
            && forall i :: 0 <= i < |kept| ==>
                 kept[i].Some? && b.decodeUriComponent(kept[i].value) == Some(m.videos[i])
  {
    FilterIsSubsequence(b, RawVideos(media));
    FilterKeepsEveryValidCopy(b, RawVideos(media));
  }

  /** No videos survive processing exactly when no raw entry is valid. */
  lemma NoVideosIffNoneValid(b: Builtins, media: Option<RawMedia>)
    ensures ProcessMedia(b, media).videos == [] <==>
            forall u :: u in RawVideos(media) ==> !IsValidVideoUrl(b, u)
  {
    var kept := FilterValidVideos(b, RawVideos(media));
    if kept != [] {
      assert kept[0] in kept;
    }
  }

}
