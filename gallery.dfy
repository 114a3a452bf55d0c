/** The gallery of the apartment page (src/app/apartmentInfo.js): the four
    pieces of component state, the handlers that change them, and what the
    rendering derives from them (the main pane and the highlighted thumbnail).
    Everything here is on values; the component that holds the state in
    fields is ApartmentInfo.Component. */
module Gallery {
  import opened Wrappers
  import opened Media

  /** `mediaType`: 'image' or 'video'. */
  datatype MediaType = Image | Video

  /** The payload's fields other than `media`, carried verbatim. */
  type Details = map<string, string>

  /** The JSON body of a successful fetch. */
  datatype RawApartment = RawApartment(details: Details, media: Option<RawMedia>)

  /** How the request settled: with a body, or by throwing (caught). */
  datatype FetchOutcome = Fetched(data: RawApartment) | FetchFailed

  /** The `apartment` state: the payload with `media` replaced by its
      processed form (`{...response.data, media: processedMedia}`). */
  datatype Apartment = Apartment(details: Details, media: ProcessedMedia)

  /** The component state: `apartment`, `loading`, `activeMediaIndex`, `mediaType`. */
  datatype GalleryState = GalleryState(
    apartment: Option<Apartment>,
    loading: bool,
    activeMediaIndex: nat,
    mediaType: MediaType)

  /** The state before any fetch (the `useState` initial values). */
  const Initial: GalleryState := GalleryState(None, false, 0, Image)

  /** The `apartment` value stored on success: the payload's other fields
      kept as they are, `media` replaced by its processed form. */
  function Normalize(b: Builtins, raw: RawApartment): (a: Apartment)
    ensures a.details == raw.details
    ensures a.media == ProcessMedia(b, raw.media)
    ensures a.media.images == RawImages(raw.media)
    ensures |a.media.videos| <= |RawVideos(raw.media)|
    ensures forall v :: v in a.media.videos ==> b.urlParses(v) && HasVideoExtension(v)
  {
    Apartment(raw.details, ProcessMedia(b, raw.media))
  }

  /** `setLoading(true)` at the start of `fetchApartmentDetails`: sets
      `loading` and nothing else. */
  function BeginFetch(s: GalleryState): (t: GalleryState)
    ensures t.loading
    ensures t.(loading := s.loading) == s
  {
    s.(loading := true)
  }

  /** The rest of `fetchApartmentDetails` once the request settles. `loading`
      is cleared either way and the index is never touched. A failure changes
      nothing else. A success replaces the apartment, and 'video' is then
      selected exactly when the processed record has videos or it already
      was: `mediaType` is not reset to 'image'. */
  function CompleteFetch(b: Builtins, s: GalleryState, outcome: FetchOutcome): (t: GalleryState)
    ensures !t.loading
    ensures t.activeMediaIndex == s.activeMediaIndex
    ensures outcome.FetchFailed? ==> t == s.(loading := false)
    ensures outcome.Fetched? ==> t.apartment == Some(Normalize(b, outcome.data))
    ensures outcome.Fetched? ==>
              (t.mediaType == Video <==>
                 |ProcessMedia(b, outcome.data.media).videos| > 0 || s.mediaType == Video)
  {
    match outcome
    case FetchFailed => s.(loading := false)
    case Fetched(raw) =>
      var a := Normalize(b, raw);
      s.(apartment := Some(a), loading := false,
         mediaType := if |a.media.videos| > 0 then Video else s.mediaType)
  }

  /** The video thumbnail's click handler: selects 'video', nothing else. */
  function ClickVideoThumb(s: GalleryState): (t: GalleryState)
    ensures t.mediaType == Video
    ensures t.(mediaType := s.mediaType) == s
  {
    s.(mediaType := Video)
  }

  /** The click handler of image thumbnail `index`: selects 'image' at that
      index, nothing else. */
  function ClickImageThumb(s: GalleryState, index: nat): (t: GalleryState)
    ensures t.mediaType == Image && t.activeMediaIndex == index
    ensures t.(mediaType := s.mediaType, activeMediaIndex := s.activeMediaIndex) == s
  {
    s.(mediaType := Image, activeMediaIndex := index)
  }

  /** The `<video>` element's error handler: selects 'image', nothing else. */
  function VideoLoadError(s: GalleryState): (t: GalleryState)
    ensures t.mediaType == Image
    ensures t.(mediaType := s.mediaType) == s
  {
    s.(mediaType := Image)
  }

  /** What the main pane shows. An image pane whose index is past the end of
      the images has no source (`images[index]` is undefined). The video pane
      carries the type `getVideoType` computes for its source. */
  datatype Pane =
    | VideoPane(videoSrc: string, mimeType: string)
    | ImagePane(imageSrc: Option<string>)
    | NoMediaPane

  /** What the component renders: the loading text, the no-data text, the
      gallery (its main pane, its video thumbnail: absent, or present and
      highlighted or not, and one highlight flag per image thumbnail), or
      nothing at all because rendering threw. */
  datatype Screen =
    | LoadingScreen
    | NoApartmentScreen
    | GalleryScreen(main: Pane, videoThumb: Option<bool>, imageThumbs: seq<bool>)
    | RenderThrows

  /** The main pane: the first video when 'video' is selected and there is a
      video; otherwise the active image when there are images; otherwise the
      "No media available" placeholder. `None` where computing it throws:
      the video branch calls `getVideoType`, whose decode is unguarded. */
  function MainPane(b: Builtins, media: ProcessedMedia, mediaType: MediaType, index: nat): (p: Option<Pane>)
    ensures mediaType == Video && |media.videos| > 0 ==>
              (p.None? <==> b.decodeUriComponent(media.videos[0]).None?)
              && (p.Some? ==> p.value == VideoPane(media.videos[0], GetVideoType(b, media.videos[0]).value)
                              && p.value.mimeType in VideoMimeTypes.Values)
    ensures !(mediaType == Video && |media.videos| > 0) ==> p.Some? && !p.value.VideoPane?
    ensures !(mediaType == Video && |media.videos| > 0) && media.images == [] ==> p == Some(NoMediaPane)
    ensures !(mediaType == Video && |media.videos| > 0) && media.images != [] ==>
              && p.Some? && p.value.ImagePane?
              && (p.value.imageSrc.Some? <==> index < |media.images|)
              && (index < |media.images| ==> p.value.imageSrc == Some(media.images[index]))
  {
    if mediaType == Video && |media.videos| > 0 then
      match GetVideoType(b, media.videos[0])
      case None => None
      case Some(mimeType) => Some(VideoPane(media.videos[0], mimeType))
    else if |media.images| > 0 then
      Some(ImagePane(if index < |media.images| then Some(media.images[index]) else None))
    else
      Some(NoMediaPane)
  }

  /** The component's output: the loading text while loading, the no-data
      text without an apartment, and otherwise the gallery, except that the
      render throws when the first video is to be shown and its second decode
      fails. */
  function Render(b: Builtins, s: GalleryState): (screen: Screen)
    ensures screen.LoadingScreen? <==> s.loading
    ensures screen.NoApartmentScreen? <==> !s.loading && s.apartment.None?
    ensures screen.RenderThrows? <==>
              && !s.loading && s.apartment.Some?
              && s.mediaType == Video && |s.apartment.value.media.videos| > 0
              && b.decodeUriComponent(s.apartment.value.media.videos[0]).None?
    ensures screen.GalleryScreen? ==>
              Some(screen.main) == MainPane(b, s.apartment.value.media, s.mediaType, s.activeMediaIndex)
  {
    if s.loading then LoadingScreen
    else if s.apartment.None? then NoApartmentScreen
    else
      var media := s.apartment.value.media;
      match MainPane(b, media, s.mediaType, s.activeMediaIndex)
      case None => RenderThrows
      case Some(main) =>
        GalleryScreen(
          main,
          if |media.videos| > 0 then Some(s.mediaType == Video) else None,
          seq(|media.images|, k => s.mediaType == Image && s.activeMediaIndex == k))
  }

  /** The gallery has one thumbnail per image, and a video thumbnail exactly
      when there are videos. */
  lemma GalleryThumbnails(b: Builtins, s: GalleryState)
    requires Render(b, s).GalleryScreen?
    ensures |Render(b, s).imageThumbs| == |s.apartment.value.media.images|
    ensures Render(b, s).videoThumb.Some? <==> |s.apartment.value.media.videos| > 0
  {
  }

  /** The video thumbnail is highlighted exactly when 'video' is selected, and
      image thumbnail `k` exactly when 'image' is selected with index `k`. */
  lemma HighlightIff(b: Builtins, s: GalleryState)
    requires Render(b, s).GalleryScreen?
    ensures Render(b, s).videoThumb == Some(true) <==>
              s.mediaType == Video && |s.apartment.value.media.videos| > 0
    ensures forall k :: 0 <= k < |Render(b, s).imageThumbs| ==>
              (Render(b, s).imageThumbs[k] <==> s.mediaType == Image && s.activeMediaIndex == k)
  {
  }

  /** At most one thumbnail is highlighted. */
  lemma AtMostOneHighlighted(b: Builtins, s: GalleryState)
    requires Render(b, s).GalleryScreen?
    ensures forall j, k ::
              (0 <= j < |Render(b, s).imageThumbs| && 0 <= k < |Render(b, s).imageThumbs|
               && Render(b, s).imageThumbs[j] && Render(b, s).imageThumbs[k]) ==> j == k
    ensures Render(b, s).videoThumb == Some(true) ==>
              forall k :: 0 <= k < |Render(b, s).imageThumbs| ==> !Render(b, s).imageThumbs[k]
  {
  }

  /** A highlighted thumbnail shows what the main pane shows. */
  lemma HighlightedThumbIsShown(b: Builtins, s: GalleryState)
    requires Render(b, s).GalleryScreen?
    ensures var screen := Render(b, s); var media := s.apartment.value.media;
            && (screen.videoThumb == Some(true) ==>
                  screen.main == VideoPane(media.videos[0], GetVideoType(b, media.videos[0]).value))
            && forall k :: 0 <= k < |screen.imageThumbs| && screen.imageThumbs[k] ==>
                  screen.main == ImagePane(Some(media.images[k]))
  {
  }

  /** A 'video' selection left over from an earlier record with no video to
      show highlights no thumbnail at all, while the pane shows the active
      image (the placeholder when there are no images). */
  lemma StaleVideoSelectionHighlightsNothing(b: Builtins, s: GalleryState)
    requires Render(b, s).GalleryScreen?
    requires s.mediaType == Video && s.apartment.value.media.videos == []
    ensures Render(b, s).videoThumb == None
    ensures forall k :: 0 <= k < |Render(b, s).imageThumbs| ==> !Render(b, s).imageThumbs[k]
    ensures !Render(b, s).main.VideoPane?
    ensures s.activeMediaIndex < |s.apartment.value.media.images| ==>
              Render(b, s).main == ImagePane(Some(s.apartment.value.media.images[s.activeMediaIndex]))
    ensures s.apartment.value.media.images == [] ==> Render(b, s).main == NoMediaPane
  {
  }

  /** Starting a fetch shows the loading text. */
  lemma BeginFetchShowsLoading(b: Builtins, s: GalleryState)
    ensures Render(b, BeginFetch(s)) == LoadingScreen
  {
  }

  /** A record with at least one valid video opens on its first video, with
      the video thumbnail highlighted and no image thumbnail highlighted;
      unless the first video's second decode fails, and then the render
      throws. */
  lemma FetchWithVideosShowsFirstVideo(b: Builtins, s: GalleryState, raw: RawApartment)
    requires |ProcessMedia(b, raw.media).videos| > 0
    ensures var t := CompleteFetch(b, s, Fetched(raw)); var first := ProcessMedia(b, raw.media).videos[0];
            && t.mediaType == Video
            && (GetVideoType(b, first).None? ==> Render(b, t) == RenderThrows)
            && (GetVideoType(b, first).Some? ==>
                  && Render(b, t).GalleryScreen?
                  && Render(b, t).main == VideoPane(first, GetVideoType(b, first).value)
                  && Render(b, t).videoThumb == Some(true)
                  && forall k :: 0 <= k < |Render(b, t).imageThumbs| ==> !Render(b, t).imageThumbs[k])
  {
  }

  /** A raw video that is valid but whose decoded form no longer decodes
      (for example a `%25` escape that leaves a lone `%` behind) is kept as
      the first video, and the page then throws while rendering it. */
  lemma UndecodableFirstVideoThrows(b: Builtins, s: GalleryState, details: Details,
                                    images: Option<seq<string>>, url: string, decoded: string)
    requires url != "" && b.decodeUriComponent(url) == Some(decoded)
    requires b.urlParses(decoded) && HasVideoExtension(decoded)
    requires b.decodeUriComponent(decoded).None?
    ensures Render(b, CompleteFetch(b, s, Fetched(RawApartment(details, Some(RawMedia(images, Some([Some(url)]))))))) == RenderThrows
  {
    var media := Some(RawMedia(images, Some([Some(url)])));
    assert FilterValidVideos(b, RawVideos(media)) == [Some(url)];
  }

  /** Clicking image thumbnail `i` shows image `i` and highlights it alone. */
  lemma ClickImageThumbShowsImage(b: Builtins, s: GalleryState, i: nat)
    requires !s.loading && s.apartment.Some? && i < |s.apartment.value.media.images|
    ensures var t := ClickImageThumb(s, i); var media := s.apartment.value.media;
            && t.apartment == s.apartment && t.loading == s.loading
            && Render(b, t) == GalleryScreen(
                 ImagePane(Some(media.images[i])),
                 if |media.videos| > 0 then Some(false) else None,
                 seq(|media.images|, k => k == i))
  {
  }

  /** Clicking the video thumbnail shows the first video and highlights the
      video thumbnail alone (the render throws instead if the first video's
      second decode fails); the image index is kept for later. */
  lemma ClickVideoThumbShowsVideo(b: Builtins, s: GalleryState)
    requires !s.loading && s.apartment.Some? && |s.apartment.value.media.videos| > 0
    ensures var t := ClickVideoThumb(s); var media := s.apartment.value.media;
            && t.activeMediaIndex == s.activeMediaIndex && t.apartment == s.apartment
            && (GetVideoType(b, media.videos[0]).None? ==> Render(b, t) == RenderThrows)
            && (GetVideoType(b, media.videos[0]).Some? ==>
                  Render(b, t) == GalleryScreen(
                    VideoPane(media.videos[0], GetVideoType(b, media.videos[0]).value),
                    Some(true),
                    seq(|media.images|, k => false)))
  {
  }

  /** A video that fails to load falls back to the active image (or to the
      placeholder when there are no images); the video thumbnail is no longer
      highlighted. */
  lemma VideoLoadErrorFallsBack(b: Builtins, s: GalleryState)
    requires !s.loading && s.apartment.Some?
    ensures var t := VideoLoadError(s); var media := s.apartment.value.media;
            && t.activeMediaIndex == s.activeMediaIndex && t.apartment == s.apartment
            && Render(b, t).GalleryScreen?
            && Some(Render(b, t).main) == MainPane(b, media, Image, s.activeMediaIndex)
            && !Render(b, t).main.VideoPane?
            && (media.images == [] <==> Render(b, t).main == NoMediaPane)
            && Render(b, t).videoThumb != Some(true)
  {
  }

  /** The active index names an image whenever there are images to name. */
  ghost predicate IndexInRange(s: GalleryState) {
    s.apartment.None? || s.apartment.value.media.images == []
    || s.activeMediaIndex < |s.apartment.value.media.images|
  }

  /** With the index in range, an image pane always has a source. */
  lemma IndexInRangeShowsImage(b: Builtins, s: GalleryState)
    requires IndexInRange(s) && Render(b, s).GalleryScreen? && Render(b, s).main.ImagePane?
    ensures Render(b, s).main == ImagePane(Some(s.apartment.value.media.images[s.activeMediaIndex]))
  {
  }

  /** The handlers keep the index in range (an image click because its
      buttons are generated over the images). */
  lemma HandlersKeepIndexInRange(s: GalleryState, i: nat)
    requires IndexInRange(s)
    ensures IndexInRange(BeginFetch(s))
    ensures IndexInRange(ClickVideoThumb(s))
    ensures IndexInRange(VideoLoadError(s))
    ensures s.apartment.Some? && i < |s.apartment.value.media.images| ==>
              IndexInRange(ClickImageThumb(s, i))
  {
  }

  /** A successful fetch leaves the index in range exactly when the kept index
      fits the new images (or there are none); a failed one leaves it as it
      was. In particular the first fetch, made with index 0, always does. */
  lemma CompleteFetchIndexInRange(b: Builtins, s: GalleryState, outcome: FetchOutcome)
    ensures outcome.Fetched? ==>
              (IndexInRange(CompleteFetch(b, s, outcome)) <==>
                 var images := ProcessMedia(b, outcome.data.media).images;
                 images == [] || s.activeMediaIndex < |images|)
    ensures outcome.FetchFailed? ==> (IndexInRange(CompleteFetch(b, s, outcome)) <==> IndexInRange(s))
    ensures IndexInRange(CompleteFetch(b, BeginFetch(Initial), outcome))
  {
  }

  /** The index is not reset by a fetch: after viewing the second of two
      images, a fetch of a record with one image leaves the main pane with no
      image source. */
  lemma RefetchCanLeaveIndexPastImages(b: Builtins)
    ensures var s := GalleryState(Some(Apartment(map[], ProcessedMedia(["a", "b"], []))), true, 1, Image);
            var raw := RawApartment(map[], Some(RawMedia(Some(["c"]), None)));
            && IndexInRange(s)
            && !IndexInRange(CompleteFetch(b, s, Fetched(raw)))
            && Render(b, CompleteFetch(b, s, Fetched(raw))).main == ImagePane(None)
  {
  }

}
