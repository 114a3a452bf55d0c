# Apartment page: media classification, gallery state and API addresses

This project models, in Dafny, the logic of the apartment page of the
weblinkview web app:

- **Address building** (`endpoint.js`). A fixed base address plus a path
  gives an endpoint. `getApartmentDetails(id)` gives the address of one
  apartment record. Module `Endpoints`.
- **Media classification** (`src/app/apartmentInfo.js`, `isValidVideoUrl`,
  `getVideoType`). A raw video reference is accepted only if it is
  non-empty, it decodes, it parses as a URL, and its lower-cased decoded
  form ends in `.mp4`, `.mov`, `.webm` or `.ogg`. The MIME type is taken
  from the extension and defaults to `video/mp4`. `decodeURIComponent`
  and `new URL` are browser built-ins. They are parameters of the model
  (the `Builtins` datatype), and either one may fail.
- **Record normalisation** (the `processedMedia` object). Images are kept
  as they are. Videos are filtered through the classifier and then
  decoded. Module `Media`.
- **The gallery** (the component's state: `apartment`, `loading`,
  `activeMediaIndex`, `mediaType`). The fetch, the two kinds of thumbnail
  click and the video error handler change it. Rendering reads it to
  choose the main pane and the highlighted thumbnail. Module `Gallery`
  defines the state as a value, with its transitions, its rendering and
  the lemmas. Module `ApartmentInfo` holds the same state in the fields
  of class `Component`. Its methods update those fields in place, and
  each one's contract ties the new state to the matching `Gallery`
  transition.

The component awaits the request between `setLoading(true)` and the rest
of `fetchApartmentDetails`. So the fetch is two methods:
`FetchStarted` and `FetchSettled(outcome)`. The request's result is an
input of the second: a parsed body, or a failure.

A behaviour of the code that the model keeps: a fetch resets neither
`activeMediaIndex` nor `mediaType`. If the component fetches a second
record with fewer images than the index, the main image has no source.
`Gallery.RefetchCanLeaveIndexPastImages` shows this case, and
`Gallery.CompleteFetchIndexInRange` gives the exact condition under which the
index stays valid. A leftover 'video' selection on a record without
videos highlights no thumbnail (`Gallery.StaleVideoSelectionHighlightsNothing`).
The render calls `getVideoType` on the first video, which decodes the
already-decoded address a second time outside any `try`. When that decode
fails (a `%25` escape that leaves a lone `%`, say), the render throws and
the page shows no gallery: `Gallery.Render` returns `RenderThrows`, and
`Gallery.UndecodableFirstVideoThrows` shows that a fetch can lead there.

## Model

| member | source | states |
|---|---|---|
| `Endpoints.Endpoint` | endpoint.js:1-4 | the endpoint is the base address, then `/`, then the path; its length is the base length plus one plus the path length |
| `Endpoints.GetApartmentDetails` | endpoint.js:1-7 | the apartment address equals `https://api.africartz.com/api/apartment/` followed by the identifier verbatim |
| `Endpoints.GetApartmentDetailsInjective` | endpoint.js:7 | distinct identifiers give distinct apartment addresses |
| `ApartmentInfo.FetchAddress` | src/app/apartmentInfo.js:27-28 | the literal address the component fetches is the address `getApartmentDetails` builds |
| `Media.Lower` | src/app/apartmentInfo.js:85 | lower-casing keeps the length and folds each character on its own |
| `Media.IsValidVideoUrl` | src/app/apartmentInfo.js:79-92 | a null or empty entry, a failed decode or a failed URL construction gives false (never an error); true only if the decoded form ends in a video extension after lower-casing |
| `Media.AcceptsVideoExtensionInAnyCase` | src/app/apartmentInfo.js:82-87 | a non-empty, decodable, parsable URL whose decoded form ends in a video extension in any letter case is accepted |
| `Media.GetVideoType` | src/app/apartmentInfo.js:94-101 | fails exactly when its own decode fails; otherwise the result is one of the four MIME types of the table |
| `Media.VideoMimeTypesCoverExtensions` | src/app/apartmentInfo.js:84-99 | the MIME table has an entry for exactly the extensions the classifier accepts |
| `Media.GetVideoTypeByExtension` | src/app/apartmentInfo.js:95-99 | `.mp4`, `.webm`, `.ogg`, `.mov` (any case) map to `video/mp4`, `video/webm`, `video/ogg`, `video/quicktime` |
| `Media.GetVideoTypeDefault` | src/app/apartmentInfo.js:100 | a decoded URL with no video extension gets `video/mp4` |
| `Media.HasVideoExtension` | src/app/apartmentInfo.js:84-85 | true exactly when the lower-cased address ends in `.mp4`, `.mov`, `.webm` or `.ogg` |
| `Media.RawImages` | src/app/apartmentInfo.js:39 | the raw image list when `media.images` is present, the empty list otherwise |
| `Media.RawVideos` | src/app/apartmentInfo.js:40 | the raw video list when `media.videos` is present, the empty list otherwise |
| `Media.FilterValidVideos` | src/app/apartmentInfo.js:40-41 | the filter keeps exactly the valid entries, and never more entries than it was given |
| `Media.FilterKeepsEveryValidCopy` | src/app/apartmentInfo.js:40-41 | each valid entry is kept as many times as it occurs in the raw list; an invalid one not at all |
| `Media.DecodeAll` | src/app/apartmentInfo.js:42 | one output per kept entry, output `i` being the decoded form of kept entry `i` |
| `Media.ProcessMedia` | src/app/apartmentInfo.js:38-43 | images are the raw images, or empty when absent; videos are empty when absent, never outnumber the raw entries, and each one parses as a URL and has a video extension |
| `Media.FilterIsSubsequence` | src/app/apartmentInfo.js:40-41 | the filter keeps the raw order (its result is a subsequence of the raw list) |
| `Media.ProcessedVideosAreDecodedSubsequence` | src/app/apartmentInfo.js:38-43 | processed video `i` is the decoded form of the `i`-th valid raw entry, the valid entries taken in raw order, each as many times as it occurs in the raw list |
| `Media.NoVideosIffNoneValid` | src/app/apartmentInfo.js:40-43 | no processed videos exactly when no raw entry is valid |
| `Gallery.Normalize` | src/app/apartmentInfo.js:38-62 | the stored apartment keeps the payload's other fields, and its media is the processed media (so the raw images; videos no more than the raw ones, each parsing and having a video extension) |
| `Gallery.BeginFetch` | src/app/apartmentInfo.js:25 | sets `loading` and nothing else |
| `Gallery.CompleteFetch` | src/app/apartmentInfo.js:37-76 | after the request settles `loading` is false and the index is kept; a failure changes nothing else; a success stores the processed record, and 'video' is then selected iff there are videos or it already was |
| `Gallery.ClickVideoThumb` | src/app/apartmentInfo.js:190-192 | selects 'video' and nothing else |
| `Gallery.ClickImageThumb` | src/app/apartmentInfo.js:219-222 | selects 'image' at the clicked index and nothing else |
| `Gallery.VideoLoadError` | src/app/apartmentInfo.js:147-150 | selects 'image' and nothing else |
| `Gallery.MainPane` | src/app/apartmentInfo.js:136-181 | the first video, with the type `getVideoType` gives it (one of the MIME table's), when 'video' is selected and videos exist, and no pane (a throw) exactly when its second decode fails; otherwise the active image when images exist, with no source past their end; otherwise the "No media" placeholder |
| `Gallery.Render` | src/app/apartmentInfo.js:103-243 | loading text exactly while loading; the no-data text exactly when not loading and without an apartment; a throw exactly when the first video is to be shown and its second decode fails; otherwise the gallery, whose main pane is the one `MainPane` chooses |
| `Gallery.GalleryThumbnails` | src/app/apartmentInfo.js:187-216 | the gallery has one thumbnail per image and a video thumbnail exactly when videos exist |
| `Gallery.HighlightIff` | src/app/apartmentInfo.js:187-227 | the video thumbnail is highlighted iff 'video' is selected; image thumbnail `k` iff 'image' is selected and the index is `k` |
| `Gallery.AtMostOneHighlighted` | src/app/apartmentInfo.js:193-227 | no two image thumbnails are highlighted, and none is while the video thumbnail is |
| `Gallery.HighlightedThumbIsShown` | src/app/apartmentInfo.js:136-227 | the highlighted thumbnail's media is what the main pane shows |
| `Gallery.StaleVideoSelectionHighlightsNothing` | src/app/apartmentInfo.js:136-195 | 'video' selected on a record without videos: no video thumbnail, no image highlighted, and the pane shows the active image, or the placeholder when there are no images |
| `Gallery.BeginFetchShowsLoading` | src/app/apartmentInfo.js:24-25 | starting a fetch shows the loading text |
| `Gallery.FetchWithVideosShowsFirstVideo` | src/app/apartmentInfo.js:64-70 | a record with a valid video opens on its first video, with only the video thumbnail highlighted; if the first video's second decode fails the render throws instead |
| `Gallery.UndecodableFirstVideoThrows` | src/app/apartmentInfo.js:155-157 | a valid raw video whose decoded form does not decode again becomes the first video, and the render after the fetch throws |
| `Gallery.ClickImageThumbShowsImage` | src/app/apartmentInfo.js:216-222 | clicking image `i` shows image `i` and highlights only its thumbnail; the apartment and `loading` are kept |
| `Gallery.ClickVideoThumbShowsVideo` | src/app/apartmentInfo.js:187-192 | clicking the video thumbnail shows the first video, highlights only the video thumbnail and keeps the image index; the render throws instead if the first video's second decode fails |
| `Gallery.VideoLoadErrorFallsBack` | src/app/apartmentInfo.js:147-150 | a video error shows the active image (the placeholder when there are no images) and un-highlights the video thumbnail; the index is kept |
| `Gallery.IndexInRangeShowsImage` | src/app/apartmentInfo.js:165-167 | with the index in range, an image pane shows the image at the index |
| `Gallery.HandlersKeepIndexInRange` | src/app/apartmentInfo.js:216-222 | starting a fetch, the video click, the video error, and an image click on an existing thumbnail keep the index in range |
| `Gallery.CompleteFetchIndexInRange` | src/app/apartmentInfo.js:14-70 | a successful fetch leaves the index in range exactly when the kept index fits the new images or there are none; a failed fetch leaves it in range exactly when it was; the first fetch of a mount always does |
| `Gallery.RefetchCanLeaveIndexPastImages` | src/app/apartmentInfo.js:59-70 | a fetch does not reset the index: after viewing image 2 of 2, fetching a one-image record leaves the main image without a source |
| `ApartmentInfo.Component.constructor` | src/app/apartmentInfo.js:12-15 | initially no apartment, not loading, index 0, 'image' |
| `ApartmentInfo.Component.FetchStarted` | src/app/apartmentInfo.js:24-25 | sets `loading`, changes nothing else |
| `ApartmentInfo.Component.FetchSettled` | src/app/apartmentInfo.js:37-76 | clears `loading`; on success stores the processed record and selects 'video' iff it has videos, else keeps `mediaType`; on failure keeps the apartment and `mediaType`; never changes the index |
| `ApartmentInfo.Component.ClickVideoThumbnail` | src/app/apartmentInfo.js:190-192 | selects 'video' and changes nothing else |
| `ApartmentInfo.Component.ClickImageThumbnail` | src/app/apartmentInfo.js:219-222 | selects 'image' and sets the index to the clicked thumbnail's; the index is then in range |
| `ApartmentInfo.Component.VideoFailedToLoad` | src/app/apartmentInfo.js:147-150 | selects 'image' and changes nothing else |
| `ApartmentInfo.MountAndBrowse` | src/app/apartmentInfo.js:18-22 | a mount that fetches a record with a video and more than one image, clicks image 2, the video, then has the video fail, ends showing image 2 with the video thumbnail shown and not highlighted (the first video's type must be computable, or the page throws before any click) |

## Left out

- The HTTP request itself: the `axios.get` call, its headers, its 10 000 ms timeout, the `await` and the `useEffect` that triggers it. The model takes the settled outcome as an input (`FetchOutcome`).
- The order in which overlapping requests settle. If the identifier changes while a request is in flight, either response may arrive last. The model lets `FetchSettled` be called in any order and does not model the race.
- A `null` or `undefined` body makes the processing throw into the `catch`; the model treats it as a `FetchFailed` outcome. A string, number or boolean body has no `media`, so it is a `Fetched` outcome whose `media` is absent, and the page shows the "No media available" placeholder.
- A falsy `media.videos` or `media.images` (`false`, `0`, `""`) becomes `[]` through `|| []` (src/app/apartmentInfo.js:39-40). The model represents it like an absent list (`None`).
- A `media.videos` that is present, truthy and not an array: `.filter` throws (src/app/apartmentInfo.js:40) and the fetch ends in the `catch`. The model's raw videos are always a list, so this case is a `FetchFailed` outcome.
- A `media.images` that is present, truthy and not an array: it is stored as it is, and the thumbnails' `.map` then throws while rendering (src/app/apartmentInfo.js:216). The model's raw images are always a list, so this case is not represented.
- `Gallery.Details`: the payload's other fields are a map from names to strings. Numbers and nested objects (the guest count, the agent identifier, the optional fees) are carried as opaque strings; the component only displays them.
- Media entries that are neither strings nor null: JavaScript would convert them to strings before decoding. Raw entries are strings or null here.
- `Media.Lower`: folds only the ASCII capitals, not the full Unicode case mapping of `toLowerCase`, and keeps the length, whereas `toLowerCase` can lengthen a string (U+0130 becomes two characters). No non-ASCII character lower-cases to any character of a recognised extension (`.`, `m`, `p`, `4`, `o`, `v`, `w`, `e`, `b`, `g`), so the extension test does not depend on this.
- `decodeURIComponent` and `new URL`: left uninterpreted (the `Builtins` parameters). The model does not say which inputs make them fail. When the second decode in `getVideoType` fails, the model's render returns `RenderThrows`; React's error handling beyond that point is not modelled.
- `alert` and `console.log` calls, and the `toLocaleString` formatting of the optional fees: side effects and locale-dependent library behaviour.
- The page layout, `next/image` and `<video>` element behaviour, and the swap to a placeholder image on an image load error: this is UI.
- The static pages and configuration (src/app/media.js, src/app/footer.js, src/app/page.js, next.config.mjs), and the separate page src/app/apartment/[apartmentId]/page.js: they are not part of this model.
