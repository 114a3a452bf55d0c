/** The `ApartmentInfo` component of src/app/apartmentInfo.js as an object:
    its four state variables are fields, and `fetchApartmentDetails`, the
    thumbnail click handlers and the video error handler are methods that
    update them in place. */
module ApartmentInfo {
  import opened Wrappers
  import opened Media
  import opened Gallery
  import Endpoints

  /** The address the component fetches, written out literally in the
      component; it is the address `getApartmentDetails` builds. */
  function FetchAddress(apartmentId: string): (address: string)
    ensures address == Endpoints.GetApartmentDetails(apartmentId)
  {
    "https://api.africartz.com/api/apartment/" + apartmentId
  }

  class Component {
    var apartment: Option<Apartment>
    var loading: bool
    var activeMediaIndex: nat
    var mediaType: MediaType

    /** The state as a value, for the rendering functions and lemmas of Gallery. */
    function State(): GalleryState
      reads this
    {
      GalleryState(apartment, loading, activeMediaIndex, mediaType)
    }

    /** The initial state: no apartment, not loading, index 0, 'image'. */
    constructor ()
      ensures apartment == None && !loading && activeMediaIndex == 0 && mediaType == Image
      ensures State() == Initial
    {
      apartment := None;
      loading := false;
      activeMediaIndex := 0;
      mediaType := Image;
    }

    /** `setLoading(true)`, before the request is awaited. */
    method FetchStarted()
      modifies this
      ensures loading
      ensures apartment == old(apartment) && activeMediaIndex == old(activeMediaIndex)
      ensures mediaType == old(mediaType)
      ensures State() == BeginFetch(old(State()))
    {
      loading := true;
    }

    /** The rest of `fetchApartmentDetails` once the request has settled with
        `outcome`: on success the media are processed, the apartment replaced
        and 'video' selected if there is a video; in every case `loading` is
        cleared. The index is never touched. */
    method FetchSettled(b: Builtins, outcome: FetchOutcome)
      modifies this
      ensures !loading
      ensures activeMediaIndex == old(activeMediaIndex)
      ensures outcome.FetchFailed? ==> apartment == old(apartment) && mediaType == old(mediaType)
      ensures outcome.Fetched? ==>
                && apartment == Some(Apartment(outcome.data.details, ProcessMedia(b, outcome.data.media)))
                && mediaType == (if |apartment.value.media.videos| > 0 then Video else old(mediaType))
      ensures State() == CompleteFetch(b, old(State()), outcome)
    {
      match outcome {
        case Fetched(raw) =>
          var processedMedia := ProcessMedia(b, raw.media);
          apartment := Some(Apartment(raw.details, processedMedia));
          if |processedMedia.videos| > 0 {
            mediaType := Video;
          }
        case FetchFailed =>
      }
      loading := false;
    }

    /** The video thumbnail's click handler: select 'video', nothing else. */
    method ClickVideoThumbnail()
      modifies this
      ensures mediaType == Video
      ensures apartment == old(apartment) && loading == old(loading)
      ensures activeMediaIndex == old(activeMediaIndex)
      ensures State() == ClickVideoThumb(old(State()))
    {
      mediaType := Video;
    }

    /** The click handler of image thumbnail `index`; the thumbnails are
        generated over the images, so `index` names one of them. */
    method ClickImageThumbnail(index: nat)
      requires apartment.Some? && index < |apartment.value.media.images|
      modifies this
      ensures mediaType == Image && activeMediaIndex == index
      ensures apartment == old(apartment) && loading == old(loading)
      ensures State() == ClickImageThumb(old(State()), index)
      ensures IndexInRange(State())
    {
      mediaType := Image;
      activeMediaIndex := index;
    }

    /** The `<video>` element's error handler: fall back to 'image'. */
    method VideoFailedToLoad()
      modifies this
      ensures mediaType == Image
      ensures apartment == old(apartment) && loading == old(loading)
      ensures activeMediaIndex == old(activeMediaIndex)
      ensures State() == VideoLoadError(old(State()))
    {
      mediaType := Image;
    }
  }

  /** A whole mount: construct, fetch one record that has a video, then view
      an image and fall back from a failing video. The highlighted thumbnail
      follows each step, and the index stays in range throughout. The clicks
      need a rendered gallery, so the first video's type must be computable
      (otherwise the first render after the fetch throws). */
  method MountAndBrowse(b: Builtins, raw: RawApartment) returns (c: Component)
    requires |ProcessMedia(b, raw.media).videos| > 0
    requires |ProcessMedia(b, raw.media).images| > 1
    requires GetVideoType(b, ProcessMedia(b, raw.media).videos[0]).Some?
    ensures Render(b, c.State()).GalleryScreen?
    ensures Render(b, c.State()).main == ImagePane(Some(ProcessMedia(b, raw.media).images[1]))
    ensures Render(b, c.State()).videoThumb == Some(false)
    ensures IndexInRange(c.State())
  {
    c := new Component();
    c.FetchStarted();
    assert Render(b, c.State()) == LoadingScreen;
    c.FetchSettled(b, Fetched(raw));
    FetchWithVideosShowsFirstVideo(b, Initial.(loading := true), raw);
    assert Render(b, c.State()).GalleryScreen? && Render(b, c.State()).videoThumb == Some(true);
    c.ClickImageThumbnail(1);
    c.ClickVideoThumbnail();
    c.VideoFailedToLoad();
    assert c.activeMediaIndex == 1;
  }

}
