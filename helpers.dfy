/** The small request helpers of the video service: resolving a library
    link back to the stored file, the protocol to media-type table used when
    a page URL is turned into a video URL, the replies a job request gets when
    a transcoder tool is missing or fails, and the user settings the
    download handlers consult. */
module Helpers {
  import opened Wrappers
  import opened Text
  import opened Records

  // ---------------------------------------------------------------------
  // checkIfVideoSrcOriginalPathExits

  /** The id-relative result of resolving `src`: the stored original file of
      video `id` when the catalog has one with a truthy path, else `src`. */
  function OriginalPathOr(catalog: map<string, VideoRecord>, id: string, src: string): string {
    if id in catalog && catalog[id].video.path.Some? && catalog[id].video.path.value != "" then
      catalog[id].video.path.value
    else src
  }

  /** The source a new job reads from: a link of the form `.../video/<id>` or
      `.../compressed/<id>` to a stored video is replaced by the path of that
      video's ORIGINAL file (also for the compressed link); any other source
      is used as given. */
  function ResolveSource(catalog: map<string, VideoRecord>, src: string): (r: string)
    ensures r == src || exists id | id in catalog :: catalog[id].video.path == Some(r)
  {
    if Contains(src, "/video/") then
      match SecondPiece(src, "/video/")
      case None => src
      case Some(id) => OriginalPathOr(catalog, id, src)
    else if Contains(src, "/compressed/") then
      match SecondPiece(src, "/compressed/")
      case None => src
      case Some(id) => OriginalPathOr(catalog, id, src)
    else src
  }

  lemma NoSlashNoVideoSeparator(id: string)
    requires '/' !in id
    ensures !Contains(id, "/video/") && !Contains(id, "/compressed/")
  {
    forall j | 0 <= j < |id| ensures !("/video/" <= id[j..]) && !("/compressed/" <= id[j..]) {
      assert id[j..][0] == id[j];
    }
  }

  lemma CompressedLinkHasNoVideoSeparator(id: string)
    requires '/' !in id
    ensures !Contains("/compressed/" + id, "/video/")
  {
    var s := "/compressed/" + id;
    forall j | 0 <= j <= |s| ensures !("/video/" <= s[j..]) {
      if j + 7 <= |s| {
        assert s[j..][0] == s[j] && s[j..][6] == s[j + 6];
        if j < 12 { assert s[j] == "/compressed/"[j]; } else { assert s[j] == id[j - 12]; }
        if j + 6 < 12 { assert s[j + 6] == "/compressed/"[j + 6]; } else { assert s[j + 6] == id[j - 6]; }
      }
    }
  }

  /** The two links the library stores for a video, `/video/<id>` and
      `/compressed/<id>`, both resolve to the video's original file when the
      catalog knows it, and to themselves otherwise. */
  lemma LibraryLinksResolveToOriginal(catalog: map<string, VideoRecord>, id: string)
    requires '/' !in id
    ensures ResolveSource(catalog, "/video/" + id) == OriginalPathOr(catalog, id, "/video/" + id)
    ensures ResolveSource(catalog, "/compressed/" + id) == OriginalPathOr(catalog, id, "/compressed/" + id)
  {
    NoSlashNoVideoSeparator(id);
    SecondPieceAfterSeparator("/video/", id);
    assert "/video/" <= "/video/" + id;
    SecondPieceAfterSeparator("/compressed/", id);
    assert "/compressed/" <= "/compressed/" + id;
    CompressedLinkHasNoVideoSeparator(id);
  }

  /** A source that names no stored video is used as given. */
  lemma PlainSourceUnchanged(catalog: map<string, VideoRecord>, src: string)
    requires !Contains(src, "/video/") && !Contains(src, "/compressed/")
    ensures ResolveSource(catalog, src) == src
  {
  }

  // ---------------------------------------------------------------------
  // getVideoLinkFromUrl

  /** What the page-URL lookup reports: the delivery protocol and the direct
      URL (`None` when the lookup gave no information). */
  datatype UrlInfo = UrlInfo(protocol: string, url: string)

  datatype LinkReply =
    | Link(inputUrl: string, videoUrl: string, fileFormat: string)
    | LinkFailed

  const NotSupported := "not-supported"

  /** The media type a delivery protocol is played as. */
  function MediaTypeOf(protocol: string): string {
    if protocol == "https" || protocol == "http" then "video/mp4"
    else if protocol == "m3u8" then "application/x-mpegURL"
    else if protocol == "http_dash_segments" then "application/dash+xml"
    else NotSupported
  }

  /** The reply to a page-URL request. */
  function VideoLinkReply(inputUrl: string, info: Option<UrlInfo>): LinkReply {
    var videoUrl := if info.Some? && MediaTypeOf(info.value.protocol) != NotSupported then info.value.url else NotSupported;
    var format := if info.Some? then MediaTypeOf(info.value.protocol) else NotSupported;
    if videoUrl != NotSupported || format != NotSupported then Link(inputUrl, videoUrl, format)
    else LinkFailed
  }

  /** The lookup succeeds exactly for the four supported protocols, and then
      passes the direct URL on with the protocol's media type. */
  lemma VideoLinkReplyIff(inputUrl: string, info: Option<UrlInfo>)
    ensures VideoLinkReply(inputUrl, info).Link? <==>
      info.Some? && info.value.protocol in {"https", "http", "m3u8", "http_dash_segments"}
    ensures VideoLinkReply(inputUrl, info).Link? ==>
      VideoLinkReply(inputUrl, info) == Link(inputUrl, info.value.url, MediaTypeOf(info.value.protocol))
  {
  }

  // ---------------------------------------------------------------------
  // job admission and fetch errors

  /** The reply a job request gets when a transcoder tool is missing, checked
      both, then ffmpeg, then ffprobe; `None` when the job may start. */
  function MissingToolReply(ffmpeg: bool, ffprobe: bool): (r: Option<string>)
    ensures r.None? <==> ffmpeg && ffprobe
    ensures !ffmpeg && !ffprobe ==> r == Some("Cannot-find-ffmpeg-ffprobe")
    ensures !ffmpeg && ffprobe ==> r == Some("Cannot-find-ffmpeg")
    ensures ffmpeg && !ffprobe ==> r == Some("Cannot-find-ffprobe")
  {
    if ffprobe && ffmpeg then None
    else if !ffprobe && !ffmpeg then Some("Cannot-find-ffmpeg-ffprobe")
    else if !ffmpeg then Some("Cannot-find-ffmpeg")
    else Some("Cannot-find-ffprobe")
  }

  /** The reply a fetch error event sends: a missing transcoder is named,
      anything else is a generic failure. */
  function FetchErrorReply(message: string): (r: string)
    ensures r == "Cannot-find-ffmpeg" <==> message == "Cannot find ffmpeg"
    ensures r == "Cannot-find-ffmpeg" || r == "ffmpeg-failed"
  {
    if message == "Cannot find ffmpeg" then "Cannot-find-ffmpeg" else "ffmpeg-failed"
  }

  // ---------------------------------------------------------------------
  // user settings

  /** The user settings: the player's volume and mute state and, when the
      settings file has them, the per-origin compression switches. */
  class UserSettings {
    var volume: real
    var muted: bool
    var compression: Option<map<string, bool>>

    constructor (volume: real, muted: bool, compression: Option<map<string, bool>>)
      ensures this.volume == volume && this.muted == muted && this.compression == compression
    {
      this.volume := volume;
      this.muted := muted;
      this.compression := compression;
    }

    /** Whether jobs of the kind `downloadType` are compressed: the stored
        switch, or false when there is none. */
    function CompressFor(downloadType: string): (r: bool)
      reads this
      ensures r <==> compression.Some? && downloadType in compression.value && compression.value[downloadType]
    {
      match compression
      case None => false
      case Some(m) => if downloadType in m then m[downloadType] else false
    }

    /** Stores a new volume and mute state when the volume is a number and
        the mute state a boolean (`None` stands for any other value), and
        names which of the two was invalid otherwise. */
    method UpdateVideoPlayerVolume(newVolume: Option<real>, newMuted: Option<bool>) returns (reply: string)
      modifies this
      ensures reply == "updated-video-player-volume" <==> newVolume.Some? && newMuted.Some?
      ensures newVolume.Some? && newMuted.Some? ==> volume == newVolume.value && muted == newMuted.value
      ensures !(newVolume.Some? && newMuted.Some?) ==> volume == old(volume) && muted == old(muted)
      ensures newVolume.Some? && newMuted.None? ==> reply == "muted-invaid"
      ensures newVolume.None? && newMuted.Some? ==> reply == "volume-invaid"
      ensures newVolume.None? && newMuted.None? ==> reply == "volume-muted-invaid"
      ensures compression == old(compression)
    {
      if newVolume.Some? && newMuted.Some? {
        volume := newVolume.value;
        muted := newMuted.value;
        reply := "updated-video-player-volume";
      } else if newVolume.Some? {
        reply := "muted-invaid";
      } else if newMuted.Some? {
        reply := "volume-invaid";
      } else {
        reply := "volume-muted-invaid";
      }
    }

    /** Sets the compression switch of `downloadType` to `value` (`None` when
        the request's value is not a boolean). Only a switch that already
        exists is changed; the switch table itself may be missing. */
    method UpdateCompressVideoDownload(downloadType: string, value: Option<bool>) returns (reply: string)
      modifies this
      ensures old(compression).None? ==> reply == "update failed" && compression == old(compression)
      ensures old(compression).Some? && downloadType !in old(compression).value ==>
        reply == "invalid download type" && compression == old(compression)
      ensures old(compression).Some? && downloadType in old(compression).value && value.None? ==>
        reply == "invalid bool" && compression == old(compression)
      ensures old(compression).Some? && downloadType in old(compression).value && value.Some? ==>
        reply == "compress video download " + downloadType + " updated"
        && compression == Some(old(compression).value[downloadType := value.value])
      ensures compression.Some? ==> compression.value.Keys == old(compression).value.Keys
      ensures reply == "compress video download " + downloadType + " updated" ==> CompressFor(downloadType) == value.value
      ensures volume == old(volume) && muted == old(muted)
    {
      match compression
      case None =>
        reply := "update failed";
      case Some(m) =>
        if downloadType in m {
          if value.Some? {
            compression := Some(m[downloadType := value.value]);
            reply := "compress video download " + downloadType + " updated";
          } else {
            reply := "invalid bool";
          }
        } else {
          reply := "invalid download type";
        }
    }
  }
}
