/** The shapes of the two job-related stores of the video service:
    the catalog (`videoData`: one record per video id) and the job ledger
    (`currentDownloadVideos`: one entry per id whose pipeline has not
    finished), together with the status tags the pipeline writes. */
module Records {
  import opened Wrappers
  import opened Text

  // ---------------------------------------------------------------------
  // status tags

  const Completed := "completed"
  const Unfinished := "unfinished download"
  const WaitingForVideo := "waiting for video"
  const StartingCompression := "starting video compression"
  const StartingThumbnail := "starting thumbnail download"
  const Starting := "starting"
  const Downloading := "downloading"
  const ZeroPercent := "0.00%"
  const BothToolsUnavailable := "ffmpeg and ffprobe unavailable"
  const FfmpegUnavailable := "ffmpeg unavailable"
  const FfprobeUnavailable := "ffprobe unavailable"
  const UntruncUnavailable := "untrunc unavailable"
  const WorkingVideoUnavailable := "working video for untrunc is unavailable"
  const Killed := "ffmpeg was killed with signal SIGKILL"

  /** The four ways a video enters the pipeline. */
  datatype Origin = Stream | Full | Trim | Upload

  /** The tag a job's video stage carries from its start event until its first
      progress tick. */
  function StartTag(o: Origin): string {
    match o
    case Stream => "starting stream download"
    case Full => "starting full video download"
    case Trim => "starting trim video download"
    case Upload => "starting uploaded video download"
  }

  /** The key under `download.compression` in the user settings that decides
      whether a job of this origin is also compressed. */
  function CompressionSettingKey(o: Origin): string {
    match o
    case Stream => "downloadVideoStream"
    case Full => "downloadVideo"
    case Trim => "trimVideo"
    case Upload => "downloadUploadedVideo"
  }

  /** Video statuses that mean the fetch never made progress: reconciliation
      throws such jobs away. */
  predicate IsUnstartedTag(s: string) {
    s == StartTag(Stream) || s == StartTag(Full) || s == StartTag(Trim) || s == StartTag(Upload)
    || s == ZeroPercent
  }

  lemma StartTagsUnstarted(o: Origin)
    ensures IsUnstartedTag(StartTag(o)) && StartTag(o) != Completed && StartTag(o) != ""
  {
  }

  // ---------------------------------------------------------------------
  // catalog record

  /** A `download` field of the catalog: a status string, a progress number
      (kept as integer hundredths of a percent) or `undefined`. */
  datatype Value = Text(text: string) | Number(hundredths: int) | Undefined {
    /** JavaScript truthiness: `""`, `0` and `undefined` are falsy. */
    predicate Truthy() {
      match this
      case Text(s) => s != ""
      case Number(h) => h != 0
      case Undefined => false
    }
  }

  /** The start and end times a trim job was asked for. */
  datatype TrimWindow = TrimWindow(start: string, end: string)

  datatype VideoPart = VideoPart(
    originalSrc: string,
    originalType: string,
    trim: Option<TrimWindow>,
    path: Option<string>,
    videoType: Option<string>,
    download: Value,
    timemark: Option<string>)

  datatype CompressionPart = CompressionPart(path: Option<string>, videoType: Option<string>, download: Value)

  /** Thumbnail files by their index 1..N. */
  datatype ThumbnailPart = ThumbnailPart(path: map<nat, string>, download: Value)

  datatype VideoRecord = VideoRecord(
    video: VideoPart,
    compression: Option<CompressionPart>,
    thumbnail: Option<ThumbnailPart>)

  /** The directory every file of video `id` lives in. */
  function VideoDir(id: string): string {
    "media/video/" + id + "/"
  }

  /** The record a job's start event writes: only the video stage, with its
      start tag. */
  function StartRecord(o: Origin, src: string, srcType: string, trim: Option<TrimWindow>): (r: VideoRecord)
    ensures r.video.download == Text(StartTag(o)) && r.video.path.None?
    ensures r.compression.None? && r.thumbnail.None?
  {
    VideoRecord(VideoPart(src, srcType, trim, None, None, Text(StartTag(o)), None), None, None)
  }

  /** The record a fetch end event writes: the original file under the video
      directory, an empty thumbnail stage and, when compressing, an empty
      compression stage; earlier progress fields are dropped. */
  function FetchedRecord(id: string, src: string, srcType: string, trim: Option<TrimWindow>, compress: bool): (r: VideoRecord)
    ensures r.video.path == Some(VideoDir(id) + id + ".mp4") && r.video.videoType == Some("video/mp4")
    ensures r.video.download == Text(Completed) && r.video.timemark.None?
    ensures r.thumbnail == Some(ThumbnailPart(map[], Text(Starting)))
    ensures r.compression.Some? <==> compress
    ensures compress ==> r.compression.value.download == Text(Starting) && r.compression.value.path.None?
  {
    VideoRecord(
      VideoPart(src, srcType, trim, Some(VideoDir(id) + id + ".mp4"), Some("video/mp4"), Text(Completed), None),
      if compress then Some(CompressionPart(None, None, Text(Starting))) else None,
      Some(ThumbnailPart(map[], Text(Starting))))
  }

  // ---------------------------------------------------------------------
  // ledger entry

  /** A ledger entry: the `download-status` of each stage. `None` is a stage
      object that is absent; `Some("")` is a stage object without a status
      (both are falsy, as the source reads them). */
  datatype LedgerEntry = LedgerEntry(video: Option<string>, compression: Option<string>, thumbnail: Option<string>)

  /** Whether a stage's status, read as the source reads it, is truthy. */
  predicate IsTruthy(stage: Option<string>) {
    stage.Some? && stage.value != ""
  }

  /** Whether a stage carries exactly the status `tag`. */
  predicate Is(stage: Option<string>, tag: string) {
    stage == Some(tag)
  }

  // ---------------------------------------------------------------------
  // progress percentages

  /** The ledger status a progress tick writes for a percentage, given in
      hundredths (`None` when the transcoder reports no percentage): negative
      values are shown as "0.00%", others with two decimals, and a missing
      percentage as "undefined%". */
  function ProgressStatus(p: Option<int>): (s: string)
    ensures |s| >= 1 && s[|s| - 1] == '%'
  {
    match p
    case None => "undefined%"
    case Some(h) => if h < 0 then ZeroPercent else FixedTwo(h) + "%"
  }

  /** A progress tick leaves the video stage in the "never started" state
      exactly when its percentage is zero or negative. */
  lemma ProgressStatusUnstarted(p: Option<int>)
    ensures IsUnstartedTag(ProgressStatus(p)) <==> p.Some? && p.value <= 0
    ensures ProgressStatus(p) != Completed && ProgressStatus(p) != ""
  {
    match p
    case None =>
    case Some(h) =>
      if h >= 0 {
        FixedTwoZero(h);
        var s := FixedTwo(h) + "%";
        if IsUnstartedTag(s) {
          assert s == ZeroPercent by {
            assert s[0] == NatStr(h / 100)[0];
            assert IsDigit(s[0]);
          }
          assert FixedTwo(h) == s[..|s| - 1];
        }
      }
  }
}
