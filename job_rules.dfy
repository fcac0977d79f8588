/** The decisions the service takes about one ledger entry: the per-stage
    transitions fired by transcoder events, the startup reconciliation table,
    the explicit resume dispatch and the test that decides whether a running
    compression may be stopped. All of them compare status tags; none of them
    touches a store, so they are plain functions the server class applies. */
module JobRules {
  import opened Wrappers
  import opened Records

  // ---------------------------------------------------------------------
  // transitions fired by transcoder events

  /** The entry a job's start event writes: the video stage with its start
      tag, a waiting thumbnail stage and, only when compressing, a waiting
      compression stage. */
  function StartEntry(o: Origin, compress: bool): (e: LedgerEntry)
    ensures Is(e.video, StartTag(o)) && Is(e.thumbnail, WaitingForVideo)
    ensures e.compression.Some? <==> compress
    ensures compress ==> Is(e.compression, WaitingForVideo)
  {
    LedgerEntry(Some(StartTag(o)), if compress then Some(WaitingForVideo) else None, Some(WaitingForVideo))
  }

  /** The entry after the fetch end event: video completed, thumbnail about to
      start and, when compressing, compression about to start. */
  function FetchEndEntry(e: LedgerEntry, compress: bool): (r: LedgerEntry)
    ensures Is(r.video, Completed) && Is(r.thumbnail, StartingThumbnail)
    ensures compress ==> Is(r.compression, StartingCompression)
    ensures !compress ==> r.compression == e.compression
  {
    LedgerEntry(Some(Completed), if compress then Some(StartingCompression) else e.compression, Some(StartingThumbnail))
  }

  /** The ledger after the thumbnail stage ends for `id`: the entry goes when
      no compression stage is pending, otherwise only its thumbnail stage
      becomes completed. */
  function ThumbnailEndLedger(L: map<string, LedgerEntry>, id: string): (r: map<string, LedgerEntry>)
    requires id in L
    ensures forall k | k != id :: (k in r <==> k in L) && (k in r ==> r[k] == L[k])
    ensures id !in r <==> L[id].compression.None? || Is(L[id].compression, Completed)
    ensures id in r ==> r[id] == L[id].(thumbnail := Some(Completed))
  {
    if L[id].compression.None? || Is(L[id].compression, Completed) then L - {id}
    else L[id := L[id].(thumbnail := Some(Completed))]
  }

  /** The ledger after the compression stage ends for `id`: the mirror image
      of `ThumbnailEndLedger`. */
  function CompressionEndLedger(L: map<string, LedgerEntry>, id: string): (r: map<string, LedgerEntry>)
    requires id in L
    ensures forall k | k != id :: (k in r <==> k in L) && (k in r ==> r[k] == L[k])
    ensures id !in r <==> L[id].thumbnail.None? || Is(L[id].thumbnail, Completed)
    ensures id in r ==> r[id] == L[id].(compression := Some(Completed))
  {
    if L[id].thumbnail.None? || Is(L[id].thumbnail, Completed) then L - {id}
    else L[id := L[id].(compression := Some(Completed))]
  }

  /** Whichever of the two stages ends first, once both have ended the entry
      is gone and nothing else in the ledger changed. */
  lemma BothEndsRemoveEntry(L: map<string, LedgerEntry>, id: string)
    requires id in L && L[id].thumbnail.Some? && L[id].compression.Some?
    ensures var a := ThumbnailEndLedger(L, id);
            id in a ==> CompressionEndLedger(a, id) == L - {id}
    ensures var b := CompressionEndLedger(L, id);
            id in b ==> ThumbnailEndLedger(b, id) == L - {id}
  {
    var a := ThumbnailEndLedger(L, id);
    if id in a {
      assert CompressionEndLedger(a, id) == a - {id};
    }
    var b := CompressionEndLedger(L, id);
    if id in b {
      assert ThumbnailEndLedger(b, id) == b - {id};
    }
  }

  /** The compression entry after a SIGKILL error: the stage, when present,
      records the kill. */
  function KilledEntry(e: LedgerEntry): (r: LedgerEntry)
    ensures r.video == e.video && r.thumbnail == e.thumbnail
    ensures e.compression.Some? <==> r.compression.Some?
    ensures e.compression.Some? ==> Is(r.compression, Killed)
  {
    if e.compression.Some? then e.(compression := Some(Killed)) else e
  }

  // ---------------------------------------------------------------------
  // startup reconciliation

  /** Which external tools and files exist when the service starts. */
  datatype Tools = Tools(ffmpeg: bool, ffprobe: bool, untrunc: bool, workingVideo: bool)

  /** The tag recording which transcoder tool is missing, checked in the
      source's order: both, then ffmpeg, then ffprobe. */
  function MissingToolTag(t: Tools): (r: Option<string>)
    ensures r.None? <==> t.ffmpeg && t.ffprobe
    ensures !t.ffmpeg && !t.ffprobe ==> r == Some(BothToolsUnavailable)
    ensures !t.ffmpeg && t.ffprobe ==> r == Some(FfmpegUnavailable)
    ensures t.ffmpeg && !t.ffprobe ==> r == Some(FfprobeUnavailable)
  {
    if !t.ffprobe && !t.ffmpeg then Some(BothToolsUnavailable)
    else if !t.ffmpeg then Some(FfmpegUnavailable)
    else if !t.ffprobe then Some(FfprobeUnavailable)
    else None
  }

  /** What reconciliation does with one entry: purge the video everywhere,
      forget the entry (all its work is done), or rewrite its statuses. */
  datatype Verdict = Purge | Forget | Rewrite(entry: LedgerEntry)

  /** The decision table of the startup reconciliation for one entry. */
  function Reconcile(e: LedgerEntry, t: Tools): Verdict {
    if !IsTruthy(e.video) then Purge
    else if e.video.value == Completed then
      var thumb, comp := IsTruthy(e.thumbnail), IsTruthy(e.compression);
      var thumbDone, compDone := Is(e.thumbnail, Completed), Is(e.compression, Completed);
      match MissingToolTag(t)
      case Some(tag) =>
        if thumb && comp then
          if thumbDone && !compDone then Rewrite(e.(compression := Some(tag)))
          else if !thumbDone && compDone then Rewrite(e.(thumbnail := Some(tag)))
          else Rewrite(e.(thumbnail := Some(tag), compression := Some(tag)))
        else if thumb then Rewrite(e.(thumbnail := Some(tag)))
        else if comp then
          if compDone then Rewrite(e.(thumbnail := Some(tag)))
          else Rewrite(e.(thumbnail := Some(tag), compression := Some(tag)))
        else Rewrite(e.(thumbnail := Some(tag)))
      case None =>
        if thumb && comp then
          if thumbDone && compDone then Forget
          else if thumbDone then Rewrite(e.(thumbnail := Some(Completed), compression := Some(Unfinished)))
          else if compDone then Rewrite(e.(thumbnail := Some(Unfinished), compression := Some(Completed)))
          else Rewrite(e.(thumbnail := Some(Unfinished), compression := Some(Unfinished)))
        else if thumb then
          if thumbDone then Forget else Rewrite(e.(thumbnail := Some(Unfinished)))
        else if comp then
          if compDone then Rewrite(e.(thumbnail := Some(Unfinished)))
          else Rewrite(e.(thumbnail := Some(Unfinished), compression := Some(Unfinished)))
        else Rewrite(e.(thumbnail := Some(Unfinished)))
    else if IsUnstartedTag(e.video.value) then Purge
    else if !t.untrunc then Rewrite(e.(video := Some(UntruncUnavailable)))
    else if !t.workingVideo then Rewrite(e.(video := Some(WorkingVideoUnavailable)))
    else Rewrite(e.(video := Some(Unfinished)))
  }

  /** A video is purged exactly when its video stage has no truthy status or
      still carries a start tag or "0.00%". */
  lemma PurgeIff(e: LedgerEntry, t: Tools)
    ensures Reconcile(e, t) == Purge <==> !IsTruthy(e.video) || IsUnstartedTag(e.video.value)
  {
  }

  /** An entry is dropped as finished exactly when both tools exist, the video
      and the thumbnail are completed and the compression stage is either
      completed or has no truthy status. */
  lemma ForgetIff(e: LedgerEntry, t: Tools)
    ensures Reconcile(e, t) == Forget <==>
      t.ffmpeg && t.ffprobe && Is(e.video, Completed) && Is(e.thumbnail, Completed)
      && (!IsTruthy(e.compression) || Is(e.compression, Completed))
  {
  }

  /** With both tools present and the video completed, a stage that is not
      completed (or a missing thumbnail) is marked unfinished, a completed
      stage stays completed, and a compression stage without a truthy status
      is left as it was. */
  lemma RepairWithTools(e: LedgerEntry, t: Tools)
    requires t.ffmpeg && t.ffprobe && Is(e.video, Completed)
    requires Reconcile(e, t).Rewrite?
    ensures var r := Reconcile(e, t).entry;
      r.video == e.video
      && r.thumbnail == Some(if Is(e.thumbnail, Completed) then Completed else Unfinished)
      && r.compression == (if !IsTruthy(e.compression) then e.compression
                           else Some(if Is(e.compression, Completed) then Completed else Unfinished))
  {
  }

  /** With a transcoder tool missing and the video completed, the thumbnail
      keeps its status only when it is completed and a truthy, unfinished
      compression stage exists; the compression keeps its status only when it
      has no truthy status or is completed beside an unfinished thumbnail;
      every other stage gets the missing-tool tag. In particular two completed
      stages are both overwritten. */
  lemma RepairWithoutTools(e: LedgerEntry, t: Tools)
    requires !(t.ffmpeg && t.ffprobe) && Is(e.video, Completed)
    ensures Reconcile(e, t).Rewrite?
    ensures var r := Reconcile(e, t).entry;
      var tag := MissingToolTag(t).value;
      var thumbDone, compDone := Is(e.thumbnail, Completed), Is(e.compression, Completed);
      r.video == e.video
      && r.thumbnail == (if thumbDone && IsTruthy(e.compression) && !compDone then e.thumbnail else Some(tag))
      && r.compression == (if !IsTruthy(e.compression) || (compDone && !thumbDone) then e.compression else Some(tag))
  {
  }

  /** A video caught half-fetched is kept: its video stage is tagged with what
      is missing for the repair tool, or marked unfinished; the other stages
      are untouched. */
  lemma RepairHalfFetched(e: LedgerEntry, t: Tools)
    requires IsTruthy(e.video) && e.video.value != Completed && !IsUnstartedTag(e.video.value)
    ensures Reconcile(e, t).Rewrite?
    ensures var r := Reconcile(e, t).entry;
      r.thumbnail == e.thumbnail && r.compression == e.compression
      && r.video == Some(if !t.untrunc then UntruncUnavailable
                         else if !t.workingVideo then WorkingVideoUnavailable
                         else Unfinished)
  {
  }

  /** Reconciling twice with the same tools changes nothing more: a rewritten
      entry is rewritten to itself. */
  lemma ReconcileIdempotent(e: LedgerEntry, t: Tools)
    requires Reconcile(e, t).Rewrite?
    ensures Reconcile(Reconcile(e, t).entry, t) == Reconcile(e, t)
  {
    var r := Reconcile(e, t).entry;
    if Is(e.video, Completed) {
      if t.ffmpeg && t.ffprobe {
        RepairWithTools(e, t);
        ForgetIff(e, t);
        RepairWithTools(r, t);
      } else {
        RepairWithoutTools(e, t);
        RepairWithoutTools(r, t);
      }
    } else {
      RepairHalfFetched(e, t);
      RepairHalfFetched(r, t);
    }
  }

  /** A job that was killed after its fetch reported any progress above zero
      (or a NaN percentage), whatever its other stages show, is repaired, not
      purged: with both repair tools its video stage becomes "unfinished". */
  lemma CrashMidFetchIsRepaired(p: Option<int>, compression: Option<string>, thumbnail: Option<string>, t: Tools)
    requires p.None? || p.value > 0
    requires t.untrunc && t.workingVideo
    ensures var e := LedgerEntry(Some(ProgressStatus(p)), compression, thumbnail);
      Reconcile(e, t) == Rewrite(e.(video := Some(Unfinished)))
  {
    ProgressStatusUnstarted(p);
    RepairHalfFetched(LedgerEntry(Some(ProgressStatus(p)), compression, thumbnail), t);
  }

  /** A job that never got past its start event is purged at startup. */
  lemma CrashBeforeProgressIsPurged(o: Origin, compress: bool, t: Tools)
    ensures Reconcile(StartEntry(o, compress), t) == Purge
  {
    StartTagsUnstarted(o);
  }

  /** The entries the reconciliation keeps, rewritten. */
  function ReconciledLedger(L: map<string, LedgerEntry>, t: Tools): (r: map<string, LedgerEntry>)
    ensures forall id :: id in r <==> id in L && Reconcile(L[id], t).Rewrite?
    ensures forall id | id in r :: r[id] == Reconcile(L[id], t).entry
  {
    map id | id in L && Reconcile(L[id], t).Rewrite? :: Reconcile(L[id], t).entry
  }

  /** The ids whose video the reconciliation purges. */
  function PurgedIds(L: map<string, LedgerEntry>, t: Tools): (r: set<string>)
    ensures forall id :: id in r <==> id in L && Reconcile(L[id], t) == Purge
  {
    set id | id in L && Reconcile(L[id], t) == Purge
  }

  /** A second reconciliation with the same tools purges nothing and leaves
      the ledger as the first one left it. */
  lemma ReconciledLedgerStable(L: map<string, LedgerEntry>, t: Tools)
    ensures ReconciledLedger(ReconciledLedger(L, t), t) == ReconciledLedger(L, t)
    ensures PurgedIds(ReconciledLedger(L, t), t) == {}
  {
    var R := ReconciledLedger(L, t);
    forall id | id in R
      ensures Reconcile(R[id], t) == Rewrite(R[id])
    {
      ReconcileIdempotent(L[id], t);
    }
    assert ReconciledLedger(R, t) == R;
  }

  // ---------------------------------------------------------------------
  // explicit resume

  /** What resuming a job does: the reply, the stages it restarts and whether
      it drops the ledger entry. */
  datatype ResumePlan = ResumePlan(reply: string, thumbnail: bool, compression: bool, untrunc: bool, dropEntry: bool)

  /** The dispatch of the explicit resume request for a ledger entry (`None`
      when the id has no entry). A stage counts as completed only when it is
      present with the status "completed". */
  function Resume(entry: Option<LedgerEntry>): ResumePlan {
    match entry
    case None => ResumePlan("invalid current downloads id", false, false, false, false)
    case Some(e) =>
      var videoDone, thumbDone, compDone := Is(e.video, Completed), Is(e.thumbnail, Completed), Is(e.compression, Completed);
      if videoDone then
        if thumbDone && compDone then ResumePlan("download status: completed", false, false, false, true)
        else if !thumbDone && compDone then ResumePlan("redownload thumbnails", true, false, false, false)
        else if thumbDone && !compDone then ResumePlan("redownload compression", false, true, false, false)
        else if e.compression.None? then ResumePlan("redownload thumbnails", true, false, false, false)
        else ResumePlan("redownload thumbnails & compression", true, true, false, false)
      else ResumePlan("untrunc broke video", false, false, true, false)
  }

  /** Which stages resume restarts, stated per stage. */
  lemma ResumeStages(entry: Option<LedgerEntry>)
    ensures Resume(entry).dropEntry <==>
      entry.Some? && Is(entry.value.video, Completed) && Is(entry.value.thumbnail, Completed) && Is(entry.value.compression, Completed)
    ensures Resume(entry).thumbnail <==>
      entry.Some? && Is(entry.value.video, Completed) && !Is(entry.value.thumbnail, Completed)
    ensures Resume(entry).compression <==>
      entry.Some? && Is(entry.value.video, Completed) && !Is(entry.value.compression, Completed)
      && (Is(entry.value.thumbnail, Completed) || entry.value.compression.Some?)
    ensures Resume(entry).untrunc <==> entry.Some? && !Is(entry.value.video, Completed)
    ensures Resume(entry).untrunc ==> !Resume(entry).thumbnail && !Resume(entry).compression
  {
  }

  /** A job whose thumbnails are done but which never had a compression stage
      is still answered with "redownload compression" and a compression run. */
  lemma ResumeWithoutCompressionStage()
    ensures Resume(Some(LedgerEntry(Some(Completed), None, Some(Completed))))
      == ResumePlan("redownload compression", false, true, false, false)
  {
  }

  /** After a repair with both tools present, resuming restarts exactly the
      stages the repair marked unfinished. */
  lemma ResumeAfterRepair(e: LedgerEntry, t: Tools)
    requires t.ffmpeg && t.ffprobe && Is(e.video, Completed)
    requires e.compression.None? || IsTruthy(e.compression)
    requires Reconcile(e, t).Rewrite?
    ensures var r := Reconcile(e, t).entry;
      Resume(Some(r)).thumbnail == Is(r.thumbnail, Unfinished)
      && Resume(Some(r)).compression == Is(r.compression, Unfinished)
      && !Resume(Some(r)).dropEntry
  {
    RepairWithTools(e, t);
    ForgetIff(e, t);
  }

  // ---------------------------------------------------------------------
  // stopping a compression

  /** The ledger compression statuses under which no compression is running. */
  predicate IsInactiveCompression(s: string) {
    s == Completed || s == BothToolsUnavailable || s == FfmpegUnavailable || s == FfprobeUnavailable || s == Unfinished
  }

  /** Whether a stop request may arm the compression kill switch, given the
      catalog's compression `download` value (`Undefined` when the record or
      its compression stage is missing) and the ledger's compression status. */
  function MayStopCompression(catalogDownload: Value, ledgerStatus: Option<string>): bool {
    if catalogDownload.Truthy() then
      if catalogDownload == Text(Completed) then false
      else if IsTruthy(ledgerStatus) then !IsInactiveCompression(ledgerStatus.value)
      else true
    else if IsTruthy(ledgerStatus) then !IsInactiveCompression(ledgerStatus.value)
    else false
  }

  /** A stop is allowed exactly when the catalog does not say completed, one
      of the two stores shows a truthy compression status, and the ledger's
      status (when truthy) is not one of the inactive tags. */
  lemma MayStopCompressionIff(catalogDownload: Value, ledgerStatus: Option<string>)
    ensures MayStopCompression(catalogDownload, ledgerStatus) <==>
      catalogDownload != Text(Completed)
      && (catalogDownload.Truthy() || IsTruthy(ledgerStatus))
      && !(IsTruthy(ledgerStatus) && IsInactiveCompression(ledgerStatus.value))
  {
  }
}
