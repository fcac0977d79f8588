/** The media server's in-memory state and the handlers that change it: the
    catalog of video records, the library tree shown to users, the ledger of
    unfinished jobs, and the two stop switches. Each handler, whether a
    request or a transcoder event, is one atomic step over this state. */
module Server {
  import opened Wrappers
  import opened Text
  import opened Records
  import opened JobRules
  import opened Library
  import opened Cancellation

  // ---------------------------------------------------------------------
  // thumbnail file names and links

  /** The file the transcoder writes for thumbnail `i` of video `id`
      (`%03d` numbering). */
  function ThumbnailPath(id: string, i: nat): string {
    VideoDir(id) + id + "-thumbnail" + ThumbnailNumber(i) + ".jpg"
  }

  /** The link under which the server serves thumbnail `i` of video `id`. */
  function ThumbnailLink(id: string, i: nat): string {
    "/thumbnail/" + id + "/" + NatStr(i)
  }

  /** Thumbnails 1 to `n`, by number, as files. */
  function ThumbnailPaths(id: string, n: nat): map<nat, string> {
    Upto(n, (i: nat) => ThumbnailPath(id, i))
  }

  /** Thumbnails 1 to `n`, by number, as links. */
  function ThumbnailLinks(id: string, n: nat): map<nat, string> {
    Upto(n, (i: nat) => ThumbnailLink(id, i))
  }

  lemma Middle(a: string, x: string, b: string)
    ensures (a + x + b)[|a|..|a| + |x|] == x
  {
    assert (a + x + b)[|a|..|a| + |x|] == (a + x)[|a|..];
  }

  /** Distinct thumbnail numbers name distinct files and distinct links, so
      no thumbnail overwrites another. */
  lemma ThumbnailNamesDistinct(id: string, i: nat, j: nat)
    requires i != j
    ensures ThumbnailPath(id, i) != ThumbnailPath(id, j)
    ensures ThumbnailLink(id, i) != ThumbnailLink(id, j)
  {
    ThumbnailNumberValue(i);
    ThumbnailNumberValue(j);
    DigitsValueOfNatStr(i);
    DigitsValueOfNatStr(j);
    var a := VideoDir(id) + id + "-thumbnail";
    Middle(a, ThumbnailNumber(i), ".jpg");
    Middle(a, ThumbnailNumber(j), ".jpg");
    var p := "/thumbnail/" + id + "/";
    assert (p + NatStr(i))[|p|..] == NatStr(i);
    assert (p + NatStr(j))[|p|..] == NatStr(j);
  }

  /** The thumbnail maps hold exactly the numbers 1 to `n`, each file is
      `<dir><id>-thumbnail<%03d number>.jpg` and each link ends in the plain
      decimal number. */
  lemma ThumbnailMapsShape(id: string, n: nat)
    ensures ThumbnailPaths(id, n).Keys == ThumbnailLinks(id, n).Keys
    ensures forall i: nat :: i in ThumbnailPaths(id, n) <==> 1 <= i <= n
    ensures forall i: nat | 1 <= i <= n :: ThumbnailPaths(id, n)[i] == VideoDir(id) + id + "-thumbnail" + ZeroPadded(NatStr(i), 3) + ".jpg"
    ensures forall i: nat | 1 <= i <= n :: ThumbnailLinks(id, n)[i] == "/thumbnail/" + id + "/" + NatStr(i)
  {
    forall i: nat | 1 <= i <= n
      ensures ThumbnailPaths(id, n)[i] == VideoDir(id) + id + "-thumbnail" + ZeroPadded(NatStr(i), 3) + ".jpg"
    {
      ThumbnailNumberIsPrintf(i);
    }
  }

  lemma ThumbnailMapsEmpty(id: string, base: map<nat, string>)
    ensures base + ThumbnailPaths(id, 0) == base && ThumbnailLinks(id, 0) == map[]
  {
  }

  /** Step i of the thumbnail loop extends the file map by entry i. */
  lemma ThumbnailPathsStep(id: string, base: map<nat, string>, i: nat)
    requires i >= 1
    ensures (base + ThumbnailPaths(id, i - 1))[i := ThumbnailPath(id, i)] == base + ThumbnailPaths(id, i)
  {
    UptoStep(base, i, (k: nat) => ThumbnailPath(id, k));
  }

  /** Step i of the thumbnail loop extends the link map by entry i. */
  lemma ThumbnailLinksStep(id: string, i: nat)
    requires i >= 1
    ensures ThumbnailLinks(id, i - 1)[i := ThumbnailLink(id, i)] == ThumbnailLinks(id, i)
  {
    UptoExtend(i, (k: nat) => ThumbnailLink(id, k));
  }

  /** The entries 1 to `n` of `f`. */
  function Upto(n: nat, f: nat -> string): map<nat, string> {
    map k: nat | 1 <= k <= n :: f(k)
  }

  lemma UptoExtend(n: nat, f: nat -> string)
    requires n >= 1
    ensures Upto(n - 1, f)[n := f(n)] == Upto(n, f)
  {
    var a := Upto(n - 1, f)[n := f(n)];
    var b := Upto(n, f);
    assert a.Keys == b.Keys;
    forall k | k in a
      ensures a[k] == b[k]
    {
    }
  }

  lemma UptoStep(base: map<nat, string>, n: nat, f: nat -> string)
    requires n >= 1
    ensures (base + Upto(n - 1, f))[n := f(n)] == base + Upto(n, f)
  {
    var a := (base + Upto(n - 1, f))[n := f(n)];
    var b := base + Upto(n, f);
    assert a.Keys == b.Keys;
    forall k | k in a
      ensures a[k] == b[k]
    {
    }
  }

  /** The loop of the thumbnail end event. Its step 0 gives the library
      entry an empty link map, step i (1 to `frames`) adds file i and link i,
      and its last step marks the stage completed. It returns the catalog's
      new thumbnail part and the new library, from the library `library`. */
  method ThumbnailWrites(library: Level, id: string, frames: nat, th: ThumbnailPart) returns (part: ThumbnailPart, shown: Level)
    ensures part == ThumbnailPart(th.path + ThumbnailPaths(id, frames), Text(Completed))
    ensures shown == WithThumbnailLinks(library, id, ThumbnailLinks(id, frames))
  {
    var paths := th.path;
    var links: map<nat, string> := map[];
    ThumbnailMapsEmpty(id, th.path);
    shown := WithThumbnailLinks(library, id, links);
    var i := 1;
    while i <= frames
      invariant 1 <= i <= frames + 1
      invariant paths == th.path + ThumbnailPaths(id, i - 1)
      invariant links == ThumbnailLinks(id, i - 1)
      invariant shown == WithThumbnailLinks(library, id, links)
    {
      var before := links;
      ThumbnailPathsStep(id, th.path, i);
      ThumbnailLinksStep(id, i);
      paths := paths[i := ThumbnailPath(id, i)];
      links := links[i := ThumbnailLink(id, i)];
      WithThumbnailLinksTwice(library, id, before, links);
      shown := WithThumbnailLinks(shown, id, links);
      i := i + 1;
    }
    part := ThumbnailPart(paths, Text(Completed));
  }

  // ---------------------------------------------------------------------
  // values written by progress events

  /** The catalog value of a transcoder percentage (`Undefined` when the
      transcoder reports none). */
  function PercentValue(p: Option<int>): (v: Value)
    ensures v.Truthy() <==> p.Some? && p.value != 0
  {
    if p.Some? then Number(p.value) else Undefined
  }

  /** The catalog's compression `download` value for `id`, `Undefined` when
      the record or its compression stage is missing. */
  function CatalogCompression(catalog: map<string, VideoRecord>, id: string): Value {
    if id in catalog && catalog[id].compression.Some? then catalog[id].compression.value.download else Undefined
  }

  /** The ledger's compression status for `id`, `None` when the entry or its
      compression stage is missing. */
  function LedgerCompression(ledger: map<string, LedgerEntry>, id: string): Option<string> {
    if id in ledger then ledger[id].compression else None
  }

  /** The ledger part way through reconciliation: the entries of `done` are
      reconciled, the others are as they were. */
  ghost function LedgerSoFar(L: map<string, LedgerEntry>, done: set<string>, t: Tools): map<string, LedgerEntry> {
    map id | id in L && (id in done ==> Reconcile(L[id], t).Rewrite?) ::
      if id in done then Reconcile(L[id], t).entry else L[id]
  }

  /** Reconciling one more entry rewrites it, or drops it when it is purged
      or forgotten. */
  lemma LedgerSoFarStep(L: map<string, LedgerEntry>, done: set<string>, t: Tools, id: string)
    requires id in L && id !in done
    ensures Reconcile(L[id], t).Rewrite? ==>
      LedgerSoFar(L, done + {id}, t) == LedgerSoFar(L, done, t)[id := Reconcile(L[id], t).entry]
    ensures !Reconcile(L[id], t).Rewrite? ==>
      LedgerSoFar(L, done + {id}, t) == LedgerSoFar(L, done, t) - {id}
  {
    var a := LedgerSoFar(L, done + {id}, t);
    var b := LedgerSoFar(L, done, t);
    if Reconcile(L[id], t).Rewrite? {
      assert a.Keys == b.Keys;
      assert a == b[id := Reconcile(L[id], t).entry];
    } else {
      assert a.Keys == b.Keys - {id};
      assert a == b - {id};
    }
  }

  lemma LedgerSoFarAll(L: map<string, LedgerEntry>, t: Tools)
    ensures LedgerSoFar(L, {}, t) == L
    ensures LedgerSoFar(L, L.Keys, t) == ReconciledLedger(L, t)
  {
    assert LedgerSoFar(L, {}, t).Keys == L.Keys;
    assert LedgerSoFar(L, L.Keys, t).Keys == ReconciledLedger(L, t).Keys;
  }

  /** The catalog and the purged set one reconciled entry later. */
  lemma PurgedStep(catalog: map<string, VideoRecord>, P: set<string>, done: set<string>, id: string)
    ensures id in P ==> P * (done + {id}) == P * done + {id}
    ensures id in P ==> catalog - P * done - {id} == catalog - P * (done + {id})
    ensures id !in P ==> P * (done + {id}) == P * done
  {
  }

  class MediaServer {
    /** The catalog: one record per video, keyed by id. */
    var catalog: map<string, VideoRecord>
    /** The top level of the library tree. */
    var library: Level
    /** The ledger of jobs not yet finished, keyed by id. */
    var ledger: map<string, LedgerEntry>
    /** The switch that stops a live stream download. */
    var streamStop: StopSwitch
    /** The switch that kills a compression. */
    var compressionStop: StopSwitch

    /** The server as it starts, with the stores it loaded. */
    constructor (catalog: map<string, VideoRecord>, library: Level, ledger: map<string, LedgerEntry>)
      ensures this.catalog == catalog && this.library == library && this.ledger == ledger
      ensures streamStop == Idle && compressionStop == Idle
    {
      this.catalog := catalog;
      this.library := library;
      this.ledger := ledger;
      streamStop := Idle;
      compressionStop := Idle;
    }

    // -------------------------------------------------------------------
    // the catalog store

    /** The record of `id`, if any. */
    function FindVideo(id: string): (r: Option<VideoRecord>)
      reads this
      ensures r.Some? <==> id in catalog
      ensures r.Some? ==> r.value == catalog[id]
    {
      if id in catalog then Some(catalog[id]) else None
    }

    /** Stores `d` under `id` and returns it; a later lookup finds `d` and no
        other record changes. */
    method UpdateVideoData(id: string, d: VideoRecord) returns (r: VideoRecord)
      modifies this
      ensures r == d && catalog == old(catalog)[id := d]
      ensures FindVideo(id) == Some(d)
      ensures forall x | x != id :: FindVideo(x) == old(FindVideo(x))
      ensures library == old(library) && ledger == old(ledger)
      ensures streamStop == old(streamStop) && compressionStop == old(compressionStop)
    {
      catalog := catalog[id := d];
      r := catalog[id];
    }

    /** Deletes the record of `id` when there is one. */
    method DeleteVideoData(id: string) returns (reply: string)
      modifies this
      ensures id in old(catalog) ==> reply == "Deleted " + id && catalog == old(catalog) - {id}
      ensures id !in old(catalog) ==> reply == id + " Unavaiable" && catalog == old(catalog)
      ensures FindVideo(id).None? && forall x | x != id :: FindVideo(x) == old(FindVideo(x))
      ensures library == old(library) && ledger == old(ledger)
      ensures streamStop == old(streamStop) && compressionStop == old(compressionStop)
    {
      if FindVideo(id).Some? {
        catalog := catalog - {id};
        reply := "Deleted " + id;
      } else {
        reply := id + " Unavaiable";
      }
    }

    method ResetVideoData() returns (reply: string)
      modifies this
      ensures catalog == map[] && reply == "resetVideoData"
      ensures library == old(library) && ledger == old(ledger)
      ensures streamStop == old(streamStop) && compressionStop == old(compressionStop)
    {
      catalog := map[];
      reply := "resetVideoData";
    }

    // -------------------------------------------------------------------
    // the top level of the library

    /** The top-level library entry `id`, if any: the node of the first
        entry with that key, which is the only one while keys are unique. */
    function FindAvailableVideo(id: string): (r: Option<Node>)
      reads this
      ensures r.None? <==> id !in Keys(library)
      ensures r.Some? ==> r.value == library[KeyIndex(library, id)].node
      ensures UniqueKeys(library) ==>
        forall i | 0 <= i < |library| && library[i].id == id :: r == Some(library[i].node)
    {
      FindFirst(library, id);
      Find(library, id)
    }

    /** Stores `node` under the top-level key `id` (in place when the key
        exists, last otherwise) and returns it. */
    method UpdateAvailableVideo(id: string, node: Node) returns (r: Node)
      modifies this
      ensures r == node && library == Put(old(library), id, node)
      ensures Find(library, id) == Some(node)
      ensures forall x | x != id :: Find(library, x) == Find(old(library), x)
      ensures Keys(library) == if id in Keys(old(library)) then Keys(old(library)) else Keys(old(library)) + [id]
      ensures UniqueKeys(old(library)) ==> UniqueKeys(library)
      ensures catalog == old(catalog) && ledger == old(ledger)
      ensures streamStop == old(streamStop) && compressionStop == old(compressionStop)
    {
      library := Put(library, id, node);
      r := node;
      assert forall x | x != id :: Find(library, x) == Find(old(library), x);
      assert Keys(library) == if id in Keys(old(library)) then Keys(old(library)) else Keys(old(library)) + [id] by {
        PutKeys(old(library), id, node);
      }
      assert UniqueKeys(old(library)) ==> UniqueKeys(library) by {
        if UniqueKeys(old(library)) {
          PutUnique(old(library), id, node);
        }
      }
    }

    /** Deletes the top-level entry `id` when there is one. */
    method DeleteAvailableVideo(id: string) returns (reply: string)
      modifies this
      ensures Find(old(library), id).Some? ==> reply == "Deleted " + id && library == Remove(old(library), id)
      ensures Find(old(library), id).None? ==> reply == id + " Unavaiable" && library == old(library)
      ensures FindAvailableVideo(id).None? && forall x | x != id :: Find(library, x) == Find(old(library), x)
      ensures UniqueKeys(old(library)) ==> UniqueKeys(library)
      ensures catalog == old(catalog) && ledger == old(ledger)
      ensures streamStop == old(streamStop) && compressionStop == old(compressionStop)
    {
      if UniqueKeys(library) {
        RemoveUnique(library, id);
      }
      if FindAvailableVideo(id).Some? {
        library := Remove(library, id);
        reply := "Deleted " + id;
      } else {
        reply := id + " Unavaiable";
      }
    }

    method ResetAvailableVideos() returns (reply: string)
      modifies this
      ensures library == [] && reply == "resetAvailableVideos"
      ensures UniqueKeys(old(library)) ==> UniqueKeys(library)
      ensures catalog == old(catalog) && ledger == old(ledger)
      ensures streamStop == old(streamStop) && compressionStop == old(compressionStop)
    {
      library := [];
      reply := "resetAvailableVideos";
    }

    // -------------------------------------------------------------------
    // the ledger store

    /** The ledger entry of `id`, if any. */
    function FindCurrentDownload(id: string): (r: Option<LedgerEntry>)
      reads this
      ensures r.Some? <==> id in ledger
      ensures r.Some? ==> r.value == ledger[id]
    {
      if id in ledger then Some(ledger[id]) else None
    }

    method UpdateCurrentDownload(id: string, e: LedgerEntry) returns (r: LedgerEntry)
      modifies this
      ensures r == e && ledger == old(ledger)[id := e]
      ensures FindCurrentDownload(id) == Some(e)
      ensures forall x | x != id :: FindCurrentDownload(x) == old(FindCurrentDownload(x))
      ensures catalog == old(catalog) && library == old(library)
      ensures streamStop == old(streamStop) && compressionStop == old(compressionStop)
    {
      ledger := ledger[id := e];
      r := ledger[id];
    }

    method DeleteCurrentDownload(id: string) returns (reply: string)
      modifies this
      ensures id in old(ledger) ==> reply == "Deleted " + id && ledger == old(ledger) - {id}
      ensures id !in old(ledger) ==> reply == id + " Unavaiable" && ledger == old(ledger)
      ensures FindCurrentDownload(id).None? && forall x | x != id :: FindCurrentDownload(x) == old(FindCurrentDownload(x))
      ensures catalog == old(catalog) && library == old(library)
      ensures streamStop == old(streamStop) && compressionStop == old(compressionStop)
    {
      if FindCurrentDownload(id).Some? {
        ledger := ledger - {id};
        reply := "Deleted " + id;
      } else {
        reply := id + " Unavaiable";
      }
    }

    method ResetCurrentDownloads() returns (reply: string)
      modifies this
      ensures ledger == map[] && reply == "resetCurrentDownloadVideos"
      ensures catalog == old(catalog) && library == old(library)
      ensures streamStop == old(streamStop) && compressionStop == old(compressionStop)
    {
      ledger := map[];
      reply := "resetCurrentDownloadVideos";
    }

    // -------------------------------------------------------------------
    // purging a video

    /** Deletes video `id` from the ledger, the catalog and the top level of
        the library. A folder id that is not a top-level key fails without
        changing anything (its path cannot be built). Removing a top-level
        folder with its contents is not part of this model. */
    method DeleteAllVideoData(id: string) returns (reply: string)
      requires !(Contains(id, "folder-") && Find(library, id).Some?)
      modifies this
      ensures !Contains(id, "folder-") ==>
        reply == "deleted-" + id + "-permanently" && ledger == old(ledger) - {id}
        && catalog == old(catalog) - {id} && library == Remove(old(library), id)
      ensures Contains(id, "folder-") ==>
        reply == "failed-to-delete-" + id + "-permanently"
        && ledger == old(ledger) && catalog == old(catalog) && library == old(library)
      ensures UniqueKeys(old(library)) ==> UniqueKeys(library)
      ensures streamStop == old(streamStop) && compressionStop == old(compressionStop)
    {
      if UniqueKeys(library) {
        RemoveUnique(library, id);
      }
      if Contains(id, "folder-") {
        reply := "failed-to-delete-" + id + "-permanently";
      } else {
        ledger := ledger - {id};
        catalog := catalog - {id};
        library := Remove(library, id);
        reply := "deleted-" + id + "-permanently";
      }
    }

    // -------------------------------------------------------------------
    // the download stage

    /** The start event of a download job (stream, full, trimmed or upload).
        The request only proceeds for an id the catalog does not hold; the
        event writes the record and the ledger entry of the job. */
    method OnJobStart(o: Origin, id: string, src: string, srcType: string, trim: Option<TrimWindow>, compress: bool) returns (started: bool)
      modifies this
      ensures started <==> id !in old(catalog)
      ensures started ==>
        catalog == old(catalog)[id := StartRecord(o, src, srcType, trim)]
        && ledger == old(ledger)[id := StartEntry(o, compress)]
      ensures !started ==> catalog == old(catalog) && ledger == old(ledger)
      ensures library == old(library)
      ensures streamStop == old(streamStop) && compressionStop == old(compressionStop)
    {
      started := FindVideo(id).None?;
      if started {
        catalog := catalog[id := StartRecord(o, src, srcType, trim)];
        ledger := ledger[id := StartEntry(o, compress)];
      }
    }

    /** A progress event of a live stream download: the catalog records the
        time mark and "downloading", the ledger the time mark, and a pending
        stop request for this id is carried out. The source raises, keeping
        the writes made so far, when the catalog has no record (before any
        write) or when the ledger has no entry with a video stage (after the
        catalog write); the stop request is then left pending. */
    method OnStreamProgress(id: string, timemark: string) returns (stopSent: bool, raised: bool)
      modifies this
      ensures raised <==> id !in old(catalog) || id !in old(ledger) || old(ledger)[id].video.None?
      ensures id !in old(catalog) ==> catalog == old(catalog)
      ensures id in old(catalog) ==>
        catalog == old(catalog)[id := old(catalog)[id].(video := old(catalog)[id].video.(timemark := Some(timemark), download := Text(Downloading)))]
      ensures !raised ==> ledger == old(ledger)[id := old(ledger)[id].(video := Some(timemark))]
      ensures !raised ==> (streamStop, stopSent) == old(streamStop).Tick(id)
      ensures raised ==> ledger == old(ledger) && streamStop == old(streamStop) && !stopSent
      ensures library == old(library) && compressionStop == old(compressionStop)
    {
      stopSent, raised := false, true;
      if id !in catalog {
        return;
      }
      var v := catalog[id].video;
      if v.download != Text(Downloading) {
        v := v.(timemark := Some(timemark), download := Text(Downloading));
      } else {
        v := v.(timemark := Some(timemark));
      }
      catalog := catalog[id := catalog[id].(video := v)];
      if id !in ledger || ledger[id].video.None? {
        return;
      }
      ledger := ledger[id := ledger[id].(video := Some(timemark))];
      var (s, fire) := streamStop.Tick(id);
      streamStop := s;
      stopSent, raised := fire, false;
    }

    /** A progress event of a full, trimmed or uploaded download: the catalog
        holds the raw percentage, the ledger its formatted status. The source
        raises when the catalog has no record (before any write) or the
        ledger no entry with a video stage (after the catalog write). */
    method OnFetchProgress(id: string, percent: Option<int>) returns (raised: bool)
      modifies this
      ensures raised <==> id !in old(catalog) || id !in old(ledger) || old(ledger)[id].video.None?
      ensures id !in old(catalog) ==> catalog == old(catalog)
      ensures id in old(catalog) ==>
        catalog == old(catalog)[id := old(catalog)[id].(video := old(catalog)[id].video.(download := PercentValue(percent)))]
      ensures !raised ==> ledger == old(ledger)[id := old(ledger)[id].(video := Some(ProgressStatus(percent)))]
      ensures raised ==> ledger == old(ledger)
      ensures library == old(library)
      ensures streamStop == old(streamStop) && compressionStop == old(compressionStop)
    {
      raised := true;
      if id !in catalog {
        return;
      }
      catalog := catalog[id := catalog[id].(video := catalog[id].video.(download := PercentValue(percent)))];
      if id !in ledger || ledger[id].video.None? {
        return;
      }
      ledger := ledger[id := ledger[id].(video := Some(ProgressStatus(percent)))];
      raised := false;
    }

    /** The end event of a download: the record is rebuilt around the fetched
        file, the ledger moves on to the next stages, and the thumbnail stage
        (always) and the compression stage (when compressing) start. The
        ledger writes go stage by stage, and the first stage missing from the
        entry (video, then compression when compressing, then thumbnail)
        raises with the earlier writes kept and no stage started. */
    method OnFetchEnd(id: string, src: string, srcType: string, trim: Option<TrimWindow>, compress: bool)
      returns (compressionStarts: bool, raised: bool)
      modifies this
      ensures catalog == old(catalog)[id := FetchedRecord(id, src, srcType, trim, compress)]
      ensures raised <==> (id !in old(ledger) || old(ledger)[id].video.None?
                           || (compress && old(ledger)[id].compression.None?) || old(ledger)[id].thumbnail.None?)
      ensures id !in old(ledger) || old(ledger)[id].video.None? ==> ledger == old(ledger)
      ensures id in old(ledger) && old(ledger)[id].video.Some? && compress && old(ledger)[id].compression.None? ==>
        ledger == old(ledger)[id := old(ledger)[id].(video := Some(Completed))]
      ensures (id in old(ledger) && old(ledger)[id].video.Some? && !(compress && old(ledger)[id].compression.None?)
               && old(ledger)[id].thumbnail.None?) ==>
        ledger == old(ledger)[id := old(ledger)[id].(video := Some(Completed),
          compression := if compress then Some(StartingCompression) else old(ledger)[id].compression)]
      ensures !raised ==> ledger == old(ledger)[id := FetchEndEntry(old(ledger)[id], compress)]
      ensures compressionStarts <==> compress && !raised
      ensures library == old(library)
      ensures streamStop == old(streamStop) && compressionStop == old(compressionStop)
    {
      catalog := catalog[id := FetchedRecord(id, src, srcType, trim, compress)];
      compressionStarts, raised := false, true;
      if id !in ledger || ledger[id].video.None? {
        return;
      }
      ledger := ledger[id := ledger[id].(video := Some(Completed))];
      if compress {
        if ledger[id].compression.None? {
          return;
        }
        ledger := ledger[id := ledger[id].(compression := Some(StartingCompression))];
      }
      if ledger[id].thumbnail.None? {
        return;
      }
      ledger := ledger[id := ledger[id].(thumbnail := Some(StartingThumbnail))];
      compressionStarts, raised := compress, false;
    }

    // -------------------------------------------------------------------
    // the thumbnail stage

    /** Starting the thumbnail stage. A missing tool is recorded in the
        ledger (the source raises, changing nothing, when the entry has no
        thumbnail stage); a video the catalog does not hold is left alone; a
        video without a positive duration is purged; otherwise the stage
        runs. */
    method StartThumbnailStage(id: string, tools: Tools, durationPositive: bool) returns (runs: bool, raised: bool)
      requires !Contains(id, "folder-")
      modifies this
      ensures runs <==> tools.ffmpeg && tools.ffprobe && id in old(catalog) && durationPositive
      ensures raised <==> !(tools.ffmpeg && tools.ffprobe) && (id !in old(ledger) || old(ledger)[id].thumbnail.None?)
      ensures !(tools.ffmpeg && tools.ffprobe) && !raised ==>
        ledger == old(ledger)[id := old(ledger)[id].(thumbnail := MissingToolTag(tools))]
        && catalog == old(catalog) && library == old(library)
      ensures raised ==> ledger == old(ledger) && catalog == old(catalog) && library == old(library)
      ensures tools.ffmpeg && tools.ffprobe && id in old(catalog) && !durationPositive ==>
        ledger == old(ledger) - {id} && catalog == old(catalog) - {id} && library == Remove(old(library), id)
      ensures tools.ffmpeg && tools.ffprobe && (id !in old(catalog) || durationPositive) ==>
        ledger == old(ledger) && catalog == old(catalog) && library == old(library)
      ensures UniqueKeys(old(library)) ==> UniqueKeys(library)
      ensures streamStop == old(streamStop) && compressionStop == old(compressionStop)
    {
      runs, raised := false, false;
      if tools.ffmpeg && tools.ffprobe {
        if FindVideo(id).Some? {
          if durationPositive {
            runs := true;
          } else {
            var _ := DeleteAllVideoData(id);
          }
        }
      } else if id !in ledger || ledger[id].thumbnail.None? {
        raised := true;
      } else {
        ledger := ledger[id := ledger[id].(thumbnail := MissingToolTag(tools))];
      }
    }

    /** A progress event of the thumbnail stage; a negative percentage is
        stored as zero. The source raises when the catalog record has no
        thumbnail stage (before any write) or the ledger entry none (after
        the catalog write). */
    method OnThumbnailProgress(id: string, percent: Option<int>) returns (raised: bool)
      modifies this
      ensures raised <==> (id !in old(catalog) || old(catalog)[id].thumbnail.None?
                           || id !in old(ledger) || old(ledger)[id].thumbnail.None?)
      ensures id !in old(catalog) || old(catalog)[id].thumbnail.None? ==> catalog == old(catalog)
      ensures id in old(catalog) && old(catalog)[id].thumbnail.Some? ==>
        catalog == old(catalog)[id := old(catalog)[id].(thumbnail := Some(old(catalog)[id].thumbnail.value.(download :=
          if percent.Some? && percent.value < 0 then Number(0) else PercentValue(percent))))]
      ensures !raised ==> ledger == old(ledger)[id := old(ledger)[id].(thumbnail := Some(ProgressStatus(percent)))]
      ensures raised ==> ledger == old(ledger)
      ensures library == old(library)
      ensures streamStop == old(streamStop) && compressionStop == old(compressionStop)
    {
      raised := true;
      if id !in catalog || catalog[id].thumbnail.None? {
        return;
      }
      var th := catalog[id].thumbnail.value;
      if percent.Some? && percent.value < 0 {
        th := th.(download := Number(0));
      } else {
        th := th.(download := PercentValue(percent));
      }
      catalog := catalog[id := catalog[id].(thumbnail := Some(th))];
      if id !in ledger || ledger[id].thumbnail.None? {
        return;
      }
      ledger := ledger[id := ledger[id].(thumbnail := Some(ProgressStatus(percent)))];
      raised := false;
    }

    /** The end event of the thumbnail stage, after `frames` images. Step 0
        gives the library entry an empty link map; step i (1 to `frames`)
        adds file i to the catalog and link i to the library; the last step
        marks the stage completed. The ledger entry then goes, or only its
        thumbnail stage completes when a compression is still pending. Step 0
        never raises; a record without a thumbnail stage raises at the next
        catalog write, keeping only the empty link map; after the loop, a
        missing ledger entry, or a pending compression with no thumbnail stage
        to complete, raises with the catalog and library written. */
    method OnThumbnailEnd(id: string, frames: nat) returns (raised: bool)
      modifies this
      ensures var written := id in old(catalog) && old(catalog)[id].thumbnail.Some?;
        raised <==> (!written || id !in old(ledger)
                     || (!(old(ledger)[id].compression.None? || Is(old(ledger)[id].compression, Completed))
                         && old(ledger)[id].thumbnail.None?))
      ensures !(id in old(catalog) && old(catalog)[id].thumbnail.Some?) ==>
        library == WithThumbnailLinks(old(library), id, map[]) && catalog == old(catalog)
      ensures id in old(catalog) && old(catalog)[id].thumbnail.Some? ==>
        catalog == old(catalog)[id := old(catalog)[id].(thumbnail := Some(ThumbnailPart(
          old(catalog)[id].thumbnail.value.path + ThumbnailPaths(id, frames), Text(Completed))))]
        && library == WithThumbnailLinks(old(library), id, ThumbnailLinks(id, frames))
      ensures !raised ==> ledger == ThumbnailEndLedger(old(ledger), id)
      ensures raised ==> ledger == old(ledger)
      ensures UniqueKeys(old(library)) ==> UniqueKeys(library)
      ensures streamStop == old(streamStop) && compressionStop == old(compressionStop)
    {
      raised := true;
      StageLinksUnique(library, id, map[]);
      StageLinksUnique(library, id, ThumbnailLinks(id, frames));
      if id !in catalog || catalog[id].thumbnail.None? {
        library := WithThumbnailLinks(library, id, map[]);
        return;
      }
      var th := catalog[id].thumbnail.value;
      var part, shown := ThumbnailWrites(library, id, frames, th);
      library := shown;
      catalog := catalog[id := catalog[id].(thumbnail := Some(part))];
      if id !in ledger || (!(ledger[id].compression.None? || Is(ledger[id].compression, Completed)) && ledger[id].thumbnail.None?) {
        return;
      }
      ledger := ThumbnailEndLedger(ledger, id);
      raised := false;
    }

    // -------------------------------------------------------------------
    // the compression stage

    /** Starting the compression stage: like the thumbnail stage, except that
        a missing tool is only logged. */
    method StartCompressionStage(id: string, tools: Tools, durationPositive: bool) returns (runs: bool)
      requires !Contains(id, "folder-")
      modifies this
      ensures runs <==> tools.ffmpeg && tools.ffprobe && id in old(catalog) && durationPositive
      ensures tools.ffmpeg && tools.ffprobe && id in old(catalog) && !durationPositive ==>
        ledger == old(ledger) - {id} && catalog == old(catalog) - {id} && library == Remove(old(library), id)
      ensures !(tools.ffmpeg && tools.ffprobe && id in old(catalog) && !durationPositive) ==>
        ledger == old(ledger) && catalog == old(catalog) && library == old(library)
      ensures UniqueKeys(old(library)) ==> UniqueKeys(library)
      ensures streamStop == old(streamStop) && compressionStop == old(compressionStop)
    {
      runs := false;
      if tools.ffmpeg && tools.ffprobe && FindVideo(id).Some? {
        if durationPositive {
          runs := true;
        } else {
          var _ := DeleteAllVideoData(id);
        }
      }
    }

    /** A progress event of the compression stage: the catalog holds the raw
        percentage, the ledger its status, and a pending kill request for this
        id is carried out. The source raises when the catalog record has no
        compression stage (before any write) or the ledger entry none (after
        the catalog write); the kill request is then left pending. */
    method OnCompressionProgress(id: string, percent: Option<int>) returns (killSent: bool, raised: bool)
      modifies this
      ensures raised <==> (id !in old(catalog) || old(catalog)[id].compression.None?
                           || id !in old(ledger) || old(ledger)[id].compression.None?)
      ensures id !in old(catalog) || old(catalog)[id].compression.None? ==> catalog == old(catalog)
      ensures id in old(catalog) && old(catalog)[id].compression.Some? ==>
        catalog == old(catalog)[id := old(catalog)[id].(compression := Some(old(catalog)[id].compression.value.(download := PercentValue(percent))))]
      ensures !raised ==> ledger == old(ledger)[id := old(ledger)[id].(compression := Some(ProgressStatus(percent)))]
      ensures !raised ==> (compressionStop, killSent) == old(compressionStop).Tick(id)
      ensures raised ==> ledger == old(ledger) && compressionStop == old(compressionStop) && !killSent
      ensures library == old(library) && streamStop == old(streamStop)
    {
      killSent, raised := false, true;
      if id !in catalog || catalog[id].compression.None? {
        return;
      }
      var cp := catalog[id].compression.value.(download := PercentValue(percent));
      catalog := catalog[id := catalog[id].(compression := Some(cp))];
      if id !in ledger || ledger[id].compression.None? {
        return;
      }
      ledger := ledger[id := ledger[id].(compression := Some(ProgressStatus(percent)))];
      var (s, fire) := compressionStop.Tick(id);
      compressionStop := s;
      killSent, raised := fire, false;
    }

    /** The end event of the compression stage: the library links the
        compressed file (never raising), the catalog records it, and the
        ledger entry goes or only its compression stage completes. A missing
        catalog record raises after the library write, a missing ledger entry
        after the catalog write too, and so does a pending thumbnail stage
        with no compression stage to complete. */
    method OnCompressionEnd(id: string) returns (raised: bool)
      modifies this
      ensures raised <==> (id !in old(catalog) || id !in old(ledger)
                           || (!(old(ledger)[id].thumbnail.None? || Is(old(ledger)[id].thumbnail, Completed))
                               && old(ledger)[id].compression.None?))
      ensures library == WithCompressedLink(old(library), id)
      ensures id !in old(catalog) ==> catalog == old(catalog)
      ensures id in old(catalog) ==> catalog == old(catalog)[id := old(catalog)[id].(compression :=
        Some(CompressionPart(Some(VideoDir(id) + id + ".webm"), Some("video/webm"), Text(Completed))))]
      ensures !raised ==> ledger == CompressionEndLedger(old(ledger), id)
      ensures raised ==> ledger == old(ledger)
      ensures UniqueKeys(old(library)) ==> UniqueKeys(library)
      ensures streamStop == old(streamStop) && compressionStop == old(compressionStop)
    {
      StageLinksUnique(library, id, map[]);
      library := WithCompressedLink(library, id);
      raised := true;
      if id !in catalog {
        return;
      }
      catalog := catalog[id := catalog[id].(compression :=
        Some(CompressionPart(Some(VideoDir(id) + id + ".webm"), Some("video/webm"), Text(Completed))))];
      if id !in ledger || (!(ledger[id].thumbnail.None? || Is(ledger[id].thumbnail, Completed)) && ledger[id].compression.None?) {
        return;
      }
      ledger := CompressionEndLedger(ledger, id);
      raised := false;
    }

    /** The error event of the compression stage: a kill is recorded in both
        stores, where the stage is present; other errors are only logged. A
        kill raises when the catalog has no record (before any write) or the
        ledger no entry (after the catalog write). */
    method OnCompressionError(id: string, message: string) returns (raised: bool)
      modifies this
      ensures raised <==> message == Killed && (id !in old(catalog) || id !in old(ledger))
      ensures message == Killed && id in old(catalog) && old(catalog)[id].compression.Some? ==>
        catalog == old(catalog)[id := old(catalog)[id].(compression := Some(old(catalog)[id].compression.value.(download := Text(Killed))))]
      ensures message == Killed && id in old(catalog) && old(catalog)[id].compression.None? ==> catalog == old(catalog)
      ensures message == Killed && !raised ==> ledger == old(ledger)[id := KilledEntry(old(ledger)[id])]
      ensures message != Killed || id !in old(catalog) ==> catalog == old(catalog)
      ensures message != Killed || raised ==> ledger == old(ledger)
      ensures library == old(library)
      ensures streamStop == old(streamStop) && compressionStop == old(compressionStop)
    {
      raised := false;
      if message == Killed {
        if id !in catalog {
          raised := true;
          return;
        }
        if catalog[id].compression.Some? {
          catalog := catalog[id := catalog[id].(compression := Some(catalog[id].compression.value.(download := Text(Killed))))];
        }
        if id !in ledger {
          raised := true;
          return;
        }
        ledger := ledger[id := KilledEntry(ledger[id])];
      }
    }

    // -------------------------------------------------------------------
    // stop requests

    /** A request to stop the live stream download of `id`. */
    method StopDownloadVideoStream(id: string) returns (reply: string)
      modifies this
      ensures id in old(catalog) ==> reply == "stoped video stream download" && streamStop == old(streamStop).Arm(id)
      ensures id !in old(catalog) ==> reply == "videoDetails dosnet exists" && streamStop == old(streamStop)
      ensures catalog == old(catalog) && library == old(library) && ledger == old(ledger)
      ensures compressionStop == old(compressionStop)
    {
      if FindVideo(id).Some? {
        streamStop := streamStop.Arm(id);
        reply := "stoped video stream download";
      } else {
        reply := "videoDetails dosnet exists";
      }
    }

    /** A request to kill the compression of `id`: it arms the switch only
        while a compression may be running. */
    method StopCompressedVideoDownload(id: string) returns (armed: bool)
      modifies this
      ensures armed == MayStopCompression(CatalogCompression(old(catalog), id), LedgerCompression(old(ledger), id))
      ensures compressionStop == if armed then old(compressionStop).Arm(id) else old(compressionStop)
      ensures catalog == old(catalog) && library == old(library) && ledger == old(ledger)
      ensures streamStop == old(streamStop)
    {
      armed := MayStopCompression(CatalogCompression(catalog, id), LedgerCompression(ledger, id));
      if armed {
        compressionStop := compressionStop.Arm(id);
      }
    }

    // -------------------------------------------------------------------
    // startup reconciliation and resume

    /** The startup pass over the ledger: each entry is purged with its video,
        forgotten, or rewritten, as `Reconcile` decides with the tools at
        hand. */
    method CheckForUnfinishedDownloads(t: Tools)
      requires forall id | id in ledger :: !Contains(id, "folder-")
      modifies this
      ensures ledger == ReconciledLedger(old(ledger), t)
      ensures catalog == old(catalog) - PurgedIds(old(ledger), t)
      ensures library == Prune(old(library), PurgedIds(old(ledger), t))
      ensures UniqueKeys(old(library)) ==> UniqueKeys(library)
      ensures streamStop == old(streamStop) && compressionStop == old(compressionStop)
    {
      ghost var L := ledger;
      ghost var P := PurgedIds(L, t);
      var todo := ledger.Keys;
      ghost var done: set<string> := {};
      LedgerSoFarAll(L, t);
      PruneNothing(library);
      assert P * done == {};
      while todo != {}
        invariant todo !! done && todo + done == L.Keys
        invariant forall x | x in L :: !Contains(x, "folder-")
        invariant ledger == LedgerSoFar(L, done, t)
        invariant catalog == old(catalog) - P * done
        invariant library == Prune(old(library), P * done)
        invariant streamStop == old(streamStop) && compressionStop == old(compressionStop)
        decreases todo
      {
        var id :| id in todo;
        ReconcileStep(id, t, L, done, old(catalog), old(library));
        todo := todo - {id};
        done := done + {id};
      }
      assert done == L.Keys;
      assert P * done == P;
      if UniqueKeys(old(library)) {
        PruneUnique(old(library), P);
      }
    }

    /** The loop step of the startup pass, stated on the ledger, catalog and
        library as they stand after the entries in `done` are reconciled. */
    method ReconcileStep(id: string, t: Tools, ghost L: map<string, LedgerEntry>, ghost done: set<string>,
                         ghost catalog0: map<string, VideoRecord>, ghost library0: Level)
      requires id in L && id !in done && !Contains(id, "folder-")
      requires ledger == LedgerSoFar(L, done, t)
      requires catalog == catalog0 - PurgedIds(L, t) * done
      requires library == Prune(library0, PurgedIds(L, t) * done)
      modifies this
      ensures ledger == LedgerSoFar(L, done + {id}, t)
      ensures catalog == catalog0 - PurgedIds(L, t) * (done + {id})
      ensures library == Prune(library0, PurgedIds(L, t) * (done + {id}))
      ensures streamStop == old(streamStop) && compressionStop == old(compressionStop)
    {
      ghost var P := PurgedIds(L, t);
      assert ledger[id] == L[id];
      LedgerSoFarStep(L, done, t, id);
      PurgedStep(catalog0, P, done, id);
      RemovePrune(library0, P * done, id);
      ReconcileEntry(id, t);
    }

    /** One step of the startup pass: the entry of `id` is reconciled, and its
        video purged when `Reconcile` says so. */
    method ReconcileEntry(id: string, t: Tools)
      requires id in ledger && !Contains(id, "folder-")
      modifies this
      ensures Reconcile(old(ledger)[id], t) == Purge ==>
        ledger == old(ledger) - {id} && catalog == old(catalog) - {id} && library == Remove(old(library), id)
      ensures Reconcile(old(ledger)[id], t) == Forget ==>
        ledger == old(ledger) - {id} && catalog == old(catalog) && library == old(library)
      ensures Reconcile(old(ledger)[id], t).Rewrite? ==>
        ledger == old(ledger)[id := Reconcile(old(ledger)[id], t).entry]
        && catalog == old(catalog) && library == old(library)
      ensures streamStop == old(streamStop) && compressionStop == old(compressionStop)
    {
      match Reconcile(ledger[id], t)
      case Purge =>
        var _ := DeleteAllVideoData(id);
      case Forget =>
        ledger := ledger - {id};
      case Rewrite(e) =>
        ledger := ledger[id := e];
    }

    /** The explicit resume request for `id`: the plan `Resume` gives for its
        ledger entry; a finished entry is dropped. */
    method CompleteUnfinishedVideoDownload(id: string) returns (plan: ResumePlan)
      modifies this
      ensures plan == Resume(old(FindCurrentDownload(id)))
      ensures ledger == if plan.dropEntry then old(ledger) - {id} else old(ledger)
      ensures catalog == old(catalog) && library == old(library)
      ensures streamStop == old(streamStop) && compressionStop == old(compressionStop)
    {
      plan := Resume(FindCurrentDownload(id));
      if plan.dropEntry {
        ledger := ledger - {id};
      }
    }

    // -------------------------------------------------------------------
    // library tree operations

    /** Creates folder `"folder-" + uuid` at `path`. */
    method CreateFolder(path: seq<string>, title: Option<string>, uuid: string) returns (folderId: string, raised: bool)
      modifies this
      ensures folderId == "folder-" + uuid
      ensures library == Library.CreateFolder(old(library), path, title, folderId).tree
      ensures raised == Library.CreateFolder(old(library), path, title, folderId).raised
      ensures UniqueKeys(old(library)) ==> UniqueKeys(library)
      ensures catalog == old(catalog) && ledger == old(ledger)
      ensures streamStop == old(streamStop) && compressionStop == old(compressionStop)
    {
      folderId := "folder-" + uuid;
      var r := Library.CreateFolder(library, path, title, folderId);
      library, raised := r.tree, r.raised;
      assert UniqueKeys(old(library)) ==> UniqueKeys(library) by {
        CreateFolderUnique(old(library), path, title, folderId);
      }
    }

    /** Moves entry `sel` into the folder `folder` beside it at `path`. */
    method MoveIntoFolder(sel: string, folder: string, path: seq<string>) returns (raised: bool)
      modifies this
      ensures library == MoveInto(old(library), sel, folder, path).tree
      ensures raised == MoveInto(old(library), sel, folder, path).raised
      ensures UniqueKeys(old(library)) ==> UniqueKeys(library)
      ensures catalog == old(catalog) && ledger == old(ledger)
      ensures streamStop == old(streamStop) && compressionStop == old(compressionStop)
    {
      var r := MoveInto(library, sel, folder, path);
      library, raised := r.tree, r.raised;
      assert UniqueKeys(old(library)) ==> UniqueKeys(library) by {
        MoveIntoUnique(old(library), sel, folder, path);
      }
    }

    /** Moves entry `sel` from the level at `path` up to the level of folder
        `folder`. */
    method MoveOutOfFolder(sel: string, folder: string, path: seq<string>) returns (raised: bool)
      modifies this
      ensures library == MoveOut(old(library), sel, folder, path).tree
      ensures raised == MoveOut(old(library), sel, folder, path).raised
      ensures UniqueKeys(old(library)) ==> UniqueKeys(library)
      ensures catalog == old(catalog) && ledger == old(ledger)
      ensures streamStop == old(streamStop) && compressionStop == old(compressionStop)
    {
      var r := MoveOut(library, sel, folder, path);
      library, raised := r.tree, r.raised;
      assert UniqueKeys(old(library)) ==> UniqueKeys(library) by {
        MoveOutUnique(old(library), sel, folder, path);
      }
    }

    /** Moves entry `sel` to the place of `target` in the level at `path`. */
    method Rearrange(sel: string, target: string, path: seq<string>) returns (message: Option<string>)
      modifies this
      ensures Reorder(old(library), sel, target, path).raised ==> message.None?
      ensures !Reorder(old(library), sel, target, path).raised ==> message == Some("availableVideos updated successfully")
      ensures library == Reorder(old(library), sel, target, path).tree
      ensures UniqueKeys(old(library)) ==> UniqueKeys(library)
      ensures catalog == old(catalog) && ledger == old(ledger)
      ensures streamStop == old(streamStop) && compressionStop == old(compressionStop)
    {
      var r := Reorder(library, sel, target, path);
      library := r.tree;
      assert UniqueKeys(old(library)) ==> UniqueKeys(library) by {
        ReorderUnique(old(library), sel, target, path);
      }
      message := if r.raised then None else Some("availableVideos updated successfully");
    }

    /** Renames entry `id` at `path`; `None` when the request raises. */
    method ChangeVideoTitle(id: string, title: Option<string>, path: seq<string>) returns (message: Option<string>)
      modifies this
      ensures ChangeTitle(old(library), id, title, path).TitleChanged? ==>
        message == Some("video-title-changed") && library == ChangeTitle(old(library), id, title, path).tree
      ensures ChangeTitle(old(library), id, title, path).TitleFailed? ==>
        message == Some("failed-to-change-video-title") && library == old(library)
      ensures ChangeTitle(old(library), id, title, path).TitleRaised? ==> message.None? && library == old(library)
      ensures UniqueKeys(old(library)) ==> UniqueKeys(library)
      ensures catalog == old(catalog) && ledger == old(ledger)
      ensures streamStop == old(streamStop) && compressionStop == old(compressionStop)
    {
      match ChangeTitle(library, id, title, path)
      case TitleChanged(tree) =>
        ChangeTitleUnique(library, id, title, path);
        library := tree;
        message := Some("video-title-changed");
      case TitleFailed =>
        message := Some("failed-to-change-video-title");
      case TitleRaised =>
        message := None;
    }
  }
}
