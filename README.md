# WatchVideoByLink media server core, in Dafny

This project models the job tracking and serving logic of the WatchVideoByLink
back end (`backend/scripts/streamVideo.js`). The server keeps three JSON maps in
memory:

- the catalog `videoData`, with one record per video;
- the library tree `availableVideos`, an insertion-ordered tree of videos and folders;
- the ledger `currentDownloadVideos`, which holds the jobs not yet finished.

It also keeps two stop switches, one that stops a live stream download and one
that kills a compression.

The model is split by concern:

- `wrappers.dfy`: the `Option` type.
- `text.dfy`: the string functions the source relies on. These are decimal
  printing, JavaScript `parseInt` (`None` for `NaN`), `indexOf`, `replace`,
  `split`/`join`, `%03d` numbering and `toFixed(2)` on integer hundredths.
- `records.dfy`: catalog records, ledger entries, status tags and the progress
  status text.
- `job_rules.dfy`: the ledger transitions of each job stage, the startup
  reconciliation decision table, the resume dispatch and the rule for when a
  compression may be stopped.
- `cancellation.dfy`: the stop switch, which a request arms and the next
  progress tick of the targeted job disarms.
- `range_responder.dfy`: `streamVideo` as a function from the catalog, the file
  sizes, the id and the `Range` header to the response it sends. A range the
  file stream refuses (a `NaN`, negative or reversed bound) makes the stream
  throw, which the handler answers with the 404 redirect. The header
  arithmetic is stated against sections 2.1, 4.1, 4.2 and 4.4 of RFC 7233,
  including the parts of that RFC the code does not implement.
- `helpers.dfy`: source-path resolution, the protocol to MIME mapping of video
  links, tool-error replies and the user settings object.
- `library.dfy`: the library tree as a recursive, ordered list of entries
  addressed by a list of folder ids. It covers folder creation, moves into and
  out of folders, the splice reorder and title changes.
- `server.dfy`: the class `MediaServer`, which holds the three maps and the two
  switches. It has the store operations, one method per transcoder event and
  request, the thumbnail loop and the startup reconciliation loop.

The asynchronous callbacks of the server run on one event loop, so each
handler is modelled as one atomic method call on `MediaServer`. A handler that
reads through a missing record or stage throws a `TypeError` part-way; its
method then returns `raised` and keeps exactly the writes made before the
throw.

## Model

| member | source | states |
|---|---|---|
| Server.MediaServer.FindVideo | backend/scripts/streamVideo.js:149-155 | finds a record exactly when the id is in the catalog, and returns that record |
| Server.MediaServer.UpdateVideoData | backend/scripts/streamVideo.js:158-163 | stores the record and returns it; a later find returns it, and no other id changes |
| Server.MediaServer.DeleteVideoData | backend/scripts/streamVideo.js:166-175 | a present id is removed alone with reply `Deleted <id>`; an absent id leaves the catalog unchanged with reply `<id> Unavaiable` |
| Server.MediaServer.ResetVideoData | backend/scripts/streamVideo.js:141-146 | empties the catalog and replies `resetVideoData` |
| Server.MediaServer.FindAvailableVideo | backend/scripts/streamVideo.js:191-197 | finds a top-level entry exactly when its key is present; the node found is the one at the first index with that key, and, while keys are unique, the one at every index with that key |
| Server.MediaServer.UpdateAvailableVideo | backend/scripts/streamVideo.js:200-205 | sets the key in place, or appends it when new; a lookup of the key gives the new node, no other key changes, and unique keys stay unique |
| Server.MediaServer.DeleteAvailableVideo | backend/scripts/streamVideo.js:208-217 | deletes a present key and keeps the others, and unique keys stay unique; an absent key gives `<id> Unavaiable` and no change |
| Server.MediaServer.ResetAvailableVideos | backend/scripts/streamVideo.js:183-188 | empties the library, whose keys are then trivially unique, and replies `resetAvailableVideos` |
| Server.MediaServer.FindCurrentDownload | backend/scripts/streamVideo.js:233-239 | finds a ledger entry exactly when the id is in the ledger |
| Server.MediaServer.UpdateCurrentDownload | backend/scripts/streamVideo.js:242-247 | stores the entry; a later find returns it, and no other id changes |
| Server.MediaServer.DeleteCurrentDownload | backend/scripts/streamVideo.js:250-259 | `Deleted <id>` removes only that entry; an absent id gives `<id> Unavaiable` and no change |
| Server.MediaServer.ResetCurrentDownloads | backend/scripts/streamVideo.js:225-230 | empties the ledger and replies `resetCurrentDownloadVideos` |
| Server.MediaServer.DeleteAllVideoData | backend/scripts/streamVideo.js:1787-1814 | a video id is removed from the ledger, the catalog and the top level of the library (`deleted-<id>-permanently`), keeping keys unique; a folder id with no top-level entry fails with no change |
| Server.MediaServer.OnJobStart | backend/scripts/streamVideo.js:882-920 | a job starts exactly for an id the catalog lacks, and writes the start record and the start ledger entry |
| Records.StartRecord | backend/scripts/streamVideo.js:882-895 | the start record holds only a video stage, tagged with the start tag of its origin and with no file path yet |
| JobRules.StartEntry | backend/scripts/streamVideo.js:896-919 | video carries the start tag of its origin, thumbnail waits for the video, and compression is present exactly when compressing |
| Records.StartTagsUnstarted | backend/scripts/streamVideo.js:556-562 | every start tag is one the startup pass treats as never started |
| JobRules.CrashBeforeProgressIsPurged | backend/scripts/streamVideo.js:556-562 | a job that crashed right after its start event is purged at startup |
| Server.MediaServer.OnStreamProgress | backend/scripts/streamVideo.js:921-947 | raises exactly when the catalog lacks the id (no write) or the ledger has no video stage for it (the catalog write kept); otherwise the catalog gets the time mark and `downloading`, the ledger the time mark, and the stream switch ticks for this id |
| Server.MediaServer.OnFetchProgress | backend/scripts/streamVideo.js:1092-1112 | raises exactly when the catalog lacks the id (no write) or the ledger has no video stage for it (the catalog write kept); otherwise the catalog holds the raw percentage and the ledger its status text |
| Records.ProgressStatus | backend/scripts/streamVideo.js:1100-1107 | the status text always ends in `%` |
| Records.ProgressStatusUnstarted | backend/scripts/streamVideo.js:1100-1101 | the status is `0.00%` (an unstarted tag) exactly when the percentage is zero or negative; it is never `completed` |
| Server.MediaServer.OnFetchEnd | backend/scripts/streamVideo.js:948-1000 | always rebuilds the record around the fetched file; the ledger stages are written in order and the first missing one raises with the earlier writes kept; without a raise the entry becomes the fetch end entry, and a compression starts exactly when compressing and nothing raised |
| Records.FetchedRecord | backend/scripts/streamVideo.js:950-982 | the record points to `<dir><id>.mp4` as `video/mp4` marked completed, with an empty thumbnail map, and a compression part exactly when compressing |
| JobRules.FetchEndEntry | backend/scripts/streamVideo.js:985-992 | video `completed`, thumbnail `starting thumbnail download`, compression `starting video compression` when compressing, otherwise unchanged |
| Server.MediaServer.StartThumbnailStage | backend/scripts/streamVideo.js:1486-1522 | a missing tool writes its tag into the ledger, or raises with no change when the entry has no thumbnail stage; a non-positive duration purges the video; the stage runs exactly when both tools, the record and a positive duration are there; unique keys stay unique |
| JobRules.MissingToolTag | backend/scripts/streamVideo.js:1509-1521 | no tag exactly when both tools exist, otherwise the tag for both, ffmpeg or ffprobe, in that order of checks |
| Server.MediaServer.OnThumbnailProgress | backend/scripts/streamVideo.js:1397-1412 | raises exactly when the record or the ledger entry lacks a thumbnail stage, keeping the catalog write when only the ledger lacks it; a negative percentage is stored as 0 and `0.00%`, otherwise the raw value and its status text |
| Server.MediaServer.OnThumbnailEnd | backend/scripts/streamVideo.js:1413-1485 | the library entry always gets its link map; a record without a thumbnail stage raises with only an empty map written; otherwise files 1 to N go to the catalog and links 1 to N to the library, the stage is completed, and the ledger follows the thumbnail end rule unless the entry is missing or has no thumbnail stage to complete, which raises |
| Server.ThumbnailWrites | backend/scripts/streamVideo.js:1422-1469 | the loop ends with the file map extended by files 1 to N and marked completed, and the library entry holding exactly links 1 to N |
| Server.ThumbnailMapsShape | backend/scripts/streamVideo.js:1424-1469 | the two maps hold exactly the keys 1 to N; file i is `<dir><id>-thumbnail<%03d of i>.jpg` and link i is `/thumbnail/<id>/<i>` |
| Server.ThumbnailNamesDistinct | backend/scripts/streamVideo.js:1424-1469 | distinct thumbnail numbers give distinct files and distinct links |
| Server.ThumbnailPathsStep | backend/scripts/streamVideo.js:1456-1465 | loop step i extends the file map by exactly entry i |
| Server.ThumbnailLinksStep | backend/scripts/streamVideo.js:1456-1465 | loop step i extends the link map by exactly entry i |
| Text.ThumbnailNumberIsPrintf | backend/scripts/streamVideo.js:1493-1493 | the file number is the decimal padded with zeros to three digits, and unpadded from 100 up |
| Text.ThumbnailNumberInjective | backend/scripts/streamVideo.js:1493-1493 | distinct numbers print differently |
| Library.WithThumbnailLinks | backend/scripts/streamVideo.js:1425-1465 | the entry of the id exists with exactly the given link map, keeping its other fields or, when it had no info object, as a fresh video node; no other key changes |
| Library.WithThumbnailLinksTwice | backend/scripts/streamVideo.js:1425-1465 | writing the link map again replaces the earlier one |
| JobRules.ThumbnailEndLedger | backend/scripts/streamVideo.js:1478-1482 | the entry goes exactly when compression is absent or completed, otherwise only its thumbnail becomes `completed`; other ids are untouched |
| Server.MediaServer.StartCompressionStage | backend/scripts/streamVideo.js:1594-1740 | a non-positive duration purges the video; the stage runs exactly when both tools, the record and a positive duration are there; otherwise nothing changes |
| Server.MediaServer.OnCompressionProgress | backend/scripts/streamVideo.js:1614-1647 | raises exactly when the record or the ledger entry lacks a compression stage, keeping the catalog write when only the ledger lacks it; otherwise the catalog holds the raw percentage, the ledger its status, and the kill switch ticks for this id |
| Server.MediaServer.OnCompressionEnd | backend/scripts/streamVideo.js:1648-1699 | the library always links the compressed file; a missing record raises next, a missing ledger entry or a pending thumbnail stage without a compression stage raise after the catalog records `<dir><id>.webm`; otherwise the ledger follows the compression end rule; unique keys stay unique |
| Library.WithCompressedLink | backend/scripts/streamVideo.js:1651-1680 | the entry links `/compressed/<id>` as `video/webm`, and no other key changes |
| Library.CompressedLinkKeeps | backend/scripts/streamVideo.js:1651-1680 | an entry that already links its video keeps its title, source link, thumbnails and content |
| Library.StageLinksUnique | backend/scripts/streamVideo.js:1425-1465 | linking thumbnails or the compressed file keeps top-level keys unique |
| JobRules.CompressionEndLedger | backend/scripts/streamVideo.js:1692-1696 | the entry goes exactly when thumbnail is absent or completed, otherwise only its compression becomes `completed` |
| JobRules.BothEndsRemoveEntry | backend/scripts/streamVideo.js:1478-1482 | whichever stage ends second removes the entry |
| Server.MediaServer.OnCompressionError | backend/scripts/streamVideo.js:1700-1713 | a SIGKILL raises when the catalog lacks the id (no write) or the ledger lacks it (catalog write kept); otherwise it records the kill in the ledger and, where the stage exists, in the catalog; other errors change nothing |
| JobRules.KilledEntry | backend/scripts/streamVideo.js:1708-1712 | only the compression status changes, to the kill tag, and only when it is present |
| Server.MediaServer.StopDownloadVideoStream | backend/scripts/streamVideo.js:853-864 | a known id arms the stream switch for it; an unknown id changes nothing and gets `videoDetails dosnet exists` |
| Server.MediaServer.StopCompressedVideoDownload | backend/scripts/streamVideo.js:1524-1591 | arms the kill switch for the id exactly when a compression may be stopped, and reports whether it did |
| JobRules.MayStopCompression | backend/scripts/streamVideo.js:1553-1587 | the stop rule, stated by MayStopCompressionIff |
| JobRules.MayStopCompressionIff | backend/scripts/streamVideo.js:1553-1587 | a stop is allowed exactly when the catalog is not `completed`, one store shows a truthy status, and the ledger status is not `completed`, an unavailable tag or `unfinished download` |
| Cancellation.StopSwitch.Arm | backend/scripts/streamVideo.js:1553-1587 | the switch is armed for exactly this id, replacing any earlier target |
| Cancellation.TickFiresIff | backend/scripts/streamVideo.js:1639-1646 | a tick fires exactly when armed for that id and then disarms; any other tick leaves the switch as it was |
| Cancellation.ArmedStopReachesTarget | backend/scripts/streamVideo.js:939-946 | ticks of other jobs leave an armed switch alone, and the target's next tick fires |
| Cancellation.LaterRequestWins | backend/scripts/streamVideo.js:1553-1587 | a second request retargets the switch, so the first id's tick no longer fires |
| Cancellation.IdleNeverFires | backend/scripts/streamVideo.js:939-946 | an unarmed switch never fires and stays unarmed |
| Server.MediaServer.CheckForUnfinishedDownloads | backend/scripts/streamVideo.js:388-581 | the ledger becomes the reconciled ledger, the purged ids leave the catalog and the library, and unique keys stay unique |
| Server.MediaServer.ReconcileEntry | backend/scripts/streamVideo.js:413-578 | one entry is purged with its video, dropped, or rewritten, as the decision table says |
| JobRules.Reconcile | backend/scripts/streamVideo.js:413-578 | the decision table of the startup pass, stated by the PurgeIff, ForgetIff, Repair and idempotence rows below |
| JobRules.PurgeIff | backend/scripts/streamVideo.js:556-578 | a video is purged exactly when its video stage is not truthy, or carries a start tag or `0.00%` |
| JobRules.ForgetIff | backend/scripts/streamVideo.js:452-473 | an entry is dropped as finished exactly when both tools exist, video and thumbnail are completed, and compression is completed or not truthy |
| JobRules.RepairWithTools | backend/scripts/streamVideo.js:452-555 | with both tools, completed stages stay completed, other stages (and a missing thumbnail) become `unfinished download`, and a non-truthy compression is left alone |
| JobRules.RepairWithoutTools | backend/scripts/streamVideo.js:419-551 | with a tool missing, the unfinished stages and a missing thumbnail get the missing-tool tag; two completed stages are both overwritten |
| JobRules.RepairHalfFetched | backend/scripts/streamVideo.js:563-575 | a half-fetched video is tagged `untrunc unavailable`, `working video for untrunc is unavailable` or `unfinished download`, in that order, and its other stages are kept |
| JobRules.ReconcileIdempotent | backend/scripts/streamVideo.js:413-578 | a rewritten entry is rewritten to itself by a second pass |
| JobRules.ReconciledLedger | backend/scripts/streamVideo.js:388-581 | keeps exactly the entries the table rewrites, each rewritten |
| JobRules.PurgedIds | backend/scripts/streamVideo.js:556-578 | holds exactly the ids the table purges |
| JobRules.ReconciledLedgerStable | backend/scripts/streamVideo.js:388-581 | a second startup pass with the same tools purges nothing and changes nothing |
| JobRules.CrashMidFetchIsRepaired | backend/scripts/streamVideo.js:563-575 | a job that crashed at any positive or missing percentage is rewritten as the half-fetched repair (marked unfinished with both repair tools), not purged |
| Server.MediaServer.CompleteUnfinishedVideoDownload | backend/scripts/streamVideo.js:584-657 | the reply and the restarted stages follow the resume plan, and a finished entry is dropped from the ledger |
| JobRules.Resume | backend/scripts/streamVideo.js:584-657 | the resume dispatch, stated by the ResumeStages, ResumeWithoutCompressionStage and ResumeAfterRepair rows below |
| JobRules.ResumeStages | backend/scripts/streamVideo.js:621-655 | per stage, which stages a resume restarts: untrunc exactly when the video is not completed, and then nothing else |
| JobRules.ResumeWithoutCompressionStage | backend/scripts/streamVideo.js:621-655 | done thumbnails without any compression stage still get `redownload compression` |
| JobRules.ResumeAfterRepair | backend/scripts/streamVideo.js:584-657 | after a repair with both tools, a resume restarts exactly the stages marked unfinished |
| RangeResponder.NotFoundIff | backend/scripts/streamVideo.js:660-720 | 404 redirect exactly when the id is unknown, the selected file has no path or size, or a Range header passes the 416 test but the stream refuses its bounds (NaN, negative or reversed) |
| RangeResponder.SelectedFile | backend/scripts/streamVideo.js:670-676 | the compressed flag selects the compression path and type, otherwise the video path and type |
| RangeResponder.StreamVideo | backend/scripts/streamVideo.js:660-720 | a response other than the 404 redirect comes with a known id, a selected path and a size; the whole file is sent exactly when there is no non-empty Range header, with Content-Length equal to the size |
| RangeResponder.RangeBounds | backend/scripts/streamVideo.js:685-691 | neither parsed bound is a negative number (no piece of the split holds a minus sign), except the last byte -1 of an empty file |
| RangeResponder.RangeResponse | backend/scripts/streamVideo.js:685-709 | a Range header is never answered with the whole file; every 206 has its first byte inside the file and not after its last, a matching Content-Range and chunk length, and the selected type |
| RangeResponder.WholeFile | backend/scripts/streamVideo.js:711-717 | without a Range header the answer is 200 with Content-Length equal to the file size |
| RangeResponder.UnsatisfiableIff | backend/scripts/streamVideo.js:685-709 | with a Range header exactly one of: 416 when the parsed start is a number at or past the size, 206 when not and the stream accepts the bounds, the 404 redirect otherwise |
| RangeResponder.PartialHeadersAgree | backend/scripts/streamVideo.js:694-709 | every 206 names a first byte inside the file and not after the last, `bytes start-end/size`, a chunk length of end - start + 1 (at least 1) and the selected type |
| RangeResponder.ClosedRangeBounds | backend/scripts/streamVideo.js:685-691 | `bytes=a-b` parses to start a and end b |
| RangeResponder.OpenRangeBounds | backend/scripts/streamVideo.js:685-691 | `bytes=a-` parses to start a and end fileSize - 1 |
| RangeResponder.SuffixRangeBounds | backend/scripts/streamVideo.js:685-691 | `bytes=-n` parses to a NaN start and end n |
| RangeResponder.NumericRangeAnswer | backend/scripts/streamVideo.js:694-709 | a start inside the file and an end not before it give 206 with Content-Range start-end/size and chunk end - start + 1, even past the end of the file; a reversed pair gives the 404 redirect |
| RangeResponder.ClosedRangeResponse | backend/scripts/streamVideo.js:685-709 | `bytes=a-b` with a < size gives 206 with `bytes a-b/size` and Content-Length b - a + 1 when a <= b, and the 404 redirect when b < a |
| RangeResponder.PastEndLengthOverstated | backend/scripts/streamVideo.js:685-709 | a range whose last byte is at or past the size is still answered 206 with that last byte, announcing more bytes than the file holds from the first byte on |
| RangeResponder.PastEndResponse | backend/scripts/streamVideo.js:694-697 | `bytes=a-b` with a >= size gives 416 |
| RangeResponder.SuffixRangeResponse | backend/scripts/streamVideo.js:685-709 | a suffix range `bytes=-n` passes the 416 test with its NaN start and is answered with the 404 redirect |
| Text.ParseInt | backend/scripts/streamVideo.js:687-691 | JavaScript `parseInt(s, 10)`, stated by ParseIntOfNatStr and ParseIntWithoutMinus |
| Text.ParseIntOfNatStr | backend/scripts/streamVideo.js:687-691 | `parseInt` reads back any decimal the server prints |
| Text.ParseIntWithoutMinus | backend/scripts/streamVideo.js:687-691 | `parseInt` of a piece with no minus sign is NaN or non-negative, so the start of `bytes=a-b` is never negative |
| Text.Split | backend/scripts/streamVideo.js:685-685 | `split` gives at least one piece and no piece holds the separator |
| Text.ReplaceFirst | backend/scripts/streamVideo.js:685-685 | `replace(/bytes=/, "")`, replacing the first occurrence only, stated by ReplaceFirstOfPrefix |
| Text.ReplaceFirstOfPrefix | backend/scripts/streamVideo.js:685-685 | removing a prefix from a string that starts with it gives the rest |
| Text.JoinSplit | backend/scripts/streamVideo.js:685-685 | joining the pieces of a split gives back the string |
| Helpers.ResolveSource | backend/scripts/streamVideo.js:806-836 | the result is the input or the original path of some catalog video |
| Helpers.LibraryLinksResolveToOriginal | backend/scripts/streamVideo.js:806-836 | both `/video/<id>` and `/compressed/<id>` resolve to the original `video.path` of the id |
| Helpers.PlainSourceUnchanged | backend/scripts/streamVideo.js:806-836 | a source without either separator is returned unchanged |
| Helpers.UserSettings.CompressFor | backend/scripts/streamVideo.js:839-851 | true exactly when the setting for that download type exists and is true |
| Helpers.UserSettings.UpdateVideoPlayerVolume | backend/scripts/streamVideo.js:752-766 | updates both values exactly when both are given; otherwise one of the three invalid replies, and nothing changes |
| Helpers.UserSettings.UpdateCompressVideoDownload | backend/scripts/streamVideo.js:769-788 | only a key that already exists takes a boolean; the key set never changes; each failure has its own reply |
| Helpers.VideoLinkReplyIff | backend/scripts/streamVideo.js:1958-2001 | a link is returned exactly for a known protocol, with that protocol's MIME type and the input URL |
| Helpers.VideoLinkReply | backend/scripts/streamVideo.js:1958-2001 | the reply of the link request, stated by VideoLinkReplyIff |
| Helpers.MediaTypeOf | backend/scripts/streamVideo.js:1976-1995 | the protocol to MIME table, stated by VideoLinkReplyIff |
| Helpers.MissingToolReply | backend/scripts/streamVideo.js:1025-1034 | no reply exactly when both tools exist, otherwise the reply names the missing ones |
| Helpers.FetchErrorReply | backend/scripts/streamVideo.js:1001-1015 | `Cannot-find-ffmpeg` exactly for that error message, `ffmpeg-failed` otherwise |
| Library.Put | backend/scripts/streamVideo.js:200-205 | after setting a key, a lookup gives the new node and other keys are unchanged |
| Library.FindFirst | backend/scripts/streamVideo.js:191-197 | a lookup finds the node at the first index with the key, and while keys are unique the node at every index with the key |
| Library.PutKeys | backend/scripts/streamVideo.js:200-205 | an existing key keeps its place and a new key goes last |
| Library.Remove | backend/scripts/streamVideo.js:208-217 | after `delete`, the key is absent and other keys are unchanged |
| Library.RemoveKeys | backend/scripts/streamVideo.js:208-217 | deleting keeps the order of the other keys |
| Library.Prune | backend/scripts/streamVideo.js:556-578 | removes exactly the purged keys |
| Library.RemovePrune | backend/scripts/streamVideo.js:388-581 | purging one id at a time, in any order, prunes the whole set |
| Library.FolderPathString | backend/scripts/streamVideo.js:2004-2014 | the loop builds the path expression, starting at `availableVideos["<first>"]` and ending in `.content` |
| Library.ReplaceAtFrame | backend/scripts/streamVideo.js:2004-2014 | replacing the level at a path changes nothing beside the path: each level passed keeps its keys in order, every entry off the path and the info of the folders on it |
| Library.CreateFolder | backend/scripts/streamVideo.js:2017-2043 | folder creation, stated by CreateFolderPlacesFolder and CreateFolderBadPath |
| Library.CreateFolderPlacesFolder | backend/scripts/streamVideo.js:2017-2043 | at a reachable level, an empty folder is set whose `inside-folder` is the last path id or `folder-main`, a new id going last; nothing beside the path changes |
| Library.CreateFolderBadPath | backend/scripts/streamVideo.js:2017-2043 | an unreachable path raises and leaves the tree unchanged |
| Library.MoveInto | backend/scripts/streamVideo.js:2078-2096 | the move into a folder, stated by MoveIntoLevelMoves and MoveIntoReplacesLevel |
| Server.MediaServer.CreateFolder | backend/scripts/streamVideo.js:2017-2043 | the new folder id is `folder-<uuid>`, the tree becomes the folder creation result, and unique keys stay unique |
| Library.MoveIntoLevelMoves | backend/scripts/streamVideo.js:2078-2096 | the entry leaves the level and enters the folder's content, with a folder re-parented; other keys keep their order |
| Library.MoveIntoReplacesLevel | backend/scripts/streamVideo.js:2078-2096 | the moved level replaces the old one at the path, and nothing beside the path changes |
| Library.TargetPath | backend/scripts/streamVideo.js:2046-2075 | the target path is the top level, or the path cut at the first occurrence of the folder |
| Library.MoveOut | backend/scripts/streamVideo.js:2046-2075 | the move out of a folder, stated by MoveOutMoves, MoveOutFrame and MoveOutToOwnFolderDeletes |
| Library.MoveOutMoves | backend/scripts/streamVideo.js:2046-2075 | the entry leaves the path level and is set at the target level (a folder re-parented), in place or last; every other key of the target level but the path's next folder is unchanged, and nothing beside the two paths changes |
| Library.MoveOutFrame | backend/scripts/streamVideo.js:2046-2075 | the target level is the old one with the entry set, except inside the folder the path goes on through; nothing else beside the target path, and nothing beside the path below it, changes |
| Library.MoveOutToOwnFolderDeletes | backend/scripts/streamVideo.js:2046-2075 | moving out to the folder the entry is already in leaves it deleted |
| Library.KeyIndex | backend/scripts/streamVideo.js:2099-2130 | the first index of the key, or -1 exactly when it is absent |
| Library.SpliceStart | backend/scripts/streamVideo.js:2099-2130 | `splice` start: -1 counts from the end |
| Library.MovedPermutes | backend/scripts/streamVideo.js:2099-2130 | moving one entry is a permutation of the level |
| Library.MovedPlaces | backend/scripts/streamVideo.js:2099-2130 | the moved entry is at the target index, and the others keep their order |
| Library.MovedUnique | backend/scripts/streamVideo.js:2099-2130 | the keys stay unique |
| Library.Reordered | backend/scripts/streamVideo.js:2099-2130 | the splice reorder of one level, stated by ReorderedPermutes, ReorderedMovesToTarget and ReorderedUnknownMovesLast |
| Library.ReorderedPermutes | backend/scripts/streamVideo.js:2099-2130 | the reorder of a non-empty level is a permutation that keeps keys unique |
| Library.ReorderedMovesToTarget | backend/scripts/streamVideo.js:2099-2130 | with both keys present, the selected entry lands at the target's index |
| Library.ReorderedUnknownMovesLast | backend/scripts/streamVideo.js:2099-2130 | an unknown selected key moves the last entry |
| Library.Reorder | backend/scripts/streamVideo.js:2099-2130 | the reorder request, stated by ReorderReplacesLevel |
| Library.ReorderReplacesLevel | backend/scripts/streamVideo.js:2099-2130 | the reordered level replaces the old one at the path, and nothing beside the path changes |
| Library.ChangeTitle | backend/scripts/streamVideo.js:2133-2169 | the title change, stated by ChangeTitleChangesOnlyTitle and ChangeTitleWhen |
| Server.MediaServer.Rearrange | backend/scripts/streamVideo.js:2099-2130 | the tree becomes the reorder result, with the success message unless it raised, and unique keys stay unique |
| Library.ChangeTitleChangesOnlyTitle | backend/scripts/streamVideo.js:2133-2169 | a changed title is the only change: the entry keeps its place and fields beside the title, the level keeps its keys, and nothing beside the path changes |
| Library.ChangeTitleWhen | backend/scripts/streamVideo.js:2133-2169 | at the top level the title changes exactly when the entry has an info object, else it fails; in a folder it changes or raises |
| Library.ReplaceAtUnique | backend/scripts/streamVideo.js:2004-2014 | replacing a level below the top keeps top-level keys unique |
| Library.PruneUnique | backend/scripts/streamVideo.js:556-578 | purging keeps keys unique |
| Library.CreateFolderUnique | backend/scripts/streamVideo.js:2017-2043 | folder creation keeps top-level keys unique |
| Library.MoveIntoUnique | backend/scripts/streamVideo.js:2078-2096 | a move into a folder keeps top-level keys unique |
| Library.MoveOutUnique | backend/scripts/streamVideo.js:2046-2075 | a move out of a folder keeps top-level keys unique |
| Library.ReorderUnique | backend/scripts/streamVideo.js:2099-2130 | a reorder keeps top-level keys unique |
| Library.ChangeTitleUnique | backend/scripts/streamVideo.js:2133-2169 | a title change keeps top-level keys unique |
| Server.MediaServer.ChangeVideoTitle | backend/scripts/streamVideo.js:2133-2169 | replies `video-title-changed` with the new tree, `failed-to-change-video-title`, or nothing when it raised, and unique keys stay unique |
| Server.MediaServer.MoveIntoFolder | backend/scripts/streamVideo.js:2078-2096 | the tree becomes the move-into result, unique keys stay unique, and the other stores are unchanged |
| Server.MediaServer.MoveOutOfFolder | backend/scripts/streamVideo.js:2046-2075 | the tree becomes the move-out result, unique keys stay unique, and the other stores are unchanged |

## Left out

- The transcoder, untrunc and youtube-dl processes are not modelled. Each of their events (start, progress, end, error) is a method of `MediaServer`. Tool presence, the thumbnail frame count, whether the probed duration is positive and the folder uuid are parameters.
- JSON persistence after every change, and the loaders of the three files (lines 32-109), are file I/O. The maps live in memory.
- The timer-driven loops are time-driven and unbounded: the rename loops of `untrunc` and `downloadVideoAfterUntrunc`, and the sleep recursion of `checkCompressedVideoDownloadStatus`.
- File deletion, upload and streaming are not modelled: `deleteSpecifiedVideo`, `uploadVideoFile` and the `streamThumbnail` pipe. The byte stream `streamVideo` pipes is also out.
- `deleteAllFolderData` walks folders through `eval` while it deletes them, so it is not modelled.
- Server.MediaServer.DeleteAllVideoData: requires that a folder id is not a top-level key, because removing a folder with its contents goes through `deleteAllFolderData`. It removes a video only from the top level of the library, as every modelled caller passes no folder path.
- Records.ProgressStatus: `toFixed(2)` is floating point. Percentages are integer hundredths, and a missing percentage gives `undefined%`.
- RangeResponder.StreamVideo: the status and headers are modelled, not the byte stream piped after them. A stream that opens and then fails while piping is not modelled.
- The trimmed-download and upload job starts (lines 1234-1257, 2218-2241) write the same ledger entry as the stream and full-download starts. `OnJobStart` covers all four by `Origin`.
- Library.MoveOut, Library.MoveInto: when the selected id is missing from its level, the source stores an `undefined` value under that key at the target, and then raises only for a folder id. The model treats every such move as raising and leaves the tree unchanged.
- The getters `getAllVideoData`, `getAllAvailableVideos`, `getAllCurrentDownloads` and `getVideoPlayerSettings` return a map unchanged, so they are not modelled.
- What happens to an exception after it leaves a transcoder event callback is not modelled; only the in-memory writes made before it are kept, and the JSON file writes are out with the rest of the file I/O.
- `client/scripts/video-player.js` (browser UI) and the test file are not part of this model.
