/** The library tree (`availableVideos`): an insertion-ordered object whose
    entries are videos and folders, a folder holding its own ordered
    `content`. The source addresses a nested level by building a JavaScript
    expression from a list of folder ids and evaluating it; here a level is
    reached by walking the same list of ids. A step that the evaluated
    expression could not take (a missing key, a node without `content`) is a
    TypeError in the source and `None` here. */
module Library {
  import opened Wrappers
  import opened Text

  datatype VideoLink = VideoLink(src: string, mediaType: string, compressedSrc: Option<string>, compressedType: Option<string>)

  datatype Info = Info(
    title: Option<string>,
    insideFolder: Option<string>,
    videoLink: Option<VideoLink>,
    thumbnailLink: Option<map<nat, string>>)

  /** A library node: its `info` object and, for a folder, its `content`. */
  datatype Node = Node(info: Option<Info>, content: Option<seq<Entry>>)

  datatype Entry = Entry(id: string, node: Node)

  /** One level of the tree, in the object's key order. */
  type Level = seq<Entry>

  const FolderMain := "folder-main"

  // ---------------------------------------------------------------------
  // one level as an ordered object

  /** The level's keys in order (`Object.keys`). */
  function Keys(lv: Level): (ks: seq<string>)
    ensures |ks| == |lv| && forall i | 0 <= i < |lv| :: ks[i] == lv[i].id
  {
    if lv == [] then [] else [lv[0].id] + Keys(lv[1..])
  }

  /** No string appears twice. */
  predicate Distinct(ks: seq<string>) {
    forall i, j | 0 <= i < j < |ks| :: ks[i] != ks[j]
  }

  /** No key appears twice, as in any JavaScript object. */
  predicate UniqueKeys(lv: Level) {
    Distinct(Keys(lv))
  }

  /** `lv[id]`. */
  function Find(lv: Level, id: string): (r: Option<Node>)
    ensures r.None? <==> id !in Keys(lv)
  {
    if lv == [] then None
    else if lv[0].id == id then Some(lv[0].node)
    else Find(lv[1..], id)
  }

  /** `lv[id] = node`: an existing key keeps its place, a new key is added at
      the end. */
  function Put(lv: Level, id: string, node: Node): (r: Level)
    ensures Find(r, id) == Some(node)
    ensures forall x | x != id :: Find(r, x) == Find(lv, x)
  {
    if lv == [] then [Entry(id, node)]
    else if lv[0].id == id then [Entry(id, node)] + lv[1..]
    else [lv[0]] + Put(lv[1..], id, node)
  }

  /** `lv` without the entry whose key is `id`, given as the list of keys
      that remain. */
  function Without(ks: seq<string>, id: string): (r: seq<string>)
    ensures id !in r && forall x | x != id :: x in r <==> x in ks
  {
    if ks == [] then [] else (if ks[0] == id then [] else [ks[0]]) + Without(ks[1..], id)
  }

  /** `delete lv[id]`. */
  function Remove(lv: Level, id: string): (r: Level)
    ensures Find(r, id) == None
    ensures forall x | x != id :: Find(r, x) == Find(lv, x)
  {
    if lv == [] then []
    else if lv[0].id == id then Remove(lv[1..], id)
    else [lv[0]] + Remove(lv[1..], id)
  }

  lemma DistinctCons(ks: seq<string>)
    requires ks != []
    ensures Distinct(ks) <==> ks[0] !in ks[1..] && Distinct(ks[1..])
  {
    if ks[0] !in ks[1..] && Distinct(ks[1..]) {
      forall i, j | 0 <= i < j < |ks| ensures ks[i] != ks[j] {
        assert ks[j] == ks[1..][j - 1];
        if i > 0 { assert ks[i] == ks[1..][i - 1]; }
      }
    }
    if Distinct(ks) {
      forall j | 0 <= j < |ks[1..]| ensures ks[1..][j] != ks[0] {
        assert ks[1..][j] == ks[j + 1];
      }
    }
  }

  /** Dropping a string from a list without repeats leaves none. */
  lemma {:induction false} DistinctWithout(ks: seq<string>, id: string)
    requires Distinct(ks)
    ensures Distinct(Without(ks, id))
  {
    if ks != [] {
      DistinctCons(ks);
      DistinctWithout(ks[1..], id);
      var w := Without(ks, id);
      if ks[0] != id {
        assert w == [ks[0]] + Without(ks[1..], id);
        assert w[1..] == Without(ks[1..], id);
        DistinctCons(w);
      }
    }
  }

  /** Setting a key keeps the key order, a new key going to the end. */
  lemma {:induction false} PutKeys(lv: Level, id: string, node: Node)
    ensures Keys(Put(lv, id, node)) == if id in Keys(lv) then Keys(lv) else Keys(lv) + [id]
  {
    var r := Put(lv, id, node);
    if lv == [] {
    } else if lv[0].id == id {
      assert r[1..] == lv[1..];
      assert Keys(r) == [id] + Keys(lv[1..]);
    } else {
      PutKeys(lv[1..], id, node);
      assert r[1..] == Put(lv[1..], id, node);
      assert Keys(lv) == [lv[0].id] + Keys(lv[1..]);
      assert id in Keys(lv) <==> id in Keys(lv[1..]);
      assert Keys(r) == [lv[0].id] + Keys(r[1..]);
    }
  }

  lemma PutUnique(lv: Level, id: string, node: Node)
    requires UniqueKeys(lv)
    ensures UniqueKeys(Put(lv, id, node))
  {
    PutKeys(lv, id, node);
  }

  /** Deleting a key keeps the order of the other keys. */
  lemma {:induction false} RemoveKeys(lv: Level, id: string)
    ensures Keys(Remove(lv, id)) == Without(Keys(lv), id)
  {
    if lv != [] {
      RemoveKeys(lv[1..], id);
      var r := Remove(lv, id);
      assert Keys(lv) == [lv[0].id] + Keys(lv[1..]);
      assert Keys(lv)[1..] == Keys(lv[1..]);
      if lv[0].id != id {
        assert r[1..] == Remove(lv[1..], id);
        assert Keys(r) == [lv[0].id] + Keys(r[1..]);
      }
    }
  }

  lemma RemoveUnique(lv: Level, id: string)
    requires UniqueKeys(lv)
    ensures UniqueKeys(Remove(lv, id))
  {
    RemoveKeys(lv, id);
    DistinctWithout(Keys(lv), id);
  }

  // ---------------------------------------------------------------------
  // paths of folder ids

  /** The level a path of folder ids leads to (`eval` of the path string). */
  function LevelAt(root: Level, path: seq<string>): Option<Level>
    decreases |path|
  {
    if path == [] then Some(root)
    else
      match Find(root, path[0])
      case Some(Node(_, Some(c))) => LevelAt(c, path[1..])
      case _ => None
  }

  /** The tree with the level at `path` replaced by `lv`. */
  function ReplaceAt(root: Level, path: seq<string>, lv: Level): Level
    requires LevelAt(root, path).Some?
    decreases |path|
  {
    if path == [] then lv
    else
      var n := Find(root, path[0]).value;
      Put(root, path[0], n.(content := Some(ReplaceAt(n.content.value, path[1..], lv))))
  }

  /** Walking a longer path is walking its two halves in turn. */
  lemma {:induction false} LevelAtAppend(root: Level, p: seq<string>, q: seq<string>)
    ensures LevelAt(root, p + q) == if LevelAt(root, p).Some? then LevelAt(LevelAt(root, p).value, q) else None
    decreases |p|
  {
    if p == [] {
      assert p + q == q;
    } else {
      var pq := p + q;
      assert pq != [] && pq[0] == p[0] && pq[1..] == p[1..] + q;
      match Find(root, p[0]) {
        case Some(Node(_, Some(c))) =>
          LevelAtAppend(c, p[1..], q);
          assert LevelAt(root, p) == LevelAt(c, p[1..]);
          assert LevelAt(root, pq) == LevelAt(c, pq[1..]);
        case _ =>
          assert LevelAt(root, p) == None;
          assert LevelAt(root, pq) == None;
      }
    }
  }

  /** After a level is replaced, walking through the replaced level continues
      in the new one. */
  lemma {:induction false} LevelAtReplaceAt(root: Level, p: seq<string>, lv: Level, q: seq<string>)
    requires LevelAt(root, p).Some?
    ensures LevelAt(ReplaceAt(root, p, lv), p + q) == LevelAt(lv, q)
    decreases |p|
  {
    if p == [] {
      assert p + q == q;
    } else {
      var n := Find(root, p[0]).value;
      assert (p + q)[0] == p[0] && (p + q)[1..] == p[1..] + q;
      LevelAtReplaceAt(n.content.value, p[1..], lv, q);
    }
  }

  /** Replacing a level deeper than `q` changes the level at `q` only below
      the next key of the path. */
  lemma {:induction false} LevelAtAboveReplaceAt(root: Level, q: seq<string>, s: seq<string>, lv: Level)
    requires LevelAt(root, q).Some? && LevelAt(LevelAt(root, q).value, s).Some?
    ensures LevelAt(root, q + s).Some?
    ensures LevelAt(ReplaceAt(root, q + s, lv), q) == Some(ReplaceAt(LevelAt(root, q).value, s, lv))
    decreases |q|
  {
    LevelAtAppend(root, q, s);
    if q == [] {
      assert q + s == s;
    } else {
      var qs := q + s;
      assert qs != [] && qs[0] == q[0] && qs[1..] == q[1..] + s;
      var n := Find(root, q[0]).value;
      var c := n.content.value;
      assert LevelAt(root, q) == LevelAt(c, q[1..]);
      assert LevelAt(root, qs) == LevelAt(c, qs[1..]);
      LevelAtAboveReplaceAt(c, q[1..], s, lv);
      var n2 := n.(content := Some(ReplaceAt(c, qs[1..], lv)));
      assert ReplaceAt(root, qs, lv) == Put(root, q[0], n2);
      assert Find(Put(root, q[0], n2), q[0]) == Some(n2);
      assert LevelAt(Put(root, q[0], n2), q) == LevelAt(ReplaceAt(c, qs[1..], lv), q[1..]);
    }
  }

  /** Setting a key that is not the first step of a path leaves the level at
      the end of that path alone. */
  lemma LevelAtPutOther(lv: Level, id: string, node: Node, q: seq<string>)
    requires q != [] && q[0] != id
    ensures LevelAt(Put(lv, id, node), q) == LevelAt(lv, q)
  {
  }

  /** A level replaced deeper down keeps every key that is not the first step. */
  lemma FindReplaceAtOther(root: Level, s: seq<string>, lv: Level, x: string)
    requires s != [] && LevelAt(root, s).Some? && x != s[0]
    ensures Find(ReplaceAt(root, s, lv), x) == Find(root, x)
  {
  }

  // ---------------------------------------------------------------------
  // what a change along a path leaves alone

  /** Level `b` differs from level `a` under `key` alone: the same keys in
      the same order, every other entry as it was, and the entry at `key`
      keeping its `info`. */
  ghost predicate SameBesideKey(a: Level, b: Level, key: string) {
    Keys(b) == Keys(a)
    && (forall x | x != key :: Find(b, x) == Find(a, x))
    && (Find(a, key).Some? && Find(b, key).Some? ==> Find(b, key).value.info == Find(a, key).value.info)
  }

  /** Tree `after` differs from tree `before` only along `path`, from its
      `lo`-th step on: each level the path passes through there differs only
      under the path's next key. */
  ghost predicate SameBesidePath(before: Level, after: Level, path: seq<string>, lo: nat) {
    forall k | lo <= k < |path| ::
      LevelAt(before, path[..k]).Some? && LevelAt(after, path[..k]).Some?
      && SameBesideKey(LevelAt(before, path[..k]).value, LevelAt(after, path[..k]).value, path[k])
  }

  /** Replacing the level at the end of a path changes nothing beside the
      path: every level above keeps its keys, in order, and every entry not on
      the path, and the folders on the path keep their `info`. */
  lemma {:induction false} ReplaceAtFrame(root: Level, path: seq<string>, lv: Level)
    requires LevelAt(root, path).Some?
    ensures SameBesidePath(root, ReplaceAt(root, path, lv), path, 0)
    decreases |path|
  {
    if path != [] {
      var n := Find(root, path[0]).value;
      var c2 := ReplaceAt(n.content.value, path[1..], lv);
      ReplaceAtFrame(n.content.value, path[1..], lv);
      ContentBeside(root, path, n, c2);
    }
  }

  /** The step of `ReplaceAtFrame`: a folder on top whose content changes
      beside the rest of the path makes a tree that changes beside the whole
      path. */
  lemma ContentBeside(root: Level, path: seq<string>, n: Node, c2: Level)
    requires path != [] && Find(root, path[0]) == Some(n) && n.content.Some?
    requires SameBesidePath(n.content.value, c2, path[1..], 0)
    ensures SameBesidePath(root, Put(root, path[0], n.(content := Some(c2))), path, 0)
  {
    var c := n.content.value;
    var r := Put(root, path[0], n.(content := Some(c2)));
    PutKeys(root, path[0], n.(content := Some(c2)));
    assert path[..0] == [];
    forall k | 1 <= k < |path|
      ensures LevelAt(root, path[..k]).Some? && LevelAt(r, path[..k]).Some?
        && SameBesideKey(LevelAt(root, path[..k]).value, LevelAt(r, path[..k]).value, path[k])
    {
      var q := path[..k];
      assert q[0] == path[0] && q[1..] == path[1..][..k - 1];
      assert path[k] == path[1..][k - 1];
      assert LevelAt(root, q) == LevelAt(c, q[1..]);
      assert LevelAt(r, q) == LevelAt(c2, q[1..]);
    }
  }

  /** A level replaced below the top keeps the top-level keys. */
  lemma ReplaceAtKeys(root: Level, path: seq<string>, lv: Level)
    requires LevelAt(root, path).Some? && path != []
    ensures Keys(ReplaceAt(root, path, lv)) == Keys(root)
  {
    ReplaceAtFrame(root, path, lv);
    assert path[..0] == [];
  }

  /** Two changes beside a path are one change beside it. */
  lemma SameBesideTrans(a: Level, b: Level, c: Level, path: seq<string>, lo: nat)
    requires SameBesidePath(a, b, path, lo) && SameBesidePath(b, c, path, lo)
    ensures SameBesidePath(a, c, path, lo)
  {
    forall k | lo <= k < |path|
      ensures LevelAt(a, path[..k]).Some? && LevelAt(c, path[..k]).Some?
        && SameBesideKey(LevelAt(a, path[..k]).value, LevelAt(c, path[..k]).value, path[k])
    {
      var la, lb := LevelAt(a, path[..k]).value, LevelAt(b, path[..k]).value;
      assert Find(la, path[k]).Some? <==> Find(lb, path[k]).Some?;
    }
  }

  /** A change beside a path is a change beside each of its prefixes. */
  lemma SameBesidePrefix(a: Level, b: Level, path: seq<string>, q: seq<string>, lo: nat)
    requires SameBesidePath(a, b, path, lo) && q <= path
    ensures SameBesidePath(a, b, q, lo)
  {
    forall k | lo <= k < |q|
      ensures LevelAt(a, q[..k]).Some? && LevelAt(b, q[..k]).Some?
        && SameBesideKey(LevelAt(a, q[..k]).value, LevelAt(b, q[..k]).value, q[k])
    {
      assert q[..k] == path[..k] && q[k] == path[k];
    }
  }

  /** Setting one key at a level keeps a difference beside any other key. */
  lemma PutBeside(a: Level, b: Level, key: string, x: string, v: Node)
    requires SameBesideKey(a, b, key) && x != key
    ensures SameBesideKey(Put(a, x, v), Put(b, x, v), key)
  {
    PutKeys(a, x, v);
    PutKeys(b, x, v);
  }

  /** The level without the entries whose keys are in `ids`. */
  function Prune(lv: Level, ids: set<string>): (r: Level)
    ensures forall x :: Find(r, x) == if x in ids then None else Find(lv, x)
  {
    if lv == [] then []
    else if lv[0].id in ids then Prune(lv[1..], ids)
    else [lv[0]] + Prune(lv[1..], ids)
  }

  /** Pruning no keys changes nothing. */
  lemma {:induction false} PruneNothing(lv: Level)
    ensures Prune(lv, {}) == lv
  {
    if lv != [] {
      PruneNothing(lv[1..]);
      assert [lv[0]] + lv[1..] == lv;
    }
  }

  /** Deleting keys one at a time, in any order, prunes them all. */
  lemma {:induction false} RemovePrune(lv: Level, ids: set<string>, id: string)
    ensures Remove(Prune(lv, ids), id) == Prune(lv, ids + {id})
  {
    if lv != [] {
      RemovePrune(lv[1..], ids, id);
      if lv[0].id !in ids {
        assert ([lv[0]] + Prune(lv[1..], ids))[1..] == Prune(lv[1..], ids);
      }
    }
  }

  // ---------------------------------------------------------------------
  // entries written by the thumbnail and compression stages

  /** The entry a stage creates for a video the library does not show yet
      (or shows without `info`): titled with its id and linked to
      `/video/<id>`, with the compressed link when `compressed`. */
  function VideoNode(id: string, compressed: bool, thumbnails: Option<map<nat, string>>): Node {
    Node(Some(Info(Some(id), None,
      Some(VideoLink("/video/" + id, "video/mp4",
        if compressed then Some("/compressed/" + id) else None,
        if compressed then Some("video/webm") else None)),
      thumbnails)), None)
  }

  /** The top level after the thumbnail stage of `id` ends: an entry with an
      `info` keeps it and gets exactly `links` as its thumbnail links; any
      other entry is replaced by a fresh video entry. */
  function WithThumbnailLinks(lv: Level, id: string, links: map<nat, string>): (r: Level)
    ensures Find(r, id).Some? && Find(r, id).value.info.Some?
    ensures Find(r, id).value.info.value.thumbnailLink == Some(links)
    ensures forall x | x != id :: Find(r, x) == Find(lv, x)
    ensures Find(lv, id).Some? && Find(lv, id).value.info.Some? ==>
      Find(r, id).value == Find(lv, id).value.(info := Some(Find(lv, id).value.info.value.(thumbnailLink := Some(links))))
    ensures !(Find(lv, id).Some? && Find(lv, id).value.info.Some?) ==>
      Find(r, id).value == VideoNode(id, false, Some(links))
  {
    match Find(lv, id)
    case Some(n) =>
      if n.info.Some? then Put(lv, id, n.(info := Some(n.info.value.(thumbnailLink := Some(links)))))
      else Put(lv, id, VideoNode(id, false, Some(links)))
    case None => Put(lv, id, VideoNode(id, false, Some(links)))
  }

  /** Setting a key twice keeps only the second value, in the first place. */
  lemma {:induction false} PutPut(lv: Level, id: string, x: Node, y: Node)
    ensures Put(Put(lv, id, x), id, y) == Put(lv, id, y)
  {
    if lv != [] && lv[0].id != id {
      PutPut(lv[1..], id, x, y);
      assert Put(lv, id, x)[1..] == Put(lv[1..], id, x);
    }
  }

  /** Writing the thumbnail links again replaces the earlier ones: the loop
      that adds one link at a time ends where one write of all links does. */
  lemma WithThumbnailLinksTwice(lv: Level, id: string, a: map<nat, string>, b: map<nat, string>)
    ensures WithThumbnailLinks(WithThumbnailLinks(lv, id, a), id, b) == WithThumbnailLinks(lv, id, b)
  {
    match Find(lv, id)
    case Some(n) =>
      if n.info.Some? {
        PutPut(lv, id, n.(info := Some(n.info.value.(thumbnailLink := Some(a)))), n.(info := Some(n.info.value.(thumbnailLink := Some(b)))));
      } else {
        PutPut(lv, id, VideoNode(id, false, Some(a)), VideoNode(id, false, Some(b)));
      }
    case None =>
      PutPut(lv, id, VideoNode(id, false, Some(a)), VideoNode(id, false, Some(b)));
  }

  /** The top level after the compression stage of `id` ends: an entry with a
      video link gets the compressed link beside it; any other entry is
      replaced by a fresh video entry, which has no thumbnail links. */
  function WithCompressedLink(lv: Level, id: string): (r: Level)
    ensures Find(r, id).Some? && Find(r, id).value.info.Some? && Find(r, id).value.info.value.videoLink.Some?
    ensures Find(r, id).value.info.value.videoLink.value.compressedSrc == Some("/compressed/" + id)
    ensures Find(r, id).value.info.value.videoLink.value.compressedType == Some("video/webm")
    ensures forall x | x != id :: Find(r, x) == Find(lv, x)
  {
    match Find(lv, id)
    case Some(n) =>
      if n.info.Some? && n.info.value.videoLink.Some? then
        var link := n.info.value.videoLink.value.(compressedSrc := Some("/compressed/" + id), compressedType := Some("video/webm"));
        Put(lv, id, n.(info := Some(n.info.value.(videoLink := Some(link)))))
      else Put(lv, id, VideoNode(id, true, None))
    case None => Put(lv, id, VideoNode(id, true, None))
  }

  /** An entry that already links its video keeps its title, its source link
      and its thumbnail links; an entry without one loses its thumbnail
      links. */
  lemma CompressedLinkKeeps(lv: Level, id: string)
    requires Find(lv, id).Some?
    ensures var n := Find(lv, id).value;
      var m := Find(WithCompressedLink(lv, id), id).value;
      if n.info.Some? && n.info.value.videoLink.Some? then
        m.info.value.title == n.info.value.title
        && m.info.value.thumbnailLink == n.info.value.thumbnailLink
        && m.info.value.videoLink.value.src == n.info.value.videoLink.value.src
        && m.content == n.content
      else m == VideoNode(id, true, None) && m.info.value.thumbnailLink.None?
  {
  }

  // ---------------------------------------------------------------------
  // folderPathString

  /** The expression the source builds for a path of folder ids. */
  function PathString(ids: seq<string>): string
    decreases |ids|
  {
    if ids == [] then ""
    else if |ids| == 1 then "availableVideos[\"" + ids[0] + "\"].content"
    else PathString(ids[..|ids| - 1]) + "[\"" + ids[|ids| - 1] + "\"].content"
  }

  /** Builds the expression one folder id at a time. */
  method FolderPathString(ids: seq<string>) returns (s: string)
    ensures s == PathString(ids)
    ensures ids != [] ==> |s| >= 8 && s[|s| - 8..] == ".content"
    ensures ids != [] ==> "availableVideos[\"" + ids[0] + "\"]" <= s
  {
    s := "";
    var i := 0;
    while i < |ids|
      invariant 0 <= i <= |ids|
      invariant s == PathString(ids[..i])
      invariant i > 0 ==> "availableVideos[\"" + ids[0] + "\"]" <= s
    {
      assert ids[..i + 1][..i] == ids[..i];
      if i == 0 {
        s := s + "availableVideos[\"" + ids[i] + "\"].content";
      } else {
        s := s + "[\"" + ids[i] + "\"].content";
      }
      i := i + 1;
    }
    assert ids[..|ids|] == ids;
  }

  // ---------------------------------------------------------------------
  // createFolder

  /** A new, empty folder placed inside `parent`. */
  function FolderNode(title: Option<string>, parent: string): Node {
    Node(Some(Info(title, Some(parent), None, None)), Some([]))
  }

  /** The tree after an operation and whether the source raised while doing
      it (the tree is then the in-memory state at the point of the throw). */
  datatype TreeResult = TreeResult(tree: Level, raised: bool)

  /** `createFolder`: a new folder `folderId` at the end of the level `path`
      leads to, inside the path's last folder, or "folder-main" at the top. */
  function CreateFolder(root: Level, path: seq<string>, title: Option<string>, folderId: string): TreeResult {
    var parent := if path == [] then FolderMain else path[|path| - 1];
    match LevelAt(root, path)
    case None => TreeResult(root, true)
    case Some(lv) => TreeResult(ReplaceAt(root, path, Put(lv, folderId, FolderNode(title, parent))), false)
  }

  /** The new folder is set at the level `path` names, empty and recording
      the folder it is inside; the other entries of that level are untouched,
      a fresh id is appended after the existing keys, and nothing beside the
      path changes. */
  lemma CreateFolderPlacesFolder(root: Level, path: seq<string>, title: Option<string>, folderId: string)
    requires LevelAt(root, path).Some?
    ensures !CreateFolder(root, path, title, folderId).raised
    ensures LevelAt(CreateFolder(root, path, title, folderId).tree, path)
      == Some(Put(LevelAt(root, path).value, folderId, FolderNode(title, if path == [] then FolderMain else path[|path| - 1])))
    ensures folderId !in Keys(LevelAt(root, path).value) ==>
      Keys(LevelAt(CreateFolder(root, path, title, folderId).tree, path).value) == Keys(LevelAt(root, path).value) + [folderId]
    ensures SameBesidePath(root, CreateFolder(root, path, title, folderId).tree, path, 0)
  {
    var lv := LevelAt(root, path).value;
    var parent := if path == [] then FolderMain else path[|path| - 1];
    var lv2 := Put(lv, folderId, FolderNode(title, parent));
    LevelAtReplaceAt(root, path, lv2, []);
    assert path + [] == path;
    assert CreateFolder(root, path, title, folderId).tree == ReplaceAt(root, path, lv2);
    PutKeys(lv, folderId, FolderNode(title, parent));
    ReplaceAtFrame(root, path, lv2);
  }

  /** A path that leads nowhere makes the source throw before any change. */
  lemma CreateFolderBadPath(root: Level, path: seq<string>, title: Option<string>, folderId: string)
    requires LevelAt(root, path).None?
    ensures CreateFolder(root, path, title, folderId) == TreeResult(root, true)
  {
  }

  // ---------------------------------------------------------------------
  // inputSelectedIDIntoFolderID

  /** The node with its `inside-folder` set, when it has an `info` object. */
  function WithParent(n: Node, folder: string): Node {
    if n.info.Some? then n.(info := Some(n.info.value.(insideFolder := Some(folder)))) else n
  }

  /** Moving `sel` into folder `folder` of the same level. */
  function MoveIntoLevel(lv: Level, sel: string, folder: string): (Level, bool) {
    match Find(lv, folder)
    case None => (lv, true)
    case Some(f) =>
      if f.content.None? then (lv, true)
      else match Find(lv, sel)
        case None => (lv, true)
        case Some(n) =>
          if sel == folder then (Remove(lv, sel), Contains(sel, "folder-"))
          else
            var moved := if Contains(sel, "folder-") then WithParent(n, folder) else n;
            var f2 := f.(content := Some(Put(f.content.value, sel, moved)));
            (Remove(Put(lv, folder, f2), sel), Contains(sel, "folder-") && n.info.None?)
  }

  /** `inputSelectedIDIntoFolderID`: the move happens at the level `path`
      leads to. */
  function MoveInto(root: Level, sel: string, folder: string, path: seq<string>): TreeResult {
    match LevelAt(root, path)
    case None => TreeResult(root, true)
    case Some(lv) =>
      var (lv2, raised) := MoveIntoLevel(lv, sel, folder);
      TreeResult(ReplaceAt(root, path, lv2), raised)
  }

  /** The moved level replaces the old one at the end of the path, and
      nothing beside the path changes. */
  lemma MoveIntoReplacesLevel(root: Level, sel: string, folder: string, path: seq<string>)
    requires LevelAt(root, path).Some?
    ensures LevelAt(MoveInto(root, sel, folder, path).tree, path) == Some(MoveIntoLevel(LevelAt(root, path).value, sel, folder).0)
    ensures MoveInto(root, sel, folder, path).raised == MoveIntoLevel(LevelAt(root, path).value, sel, folder).1
    ensures SameBesidePath(root, MoveInto(root, sel, folder, path).tree, path, 0)
  {
    var lv := LevelAt(root, path).value;
    LevelAtReplaceAt(root, path, MoveIntoLevel(lv, sel, folder).0, []);
    assert path + [] == path;
    ReplaceAtFrame(root, path, MoveIntoLevel(lv, sel, folder).0);
  }

  /** When both entries exist side by side and the folder has content, the
      entry leaves the level and is found in the folder (a folder entry then
      records its new parent, and the source throws only when that entry has
      no `info`); nothing else at the level changes and the remaining keys
      keep their order. */
  lemma MoveIntoLevelMoves(lv: Level, sel: string, folder: string)
    requires sel != folder
    requires Find(lv, sel).Some? && Find(lv, folder).Some? && Find(lv, folder).value.content.Some?
    ensures MoveIntoLevel(lv, sel, folder).1 == (Contains(sel, "folder-") && Find(lv, sel).value.info.None?)
    ensures Find(MoveIntoLevel(lv, sel, folder).0, sel).None?
    ensures Find(MoveIntoLevel(lv, sel, folder).0, folder).Some?
    ensures Find(MoveIntoLevel(lv, sel, folder).0, folder).value.content
      == Some(Put(Find(lv, folder).value.content.value, sel,
                  if Contains(sel, "folder-") then WithParent(Find(lv, sel).value, folder) else Find(lv, sel).value))
    ensures forall x | x != sel && x != folder :: Find(MoveIntoLevel(lv, sel, folder).0, x) == Find(lv, x)
    ensures Keys(MoveIntoLevel(lv, sel, folder).0) == Without(Keys(lv), sel)
  {
    var n := Find(lv, sel).value;
    var f := Find(lv, folder).value;
    var moved := if Contains(sel, "folder-") then WithParent(n, folder) else n;
    var f2 := f.(content := Some(Put(f.content.value, sel, moved)));
    var lv1 := Put(lv, folder, f2);
    var r := Remove(lv1, sel);
    assert MoveIntoLevel(lv, sel, folder) == (r, Contains(sel, "folder-") && n.info.None?);
    assert Find(r, folder) == Some(f2);
    PutKeys(lv, folder, f2);
    RemoveKeys(lv1, sel);
  }

  // ---------------------------------------------------------------------
  // inputSelectedIDOutOfFolderID

  /** The first index of `x` in `s`, as `indexOf`; `None` for -1. */
  function SeqIndexOf(s: seq<string>, x: string): (r: Option<nat>)
    ensures r.Some? ==> r.value < |s| && s[r.value] == x && x !in s[..r.value]
    ensures r.None? <==> x !in s
  {
    if s == [] then None
    else if s[0] == x then Some(0)
    else match SeqIndexOf(s[1..], x)
      case None => None
      case Some(k) =>
        assert s[..k + 1] == [s[0]] + s[1..][..k];
        Some(k + 1)
  }

  /** The path an entry is moved out to: the top level for "folder-main" or a
      folder that is not on the path, else the path up to that folder. */
  function TargetPath(folder: string, path: seq<string>): (to: seq<string>)
    ensures to <= path
    ensures folder == FolderMain || folder !in path ==> to == []
    ensures folder != FolderMain && folder in path ==> to != [] && to[|to| - 1] == folder && folder !in to[..|to| - 1]
  {
    if folder == FolderMain then []
    else match SeqIndexOf(path, folder)
      case None => []
      case Some(k) =>
        assert path[..k + 1][..k] == path[..k];
        path[..k + 1]
  }

  /** `inputSelectedIDOutOfFolderID`: the entry is added to the target level,
      deleted from the level `path` leads to, and a folder entry records
      `folder` as its parent. Every lookup is taken again after each change,
      as the source re-evaluates its path strings. */
  function MoveOut(root: Level, sel: string, folder: string, path: seq<string>): TreeResult {
    var to := TargetPath(folder, path);
    if path == [] then TreeResult(root, true)
    else
      match LevelAt(root, path)
      case None => TreeResult(root, true)
      case Some(from) =>
        match Find(from, sel)
        case None => TreeResult(root, true)
        case Some(n) =>
          match LevelAt(root, to)
          case None => TreeResult(root, true)
          case Some(target) =>
            var root1 := ReplaceAt(root, to, Put(target, sel, n));
            match LevelAt(root1, path)
            case None => TreeResult(root1, true)
            case Some(from1) =>
              var root2 := ReplaceAt(root1, path, Remove(from1, sel));
              if !Contains(sel, "folder-") then TreeResult(root2, false)
              else
                match LevelAt(root2, to)
                case None => TreeResult(root2, true)
                case Some(target2) =>
                  match Find(target2, sel)
                  case None => TreeResult(root2, true)
                  case Some(m) =>
                    if m.info.None? then TreeResult(root2, true)
                    else TreeResult(ReplaceAt(root2, to, Put(target2, sel, WithParent(m, folder))), false)
  }

  /** Setting `sel` at the level `to` leads to leaves every deeper level
      reached through another key unchanged. */
  lemma PutAbove(root: Level, to: seq<string>, rest: seq<string>, sel: string, m: Node)
    requires LevelAt(root, to).Some? && rest != [] && rest[0] != sel
    ensures LevelAt(ReplaceAt(root, to, Put(LevelAt(root, to).value, sel, m)), to + rest) == LevelAt(root, to + rest)
    ensures LevelAt(ReplaceAt(root, to, Put(LevelAt(root, to).value, sel, m)), to) == Some(Put(LevelAt(root, to).value, sel, m))
  {
    var t := Put(LevelAt(root, to).value, sel, m);
    LevelAtReplaceAt(root, to, t, rest);
    LevelAtReplaceAt(root, to, t, []);
    assert to + [] == to;
    LevelAtPutOther(LevelAt(root, to).value, sel, m, rest);
    LevelAtAppend(root, to, rest);
  }

  /** Replacing the level at `to + rest` is seen from `to` as a change under
      the key `rest[0]` only. */
  lemma ReplaceBelow(root: Level, to: seq<string>, rest: seq<string>, lv: Level, x: string)
    requires LevelAt(root, to).Some? && LevelAt(LevelAt(root, to).value, rest).Some? && rest != [] && x != rest[0]
    ensures LevelAt(root, to + rest).Some?
    ensures LevelAt(ReplaceAt(root, to + rest, lv), to + rest) == Some(lv)
    ensures LevelAt(ReplaceAt(root, to + rest, lv), to).Some?
    ensures Find(LevelAt(ReplaceAt(root, to + rest, lv), to).value, x) == Find(LevelAt(root, to).value, x)
    ensures LevelAt(LevelAt(ReplaceAt(root, to + rest, lv), to).value, rest) == Some(lv)
  {
    LevelAtAboveReplaceAt(root, to, rest, lv);
    LevelAtReplaceAt(root, to + rest, lv, []);
    assert to + rest + [] == to + rest;
    FindReplaceAtOther(LevelAt(root, to).value, rest, lv, x);
    LevelAtReplaceAt(LevelAt(root, to).value, rest, lv, []);
    assert rest + [] == rest;
  }

  /** The first two steps of a move out: after the entry is set at the
      target level and deleted from its own level, the target level holds it
      unchanged and its old level no longer does. */
  lemma MoveOutSteps(root: Level, sel: string, folder: string, path: seq<string>)
    requires path != [] && LevelAt(root, path).Some? && Find(LevelAt(root, path).value, sel).Some?
    requires |TargetPath(folder, path)| < |path| && sel != path[|TargetPath(folder, path)|]
    ensures var to := TargetPath(folder, path);
      var from := LevelAt(root, path).value;
      var n := Find(from, sel).value;
      LevelAt(root, to).Some? &&
      var root1 := ReplaceAt(root, to, Put(LevelAt(root, to).value, sel, n));
      LevelAt(root1, path) == Some(from) &&
      var root2 := ReplaceAt(root1, path, Remove(from, sel));
      LevelAt(root2, path) == Some(Remove(from, sel)) && LevelAt(root2, to).Some?
      && Find(LevelAt(root2, to).value, sel) == Some(n)
  {
    var to := TargetPath(folder, path);
    var rest := path[|to|..];
    assert path == to + rest;
    var from := LevelAt(root, path).value;
    var n := Find(from, sel).value;
    LevelAtAppend(root, to, rest);
    var target := LevelAt(root, to).value;
    PutAbove(root, to, rest, sel, n);
    var root1 := ReplaceAt(root, to, Put(target, sel, n));
    assert LevelAt(root1, path) == Some(from);
    LevelAtAppend(root1, to, rest);
    ReplaceBelow(root1, to, rest, Remove(from, sel), sel);
  }

  /** Setting `sel` at the level `to` leads to leaves every level deeper
      than `to` on a path that goes on through another key unchanged. */
  lemma PutAboveBeside(root: Level, to: seq<string>, path: seq<string>, sel: string, m: Node)
    requires to <= path && |to| < |path| && LevelAt(root, path).Some? && sel != path[|to|]
    ensures LevelAt(root, to).Some?
    ensures SameBesidePath(root, ReplaceAt(root, to, Put(LevelAt(root, to).value, sel, m)), path, |to| + 1)
  {
    assert path == to + path[|to|..];
    LevelAtAppend(root, to, path[|to|..]);
    var r := ReplaceAt(root, to, Put(LevelAt(root, to).value, sel, m));
    forall k | |to| + 1 <= k < |path|
      ensures LevelAt(root, path[..k]).Some? && LevelAt(r, path[..k]).Some?
        && SameBesideKey(LevelAt(root, path[..k]).value, LevelAt(r, path[..k]).value, path[k])
    {
      var rest := path[|to|..k];
      assert path[..k] == to + rest && rest[0] == path[|to|];
      assert path == path[..k] + path[k..];
      LevelAtAppend(root, path[..k], path[k..]);
      PutAbove(root, to, rest, sel, m);
    }
  }

  /** The first two steps of a move out, seen from beside the path: setting
      `sel` at the level `to` and then deleting it from the level `path`
      changes nothing but the path and, at the target level, the key `sel`. */
  lemma MoveOutStepsBeside(root: Level, to: seq<string>, path: seq<string>, sel: string, n: Node)
    requires to <= path && |to| < |path| && LevelAt(root, path).Some? && sel != path[|to|]
    ensures LevelAt(root, to).Some?
    ensures var root1 := ReplaceAt(root, to, Put(LevelAt(root, to).value, sel, n));
      LevelAt(root1, path) == LevelAt(root, path) &&
      var root2 := ReplaceAt(root1, path, Remove(LevelAt(root, path).value, sel));
      LevelAt(root2, to).Some? && LevelAt(root2, path).Some?
      && SameBesideKey(Put(LevelAt(root, to).value, sel, n), LevelAt(root2, to).value, path[|to|])
      && SameBesidePath(root, root2, to, 0) && SameBesidePath(root, root2, path, |to| + 1)
  {
    PutAboveBeside(root, to, path, sel, n);
    var from := LevelAt(root, path).value;
    var target := LevelAt(root, to).value;
    var root1 := ReplaceAt(root, to, Put(target, sel, n));
    ReplaceAtFrame(root, to, Put(target, sel, n));
    assert path == to + path[|to|..];
    PutAbove(root, to, path[|to|..], sel, n);
    assert LevelAt(root1, path) == Some(from);
    assert LevelAt(root1, to) == Some(Put(target, sel, n));
    var root2 := ReplaceAt(root1, path, Remove(from, sel));
    LevelAtReplaceAt(root1, path, Remove(from, sel), []);
    assert path + [] == path;
    ReplaceAtFrame(root1, path, Remove(from, sel));
    assert path[..|to|] == to;
    assert SameBesideKey(Put(target, sel, n), LevelAt(root2, to).value, path[|to|]) by {
      assert SameBesidePath(root1, root2, path, 0);
    }
    SameBesidePrefix(root1, root2, path, to, 0);
    SameBesideTrans(root, root1, root2, to, 0);
    SameBesideTrans(root, root1, root2, path, |to| + 1);
  }

  /** The last step of moving a folder out, seen from beside the path:
      setting `sel` again at the target level keeps the earlier frame. */
  lemma MoveOutLastStepBeside(root: Level, root2: Level, to: seq<string>, path: seq<string>, sel: string,
                              n: Node, moved: Node)
    requires to <= path && |to| < |path| && sel != path[|to|]
    requires LevelAt(root, to).Some? && LevelAt(root2, to).Some? && LevelAt(root2, path).Some?
    requires SameBesideKey(Put(LevelAt(root, to).value, sel, n), LevelAt(root2, to).value, path[|to|])
    requires SameBesidePath(root, root2, to, 0) && SameBesidePath(root, root2, path, |to| + 1)
    ensures var root3 := ReplaceAt(root2, to, Put(LevelAt(root2, to).value, sel, moved));
      LevelAt(root3, to).Some?
      && SameBesideKey(Put(LevelAt(root, to).value, sel, moved), LevelAt(root3, to).value, path[|to|])
      && SameBesidePath(root, root3, to, 0) && SameBesidePath(root, root3, path, |to| + 1)
  {
    var target := LevelAt(root, to).value;
    var target2 := LevelAt(root2, to).value;
    var root3 := ReplaceAt(root2, to, Put(target2, sel, moved));
    ReplaceAtFrame(root2, to, Put(target2, sel, moved));
    PutAboveBeside(root2, to, path, sel, moved);
    assert path == to + path[|to|..];
    PutAbove(root2, to, path[|to|..], sel, moved);
    SameBesideTrans(root, root2, root3, to, 0);
    SameBesideTrans(root, root2, root3, path, |to| + 1);
    PutBeside(Put(target, sel, n), target2, path[|to|], sel, moved);
    PutPut(target, sel, n, moved);
  }

  /** What a move out leaves alone: above the target level only the path
      changes; the target level is its old self with `sel` set (in its old
      place, or last when new) except under the key the path goes on with;
      and between the target and the old level only the path changes. */
  lemma MoveOutFrame(root: Level, sel: string, folder: string, path: seq<string>)
    requires path != [] && LevelAt(root, path).Some? && Find(LevelAt(root, path).value, sel).Some?
    requires |TargetPath(folder, path)| < |path| && sel != path[|TargetPath(folder, path)|]
    requires Contains(sel, "folder-") ==> Find(LevelAt(root, path).value, sel).value.info.Some?
    ensures var to := TargetPath(folder, path);
      var r := MoveOut(root, sel, folder, path).tree;
      var n := Find(LevelAt(root, path).value, sel).value;
      var moved := if Contains(sel, "folder-") then WithParent(n, folder) else n;
      LevelAt(root, to).Some? && LevelAt(r, to).Some?
      && SameBesideKey(Put(LevelAt(root, to).value, sel, moved), LevelAt(r, to).value, path[|to|])
    ensures SameBesidePath(root, MoveOut(root, sel, folder, path).tree, TargetPath(folder, path), 0)
    ensures SameBesidePath(root, MoveOut(root, sel, folder, path).tree, path, |TargetPath(folder, path)| + 1)
  {
    MoveOutSteps(root, sel, folder, path);
    var to := TargetPath(folder, path);
    var from := LevelAt(root, path).value;
    var n := Find(from, sel).value;
    MoveOutStepsBeside(root, to, path, sel, n);
    var root1 := ReplaceAt(root, to, Put(LevelAt(root, to).value, sel, n));
    var root2 := ReplaceAt(root1, path, Remove(from, sel));
    if Contains(sel, "folder-") {
      var moved := WithParent(n, folder);
      MoveOutLastStepBeside(root, root2, to, path, sel, n, moved);
      assert MoveOut(root, sel, folder, path).tree == ReplaceAt(root2, to, Put(LevelAt(root2, to).value, sel, moved));
    } else {
      assert MoveOut(root, sel, folder, path).tree == root2;
    }
  }

  /** A move out whose lookups all succeed raises nothing and leaves the old
      level without the entry. */
  lemma MoveOutLeaves(root: Level, sel: string, folder: string, path: seq<string>)
    requires path != [] && LevelAt(root, path).Some? && Find(LevelAt(root, path).value, sel).Some?
    requires |TargetPath(folder, path)| < |path| && sel != path[|TargetPath(folder, path)|]
    requires Contains(sel, "folder-") ==> Find(LevelAt(root, path).value, sel).value.info.Some?
    ensures !MoveOut(root, sel, folder, path).raised
    ensures LevelAt(MoveOut(root, sel, folder, path).tree, path) == Some(Remove(LevelAt(root, path).value, sel))
  {
    MoveOutSteps(root, sel, folder, path);
    var to := TargetPath(folder, path);
    var from := LevelAt(root, path).value;
    var n := Find(from, sel).value;
    var root1 := ReplaceAt(root, to, Put(LevelAt(root, to).value, sel, n));
    assert LevelAt(root1, path) == Some(from);
    var root2 := ReplaceAt(root1, path, Remove(from, sel));
    if Contains(sel, "folder-") {
      MoveOutRelinks(root2, sel, folder, path, to, n);
      assert MoveOut(root, sel, folder, path).tree == ReplaceAt(root2, to, Put(LevelAt(root2, to).value, sel, WithParent(n, folder)));
    } else {
      assert MoveOut(root, sel, folder, path).tree == root2;
    }
  }

  /** The last step of moving a folder out, relinking its parent, leaves the
      level it was taken from as it is. */
  lemma MoveOutRelinks(root2: Level, sel: string, folder: string, path: seq<string>, to: seq<string>, n: Node)
    requires to <= path && |to| < |path| && sel != path[|to|]
    requires LevelAt(root2, to).Some? && LevelAt(root2, path).Some?
    ensures LevelAt(ReplaceAt(root2, to, Put(LevelAt(root2, to).value, sel, WithParent(n, folder))), path) == LevelAt(root2, path)
  {
    var rest := path[|to|..];
    assert path == to + rest;
    PutAbove(root2, to, rest, sel, WithParent(n, folder));
    LevelAtAppend(root2, to, rest);
  }

  /** A level that differs from `t` with `sel` set only under another key
      holds `sel`'s new node and keeps every other entry but the one under
      that key. */
  lemma SameBesidePut(t: Level, sel: string, m: Node, t2: Level, key: string)
    requires SameBesideKey(Put(t, sel, m), t2, key) && sel != key
    ensures Find(t2, sel) == Some(m)
    ensures forall x | x != sel && x != key :: Find(t2, x) == Find(t, x)
  {
    var p := Put(t, sel, m);
    assert Find(t2, sel) == Find(p, sel);
    forall x | x != sel && x != key ensures Find(t2, x) == Find(t, x) {
      assert Find(t2, x) == Find(p, x);
    }
  }

  /** A level with the keys of `t` after `sel` is set has `sel` in its old
      place, or last when it is new. */
  lemma SameBesidePutKeys(t: Level, sel: string, m: Node, t2: Level)
    requires Keys(t2) == Keys(Put(t, sel, m))
    ensures Keys(t2) == (if sel in Keys(t) then Keys(t) else Keys(t) + [sel])
  {
    PutKeys(t, sel, m);
  }

  /** Moving an entry out to a level above the one it is in: it is found at
      the target level (a folder entry recording `folder` as its parent), in
      its old place there if the key was already present and last otherwise,
      and no longer at its old level; the other entries of the target level,
      the levels above it and every entry beside the path are as they were. */
  lemma MoveOutMoves(root: Level, sel: string, folder: string, path: seq<string>)
    requires path != [] && LevelAt(root, path).Some? && Find(LevelAt(root, path).value, sel).Some?
    requires |TargetPath(folder, path)| < |path| && sel != path[|TargetPath(folder, path)|]
    requires Contains(sel, "folder-") ==> Find(LevelAt(root, path).value, sel).value.info.Some?
    ensures !MoveOut(root, sel, folder, path).raised
    ensures LevelAt(MoveOut(root, sel, folder, path).tree, path) == Some(Remove(LevelAt(root, path).value, sel))
    ensures LevelAt(root, TargetPath(folder, path)).Some?
    ensures LevelAt(MoveOut(root, sel, folder, path).tree, TargetPath(folder, path)).Some?
    ensures var to := TargetPath(folder, path);
      var n := Find(LevelAt(root, path).value, sel).value;
      var target := LevelAt(root, to).value;
      var target2 := LevelAt(MoveOut(root, sel, folder, path).tree, to).value;
      Find(target2, sel) == Some(if Contains(sel, "folder-") then WithParent(n, folder) else n)
      && Keys(target2) == (if sel in Keys(target) then Keys(target) else Keys(target) + [sel])
      && forall x | x != sel && x != path[|to|] :: Find(target2, x) == Find(target, x)
    ensures SameBesidePath(root, MoveOut(root, sel, folder, path).tree, TargetPath(folder, path), 0)
    ensures SameBesidePath(root, MoveOut(root, sel, folder, path).tree, path, |TargetPath(folder, path)| + 1)
  {
    MoveOutLeaves(root, sel, folder, path);
    MoveOutFrame(root, sel, folder, path);
    var to := TargetPath(folder, path);
    var n := Find(LevelAt(root, path).value, sel).value;
    var moved := if Contains(sel, "folder-") then WithParent(n, folder) else n;
    SameBesidePut(LevelAt(root, to).value, sel, moved, LevelAt(MoveOut(root, sel, folder, path).tree, to).value, path[|to|]);
    SameBesidePutKeys(LevelAt(root, to).value, sel, moved, LevelAt(MoveOut(root, sel, folder, path).tree, to).value);
  }

  /** Moving an entry "out" to the folder it is already in puts it back in
      its own place and then deletes it: a non-folder entry is lost without an
      error. */
  lemma MoveOutToOwnFolderDeletes(root: Level, sel: string, path: seq<string>)
    requires path != [] && path[|path| - 1] != FolderMain && path[|path| - 1] !in path[..|path| - 1]
    requires LevelAt(root, path).Some? && Find(LevelAt(root, path).value, sel).Some?
    requires !Contains(sel, "folder-")
    ensures var r := MoveOut(root, sel, path[|path| - 1], path);
      !r.raised && LevelAt(r.tree, path).Some? && Find(LevelAt(r.tree, path).value, sel).None?
  {
    var folder := path[|path| - 1];
    assert folder in path;
    var to := TargetPath(folder, path);
    assert to == path by {
      var k := SeqIndexOf(path, folder).value;
      assert path[..|path| - 1][..k] == path[..k];
    }
    var from := LevelAt(root, path).value;
    var n := Find(from, sel).value;
    var t1 := Put(from, sel, n);
    LevelAtReplaceAt(root, path, t1, []);
    assert path + [] == path;
    var root1 := ReplaceAt(root, path, t1);
    LevelAtReplaceAt(root1, path, Remove(t1, sel), []);
  }

  // ---------------------------------------------------------------------
  // updateRearangedAvailableVideoDetails

  /** `indexOf` over the keys: -1 when absent. */
  function KeyIndex(lv: Level, id: string): (i: int)
    ensures -1 <= i < |lv|
    ensures i >= 0 ==> lv[i].id == id && forall j | 0 <= j < i :: lv[j].id != id
    ensures i == -1 <==> id !in Keys(lv)
  {
    if lv == [] then -1
    else if lv[0].id == id then 0
    else
      var k := KeyIndex(lv[1..], id);
      if k == -1 then -1 else k + 1
  }

  /** `lv[id]` is the node of the first entry with key `id`; in an object,
      whose keys are unique, of the only one. */
  lemma {:induction false} FindFirst(lv: Level, id: string)
    ensures Find(lv, id).Some? ==> Find(lv, id).value == lv[KeyIndex(lv, id)].node
    ensures UniqueKeys(lv) ==> forall i | 0 <= i < |lv| && lv[i].id == id :: Find(lv, id) == Some(lv[i].node)
  {
    if lv != [] && lv[0].id != id {
      FindFirst(lv[1..], id);
      if UniqueKeys(lv) {
        DistinctCons(Keys(lv));
        assert Keys(lv)[1..] == Keys(lv[1..]);
      }
    }
    if UniqueKeys(lv) && Find(lv, id).Some? {
      var k := KeyIndex(lv, id);
      forall i | 0 <= i < |lv| && lv[i].id == id ensures Find(lv, id) == Some(lv[i].node) {
        assert Keys(lv)[i] == Keys(lv)[k];
      }
    }
  }

  /** Where `splice(start, …)` starts on an array of length `len`: a negative
      start counts from the end, and both ends are clamped. */
  function SpliceStart(start: int, len: nat): (s: nat)
    ensures s <= len
    ensures 0 <= start <= len ==> s == start
    ensures start == -1 && len > 0 ==> s == len - 1
  {
    if start < 0 then (if len + start < 0 then 0 else len + start)
    else if start > len then len
    else start
  }

  /** `lv` with the entry at index `s` taken out and put back in at index
      `t` of what remains. */
  function Moved(lv: Level, s: nat, t: nat): Level
    requires s < |lv| && t < |lv|
  {
    var rest := lv[..s] + lv[s + 1..];
    rest[..t] + [lv[s]] + rest[t..]
  }

  /** The splice-remove then splice-insert reorder of one level, both indices
      taken from the original key order; `None` when the level is empty and
      the source throws on the `undefined` it would insert. */
  function Reordered(lv: Level, sel: string, target: string): Option<Level> {
    if lv == [] then None
    else Some(Moved(lv, SpliceStart(KeyIndex(lv, sel), |lv|), SpliceStart(KeyIndex(lv, target), |lv| - 1)))
  }

  /** The moved entry is at index `t`, and the others keep their relative
      order. */
  lemma MovedPlaces(lv: Level, s: nat, t: nat)
    requires s < |lv| && t < |lv|
    ensures |Moved(lv, s, t)| == |lv| && Moved(lv, s, t)[t] == lv[s]
    ensures Moved(lv, s, t)[..t] + Moved(lv, s, t)[t + 1..] == lv[..s] + lv[s + 1..]
  {
    var rest := lv[..s] + lv[s + 1..];
    var r := Moved(lv, s, t);
    assert r[..t] == rest[..t] && r[t + 1..] == rest[t..];
    assert rest == rest[..t] + rest[t..];
  }

  /** Moving an entry is a permutation of the level. */
  lemma MovedPermutes(lv: Level, s: nat, t: nat)
    requires s < |lv| && t < |lv|
    ensures multiset(Moved(lv, s, t)) == multiset(lv)
  {
    var rest := lv[..s] + lv[s + 1..];
    assert lv == lv[..s] + [lv[s]] + lv[s + 1..];
    assert rest == rest[..t] + rest[t..];
    calc {
      multiset(Moved(lv, s, t));
      multiset(rest[..t]) + multiset([lv[s]]) + multiset(rest[t..]);
      multiset(rest) + multiset([lv[s]]);
      multiset(lv[..s]) + multiset(lv[s + 1..]) + multiset([lv[s]]);
      multiset(lv);
    }
  }

  /** Where entry `i` of the moved level came from. */
  function Origin(s: nat, t: nat, i: nat): nat {
    if i < t then (if i < s then i else i + 1)
    else if i == t then s
    else if i - 1 < s then i - 1 else i
  }

  lemma MovedOrigin(lv: Level, s: nat, t: nat, i: nat)
    requires s < |lv| && t < |lv| && i < |lv|
    ensures Origin(s, t, i) < |lv| && Moved(lv, s, t)[i] == lv[Origin(s, t, i)]
  {
    var rest := lv[..s] + lv[s + 1..];
    if i < t {
      assert Moved(lv, s, t)[i] == rest[i];
    } else if i > t {
      assert Moved(lv, s, t)[i] == rest[i - 1];
    }
  }

  /** Distinct entries of the moved level come from distinct entries. */
  lemma OriginInjective(s: nat, t: nat, i: nat, j: nat)
    requires i < j
    ensures Origin(s, t, i) != Origin(s, t, j)
  {
  }

  /** Moving an entry keeps the keys unique. */
  lemma MovedUnique(lv: Level, s: nat, t: nat)
    requires s < |lv| && t < |lv| && UniqueKeys(lv)
    ensures UniqueKeys(Moved(lv, s, t))
  {
    var r := Moved(lv, s, t);
    MovedPlaces(lv, s, t);
    forall i, j | 0 <= i < j < |r| ensures Keys(r)[i] != Keys(r)[j] {
      MovedOrigin(lv, s, t, i);
      MovedOrigin(lv, s, t, j);
      OriginInjective(s, t, i, j);
      var a, b := Origin(s, t, i), Origin(s, t, j);
      assert Keys(r)[i] == lv[a].id == Keys(lv)[a];
      assert Keys(r)[j] == lv[b].id == Keys(lv)[b];
    }
  }

  /** The reorder is a permutation that keeps the level's unique keys; the
      entry at the splice start of the selected key lands at the splice start
      of the target key, and the other entries keep their relative order. */
  lemma ReorderedPermutes(lv: Level, sel: string, target: string)
    requires lv != []
    ensures Reordered(lv, sel, target).Some?
    ensures multiset(Reordered(lv, sel, target).value) == multiset(lv)
    ensures UniqueKeys(lv) ==> UniqueKeys(Reordered(lv, sel, target).value)
    ensures var r := Reordered(lv, sel, target).value;
      var s := SpliceStart(KeyIndex(lv, sel), |lv|);
      var t := SpliceStart(KeyIndex(lv, target), |lv| - 1);
      |r| == |lv| && r[t] == lv[s] && r[..t] + r[t + 1..] == lv[..s] + lv[s + 1..]
  {
    var s := SpliceStart(KeyIndex(lv, sel), |lv|);
    var t := SpliceStart(KeyIndex(lv, target), |lv| - 1);
    assert Reordered(lv, sel, target) == Some(Moved(lv, s, t));
    MovedPlaces(lv, s, t);
    MovedPermutes(lv, s, t);
    if UniqueKeys(lv) {
      MovedUnique(lv, s, t);
    }
  }

  /** With both keys present, the selected entry lands at the target's old
      index. */
  lemma ReorderedMovesToTarget(lv: Level, sel: string, target: string)
    requires sel in Keys(lv) && target in Keys(lv)
    ensures Reordered(lv, sel, target).Some?
    ensures Reordered(lv, sel, target).value[KeyIndex(lv, target)] == lv[KeyIndex(lv, sel)]
  {
    ReorderedPermutes(lv, sel, target);
  }

  /** With an unknown selected key, `splice(-1, 1)` takes the LAST entry,
      which is then moved to the target's index. */
  lemma ReorderedUnknownMovesLast(lv: Level, sel: string, target: string)
    requires lv != [] && sel !in Keys(lv)
    ensures Reordered(lv, sel, target).Some?
    ensures Reordered(lv, sel, target).value[SpliceStart(KeyIndex(lv, target), |lv| - 1)] == lv[|lv| - 1]
  {
    assert KeyIndex(lv, sel) == -1;
    assert SpliceStart(KeyIndex(lv, sel), |lv|) == |lv| - 1;
    MovedPlaces(lv, |lv| - 1, SpliceStart(KeyIndex(lv, target), |lv| - 1));
  }

  /** `updateRearangedAvailableVideoDetails` at the level `path` leads to. */
  function Reorder(root: Level, sel: string, target: string, path: seq<string>): TreeResult {
    match LevelAt(root, path)
    case None => TreeResult(root, true)
    case Some(lv) =>
      match Reordered(lv, sel, target)
      case None => TreeResult(root, true)
      case Some(r) => TreeResult(ReplaceAt(root, path, r), false)
  }

  /** The reordered level replaces the old one: the `.content` the source
      assigns is the level its path string ends at, and nothing beside the
      path changes. */
  lemma ReorderReplacesLevel(root: Level, sel: string, target: string, path: seq<string>)
    requires LevelAt(root, path).Some? && LevelAt(root, path).value != []
    ensures var r := Reorder(root, sel, target, path);
      !r.raised && LevelAt(r.tree, path) == Reordered(LevelAt(root, path).value, sel, target)
    ensures SameBesidePath(root, Reorder(root, sel, target, path).tree, path, 0)
  {
    var lv := LevelAt(root, path).value;
    LevelAtReplaceAt(root, path, Reordered(lv, sel, target).value, []);
    assert path + [] == path;
    ReplaceAtFrame(root, path, Reordered(lv, sel, target).value);
  }

  // ---------------------------------------------------------------------
  // changeVideoTitle

  datatype TitleResult = TitleChanged(tree: Level) | TitleFailed | TitleRaised

  /** The node with a new title. */
  function Retitled(n: Node, title: Option<string>): Node
    requires n.info.Some?
  {
    n.(info := Some(n.info.value.(title := title)))
  }

  /** `changeVideoTitle`: at the top level a missing id, a title that is not a
      string (`None`) or a node without `info` fail politely; below the top
      level nothing is checked and every such case throws. */
  function ChangeTitle(root: Level, id: string, title: Option<string>, path: seq<string>): TitleResult {
    if path == [] then
      match Find(root, id)
      case None => TitleFailed
      case Some(n) =>
        if title.None? || n.info.None? then TitleFailed
        else TitleChanged(Put(root, id, Retitled(n, title)))
    else
      match LevelAt(root, path)
      case None => TitleRaised
      case Some(lv) =>
        match Find(lv, id)
        case None => TitleRaised
        case Some(n) =>
          if n.info.None? then TitleRaised
          else TitleChanged(ReplaceAt(root, path, Put(lv, id, Retitled(n, title))))
  }

  /** A changed title is the only change: the entry keeps its place and its
      other fields, the other entries of its level are untouched, and so is
      everything beside the path. */
  lemma ChangeTitleChangesOnlyTitle(root: Level, id: string, title: Option<string>, path: seq<string>)
    requires ChangeTitle(root, id, title, path).TitleChanged?
    ensures LevelAt(root, path).Some? && Find(LevelAt(root, path).value, id).Some?
    ensures Find(LevelAt(root, path).value, id).value.info.Some?
    ensures LevelAt(ChangeTitle(root, id, title, path).tree, path)
      == Some(Put(LevelAt(root, path).value, id, Retitled(Find(LevelAt(root, path).value, id).value, title)))
    ensures Keys(LevelAt(ChangeTitle(root, id, title, path).tree, path).value) == Keys(LevelAt(root, path).value)
    ensures SameBesidePath(root, ChangeTitle(root, id, title, path).tree, path, 0)
  {
    var lv := LevelAt(root, path).value;
    var n := Find(lv, id).value;
    if path != [] {
      LevelAtReplaceAt(root, path, Put(lv, id, Retitled(n, title)), []);
      assert path + [] == path;
      ReplaceAtFrame(root, path, Put(lv, id, Retitled(n, title)));
    }
    PutKeys(lv, id, Retitled(n, title));
  }

  /** When the title changes: at the top level exactly when the id is there
      with an `info` and the title is a string; below it exactly when the path
      and the id lead to a node with an `info`, whatever the title. */
  lemma ChangeTitleWhen(root: Level, id: string, title: Option<string>, path: seq<string>)
    ensures path == [] ==>
      (ChangeTitle(root, id, title, path).TitleChanged? <==>
        Find(root, id).Some? && Find(root, id).value.info.Some? && title.Some?)
    ensures path == [] ==> !ChangeTitle(root, id, title, path).TitleRaised?
    ensures path != [] ==>
      (ChangeTitle(root, id, title, path).TitleChanged? <==>
        LevelAt(root, path).Some? && Find(LevelAt(root, path).value, id).Some?
        && Find(LevelAt(root, path).value, id).value.info.Some?)
    ensures path != [] ==> !ChangeTitle(root, id, title, path).TitleFailed?
  {
    if path != [] && LevelAt(root, path).Some? {
      var lv := LevelAt(root, path).value;
      assert ChangeTitle(root, id, title, path).TitleChanged? <==> Find(lv, id).Some? && Find(lv, id).value.info.Some?;
    }
  }

  // ---------------------------------------------------------------------
  // the top level stays an object: no key twice

  /** Replacing a level keeps the top-level keys unique: below the top they
      are not touched, at the top the new level must have unique keys. */
  lemma ReplaceAtUnique(root: Level, path: seq<string>, lv: Level)
    requires LevelAt(root, path).Some? && UniqueKeys(root)
    requires path == [] ==> UniqueKeys(lv)
    ensures UniqueKeys(ReplaceAt(root, path, lv))
  {
    if path != [] {
      ReplaceAtKeys(root, path, lv);
    }
  }

  lemma {:induction false} PruneUnique(lv: Level, ids: set<string>)
    requires UniqueKeys(lv)
    ensures UniqueKeys(Prune(lv, ids))
  {
    if lv != [] {
      DistinctCons(Keys(lv));
      assert Keys(lv)[1..] == Keys(lv[1..]);
      PruneUnique(lv[1..], ids);
      if lv[0].id !in ids {
        var r := Prune(lv, ids);
        assert r == [lv[0]] + Prune(lv[1..], ids);
        assert Keys(r)[1..] == Keys(Prune(lv[1..], ids));
        assert Find(Prune(lv[1..], ids), lv[0].id) == None;
        DistinctCons(Keys(r));
      }
    }
  }

  lemma CreateFolderUnique(root: Level, path: seq<string>, title: Option<string>, folderId: string)
    ensures UniqueKeys(root) ==> UniqueKeys(CreateFolder(root, path, title, folderId).tree)
  {
    if UniqueKeys(root) && LevelAt(root, path).Some? {
      var lv := LevelAt(root, path).value;
      var parent := if path == [] then FolderMain else path[|path| - 1];
      if path == [] {
        PutUnique(lv, folderId, FolderNode(title, parent));
      }
      ReplaceAtUnique(root, path, Put(lv, folderId, FolderNode(title, parent)));
    }
  }

  lemma MoveIntoUnique(root: Level, sel: string, folder: string, path: seq<string>)
    ensures UniqueKeys(root) ==> UniqueKeys(MoveInto(root, sel, folder, path).tree)
  {
    if UniqueKeys(root) && LevelAt(root, path).Some? {
      var lv := LevelAt(root, path).value;
      if path == [] {
        match Find(lv, folder)
        case None =>
        case Some(f) =>
          if f.content.Some? && Find(lv, sel).Some? {
            var n := Find(lv, sel).value;
            RemoveUnique(lv, sel);
            var moved := if Contains(sel, "folder-") then WithParent(n, folder) else n;
            var f2 := f.(content := Some(Put(f.content.value, sel, moved)));
            PutUnique(lv, folder, f2);
            RemoveUnique(Put(lv, folder, f2), sel);
          }
      }
      ReplaceAtUnique(root, path, MoveIntoLevel(lv, sel, folder).0);
    }
  }

  /** Setting one key of one level keeps keys unique. */
  lemma PutAtUnique(root: Level, to: seq<string>, sel: string, m: Node)
    requires UniqueKeys(root) && LevelAt(root, to).Some?
    ensures UniqueKeys(ReplaceAt(root, to, Put(LevelAt(root, to).value, sel, m)))
  {
    if to == [] {
      PutUnique(LevelAt(root, to).value, sel, m);
    }
    ReplaceAtUnique(root, to, Put(LevelAt(root, to).value, sel, m));
  }

  /** Deleting one key of one level keeps keys unique. */
  lemma RemoveAtUnique(root: Level, path: seq<string>, sel: string)
    requires UniqueKeys(root) && LevelAt(root, path).Some?
    ensures UniqueKeys(ReplaceAt(root, path, Remove(LevelAt(root, path).value, sel)))
  {
    if path == [] {
      RemoveUnique(LevelAt(root, path).value, sel);
    }
    ReplaceAtUnique(root, path, Remove(LevelAt(root, path).value, sel));
  }

  lemma MoveOutUnique(root: Level, sel: string, folder: string, path: seq<string>)
    ensures UniqueKeys(root) ==> UniqueKeys(MoveOut(root, sel, folder, path).tree)
  {
    var to := TargetPath(folder, path);
    if UniqueKeys(root) && path != [] && LevelAt(root, path).Some? && Find(LevelAt(root, path).value, sel).Some?
       && LevelAt(root, to).Some? {
      var n := Find(LevelAt(root, path).value, sel).value;
      PutAtUnique(root, to, sel, n);
      var root1 := ReplaceAt(root, to, Put(LevelAt(root, to).value, sel, n));
      if LevelAt(root1, path).Some? {
        RemoveAtUnique(root1, path, sel);
        var root2 := ReplaceAt(root1, path, Remove(LevelAt(root1, path).value, sel));
        if Contains(sel, "folder-") && LevelAt(root2, to).Some? && Find(LevelAt(root2, to).value, sel).Some? {
          var m := Find(LevelAt(root2, to).value, sel).value;
          PutAtUnique(root2, to, sel, WithParent(m, folder));
        }
      }
    }
  }

  lemma ReorderUnique(root: Level, sel: string, target: string, path: seq<string>)
    ensures UniqueKeys(root) ==> UniqueKeys(Reorder(root, sel, target, path).tree)
  {
    if UniqueKeys(root) && LevelAt(root, path).Some? && LevelAt(root, path).value != [] {
      var lv := LevelAt(root, path).value;
      ReorderedPermutes(lv, sel, target);
      ReplaceAtUnique(root, path, Reordered(lv, sel, target).value);
    }
  }

  lemma ChangeTitleUnique(root: Level, id: string, title: Option<string>, path: seq<string>)
    requires ChangeTitle(root, id, title, path).TitleChanged?
    ensures UniqueKeys(root) ==> UniqueKeys(ChangeTitle(root, id, title, path).tree)
  {
    if UniqueKeys(root) {
      var lv := LevelAt(root, path).value;
      var n := Find(lv, id).value;
      if path == [] {
        PutUnique(lv, id, Retitled(n, title));
      } else {
        ReplaceAtUnique(root, path, Put(lv, id, Retitled(n, title)));
      }
    }
  }

  /** Linking a stage's files writes one top-level key, so it keeps the keys
      unique. */
  lemma StageLinksUnique(lv: Level, id: string, links: map<nat, string>)
    ensures UniqueKeys(lv) ==> UniqueKeys(WithThumbnailLinks(lv, id, links))
    ensures UniqueKeys(lv) ==> UniqueKeys(WithCompressedLink(lv, id))
  {
    if UniqueKeys(lv) {
      match Find(lv, id)
      case Some(n) =>
        PutUnique(lv, id, VideoNode(id, false, Some(links)));
        PutUnique(lv, id, VideoNode(id, true, None));
        if n.info.Some? {
          PutUnique(lv, id, n.(info := Some(n.info.value.(thumbnailLink := Some(links)))));
          if n.info.value.videoLink.Some? {
            var link := n.info.value.videoLink.value.(compressedSrc := Some("/compressed/" + id), compressedType := Some("video/webm"));
            PutUnique(lv, id, n.(info := Some(n.info.value.(videoLink := Some(link)))));
          }
        }
      case None =>
        PutUnique(lv, id, VideoNode(id, false, Some(links)));
        PutUnique(lv, id, VideoNode(id, true, None));
    }
  }
}
