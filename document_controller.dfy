/** The request handlers of DocumentController and their recursive helpers.
    The helpers that loop or recurse are methods proved against the
    specification functions of FolderTree; the handlers update a `Db`. */
module DocumentController {
  import opened Common
  import opened Schema
  import opened FolderTree
  import opened FileSize
  import opened DocumentListing

  // ---------------------------------------------------------------------
  // calculateFolderSize

  /** The byte total calculateFolderSize intends for folder `id`: its own
      files in the first loop, then each child's total in the second. */
  method FolderBytes(fs: map<FolderId, Folder>, files: map<FileId, FileRow>, id: FolderId) returns (size: nat)
    requires ParentsPrecede(fs) && id in fs
    ensures size == SubtreeBytes(fs, files, id)
    decreases Above(fs, id)
  {
    size := 0;
    var pending := DirectFiles(files, id);
    while pending != {}
      invariant pending <= DirectFiles(files, id)
      invariant size + SumSizes(files, pending) == SumSizes(files, DirectFiles(files, id))
      decreases pending
    {
      var f :| f in pending;
      SumSizesRemove(files, pending, f);
      size := size + files[f].size;
      pending := pending - {f};
    }
    var subfolders := Children(fs, id);
    var todo := subfolders;
    while todo != {}
      invariant todo <= subfolders
      invariant size + ChildrenBytes(fs, files, todo)
             == SumSizes(files, DirectFiles(files, id)) + ChildrenBytes(fs, files, subfolders)
      decreases todo
    {
      var c :| c in todo;
      ChildrenBytesRemove(fs, files, todo, c);
      AboveShrinks(fs, id, c);
      var s := FolderBytes(fs, files, c);
      size := size + s;
      todo := todo - {c};
    }
    SubtreeBytesRecurrence(fs, files, id);
  }

  /** calculateFolderSize with the byte total formatted once, at the end. */
  method CalculateFolderSize(fs: map<FolderId, Folder>, files: map<FileId, FileRow>, id: FolderId)
    returns (value: real, unit: string)
    requires ParentsPrecede(fs) && id in fs
    ensures value == DisplayNumber(SubtreeBytes(fs, files, id) as real)
    ensures unit == Units[UnitFor(SubtreeBytes(fs, files, id) as real)]
  {
    var bytes := FolderBytes(fs, files, id);
    value, unit := FormatFileSize(bytes as real);
  }

  /** The number calculateFolderSize accumulates as written: each recursive
      call returns the formatted text "<number> <unit>", and adding it to
      $size uses only its leading number, dropping the unit. */
  ghost function AsWrittenSize(fs: map<FolderId, Folder>, files: map<FileId, FileRow>, id: FolderId): (r: real)
    requires ParentsPrecede(fs)
    ensures r >= 0.0
    decreases Above(fs, id), 1
  {
    SumSizes(files, DirectFiles(files, id)) as real + AsWrittenChildren(fs, files, id, Children(fs, id))
  }

  ghost function AsWrittenChildren(fs: map<FolderId, Folder>, files: map<FileId, FileRow>, id: FolderId,
                                   cs: set<FolderId>): (r: real)
    requires ParentsPrecede(fs) && cs <= Children(fs, id)
    ensures r >= 0.0
    decreases Above(fs, id), 0, cs
  {
    if cs == {} then 0.0
    else
      var c :| c in cs;
      AboveShrinks(fs, id, c);
      DisplayNumber(AsWrittenSize(fs, files, c)) + AsWrittenChildren(fs, files, id, cs - {c})
  }

  /** A folder holding only a subfolder with one 2048-byte file: as written its
      size is 2 (shown "2 B"), while its subtree holds 2048 bytes ("2 KB"). */
  lemma AsWrittenSizeDropsUnits()
    ensures var fs := map[1 := Folder(0, None, "A", 0), 2 := Folder(0, Some(1), "B", 0)];
      var files := map[10 := FileRow(0, Some(2), "f.pdf", "documents/dpp/f.pdf", 2048, "pdf", 0)];
      ParentsPrecede(fs) &&
      AsWrittenSize(fs, files, 1) == 2.0 && Units[UnitFor(AsWrittenSize(fs, files, 1))] == "B" &&
      SubtreeBytes(fs, files, 1) == 2048 && Units[UnitFor(2048 as real)] == "KB" &&
      DisplayNumber(2048 as real) == 2.0
  {
    var fs := map[1 := Folder(0, None, "A", 0), 2 := Folder(0, Some(1), "B", 0)];
    var files := map[10 := FileRow(0, Some(2), "f.pdf", "documents/dpp/f.pdf", 2048, "pdf", 0)];
    assert DirectFiles(files, 1) == {};
    assert DirectFiles(files, 2) == {10};
    assert Children(fs, 1) == {2};
    assert Children(fs, 2) == {};
    SumSizesRemove(files, {10}, 10);
    assert {10} - {10} == {};
    assert SumSizes(files, {10}) == 2048;
    assert AsWrittenSize(fs, files, 2) == 2048.0;
    assert DisplayNumber(2048.0) == 2.0 by {
      assert (2.0 * 100.0 + 0.5).Floor == 200;
    }
    assert AsWrittenChildren(fs, files, 1, {2}) == 2.0 by {
      assert {2} - {2} == {};
    }
    SubtreeBytesRecurrence(fs, files, 1);
    SubtreeBytesRecurrence(fs, files, 2);
    ChildrenBytesRemove(fs, files, {2}, 2);
    assert {2} - {2} == {};
  }

  // ---------------------------------------------------------------------
  // getAllSubfolderIds

  /** Folder::where('parent_id', $id)->pluck('folder_id'), in database order. */
  method ChildIds(fs: map<FolderId, Folder>, id: FolderId) returns (cs: seq<FolderId>)
    ensures forall c :: c in cs <==> c in Children(fs, id)
  {
    cs := [];
    var rest := Children(fs, id);
    while rest != {}
      invariant rest <= Children(fs, id)
      invariant forall c :: c in cs <==> c in Children(fs, id) - rest
      decreases rest
    {
      var c :| c in rest;
      cs := cs + [c];
      rest := rest - {c};
    }
  }

  /** array_unique: the first occurrence of each value, in order. */
  function ArrayUnique<T(==,!new)>(s: seq<T>): (r: seq<T>)
    ensures Distinct(r)
    ensures forall x :: x in r <==> x in s
    decreases |s|
  {
    if s == [] then []
    else
      var r := ArrayUnique(s[..|s| - 1]);
      assert s == s[..|s| - 1] + [s[|s| - 1]];
      if s[|s| - 1] in r then r else r + [s[|s| - 1]]
  }

  /** The folders created after some folder of `ids`: the walk down from `ids`
      shrinks this set. */
  function AboveAll(fs: map<FolderId, Folder>, ids: seq<FolderId>): set<FolderId> {
    set y | y in fs && exists k | k in ids :: y > k
  }

  function SeqMin(s: seq<nat>): (m: nat)
    requires |s| > 0
    ensures m in s && forall x | x in s :: m <= x
    decreases |s|
  {
    if |s| == 1 then s[0]
    else
      var m := SeqMin(s[1..]);
      assert s == [s[0]] + s[1..];
      if s[0] <= m then s[0] else m
  }

  lemma AboveAllShrinks(fs: map<FolderId, Folder>, ids: seq<FolderId>, i: nat, subs: seq<FolderId>)
    requires ParentsPrecede(fs) && i < |ids| && |subs| > 0
    requires forall c :: c in subs <==> c in Children(fs, ids[i])
    ensures AboveAll(fs, subs) < AboveAll(fs, ids)
  {
    var m := SeqMin(subs);
    assert m in Children(fs, ids[i]);
    assert ids[i] in ids && m > ids[i];
    assert m in AboveAll(fs, ids);
    forall y | y in AboveAll(fs, subs)
      ensures y in AboveAll(fs, ids)
    {
      var k :| k in subs && y > k;
      assert k in Children(fs, ids[i]);
    }
  }

  /** getAllSubfolderIds: every folder below the folders `ids`, each once. */
  method GetAllSubfolderIds(fs: map<FolderId, Folder>, ids: seq<FolderId>) returns (r: seq<FolderId>)
    requires ParentsPrecede(fs)
    ensures Distinct(r)
    ensures forall d :: d in r <==> d in DescendantsOfAll(fs, ids)
    decreases AboveAll(fs, ids)
  {
    var all: seq<FolderId> := [];
    var i := 0;
    while i < |ids|
      invariant 0 <= i <= |ids|
      invariant forall d :: d in all <==> d in DescendantsOfAll(fs, ids[..i])
    {
      var subfolders := ChildIds(fs, ids[i]);
      if subfolders != [] {
        all := all + subfolders;
        AboveAllShrinks(fs, ids, i, subfolders);
        var deeper := GetAllSubfolderIds(fs, subfolders);
        all := all + deeper;
      }
      DescendantsSplit(fs, ids[i], subfolders);
      assert ids[..i + 1] == ids[..i] + [ids[i]];
      forall d
        ensures d in DescendantsOfAll(fs, ids[..i + 1])
            <==> d in DescendantsOfAll(fs, ids[..i]) || d in Descendants(fs, ids[i])
      {
        if d in DescendantsOfAll(fs, ids[..i + 1]) {
          var k :| k in ids[..i + 1] && IsAncestor(fs, k, d);
          if k != ids[i] {
            assert k in ids[..i];
          }
        }
      }
      i := i + 1;
    }
    assert ids[..i] == ids;
    r := ArrayUnique(all);
  }

  // ---------------------------------------------------------------------
  // getFolderBreadcrumbs

  /** array_reverse. */
  function Reverse<T>(s: seq<T>): (r: seq<T>)
    ensures |r| == |s|
    ensures forall i | 0 <= i < |s| :: r[i] == s[|s| - 1 - i]
    decreases |s|
  {
    if s == [] then [] else [s[|s| - 1]] + Reverse(s[..|s| - 1])
  }

  /** The walk up the parent links from `x`, collecting (id, name) pairs and
      stopping at a null parent or a missing folder, then reversed. */
  method GetFolderBreadcrumbs(fs: map<FolderId, Folder>, x: FolderId) returns (r: seq<Crumb>)
    requires ParentsPrecede(fs)
    ensures r == Path(fs, x)
  {
    var crumbs: seq<Crumb> := [];
    var cur: Option<FolderId> := Some(x);
    while cur.Some?
      invariant Path(fs, x) == (if cur.Some? then Path(fs, cur.value) else []) + Reverse(crumbs)
      decreases if cur.Some? then cur.value + 1 else 0
    {
      var id := cur.value;
      if id in fs {
        assert Reverse(crumbs + [Crumb(id, fs[id].name)]) == [Crumb(id, fs[id].name)] + Reverse(crumbs);
        crumbs := crumbs + [Crumb(id, fs[id].name)];
        cur := fs[id].parent;
      } else {
        break;
      }
    }
    r := Reverse(crumbs);
  }

  // ---------------------------------------------------------------------
  // deleteFolderRecursively

  /** The storage paths of the files `ids`. */
  function BlobPaths(files: map<FileId, FileRow>, ids: set<FileId>): set<string> {
    set f | f in ids && f in files :: files[f].path
  }

  /** The tables after deleting folder `id` with everything below it. */
  function DeleteSubtree(t: Tables, id: FolderId): (r: Tables)
    requires ParentsPrecede(t.folders)
    ensures ParentsPrecede(r.folders)
  {
    var doomed := SubtreeFiles(t.folders, t.files, id);
    t.(folders := t.folders - Subtree(t.folders, id),
       files := t.files - doomed,
       removedPaths := t.removedPaths + BlobPaths(t.files, doomed))
  }

  /** What the deletion removes and what it keeps: every folder and file of
      the subtree is gone together with its blob, every other folder and file
      is untouched, and the users, menus, roles and logs are unchanged. */
  lemma DeleteSubtreeEffect(t: Tables, id: FolderId)
    requires ParentsPrecede(t.folders) && id in t.folders
    ensures var r := DeleteSubtree(t, id);
      id !in r.folders &&
      (forall k | k in t.folders :: k in r.folders <==> !(k == id || IsAncestor(t.folders, id, k))) &&
      (forall k | k in r.folders :: k in t.folders && r.folders[k] == t.folders[k]) &&
      (forall f | f in t.files ::
         f in r.files <==> !(t.files[f].folder.Some? && t.files[f].folder.value in Subtree(t.folders, id))) &&
      (forall f | f in r.files :: f in t.files && r.files[f] == t.files[f]) &&
      (forall f | f in t.files && f !in r.files :: t.files[f].path in r.removedPaths) &&
      r.removedPaths - t.removedPaths <= (set f | f in t.files && f !in r.files :: t.files[f].path) &&
      r.users == t.users && r.menus == t.menus && r.roles == t.roles && r.logs == t.logs
  {
  }

  /** After the deletion no remaining folder has its parent, and no remaining
      file its folder, inside the deleted subtree. */
  lemma {:induction false} DeleteSubtreeLeavesNoOrphans(t: Tables, id: FolderId)
    requires ParentsPrecede(t.folders)
    ensures var r := DeleteSubtree(t, id); var gone := Subtree(t.folders, id);
      (forall k | k in r.folders && r.folders[k].parent.Some? :: r.folders[k].parent.value !in gone) &&
      (forall f | f in r.files && r.files[f].folder.Some? :: r.files[f].folder.value !in gone)
  {
    var r := DeleteSubtree(t, id);
    var gone := Subtree(t.folders, id);
    forall k | k in r.folders && r.folders[k].parent.Some?
      ensures r.folders[k].parent.value !in gone
    {
      var p := r.folders[k].parent.value;
      if p in gone {
        assert IsAncestor(t.folders, id, k);
      }
    }
  }

  /** The tables part-way through deleteFolderRecursively(id): the folder's
      own files and the subtrees of the children `done` are gone. */
  function PartlyDeleted(t: Tables, id: FolderId, done: set<FolderId>): Tables
    requires ParentsPrecede(t.folders)
  {
    var doomed := DirectFiles(t.files, id) + FilesUnder(t.folders, t.files, done);
    t.(folders := t.folders - SubtreesOf(t.folders, done),
       files := t.files - doomed,
       removedPaths := t.removedPaths + BlobPaths(t.files, doomed))
  }

  /** Before the loop over the children only the folder's own files are gone. */
  lemma PartlyDeletedNone(t: Tables, id: FolderId)
    requires ParentsPrecede(t.folders)
    ensures PartlyDeleted(t, id, {}) ==
      t.(files := t.files - DirectFiles(t.files, id),
         removedPaths := t.removedPaths + BlobPaths(t.files, DirectFiles(t.files, id)))
  {
    assert SubtreesOf(t.folders, {}) == {};
    assert FilesUnder(t.folders, t.files, {}) == {};
  }

  /** Deleting one more child's subtree from the partly deleted tables. */
  lemma PartlyDeletedStep(t: Tables, id: FolderId, done: set<FolderId>, c: FolderId)
    requires ParentsPrecede(t.folders) && done <= Children(t.folders, id)
    requires c in Children(t.folders, id) && c !in done
    ensures ParentsPrecede(PartlyDeleted(t, id, done).folders)
    ensures c in PartlyDeleted(t, id, done).folders
    ensures DeleteSubtree(PartlyDeleted(t, id, done), c) == PartlyDeleted(t, id, done + {c})
  {
    var goneFolders := SubtreesOf(t.folders, done);
    var goneFiles := DirectFiles(t.files, id) + FilesUnder(t.folders, t.files, done);
    var sub := Subtree(t.folders, c);
    var subFiles := SubtreeFiles(t.folders, t.files, c);
    SubtreeOfChildApart(t.folders, t.files, id, Children(t.folders, id), done, c);
    SubtreeFilesUnaffected(t.folders, t.files, goneFolders, goneFiles, c);
    assert c in sub;
    SubtreesGrow(t.folders, t.files, done, c);
    MapMinusTwice(t.folders, goneFolders, sub);
    MapMinusTwice(t.files, goneFiles, subFiles);
    BlobPathsMinus(t.files, goneFiles, subFiles);
    BlobPathsUnion(t.files, goneFiles, subFiles);
    SubtreeUnaffected(t.folders, goneFolders, c);
    var p := PartlyDeleted(t, id, done);
    assert Subtree(p.folders, c) == sub;
    assert SubtreeFiles(p.folders, p.files, c) == subFiles;
    var lhs := DeleteSubtree(p, c);
    var rhs := PartlyDeleted(t, id, done + {c});
    assert lhs.folders == rhs.folders;
    assert lhs.files == rhs.files;
    assert lhs.removedPaths == rhs.removedPaths;
  }

  lemma MapMinusTwice<K, V>(m: map<K, V>, a: set<K>, b: set<K>)
    ensures m - a - b == m - (a + b)
  {
  }

  lemma BlobPathsMinus(files: map<FileId, FileRow>, gone: set<FileId>, ids: set<FileId>)
    requires gone !! ids
    ensures BlobPaths(files - gone, ids) == BlobPaths(files, ids)
  {
  }

  lemma BlobPathsUnion(files: map<FileId, FileRow>, a: set<FileId>, b: set<FileId>)
    ensures BlobPaths(files, a) + BlobPaths(files, b) == BlobPaths(files, a + b)
  {
  }

  /** Once every child's subtree is gone, removing the folder itself completes
      the deletion of its subtree. */
  lemma PartlyDeletedAll(t: Tables, id: FolderId)
    requires ParentsPrecede(t.folders) && id in t.folders
    ensures var p := PartlyDeleted(t, id, Children(t.folders, id));
      p.(folders := p.folders - {id}) == DeleteSubtree(t, id)
  {
    SubtreeSplit(t.folders, id);
    SubtreeFilesSplit(t.folders, t.files, id);
  }

  /** The first loop of deleteFolderRecursively: each file's blob, then its row. */
  method DeleteFiles(db: Db, ids: set<FileId>)
    requires ids <= db.files.Keys
    modifies db`files, db`removedPaths
    ensures db.files == old(db.files) - ids
    ensures db.removedPaths == old(db.removedPaths) + BlobPaths(old(db.files), ids)
  {
    var pending := ids;
    while pending != {}
      invariant pending <= ids
      invariant db.files == old(db.files) - (ids - pending)
      invariant db.removedPaths == old(db.removedPaths) + BlobPaths(old(db.files), ids - pending)
      decreases pending
    {
      var f :| f in pending;
      db.removedPaths := db.removedPaths + {db.files[f].path};
      db.files := db.files - {f};
      pending := pending - {f};
    }
  }

  /** deleteFolderRecursively: the folder's files and their blobs, then each
      child folder recursively, then the folder itself. */
  method DeleteFolderRecursively(db: Db, id: FolderId)
    requires db.Valid() && id in db.folders
    modifies db`folders, db`files, db`removedPaths
    ensures db.Valid()
    ensures db.State() == DeleteSubtree(old(db.State()), id)
    decreases Above(db.folders, id)
  {
    ghost var t0 := db.State();
    var direct := DirectFiles(db.files, id);
    DeleteFiles(db, direct);
    PartlyDeletedNone(t0, id);
    assert db.State() == PartlyDeleted(t0, id, {});
    var subfolders := Children(db.folders, id);
    var todo := subfolders;
    ghost var done: set<FolderId> := {};
    while todo != {}
      invariant todo + done == subfolders && todo !! done
      invariant db.State() == PartlyDeleted(t0, id, done)
      decreases todo
    {
      var c :| c in todo;
      PartlyDeletedStep(t0, id, done, c);
      AboveShrinks(t0.folders, id, c);
      assert Above(db.folders, c) <= Above(t0.folders, c);
      DeleteFolderRecursively(db, c);
      assert todo - {c} + (done + {c}) == subfolders;
      todo, done := todo - {c}, done + {c};
    }
    PartlyDeletedAll(t0, id);
    db.folders := db.folders - {id};
  }

  /** The subtree of a child not yet deleted shares no folder and no file with
      what the loop has deleted so far. */
  lemma SubtreeOfChildApart(fs: map<FolderId, Folder>, files: map<FileId, FileRow>, id: FolderId,
                            subs: set<FolderId>, done: set<FolderId>, c: FolderId)
    requires ParentsPrecede(fs) && subs == Children(fs, id) && done <= subs && c in subs && c !in done
    ensures SubtreesOf(fs, done) !! Subtree(fs, c)
    ensures (DirectFiles(files, id) + FilesUnder(fs, files, done)) !! SubtreeFiles(fs, files, c)
  {
    forall d | d in SubtreesOf(fs, done)
      ensures d !in Subtree(fs, c)
    {
      var c' :| c' in done && d in Subtree(fs, c');
      SiblingSubtreesDisjoint(fs, id, c', c, d);
    }
    ParentOutsideChildSubtree(fs, id, c);
    forall f | f in FilesUnder(fs, files, done)
      ensures f !in SubtreeFiles(fs, files, c)
    {
      var c' :| c' in done && f in SubtreeFiles(fs, files, c');
      SiblingSubtreesDisjoint(fs, id, c', c, files[f].folder.value);
    }
  }

  lemma SubtreesGrow(fs: map<FolderId, Folder>, files: map<FileId, FileRow>, done: set<FolderId>, c: FolderId)
    requires ParentsPrecede(fs)
    ensures SubtreesOf(fs, done + {c}) == SubtreesOf(fs, done) + Subtree(fs, c)
    ensures FilesUnder(fs, files, done + {c}) == FilesUnder(fs, files, done) + SubtreeFiles(fs, files, c)
  {
  }

  // ---------------------------------------------------------------------
  // Request handlers

  /** The uploaded file as the request carries it; `typeAllowed` is the
      outcome of the mimes rule. */
  datatype Upload = Upload(name: string, size: nat, extension: string, typeAllowed: bool)

  /** Some menu carries this menu_name. */
  predicate HasMenu(menus: map<MenuId, string>, slug: string) {
    exists m | m in menus :: menus[m] == slug
  }

  /** Menu::where('menu_name', $slug)->first(). */
  method FindMenu(menus: map<MenuId, string>, slug: string) returns (r: Option<MenuId>)
    ensures r.None? <==> !HasMenu(menus, slug)
    ensures r.Some? ==> r.value in menus && menus[r.value] == slug
  {
    if m :| m in menus && menus[m] == slug {
      r := Some(m);
    } else {
      r := None;
    }
  }

  /** The rule required|string|max:255 on a name. */
  predicate NameValid(name: string) {
    !IsBlank(name) && |name| <= 255
  }

  /** store: admin only; then the mimes and folder_id rules; then the menu.
      The blob is stored under `storedPath`; a files row and an upload log
      row are added. */
  method Store(db: Db, actor: Actor, slug: string, upload: Upload, folder: Option<FolderId>,
               storedPath: string, fileId: FileId, logId: LogId, now: Timestamp) returns (r: Outcome)
    requires db.Valid() && fileId !in db.files && logId !in db.logs
    modifies db`files, db`logs
    ensures db.Valid()
    ensures r == Failed(Forbidden) <==> !IsAdmin(actor)
    ensures r == Failed(Invalid)
        <==> IsAdmin(actor) && !(upload.typeAllowed && (folder.None? || folder.value in db.folders))
    ensures r == Failed(NotFound)
        <==> IsAdmin(actor) && upload.typeAllowed && (folder.None? || folder.value in db.folders) &&
             !HasMenu(db.menus, slug)
    ensures r == Done
        <==> IsAdmin(actor) && upload.typeAllowed && (folder.None? || folder.value in db.folders) &&
             HasMenu(db.menus, slug)
    ensures r.Failed? ==> db.files == old(db.files) && db.logs == old(db.logs)
    ensures r == Done ==> exists m | m in db.menus && db.menus[m] == slug ::
      db.files == old(db.files)[fileId := FileRow(m, folder, upload.name, storedPath, upload.size, upload.extension, actor.id)] &&
      db.logs == old(db.logs)[logId := ActivityLog(actor.id, fileId, Action.Upload, now)]
  {
    if !IsAdmin(actor) {
      return Failed(Forbidden);
    }
    if !(upload.typeAllowed && (folder.None? || folder.value in db.folders)) {
      return Failed(Invalid);
    }
    var menu := FindMenu(db.menus, slug);
    if menu.None? {
      return Failed(NotFound);
    }
    db.files := db.files[fileId := FileRow(menu.value, folder, upload.name, storedPath, upload.size, upload.extension, actor.id)];
    db.logs := db.logs[logId := ActivityLog(actor.id, fileId, Action.Upload, now)];
    r := Done;
  }

  /** createFolder: admin only; then the folder_name and parent_id rules; then
      the menu. `newId` is the id the new row receives, later than every
      existing folder. */
  method CreateFolder(db: Db, actor: Actor, slug: string, parent: Option<FolderId>, name: string,
                      newId: FolderId) returns (r: Outcome)
    requires db.Valid() && forall k | k in db.folders :: k < newId
    modifies db`folders
    ensures db.Valid()
    ensures r == Failed(Forbidden) <==> !IsAdmin(actor)
    ensures r == Failed(Invalid)
        <==> IsAdmin(actor) && !(NameValid(name) && (parent.None? || parent.value in old(db.folders)))
    ensures r == Failed(NotFound)
        <==> IsAdmin(actor) && NameValid(name) && (parent.None? || parent.value in old(db.folders)) &&
             !HasMenu(db.menus, slug)
    ensures r == Done
        <==> IsAdmin(actor) && NameValid(name) && (parent.None? || parent.value in old(db.folders)) &&
             HasMenu(db.menus, slug)
    ensures r.Failed? ==> db.folders == old(db.folders)
    ensures r == Done ==> exists m | m in db.menus && db.menus[m] == slug ::
      db.folders == old(db.folders)[newId := Folder(m, parent, name, actor.id)]
  {
    if !IsAdmin(actor) {
      return Failed(Forbidden);
    }
    if !(NameValid(name) && (parent.None? || parent.value in db.folders)) {
      return Failed(Invalid);
    }
    var menu := FindMenu(db.menus, slug);
    if menu.None? {
      return Failed(NotFound);
    }
    db.folders := db.folders[newId := Folder(menu.value, parent, name, actor.id)];
    r := Done;
  }

  /** download: the file's path and name for the response, and a download
      log row. */
  method Download(db: Db, actor: Actor, id: FileId, logId: LogId, now: Timestamp)
    returns (r: Result<(string, string)>)
    requires logId !in db.logs
    modifies db`logs
    ensures r == Err(NotFound) <==> id !in db.files
    ensures r.Ok? <==> id in db.files
    ensures r.Err? ==> db.logs == old(db.logs)
    ensures r.Ok? ==>
      r.value == (db.files[id].path, db.files[id].name) &&
      db.logs == old(db.logs)[logId := ActivityLog(actor.id, id, Action.Download, now)]
  {
    if id !in db.files {
      return Err(NotFound);
    }
    db.logs := db.logs[logId := ActivityLog(actor.id, id, Action.Download, now)];
    r := Ok((db.files[id].path, db.files[id].name));
  }

  /** update (rename): the name rule first; then, for type "file" a file and
      for any other type a folder, which must exist and which only an admin
      or its owner may rename. */
  method Update(db: Db, actor: Actor, id: nat, kind: string, name: string) returns (r: Outcome)
    requires db.Valid()
    modifies db`files, db`folders
    ensures db.Valid()
    ensures !NameValid(name) ==> r == Failed(Invalid)
    ensures NameValid(name) && kind == "file" ==>
      (r == Failed(NotFound) <==> id !in old(db.files)) &&
      (r == Failed(Forbidden) <==> id in old(db.files) && !MayModify(actor, old(db.files)[id].uploader))
    ensures NameValid(name) && kind != "file" ==>
      (r == Failed(NotFound) <==> id !in old(db.folders)) &&
      (r == Failed(Forbidden) <==> id in old(db.folders) && !MayModify(actor, old(db.folders)[id].creator))
    ensures r == Done <==>
      NameValid(name) &&
      (if kind == "file" then id in old(db.files) && MayModify(actor, old(db.files)[id].uploader)
       else id in old(db.folders) && MayModify(actor, old(db.folders)[id].creator))
    ensures r.Failed? ==> db.files == old(db.files) && db.folders == old(db.folders)
    ensures r == Done && kind == "file" ==>
      db.files == old(db.files)[id := old(db.files)[id].(name := name)] && db.folders == old(db.folders)
    ensures r == Done && kind != "file" ==>
      db.folders == old(db.folders)[id := old(db.folders)[id].(name := name)] && db.files == old(db.files)
  {
    if !NameValid(name) {
      return Failed(Invalid);
    }
    if kind == "file" {
      if id !in db.files {
        return Failed(NotFound);
      }
      if !MayModify(actor, db.files[id].uploader) {
        return Failed(Forbidden);
      }
      db.files := db.files[id := db.files[id].(name := name)];
    } else {
      if id !in db.folders {
        return Failed(NotFound);
      }
      if !MayModify(actor, db.folders[id].creator) {
        return Failed(Forbidden);
      }
      db.folders := db.folders[id := db.folders[id].(name := name)];
    }
    r := Done;
  }

  /** destroy: for type "file" the file and its blob, for any other type the
      folder with its whole subtree; the row must exist and only an admin or
      its owner may delete it. Every failure is caught and answered with the
      same redirect as success; `r` records which path was taken. */
  method Destroy(db: Db, actor: Actor, id: nat, kind: string) returns (r: Outcome)
    requires db.Valid()
    modifies db`folders, db`files, db`removedPaths
    ensures db.Valid()
    ensures kind == "file" ==>
      (r == Failed(NotFound) <==> id !in old(db.files)) &&
      (r == Failed(Forbidden) <==> id in old(db.files) && !MayModify(actor, old(db.files)[id].uploader)) &&
      (r == Done ==> db.State() == old(db.State()).(files := old(db.files) - {id},
                                                     removedPaths := old(db.removedPaths) + {old(db.files)[id].path}))
    ensures kind != "file" ==>
      (r == Failed(NotFound) <==> id !in old(db.folders)) &&
      (r == Failed(Forbidden) <==> id in old(db.folders) && !MayModify(actor, old(db.folders)[id].creator)) &&
      (r == Done ==> db.State() == DeleteSubtree(old(db.State()), id))
    ensures r == Done <==>
      if kind == "file" then id in old(db.files) && MayModify(actor, old(db.files)[id].uploader)
      else id in old(db.folders) && MayModify(actor, old(db.folders)[id].creator)
    ensures r.Failed? ==> db.State() == old(db.State())
  {
    if kind == "file" {
      if id !in db.files {
        return Failed(NotFound);
      }
      if !MayModify(actor, db.files[id].uploader) {
        return Failed(Forbidden);
      }
      db.removedPaths := db.removedPaths + {db.files[id].path};
      db.files := db.files - {id};
    } else {
      if id !in db.folders {
        return Failed(NotFound);
      }
      if !MayModify(actor, db.folders[id].creator) {
        return Failed(Forbidden);
      }
      DeleteFolderRecursively(db, id);
    }
    r := Done;
  }

  // ---------------------------------------------------------------------
  // index

  /** What index hands to the page: the paginated listing and the breadcrumbs. */
  datatype IndexView = IndexView(documents: Page<Entry>, breadcrumbs: seq<Crumb>)

  /** index: the menu must exist; the listing of the requested folder is
      paginated; breadcrumbs are built only when a folder is requested. */
  ghost function Index(t: Tables, actor: Actor, slug: string, q: Query, page: int): (r: Result<IndexView>)
    requires ParentsPrecede(t.folders)
    ensures r.Err? <==> !HasMenu(t.menus, slug)
    ensures r.Err? ==> r.error == NotFound
    ensures r.Ok? ==> r.value.breadcrumbs == (if q.folder.Some? then Path(t.folders, q.folder.value) else [])
    ensures r.Ok? ==> exists m | m in t.menus && t.menus[m] == slug ::
      r.value.documents == Paginate(BuildDocumentQuery(t, actor, m, q), page)
  {
    if !HasMenu(t.menus, slug) then Err(NotFound)
    else
      var m :| m in t.menus && t.menus[m] == slug;
      var crumbs := if q.folder.Some? then Path(t.folders, q.folder.value) else [];
      Ok(IndexView(Paginate(BuildDocumentQuery(t, actor, m, q), page), crumbs))
  }
}
