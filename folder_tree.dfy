/** The folder hierarchy of one database snapshot: parent/child links,
    ancestry, subtrees, the files inside a subtree, their total size and the
    root-to-leaf path of a folder. These are the specifications the recursive
    helpers of DocumentController are proved against. */
module FolderTree {
  import opened Common
  import opened Schema

  /** The folders whose parent_id is `id` (Folder::where('parent_id', $id)). */
  function Children(fs: map<FolderId, Folder>, id: FolderId): set<FolderId> {
    set c | c in fs && fs[c].parent == Some(id)
  }

  /** The folders created after `id`; downward walks decrease this set. */
  function Above(fs: map<FolderId, Folder>, id: FolderId): set<FolderId> {
    set y | y in fs && y > id
  }

  lemma AboveShrinks(fs: map<FolderId, Folder>, id: FolderId, c: FolderId)
    requires c in fs && id < c
    ensures Above(fs, c) < Above(fs, id)
  {
    assert c in Above(fs, id) && c !in Above(fs, c);
  }

  /** `a` is a proper ancestor of `d`: following parent links upward from `d`
      through existing folders reaches a folder whose parent_id is `a`. */
  predicate IsAncestor(fs: map<FolderId, Folder>, a: FolderId, d: FolderId)
    requires ParentsPrecede(fs)
    decreases d
  {
    d in fs && fs[d].parent.Some? &&
    (fs[d].parent.value == a || IsAncestor(fs, a, fs[d].parent.value))
  }

  /** The existing folders strictly below `a`. */
  function Descendants(fs: map<FolderId, Folder>, a: FolderId): set<FolderId>
    requires ParentsPrecede(fs)
  {
    set d | d in fs && IsAncestor(fs, a, d)
  }

  /** `a` itself (when it exists) and every folder below it. */
  function Subtree(fs: map<FolderId, Folder>, a: FolderId): set<FolderId>
    requires ParentsPrecede(fs)
  {
    set d | d in fs && (d == a || IsAncestor(fs, a, d))
  }

  /** The union of the subtrees rooted at the folders of `roots`. */
  function SubtreesOf(fs: map<FolderId, Folder>, roots: set<FolderId>): set<FolderId>
    requires ParentsPrecede(fs)
  {
    set d | d in fs && exists c | c in roots :: d in Subtree(fs, c)
  }

  /** The files whose folder_id is `a` (File::where('folder_id', $a)). */
  function DirectFiles(files: map<FileId, FileRow>, a: FolderId): set<FileId> {
    set f | f in files && files[f].folder == Some(a)
  }

  /** The files stored anywhere in the subtree of `a`. */
  function SubtreeFiles(fs: map<FolderId, Folder>, files: map<FileId, FileRow>, a: FolderId): set<FileId>
    requires ParentsPrecede(fs)
  {
    set f | f in files && files[f].folder.Some? && files[f].folder.value in Subtree(fs, a)
  }

  /** The files stored in the subtrees rooted at the folders of `roots`. */
  function FilesUnder(fs: map<FolderId, Folder>, files: map<FileId, FileRow>, roots: set<FolderId>): set<FileId>
    requires ParentsPrecede(fs)
  {
    set f | f in files && exists c | c in roots :: f in SubtreeFiles(fs, files, c)
  }

  // ---------------------------------------------------------------------
  // Ancestry

  lemma {:induction false} AncestorBelow(fs: map<FolderId, Folder>, a: FolderId, d: FolderId)
    requires ParentsPrecede(fs) && IsAncestor(fs, a, d)
    ensures a < d
    decreases d
  {
    var p := fs[d].parent.value;
    if p != a {
      AncestorBelow(fs, a, p);
    }
  }

  lemma SubtreeAtLeast(fs: map<FolderId, Folder>, a: FolderId, d: FolderId)
    requires ParentsPrecede(fs) && d in Subtree(fs, a)
    ensures a <= d
  {
    if d != a {
      AncestorBelow(fs, a, d);
    }
  }

  /** Below `a` means inside the subtree of one of `a`'s children. */
  lemma {:induction false} AncestorViaChild(fs: map<FolderId, Folder>, a: FolderId, d: FolderId) returns (c: FolderId)
    requires ParentsPrecede(fs) && IsAncestor(fs, a, d)
    ensures c in Children(fs, a) && d in Subtree(fs, c)
    decreases d
  {
    var p := fs[d].parent.value;
    if p == a {
      c := d;
    } else {
      c := AncestorViaChild(fs, a, p);
      assert IsAncestor(fs, c, d);
    }
  }

  /** Everything in the subtree of a child of `a` lies below `a`. */
  lemma {:induction false} ChildSubtreeBelow(fs: map<FolderId, Folder>, a: FolderId, c: FolderId, d: FolderId)
    requires ParentsPrecede(fs) && c in Children(fs, a) && d in Subtree(fs, c)
    ensures IsAncestor(fs, a, d)
    decreases d
  {
    if d != c {
      var p := fs[d].parent.value;
      if p != c {
        assert IsAncestor(fs, c, p) && p in Subtree(fs, c);
        ChildSubtreeBelow(fs, a, c, p);
      }
    }
  }

  /** The ancestors of one folder form a chain. */
  lemma {:induction false} AncestorsLinear(fs: map<FolderId, Folder>, a: FolderId, b: FolderId, d: FolderId)
    requires ParentsPrecede(fs) && IsAncestor(fs, a, d) && IsAncestor(fs, b, d)
    ensures a == b || IsAncestor(fs, a, b) || IsAncestor(fs, b, a)
    decreases d
  {
    var p := fs[d].parent.value;
    if p != a && p != b {
      AncestorsLinear(fs, a, b, p);
    }
  }

  lemma ChildNotAboveSibling(fs: map<FolderId, Folder>, a: FolderId, c1: FolderId, c2: FolderId)
    requires ParentsPrecede(fs) && c1 in Children(fs, a) && c2 in Children(fs, a)
    ensures !IsAncestor(fs, c1, c2)
  {
    if IsAncestor(fs, c1, c2) && c1 != a {
      AncestorBelow(fs, c1, a);
    }
  }

  /** Two different children of one folder have disjoint subtrees. */
  lemma SiblingSubtreesDisjoint(fs: map<FolderId, Folder>, a: FolderId, c1: FolderId, c2: FolderId, d: FolderId)
    requires ParentsPrecede(fs) && c1 in Children(fs, a) && c2 in Children(fs, a) && c1 != c2
    requires d in Subtree(fs, c1)
    ensures d !in Subtree(fs, c2)
  {
    ChildNotAboveSibling(fs, a, c1, c2);
    ChildNotAboveSibling(fs, a, c2, c1);
    if d in Subtree(fs, c2) && d != c1 && d != c2 {
      AncestorsLinear(fs, c1, c2, d);
    }
  }

  lemma ParentOutsideChildSubtree(fs: map<FolderId, Folder>, a: FolderId, c: FolderId)
    requires ParentsPrecede(fs) && c in Children(fs, a)
    ensures a !in Subtree(fs, c)
  {
    if a in Subtree(fs, c) {
      SubtreeAtLeast(fs, c, a);
    }
  }

  /** A subtree is its root plus the subtrees of the root's children. */
  lemma SubtreeSplit(fs: map<FolderId, Folder>, a: FolderId)
    requires ParentsPrecede(fs) && a in fs
    ensures Subtree(fs, a) == {a} + SubtreesOf(fs, Children(fs, a))
  {
    forall d | d in Subtree(fs, a) && d != a
      ensures d in SubtreesOf(fs, Children(fs, a))
    {
      var c := AncestorViaChild(fs, a, d);
    }
    forall d | d in SubtreesOf(fs, Children(fs, a))
      ensures d in Subtree(fs, a)
    {
      var c :| c in Children(fs, a) && d in Subtree(fs, c);
      ChildSubtreeBelow(fs, a, c, d);
    }
  }

  /** The files of a subtree are the root's own files plus, disjointly, the
      files of the children's subtrees. */
  lemma SubtreeFilesSplit(fs: map<FolderId, Folder>, files: map<FileId, FileRow>, a: FolderId)
    requires ParentsPrecede(fs) && a in fs
    ensures SubtreeFiles(fs, files, a) == DirectFiles(files, a) + FilesUnder(fs, files, Children(fs, a))
    ensures DirectFiles(files, a) !! FilesUnder(fs, files, Children(fs, a))
  {
    SubtreeSplit(fs, a);
    forall f | f in FilesUnder(fs, files, Children(fs, a))
      ensures f in SubtreeFiles(fs, files, a) && f !in DirectFiles(files, a)
    {
      var c :| c in Children(fs, a) && f in SubtreeFiles(fs, files, c);
      ParentOutsideChildSubtree(fs, a, c);
      assert files[f].folder.value in SubtreesOf(fs, Children(fs, a));
    }
    forall f | f in SubtreeFiles(fs, files, a) && f !in DirectFiles(files, a)
      ensures f in FilesUnder(fs, files, Children(fs, a))
    {
      var g := files[f].folder.value;
      assert g in SubtreesOf(fs, Children(fs, a));
      var c :| c in Children(fs, a) && g in Subtree(fs, c);
      assert f in SubtreeFiles(fs, files, c);
    }
  }

  // ---------------------------------------------------------------------
  // Removing rows elsewhere leaves a subtree as it was

  lemma {:induction false} AncestorInLarger(fs: map<FolderId, Folder>, gone: set<FolderId>, a: FolderId, d: FolderId)
    requires ParentsPrecede(fs)
    ensures ParentsPrecede(fs - gone)
    ensures IsAncestor(fs - gone, a, d) ==> IsAncestor(fs, a, d)
    decreases d
  {
    if IsAncestor(fs - gone, a, d) && fs[d].parent.value != a {
      AncestorInLarger(fs, gone, a, fs[d].parent.value);
    }
  }

  lemma {:induction false} AncestorKept(fs: map<FolderId, Folder>, gone: set<FolderId>, a: FolderId, d: FolderId)
    requires ParentsPrecede(fs) && gone !! Subtree(fs, a) && IsAncestor(fs, a, d)
    ensures ParentsPrecede(fs - gone)
    ensures IsAncestor(fs - gone, a, d)
    decreases d
  {
    assert d in Subtree(fs, a);
    var p := fs[d].parent.value;
    if p != a {
      assert p in Subtree(fs, a);
      AncestorKept(fs, gone, a, p);
    }
  }

  /** Deleting folders outside the subtree of `a` leaves that subtree intact. */
  lemma SubtreeUnaffected(fs: map<FolderId, Folder>, gone: set<FolderId>, a: FolderId)
    requires ParentsPrecede(fs) && gone !! Subtree(fs, a)
    ensures ParentsPrecede(fs - gone)
    ensures Subtree(fs - gone, a) == Subtree(fs, a)
  {
    forall d | d in Subtree(fs - gone, a)
      ensures d in Subtree(fs, a)
    {
      AncestorInLarger(fs, gone, a, d);
    }
    forall d | d in Subtree(fs, a)
      ensures d in Subtree(fs - gone, a)
    {
      if d != a {
        AncestorKept(fs, gone, a, d);
      }
    }
  }

  /** ...and the files stored in it, when no file of the subtree is deleted. */
  lemma SubtreeFilesUnaffected(fs: map<FolderId, Folder>, files: map<FileId, FileRow>,
                               gone: set<FolderId>, goneFiles: set<FileId>, a: FolderId)
    requires ParentsPrecede(fs) && gone !! Subtree(fs, a) && goneFiles !! SubtreeFiles(fs, files, a)
    ensures ParentsPrecede(fs - gone)
    ensures SubtreeFiles(fs - gone, files - goneFiles, a) == SubtreeFiles(fs, files, a)
  {
    SubtreeUnaffected(fs, gone, a);
  }

  // ---------------------------------------------------------------------
  // Sizes

  function FileSize(files: map<FileId, FileRow>, f: FileId): nat {
    if f in files then files[f].size else 0
  }

  /** The total file_size of the files `ids`. */
  ghost function SumSizes(files: map<FileId, FileRow>, ids: set<FileId>): nat
    decreases ids
  {
    if ids == {} then 0
    else
      var f :| f in ids;
      FileSize(files, f) + SumSizes(files, ids - {f})
  }

  lemma {:induction false} SumSizesRemove(files: map<FileId, FileRow>, ids: set<FileId>, f: FileId)
    requires f in ids
    ensures SumSizes(files, ids) == FileSize(files, f) + SumSizes(files, ids - {f})
    decreases ids
  {
    var g :| g in ids && SumSizes(files, ids) == FileSize(files, g) + SumSizes(files, ids - {g});
    if g != f {
      SumSizesRemove(files, ids - {g}, f);
      SumSizesRemove(files, ids - {f}, g);
      assert ids - {g} - {f} == ids - {f} - {g};
    }
  }

  lemma {:induction false} SumSizesUnion(files: map<FileId, FileRow>, a: set<FileId>, b: set<FileId>)
    requires a !! b
    ensures SumSizes(files, a + b) == SumSizes(files, a) + SumSizes(files, b)
    decreases a
  {
    if a == {} {
      assert a + b == b;
    } else {
      var f :| f in a;
      SumSizesRemove(files, a + b, f);
      SumSizesRemove(files, a, f);
      assert (a + b) - {f} == (a - {f}) + b;
      SumSizesUnion(files, a - {f}, b);
    }
  }

  /** The size of a folder: the total size of every file in its subtree. */
  ghost function SubtreeBytes(fs: map<FolderId, Folder>, files: map<FileId, FileRow>, a: FolderId): nat
    requires ParentsPrecede(fs)
  {
    SumSizes(files, SubtreeFiles(fs, files, a))
  }

  /** The total size of the folders `cs`. */
  ghost function ChildrenBytes(fs: map<FolderId, Folder>, files: map<FileId, FileRow>, cs: set<FolderId>): nat
    requires ParentsPrecede(fs)
    decreases cs
  {
    if cs == {} then 0
    else
      var c :| c in cs;
      SubtreeBytes(fs, files, c) + ChildrenBytes(fs, files, cs - {c})
  }

  lemma {:induction false} ChildrenBytesRemove(fs: map<FolderId, Folder>, files: map<FileId, FileRow>, cs: set<FolderId>, c: FolderId)
    requires ParentsPrecede(fs) && c in cs
    ensures ChildrenBytes(fs, files, cs) == SubtreeBytes(fs, files, c) + ChildrenBytes(fs, files, cs - {c})
    decreases cs
  {
    var g :| g in cs && ChildrenBytes(fs, files, cs) == SubtreeBytes(fs, files, g) + ChildrenBytes(fs, files, cs - {g});
    if g != c {
      ChildrenBytesRemove(fs, files, cs - {g}, c);
      ChildrenBytesRemove(fs, files, cs - {c}, g);
      assert cs - {g} - {c} == cs - {c} - {g};
    }
  }

  lemma {:induction false} FilesUnderBytes(fs: map<FolderId, Folder>, files: map<FileId, FileRow>, a: FolderId, cs: set<FolderId>)
    requires ParentsPrecede(fs) && cs <= Children(fs, a)
    ensures SumSizes(files, FilesUnder(fs, files, cs)) == ChildrenBytes(fs, files, cs)
    decreases cs
  {
    if cs == {} {
      assert FilesUnder(fs, files, cs) == {};
    } else {
      var c :| c in cs;
      var rest := cs - {c};
      assert FilesUnder(fs, files, cs) == SubtreeFiles(fs, files, c) + FilesUnder(fs, files, rest);
      forall f | f in SubtreeFiles(fs, files, c)
        ensures f !in FilesUnder(fs, files, rest)
      {
        if f in FilesUnder(fs, files, rest) {
          var c2 :| c2 in rest && f in SubtreeFiles(fs, files, c2);
          SiblingSubtreesDisjoint(fs, a, c, c2, files[f].folder.value);
        }
      }
      SumSizesUnion(files, SubtreeFiles(fs, files, c), FilesUnder(fs, files, rest));
      FilesUnderBytes(fs, files, a, rest);
      ChildrenBytesRemove(fs, files, cs, c);
    }
  }

  /** The size of a folder is the size of its own files plus the sizes of
      its child folders. */
  lemma SubtreeBytesRecurrence(fs: map<FolderId, Folder>, files: map<FileId, FileRow>, a: FolderId)
    requires ParentsPrecede(fs) && a in fs
    ensures SubtreeBytes(fs, files, a)
         == SumSizes(files, DirectFiles(files, a)) + ChildrenBytes(fs, files, Children(fs, a))
  {
    SubtreeFilesSplit(fs, files, a);
    SumSizesUnion(files, DirectFiles(files, a), FilesUnder(fs, files, Children(fs, a)));
    FilesUnderBytes(fs, files, a, Children(fs, a));
  }

  /** A folder with no files and no subfolders has size 0. */
  lemma EmptyFolderHasNoSize(fs: map<FolderId, Folder>, files: map<FileId, FileRow>, a: FolderId)
    requires ParentsPrecede(fs) && a in fs
    requires DirectFiles(files, a) == {} && Children(fs, a) == {}
    ensures SubtreeBytes(fs, files, a) == 0
  {
    SubtreeBytesRecurrence(fs, files, a);
  }

  /** The folders strictly below any of the folders `roots`. */
  function DescendantsOfAll(fs: map<FolderId, Folder>, roots: seq<FolderId>): set<FolderId>
    requires ParentsPrecede(fs)
  {
    set d | d in fs && exists k | k in roots :: IsAncestor(fs, k, d)
  }

  /** The folders below `a` are its children and the folders below them. */
  lemma DescendantsSplit(fs: map<FolderId, Folder>, a: FolderId, cs: seq<FolderId>)
    requires ParentsPrecede(fs)
    requires forall c :: c in cs <==> c in Children(fs, a)
    ensures Descendants(fs, a) == Children(fs, a) + DescendantsOfAll(fs, cs)
  {
    forall d | d in Descendants(fs, a) && d !in Children(fs, a)
      ensures d in DescendantsOfAll(fs, cs)
    {
      var c := AncestorViaChild(fs, a, d);
      assert c in cs && IsAncestor(fs, c, d);
    }
    forall d | d in DescendantsOfAll(fs, cs)
      ensures d in Descendants(fs, a)
    {
      var c :| c in cs && IsAncestor(fs, c, d);
      ChildSubtreeBelow(fs, a, c, d);
    }
  }

  // ---------------------------------------------------------------------
  // Root-to-leaf path (breadcrumbs)

  datatype Crumb = Crumb(id: FolderId, name: string)

  /** The (id, name) pairs from the topmost reachable ancestor of `x` down to
      `x`; empty when `x` does not exist, and cut short above a parent_id that
      names no existing folder. */
  function Path(fs: map<FolderId, Folder>, x: FolderId): seq<Crumb>
    requires ParentsPrecede(fs)
    decreases x
  {
    if x !in fs then []
    else
      (match fs[x].parent
       case None => []
       case Some(p) => Path(fs, p))
      + [Crumb(x, fs[x].name)]
  }

  /** Every crumb names an existing folder with its own name, and the crumb
      before it names that folder's parent. */
  lemma {:induction false} PathLinks(fs: map<FolderId, Folder>, x: FolderId)
    requires ParentsPrecede(fs)
    ensures var r := Path(fs, x);
      (forall i | 0 <= i < |r| :: r[i].id in fs && r[i].name == fs[r[i].id].name) &&
      (forall i | 0 <= i < |r| - 1 :: fs[r[i + 1].id].parent == Some(r[i].id) && r[i].id < r[i + 1].id)
    decreases x
  {
    if x in fs && fs[x].parent.Some? {
      PathLinks(fs, fs[x].parent.value);
      PathEnds(fs, fs[x].parent.value);
    }
  }

  /** The path ends with `x` itself, and is empty exactly when `x` is missing. */
  lemma PathEnds(fs: map<FolderId, Folder>, x: FolderId)
    requires ParentsPrecede(fs)
    ensures x !in fs <==> Path(fs, x) == []
    ensures x in fs ==> Path(fs, x)[|Path(fs, x)| - 1] == Crumb(x, fs[x].name)
  {
  }

  /** The first crumb is a root folder, unless a missing parent stopped the walk. */
  lemma {:induction false} PathStartsAtTop(fs: map<FolderId, Folder>, x: FolderId)
    requires ParentsPrecede(fs) && x in fs
    ensures var top := Path(fs, x)[0].id;
      top in fs && (fs[top].parent.None? || fs[top].parent.value !in fs)
    decreases x
  {
    var p := fs[x].parent;
    if p.Some? && p.value in fs {
      PathStartsAtTop(fs, p.value);
    }
  }

  /** The path of a folder without a parent is that folder alone. */
  lemma PathOfRoot(fs: map<FolderId, Folder>, x: FolderId)
    requires ParentsPrecede(fs) && x in fs && fs[x].parent.None?
    ensures Path(fs, x) == [Crumb(x, fs[x].name)]
  {
  }

  /** Every crumb is `x` or an existing ancestor of `x`. */
  lemma {:induction false} PathOnlyAncestry(fs: map<FolderId, Folder>, x: FolderId, i: nat)
    requires ParentsPrecede(fs) && i < |Path(fs, x)|
    ensures var y := Path(fs, x)[i].id;
      y in fs && x in fs && (y == x || IsAncestor(fs, y, x))
    decreases x
  {
    assert x in fs;
    var r := Path(fs, x);
    var y := r[i].id;
    match fs[x].parent
    case None =>
      PathOfRoot(fs, x);
      assert y == x;
    case Some(p) =>
      var up := Path(fs, p);
      assert r == up + [Crumb(x, fs[x].name)];
      if i < |up| {
        assert r[i] == up[i];
        PathOnlyAncestry(fs, p, i);
        assert p in fs;
        assert y == p || IsAncestor(fs, y, p);
        assert IsAncestor(fs, y, x);
      } else {
        assert y == x;
      }
  }

  /** `x` and each of its existing ancestors has a crumb. */
  lemma {:induction false} AncestryOnPath(fs: map<FolderId, Folder>, x: FolderId, y: FolderId)
    requires ParentsPrecede(fs) && y in fs && x in fs && (y == x || IsAncestor(fs, y, x))
    ensures exists i | 0 <= i < |Path(fs, x)| :: Path(fs, x)[i].id == y
    decreases x
  {
    var r := Path(fs, x);
    PathEnds(fs, x);
    if y == x {
      assert r[|r| - 1].id == y;
    } else {
      var p := fs[x].parent.value;
      var up := Path(fs, p);
      assert r == up + [Crumb(x, fs[x].name)];
      if y == p {
        PathEnds(fs, p);
        assert r[|up| - 1].id == y;
      } else {
        assert IsAncestor(fs, y, p);
        AncestorBelow(fs, y, x);
        assert p in fs;
        AncestryOnPath(fs, p, y);
        var i :| 0 <= i < |up| && up[i].id == y;
        assert r[i].id == y;
      }
    }
  }

  /** The folders on the path are exactly `x` and its existing ancestors. */
  lemma PathIsAncestry(fs: map<FolderId, Folder>, x: FolderId, y: FolderId)
    requires ParentsPrecede(fs)
    ensures (exists i | 0 <= i < |Path(fs, x)| :: Path(fs, x)[i].id == y)
        <==> y in fs && x in fs && (y == x || IsAncestor(fs, y, x))
  {
    if exists i | 0 <= i < |Path(fs, x)| :: Path(fs, x)[i].id == y {
      var i :| 0 <= i < |Path(fs, x)| && Path(fs, x)[i].id == y;
      PathOnlyAncestry(fs, x, i);
    }
    if y in fs && x in fs && (y == x || IsAncestor(fs, y, x)) {
      AncestryOnPath(fs, x, y);
    }
  }
}
