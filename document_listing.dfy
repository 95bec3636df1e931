/** The one-level listing of a menu (buildDocumentQuery) and the fixed-size
    pagination of index. Both are expression pipelines in the controller,
    so they are functions here. */
module DocumentListing {
  import opened Common
  import opened Schema
  import opened FolderTree

  datatype Kind = FolderKind | FileKind

  /** One listed row. `bytes` is the number formatFileSize turns into the size
      column; `path` is file_path (None for folders); `owner` is created_by of
      a folder or uploaded_by of a file. */
  datatype Entry = Entry(
    id: nat,
    name: string,
    kind: Kind,
    bytes: nat,
    fileType: string,
    owner: UserId,
    path: Option<string>,
    canDelete: bool)

  /** The request's folder_id (None when absent or empty), search and type. */
  datatype Query = Query(folder: Option<FolderId>, search: string, fileType: string)

  /** The `when($search, ... like "%search%")` clause. */
  predicate NameMatches(name: string, search: string) {
    !PhpTruthy(search) || Contains(name, search)
  }

  /** The condition under which the file_type clause is added. */
  predicate TypeFilterOn(t: string) {
    PhpTruthy(t) && t != "all" && t != "folder"
  }

  /** The folders query: this menu, parent_id equal to the requested folder
      (null at the root), name matching the search. */
  predicate FolderListed(fs: map<FolderId, Folder>, menu: MenuId, q: Query, id: FolderId) {
    id in fs && fs[id].menu == menu && fs[id].parent == q.folder && NameMatches(fs[id].name, q.search)
  }

  /** The files query: inside a folder, folder_id only; at the root, this menu
      and a null folder_id; then search and type clauses, and no files at all
      when the type is "folder". */
  predicate FileListed(files: map<FileId, FileRow>, menu: MenuId, q: Query, id: FileId) {
    id in files &&
    (if q.folder.Some? then files[id].folder == q.folder
     else files[id].menu == menu && files[id].folder.None?) &&
    NameMatches(files[id].name, q.search) &&
    (!TypeFilterOn(q.fileType) || files[id].fileType == q.fileType) &&
    q.fileType != "folder"
  }

  ghost function FolderEntryOf(t: Tables, actor: Actor, id: FolderId): Entry
    requires ParentsPrecede(t.folders) && id in t.folders
  {
    var f := t.folders[id];
    Entry(id, f.name, FolderKind, SubtreeBytes(t.folders, t.files, id), "folder", f.creator, None,
          MayModify(actor, f.creator))
  }

  function FileEntryOf(t: Tables, actor: Actor, id: FileId): Entry
    requires id in t.files
  {
    var f := t.files[id];
    Entry(id, f.name, FileKind, f.size, f.fileType, f.uploader, Some(f.path), MayModify(actor, f.uploader))
  }

  ghost function FolderEntries(t: Tables, actor: Actor, menu: MenuId, q: Query): set<Entry>
    requires ParentsPrecede(t.folders)
  {
    set id | id in t.folders && FolderListed(t.folders, menu, q, id) :: FolderEntryOf(t, actor, id)
  }

  function FileEntries(t: Tables, actor: Actor, menu: MenuId, q: Query): set<Entry> {
    set id | id in t.files && FileListed(t.files, menu, q, id) :: FileEntryOf(t, actor, id)
  }

  // ---------------------------------------------------------------------
  // Ordering by name (sortBy('name'))

  /** Lexicographic order on names. */
  predicate NameLe(a: string, b: string)
    decreases |a|
  {
    a == [] || (b != [] && (a[0] < b[0] || (a[0] == b[0] && NameLe(a[1..], b[1..]))))
  }

  lemma {:induction false} NameLeTotal(a: string, b: string)
    ensures NameLe(a, b) || NameLe(b, a)
    decreases |a|
  {
    if a != [] && b != [] && a[0] == b[0] {
      NameLeTotal(a[1..], b[1..]);
    }
  }

  lemma {:induction false} NameLeTrans(a: string, b: string, c: string)
    requires NameLe(a, b) && NameLe(b, c)
    ensures NameLe(a, c)
    decreases |a|
  {
    if a != [] && b != [] && c != [] && a[0] == b[0] && b[0] == c[0] {
      NameLeTrans(a[1..], b[1..], c[1..]);
    }
  }

  /** Each entry's name is at most the next one's. */
  predicate SortedByName(s: seq<Entry>) {
    forall i | 0 < i < |s| :: NameLe(s[i - 1].name, s[i].name)
  }

  /** In a sorted list every entry's name is at most every later one's. */
  lemma {:induction false} SortedAllPairs(s: seq<Entry>, i: nat, j: nat)
    requires SortedByName(s) && i <= j < |s|
    ensures NameLe(s[i].name, s[j].name)
    decreases j - i
  {
    if i == j {
      NameLeTotal(s[i].name, s[i].name);
    } else {
      SortedAllPairs(s, i + 1, j);
      NameLeTrans(s[i].name, s[i + 1].name, s[j].name);
    }
  }

  /** Places `e` before the first entry it does not follow, so equal names
      keep their relative order. */
  function Insert(e: Entry, s: seq<Entry>): (r: seq<Entry>)
    ensures multiset(r) == multiset(s) + multiset{e}
    decreases |s|
  {
    if s == [] then [e]
    else if NameLe(e.name, s[0].name) then [e] + s
    else
      assert s == [s[0]] + s[1..];
      [s[0]] + Insert(e, s[1..])
  }

  lemma {:induction false} InsertSorted(e: Entry, s: seq<Entry>)
    requires SortedByName(s)
    ensures SortedByName(Insert(e, s))
    ensures |s| > 0 ==> Insert(e, s)[0] == (if NameLe(e.name, s[0].name) then e else s[0])
    decreases |s|
  {
    if s != [] && !NameLe(e.name, s[0].name) {
      InsertSorted(e, s[1..]);
      NameLeTotal(e.name, s[0].name);
      var r := Insert(e, s);
      assert r == [s[0]] + Insert(e, s[1..]);
    }
  }

  /** A stable sort of `s` by name. */
  function SortByName(s: seq<Entry>): (r: seq<Entry>)
    ensures multiset(r) == multiset(s)
    decreases |s|
  {
    if s == [] then []
    else
      assert s == [s[0]] + s[1..];
      Insert(s[0], SortByName(s[1..]))
  }

  lemma {:induction false} SortByNameSorted(s: seq<Entry>)
    ensures SortedByName(SortByName(s))
    decreases |s|
  {
    if s != [] {
      SortByNameSorted(s[1..]);
      InsertSorted(s[0], SortByName(s[1..]));
    }
  }

  /** The rows of an unordered query result, in some order. */
  ghost function SetToSeq<T>(s: set<T>): (r: seq<T>)
    ensures multiset(r) == multiset(s)
    decreases s
  {
    if s == {} then []
    else
      var x :| x in s;
      [x] + SetToSeq(s - {x})
  }

  /** buildDocumentQuery: the folder rows and then the file rows, sorted by name. */
  ghost function BuildDocumentQuery(t: Tables, actor: Actor, menu: MenuId, q: Query): (r: seq<Entry>)
    requires ParentsPrecede(t.folders)
    ensures SortedByName(r)
    ensures multiset(r) == multiset(FolderEntries(t, actor, menu, q)) + multiset(FileEntries(t, actor, menu, q))
  {
    var folders := SetToSeq(FolderEntries(t, actor, menu, q));
    var files := SetToSeq(FileEntries(t, actor, menu, q));
    SortByNameSorted(folders + files);
    SortByName(folders + files)
  }

  // ---------------------------------------------------------------------
  // Properties of the listing

  lemma InListing(t: Tables, actor: Actor, menu: MenuId, q: Query, e: Entry)
    requires ParentsPrecede(t.folders)
    ensures e in BuildDocumentQuery(t, actor, menu, q)
        <==> e in FolderEntries(t, actor, menu, q) || e in FileEntries(t, actor, menu, q)
  {
    var r := BuildDocumentQuery(t, actor, menu, q);
    assert e in r <==> e in multiset(r);
  }

  /** With no folder requested, the listing holds exactly the menu's root
      folders and the menu's root files that pass the search and type
      filters; no entry describes a file stored inside a folder. */
  lemma RootListing(t: Tables, actor: Actor, menu: MenuId, q: Query)
    requires ParentsPrecede(t.folders) && q.folder.None?
    ensures var r := BuildDocumentQuery(t, actor, menu, q);
      (forall id | id in t.folders ::
         FolderEntryOf(t, actor, id) in r
         <==> t.folders[id].menu == menu && t.folders[id].parent.None? && NameMatches(t.folders[id].name, q.search)) &&
      (forall id | id in t.files ::
         FileEntryOf(t, actor, id) in r
         <==> t.files[id].menu == menu && t.files[id].folder.None? && NameMatches(t.files[id].name, q.search) &&
              q.fileType != "folder" && (!TypeFilterOn(q.fileType) || t.files[id].fileType == q.fileType)) &&
      (forall e | e in r && e.kind == FileKind :: e.id in t.files && t.files[e.id].folder.None?)
  {
    forall id | id in t.folders
      ensures FolderEntryOf(t, actor, id) in BuildDocumentQuery(t, actor, menu, q)
          <==> FolderListed(t.folders, menu, q, id)
    {
      InListing(t, actor, menu, q, FolderEntryOf(t, actor, id));
    }
    forall id | id in t.files
      ensures FileEntryOf(t, actor, id) in BuildDocumentQuery(t, actor, menu, q)
          <==> FileListed(t.files, menu, q, id)
    {
      InListing(t, actor, menu, q, FileEntryOf(t, actor, id));
    }
    forall e | e in BuildDocumentQuery(t, actor, menu, q) && e.kind == FileKind
      ensures e.id in t.files && t.files[e.id].folder.None?
    {
      InListing(t, actor, menu, q, e);
    }
  }

  /** With folder F requested, the listing holds exactly the menu's folders
      whose parent is F and the files whose folder is F (whatever their menu)
      that pass the filters. */
  lemma FolderListing(t: Tables, actor: Actor, menu: MenuId, q: Query, f: FolderId)
    requires ParentsPrecede(t.folders) && q.folder == Some(f)
    ensures var r := BuildDocumentQuery(t, actor, menu, q);
      (forall id | id in t.folders ::
         FolderEntryOf(t, actor, id) in r
         <==> t.folders[id].menu == menu && t.folders[id].parent == Some(f) && NameMatches(t.folders[id].name, q.search)) &&
      (forall id | id in t.files ::
         FileEntryOf(t, actor, id) in r
         <==> t.files[id].folder == Some(f) && NameMatches(t.files[id].name, q.search) &&
              q.fileType != "folder" && (!TypeFilterOn(q.fileType) || t.files[id].fileType == q.fileType))
  {
    forall id | id in t.folders
      ensures FolderEntryOf(t, actor, id) in BuildDocumentQuery(t, actor, menu, q)
          <==> FolderListed(t.folders, menu, q, id)
    {
      InListing(t, actor, menu, q, FolderEntryOf(t, actor, id));
    }
    forall id | id in t.files
      ensures FileEntryOf(t, actor, id) in BuildDocumentQuery(t, actor, menu, q)
          <==> FileListed(t.files, menu, q, id)
    {
      InListing(t, actor, menu, q, FileEntryOf(t, actor, id));
    }
  }

  /** The type filter: "folder" removes every file, any other type but "all"
      (and but an empty one) keeps only files of that type, and folders are
      never affected by it. */
  lemma TypeFilter(t: Tables, actor: Actor, menu: MenuId, q: Query, other: string)
    requires ParentsPrecede(t.folders)
    ensures var r := BuildDocumentQuery(t, actor, menu, q);
      (q.fileType == "folder" ==> forall e | e in r :: e.kind == FolderKind) &&
      (TypeFilterOn(q.fileType) ==> forall e | e in r && e.kind == FileKind :: e.fileType == q.fileType) &&
      (forall e: Entry | e.kind == FolderKind ::
         e in r <==> e in BuildDocumentQuery(t, actor, menu, q.(fileType := other)))
  {
    var r := BuildDocumentQuery(t, actor, menu, q);
    var q' := q.(fileType := other);
    forall e | e in r
      ensures q.fileType == "folder" ==> e.kind == FolderKind
      ensures TypeFilterOn(q.fileType) && e.kind == FileKind ==> e.fileType == q.fileType
    {
      InListing(t, actor, menu, q, e);
    }
    assert FolderEntries(t, actor, menu, q) == FolderEntries(t, actor, menu, q');
    forall e: Entry | e.kind == FolderKind
      ensures e in r <==> e in BuildDocumentQuery(t, actor, menu, q')
    {
      InListing(t, actor, menu, q, e);
      InListing(t, actor, menu, q', e);
    }
  }

  /** Every listed entry's name contains the search string, when there is one. */
  lemma SearchFilter(t: Tables, actor: Actor, menu: MenuId, q: Query)
    requires ParentsPrecede(t.folders) && PhpTruthy(q.search)
    ensures forall e | e in BuildDocumentQuery(t, actor, menu, q) :: Contains(e.name, q.search)
  {
    forall e | e in BuildDocumentQuery(t, actor, menu, q)
      ensures Contains(e.name, q.search)
    {
      InListing(t, actor, menu, q, e);
    }
  }

  /** A listed folder shows the total size of its subtree, and can_delete is
      the admin-or-owner rule. */
  lemma ListedSizes(t: Tables, actor: Actor, menu: MenuId, q: Query)
    requires ParentsPrecede(t.folders)
    ensures forall e | e in BuildDocumentQuery(t, actor, menu, q) ::
      e.canDelete == MayModify(actor, e.owner) &&
      (e.kind == FolderKind ==> e.id in t.folders && e.bytes == SubtreeBytes(t.folders, t.files, e.id)) &&
      (e.kind == FileKind ==> e.id in t.files && e.bytes == t.files[e.id].size)
  {
    forall e | e in BuildDocumentQuery(t, actor, menu, q)
      ensures e.canDelete == MayModify(actor, e.owner)
      ensures e.kind == FolderKind ==> e.id in t.folders && e.bytes == SubtreeBytes(t.folders, t.files, e.id)
      ensures e.kind == FileKind ==> e.id in t.files && e.bytes == t.files[e.id].size
    {
      InListing(t, actor, menu, q, e);
    }
  }

  // ---------------------------------------------------------------------
  // Pagination (index)

  const PerPage: nat := 10

  datatype Page<T> = Page(
    data: seq<T>,
    currentPage: int,
    lastPage: nat,
    perPage: nat,
    total: nat,
    from: int,
    to: int)

  /** Collection::slice($offset, $length), which is PHP's array_slice: a
      negative offset counts from the end, an offset past the end gives
      nothing. */
  function ArraySlice<T>(s: seq<T>, offset: int, length: nat): (r: seq<T>)
    ensures |r| <= length
  {
    var start := if offset >= 0 then Min(offset, |s|) else Max(0, |s| + offset);
    s[start..Min(start + length, |s|)]
  }

  /** The pagination block of index for the requested page number. For a
      page p >= 1 the data are the items from (p-1)*10 up to
      min((p-1)*10 + 10, N) and last_page is the ceiling of N/10; a page at or
      below zero slices from the end of the list, as array_slice does. */
  function Paginate<T>(items: seq<T>, page: int): (p: Page<T>)
    ensures |p.data| <= PerPage
    ensures p.total == |items| && p.perPage == PerPage && p.currentPage == page
    ensures (p.lastPage - 1) * PerPage < |items| <= p.lastPage * PerPage
    ensures page >= 1 ==>
      var offset := (page - 1) * PerPage;
      p.from == offset + 1 &&
      p.to == Min(offset + PerPage, |items|) &&
      (offset < |items| ==> p.data == items[offset..p.to]) &&
      (offset >= |items| ==> p.data == [])
    ensures page <= 0 ==>
      var start := Max(0, |items| + (page - 1) * PerPage);
      p.data == items[start..Min(start + PerPage, |items|)] && p.from <= 1 - PerPage
  {
    var n := |items|;
    var offset := (page - 1) * PerPage;
    Page(ArraySlice(items, offset, PerPage), page, (n + PerPage - 1) / PerPage, PerPage, n,
         offset + 1, Min(offset + PerPage, n))
  }

  /** Item i is on page i/10 + 1, at position i % 10, and on no other page;
      that page is at most last_page. */
  lemma ItemOnItsPage<T>(items: seq<T>, i: nat, page: int)
    requires i < |items| && page >= 1
    ensures var p := Paginate(items, page); var offset := (page - 1) * PerPage;
      (page == i / PerPage + 1 <==> offset <= i < offset + |p.data|) &&
      (page == i / PerPage + 1 ==> p.data[i % PerPage] == items[i] && page <= p.lastPage)
  {
    if page == i / PerPage + 1 {
      assert (page - 1) * PerPage == i - i % PerPage;
    }
  }
}
