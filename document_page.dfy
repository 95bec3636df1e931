/** The list logic of the document page on the client: the five-button
    pagination window, the selection toggles, the can_delete gating of single
    and bulk delete, the breadcrumb trail and the query string written back
    after a filter change. Deletions are returned as the requests the page
    would send instead of being sent. */
module DocumentPage {
  import opened Common
  import opened DocumentListing

  /** The fields of a listed row the page's logic reads. Ids are the UUID
      strings the server sends. */
  datatype DocItem = DocItem(id: string, name: string, kind: Kind, canDelete: bool)

  // ---------------------------------------------------------------------
  // Pagination window
  // ---------------------------------------------------------------------

  /** The number of page buttons: Math.min(5, last_page), and Array.from
      treats a negative length as zero. */
  function WindowLength(last: int): nat {
    Max(0, Min(5, last))
  }

  /** The page number of the first button. */
  function WindowStart(current: int, last: int): int {
    if last <= 5 then 1
    else if current <= 3 then 1
    else if current >= last - 2 then last - 4
    else current - 2
  }

  /** The page numbers on the buttons between Previous and Next. */
  function PageWindow(current: int, last: int): (w: seq<int>)
    ensures |w| == WindowLength(last)
    ensures forall i | 0 <= i < |w| - 1 :: w[i + 1] == w[i] + 1
  {
    seq(WindowLength(last), i => WindowStart(current, last) + i)
  }

  /** Every button names an existing page, whatever the current page is. */
  lemma WindowWithinPages(current: int, last: int)
    ensures forall p | p in PageWindow(current, last) :: 1 <= p <= last
  {
    var w := PageWindow(current, last);
    forall p | p in w
      ensures 1 <= p <= last
    {
      var i :| 0 <= i < |w| && w[i] == p;
      assert p == WindowStart(current, last) + i;
    }
  }

  /** The window shows the current page exactly when the current page is one
      of the pages 1 .. last_page. */
  lemma WindowShowsCurrent(current: int, last: int)
    ensures current in PageWindow(current, last) <==> 1 <= current <= last
  {
    var w := PageWindow(current, last);
    WindowWithinPages(current, last);
    if 1 <= current <= last {
      var k := current - WindowStart(current, last);
      assert 0 <= k < |w|;
      assert w[k] == current;
    }
  }

  /** When there are more than five pages and the current page is not near
      either end, it sits in the middle of the window. */
  lemma WindowCentred(current: int, last: int)
    requires last > 5 && 3 < current < last - 2
    ensures PageWindow(current, last)[2] == current
  {
  }

  // ---------------------------------------------------------------------
  // Selection
  // ---------------------------------------------------------------------

  /** `s` with every occurrence of `id` removed (Array.prototype.filter). */
  function Without(s: seq<string>, id: string): (r: seq<string>)
    ensures forall x :: x in r <==> x in s && x != id
    ensures |r| <= |s|
  {
    if s == [] then []
    else (if s[0] == id then [] else [s[0]]) + Without(s[1..], id)
  }

  lemma {:induction false} WithoutAbsent(s: seq<string>, id: string)
    requires id !in s
    ensures Without(s, id) == s
  {
    if s != [] {
      WithoutAbsent(s[1..], id);
      assert s == [s[0]] + s[1..];
    }
  }

  lemma {:induction false} WithoutAppend(s: seq<string>, t: seq<string>, id: string)
    ensures Without(s + t, id) == Without(s, id) + Without(t, id)
  {
    if s != [] {
      assert (s + t)[1..] == s[1..] + t;
      WithoutAppend(s[1..], t, id);
    } else {
      assert s + t == t;
    }
  }

  lemma {:induction false} WithoutDistinct(s: seq<string>, id: string)
    requires Distinct(s)
    ensures Distinct(Without(s, id))
  {
    if s != [] {
      WithoutDistinct(s[1..], id);
      var rest := Without(s[1..], id);
      assert s[0] !in s[1..];
      assert s[0] !in rest;
      var r := (if s[0] == id then [] else [s[0]]) + rest;
      forall i, j | 0 <= i < j < |r|
        ensures r[i] != r[j]
      {
        if s[0] != id && i == 0 {
          assert r[j] in rest;
        }
      }
    }
  }

  /** toggleSelectItem: remove `id` when it is selected, append it otherwise. */
  function ToggleSelectItem(sel: seq<string>, id: string): (r: seq<string>)
    ensures id in r <==> id !in sel
    ensures forall x | x != id :: x in r <==> x in sel
  {
    if id in sel then Without(sel, id) else sel + [id]
  }

  /** Toggling the same id twice gives back the same set of selected ids, and
      the very same list when the id was not selected before. */
  lemma ToggleTwice(sel: seq<string>, id: string)
    ensures forall x :: x in ToggleSelectItem(ToggleSelectItem(sel, id), id) <==> x in sel
    ensures id !in sel ==> ToggleSelectItem(ToggleSelectItem(sel, id), id) == sel
  {
    if id !in sel {
      WithoutAppend(sel, [id], id);
      WithoutAbsent(sel, id);
      assert Without([id], id) == [];
    }
  }

  /** A selection built only by toggling never holds an id twice. */
  lemma ToggleKeepsDistinct(sel: seq<string>, id: string)
    requires Distinct(sel)
    ensures Distinct(ToggleSelectItem(sel, id))
  {
    if id in sel {
      WithoutDistinct(sel, id);
    }
  }

  /** documents.data.map(doc => doc.id) */
  function Ids(data: seq<DocItem>): (r: seq<string>)
    ensures |r| == |data|
    ensures forall i | 0 <= i < |data| :: r[i] == data[i].id
  {
    seq(|data|, i requires 0 <= i < |data| => data[i].id)
  }

  /** toggleSelectAll. "Everything is selected" is decided by comparing the
      number of selected ids with the number of rows, as the page does. */
  function ToggleSelectAll(sel: seq<string>, data: seq<DocItem>): (r: seq<string>)
    ensures |data| == 0 ==> r == sel
    ensures |data| > 0 && |sel| == |data| ==> r == []
    ensures |data| > 0 && |sel| != |data| ==>
      |r| == |data| && forall x :: x in r <==> exists i | 0 <= i < |data| :: data[i].id == x
  {
    if |data| == 0 then sel
    else if |sel| == |data| then []
    else Ids(data)
  }

  /** Pressing select-all twice on a page that was not fully selected ends
      with nothing selected. */
  lemma SelectAllTwice(sel: seq<string>, data: seq<DocItem>)
    requires |data| > 0 && |sel| != |data|
    ensures ToggleSelectAll(ToggleSelectAll(sel, data), data) == []
  {
  }

  function Elems<T>(s: seq<T>): set<T> {
    set x | x in s
  }

  lemma {:induction false} DistinctSetSize<T>(s: seq<T>)
    requires Distinct(s)
    ensures |Elems(s)| == |s|
  {
    if s != [] {
      DistinctSetSize(s[1..]);
      assert Elems(s) == Elems(s[1..]) + {s[0]};
      assert s[0] !in s[1..];
    }
  }

  /** Of two finite sets, one inside the other, the sizes agree exactly when
      the sets do. */
  lemma SubsetSameSize<T>(a: set<T>, b: set<T>)
    requires a <= b
    ensures |a| == |b| <==> b <= a
  {
    assert a + b == b && a * b == a && a - b == {};
    assert |b - a| + |a - b| + |a * b| == |a + b|;
    if |a| == |b| {
      assert |b - a| == 0;
      assert b - a == {};
    }
  }

  lemma IdsCovered(data: seq<DocItem>, sel: seq<string>)
    ensures Elems(Ids(data)) <= Elems(sel) <==> forall i | 0 <= i < |data| :: data[i].id in sel
  {
    var ids := Ids(data);
    if forall i | 0 <= i < |data| :: data[i].id in sel {
      forall x | x in Elems(ids)
        ensures x in Elems(sel)
      {
        var k :| 0 <= k < |ids| && ids[k] == x;
        assert data[k].id in sel;
      }
    }
    if Elems(ids) <= Elems(sel) {
      forall i | 0 <= i < |data|
        ensures data[i].id in sel
      {
        assert ids[i] in Elems(ids);
      }
    }
  }

  lemma CountBySets(sel: seq<string>, data: seq<DocItem>)
    requires |Elems(sel)| == |sel| && |Elems(Ids(data))| == |data|
    requires Elems(sel) <= Elems(Ids(data))
    ensures |sel| == |data| <==> forall i | 0 <= i < |data| :: data[i].id in sel
  {
    SubsetSameSize(Elems(sel), Elems(Ids(data)));
    IdsCovered(data, sel);
  }

  /** The count comparison means "every row is selected" as long as the
      selection holds no duplicates and only ids of the current rows, and the
      rows have distinct ids. */
  lemma CountMeansAllSelected(sel: seq<string>, data: seq<DocItem>)
    requires Distinct(sel) && Distinct(Ids(data))
    requires forall x | x in sel :: x in Ids(data)
    ensures |sel| == |data| <==> forall i | 0 <= i < |data| :: data[i].id in sel
  {
    DistinctSetSize(sel);
    DistinctSetSize(Ids(data));
    CountBySets(sel, data);
  }

  // ---------------------------------------------------------------------
  // Deletion gating
  // ---------------------------------------------------------------------

  /** A DELETE request the page sends: /system-owner/{slug}/{id}/{type}. */
  datatype Deletion = Deletion(id: string, kind: Kind)

  function KindName(k: Kind): string {
    match k
    case FileKind => "file"
    case FolderKind => "folder"
  }

  function DeleteUrl(slug: string, d: Deletion): string {
    "/system-owner/" + slug + "/" + d.id + "/" + KindName(d.kind)
  }

  /** The server's destroy takes the type segment "file" as a file and
      anything else as a folder, so the segment the page writes is read back
      as the row's own kind. */
  lemma KindNameReadBack(k: Kind)
    ensures (KindName(k) == "file") <==> k == FileKind
  {
  }

  /** handleDelete: nothing for a row the user may not delete, or when the
      confirmation is declined. */
  function HandleDelete(doc: DocItem, confirmed: bool): (r: Option<Deletion>)
    ensures r.Some? <==> doc.canDelete && confirmed
    ensures r.Some? ==> r.value.id == doc.id && r.value.kind == doc.kind
  {
    if !doc.canDelete then None
    else if confirmed then Some(Deletion(doc.id, doc.kind))
    else None
  }

  /** documents.data.find(doc => doc.id === id): the first row with that id. */
  function FindDoc(data: seq<DocItem>, id: string): (r: Option<DocItem>)
    ensures r.None? <==> forall i | 0 <= i < |data| :: data[i].id != id
    ensures r.Some? ==> exists i | 0 <= i < |data| ::
      data[i] == r.value && r.value.id == id && forall j | 0 <= j < i :: data[j].id != id
  {
    if data == [] then None
    else if data[0].id == id then Some(data[0])
    else
      var r := FindDoc(data[1..], id);
      if r.Some? then
        var k :| 0 <= k < |data| - 1 && data[1..][k] == r.value && r.value.id == id &&
          forall j | 0 <= j < k :: data[1..][j].id != id;
        assert data[k + 1] == r.value;
        r
      else r
  }

  /** The requests of handleBulkDelete's forEach, in selection order. */
  function BulkDeletions(sel: seq<string>, data: seq<DocItem>): seq<Deletion> {
    if sel == [] then []
    else
      var d := FindDoc(data, sel[0]);
      (if d.Some? && d.value.canDelete then [Deletion(d.value.id, d.value.kind)] else [])
      + BulkDeletions(sel[1..], data)
  }

  /** handleBulkDelete: the requests sent and the selection afterwards. */
  function HandleBulkDelete(sel: seq<string>, data: seq<DocItem>, confirmed: bool)
    : (r: (seq<Deletion>, seq<string>))
    ensures |sel| == 0 || !confirmed ==> r.0 == [] && r.1 == sel
    ensures |sel| > 0 && confirmed ==> r.0 == BulkDeletions(sel, data) && r.1 == []
  {
    if |sel| == 0 then ([], sel)
    else if confirmed then (BulkDeletions(sel, data), [])
    else ([], sel)
  }

  /** Every bulk request is for a selected id whose row is on the page and may
      be deleted, and there is at most one request per selected id. */
  lemma {:induction false} BulkDeletionsSound(sel: seq<string>, data: seq<DocItem>)
    ensures |BulkDeletions(sel, data)| <= |sel|
    ensures forall d | d in BulkDeletions(sel, data) ::
      d.id in sel && exists i | 0 <= i < |data| ::
        data[i].id == d.id && data[i].kind == d.kind && data[i].canDelete
  {
    if sel != [] {
      BulkDeletionsSound(sel[1..], data);
      var f := FindDoc(data, sel[0]);
      if f.Some? && f.value.canDelete {
        var i :| 0 <= i < |data| && data[i] == f.value && f.value.id == sel[0] &&
          forall j | 0 <= j < i :: data[j].id != sel[0];
        assert data[i].id == sel[0];
      }
    }
  }

  /** Every selected id whose first row on the page may be deleted gets a
      request. */
  lemma {:induction false} BulkDeletionsComplete(sel: seq<string>, data: seq<DocItem>)
    ensures forall k | 0 <= k < |sel| ::
      FindDoc(data, sel[k]).Some? && FindDoc(data, sel[k]).value.canDelete ==>
        Deletion(sel[k], FindDoc(data, sel[k]).value.kind) in BulkDeletions(sel, data)
  {
    if sel != [] {
      BulkDeletionsComplete(sel[1..], data);
      var head := FindDoc(data, sel[0]);
      var rest := BulkDeletions(sel[1..], data);
      assert BulkDeletions(sel, data) ==
        (if head.Some? && head.value.canDelete then [Deletion(head.value.id, head.value.kind)] else []) + rest;
      forall k | 0 <= k < |sel| && FindDoc(data, sel[k]).Some? && FindDoc(data, sel[k]).value.canDelete
        ensures Deletion(sel[k], FindDoc(data, sel[k]).value.kind) in BulkDeletions(sel, data)
      {
        if k > 0 {
          assert sel[k] == sel[1..][k - 1];
        }
      }
    }
  }

  // ---------------------------------------------------------------------
  // Breadcrumb trail
  // ---------------------------------------------------------------------

  datatype Link = Link(title: string, href: string)

  /** One entry of breadcrumbsFolders as the server sends it. */
  datatype FolderLink = FolderLink(id: string, name: string)

  const FolderQuery: string := "?folder_id="

  function MenuHref(slug: string): string {
    "/system-owner/" + slug
  }

  function FolderHref(slug: string, id: string): string {
    MenuHref(slug) + FolderQuery + id
  }

  /** The three fixed entries, then one entry per folder in the given order. */
  function BreadcrumbItems(title: string, slug: string, folders: seq<FolderLink>): (r: seq<Link>)
    ensures |r| == 3 + |folders|
    ensures r[0] == Link("Dashboard", "/dashboard") && r[1] == Link("System Owner", "#")
    ensures r[2] == Link(title, MenuHref(slug))
    ensures forall i | 0 <= i < |folders| ::
      r[3 + i].title == folders[i].name && r[3 + i].href == FolderHref(slug, folders[i].id)
  {
    [Link("Dashboard", "/dashboard"), Link("System Owner", "#"), Link(title, MenuHref(slug))]
    + seq(|folders|, i requires 0 <= i < |folders| => Link(folders[i].name, FolderHref(slug, folders[i].id)))
  }

  /** A folder link leads back to the folder it was made for: the id is what
      follows the fixed prefix, so different folders get different links. */
  lemma FolderHrefReadBack(slug: string, a: string, b: string)
    ensures FolderHref(slug, a)[|MenuHref(slug) + FolderQuery|..] == a
    ensures FolderHref(slug, a) == FolderHref(slug, b) ==> a == b
  {
    var pre := MenuHref(slug) + FolderQuery;
    assert FolderHref(slug, a) == pre + a;
    assert FolderHref(slug, b) == pre + b;
    assert (pre + a)[|pre|..] == a;
    assert (pre + b)[|pre|..] == b;
  }

  // ---------------------------------------------------------------------
  // Query string after a filter change
  // ---------------------------------------------------------------------

  /** The URLSearchParams edits of the debounced effect: search is set when
      non-empty, type when it is not "all", folder_id when the current
      folder is a non-empty string; each is deleted otherwise. */
  function SyncParams(params: map<string, string>, search: string, selectedType: string,
                      folder: Option<string>): (r: map<string, string>)
    ensures "search" in r <==> search != ""
    ensures "search" in r ==> r["search"] == search
    ensures "type" in r <==> selectedType != "all"
    ensures "type" in r ==> r["type"] == selectedType
    ensures "folder_id" in r <==> folder.Some? && folder.value != ""
    ensures "folder_id" in r ==> r["folder_id"] == folder.value
    ensures forall k | k != "search" && k != "type" && k != "folder_id" ::
      (k in r <==> k in params) && (k in r ==> r[k] == params[k])
  {
    var p1 := if search != "" then params["search" := search] else params - {"search"};
    var p2 := if selectedType != "all" then p1["type" := selectedType] else p1 - {"type"};
    if folder.Some? && folder.value != "" then p2["folder_id" := folder.value]
    else p2 - {"folder_id"}
  }

  /** Running the effect again with the same state changes nothing. */
  lemma SyncIdempotent(params: map<string, string>, search: string, selectedType: string,
                       folder: Option<string>)
    ensures var once := SyncParams(params, search, selectedType, folder);
      SyncParams(once, search, selectedType, folder) == once
  {
    var once := SyncParams(params, search, selectedType, folder);
    var twice := SyncParams(once, search, selectedType, folder);
    assert forall k :: k in twice <==> k in once;
    assert forall k | k in twice :: twice[k] == once[k];
  }

  /** A request parameter as the controller reads it: an absent one is null,
      which the controller's tests treat like "". */
  function Param(params: map<string, string>, key: string): string {
    if key in params then params[key] else ""
  }

  /** The server filters the listing exactly as the page's state asks: the
      name filter and the file_type filter it applies to the synced query
      string are those of the search text and type the user chose. */
  lemma SyncedFiltersReadBack(params: map<string, string>, search: string, selectedType: string,
                              folder: Option<string>, name: string)
    ensures var r := SyncParams(params, search, selectedType, folder);
      (NameMatches(name, Param(r, "search")) <==> NameMatches(name, search)) &&
      (TypeFilterOn(Param(r, "type")) <==> TypeFilterOn(selectedType)) &&
      (TypeFilterOn(selectedType) ==> Param(r, "type") == selectedType)
  {
  }
}
