# Document portal core, modelled in Dafny

The system is a Laravel + React portal for a company's document archive.
Each "menu" (a section of the site) holds a tree of folders and the files
stored in them. Admins upload files and create folders. An admin or the
owner of a row may rename or delete it. Deleting a folder deletes its whole
subtree, blobs included. A separate admin area manages user accounts.

The model covers:

- **The document controller.** This is the listing behind the document page:
  the folder and file queries, the search and type filters, sorting by name,
  and pagination by ten. It also covers the recursive helpers:
  - the folder size, the sum of every file below a folder;
  - the set of all subfolders;
  - the recursive delete;
  - the breadcrumb path.

  The role and ownership checks of upload, create-folder, rename and delete
  are modelled too, as is the unit choice of the size formatter.
- **The user-management controller:** deleting one user or many (with
  everything they own), partial updates, and e-mail verification.
- **The document page's client logic:**
  - the five-button pagination window;
  - the selection toggles;
  - the can_delete gating of single and bulk delete;
  - the breadcrumb trail;
  - the query string written back after a filter change.
- **The admin gate middleware.**

Layout:

- `common.dfy` holds shared vocabulary: Option, Result, error kinds, PHP
  truthiness, blank strings and substrings.
- `schema.dfy` holds the tables as maps from id to row, and the `Db` class
  whose fields the handlers update in place.
- `folder_tree.dfy` holds the folder hierarchy: ancestry, subtrees, subtree
  sizes and the root-to-leaf path. These are the specifications the
  recursive helpers are proved against.
- `file_size.dfy` holds formatFileSize.
- `document_listing.dfy` holds buildDocumentQuery and the pagination of
  index. Both are pure in the source, so both are functions here.
- `document_controller.dfy` holds the handlers and the looping or recursive
  helpers, as methods.
- `manage_user.dfy` holds the user-management handlers, as methods on `Db`
  proved against specification functions.
- `document_page.dfy` holds the client logic, as pure functions.
- `ensure_is_admin.dfy` holds the middleware predicate.

Ids stand for the UUID keys. Folder ids are numbered in creation order. A
folder can only be created under an existing parent, and nothing moves a
folder, so every parent id is smaller than its children's ids. This
invariant (`ParentsPrecede`) keeps the tree acyclic and gives every
downward walk its termination measure.

Some inputs come from code outside this model and are parameters instead:

- the acting user's id and role name;
- the clock;
- the stored blob path;
- the new row ids;
- the bcrypt hash;
- the outcome of the framework validation rules that query the database or
  the upload (mimes, unique e-mail, password rules, exists on roles).

## Model

| member | source | states |
|---|---|---|
| FileSize.UnitFor | app/Http/Controllers/DocumentController.php:316-321 | the unit index is at most GB; the value is at least that unit's power of 1024 and, below GB, less than the next one |
| FileSize.Round2 | app/Http/Controllers/DocumentController.php:322 | round($x, 2) is a whole number of hundredths, non-negative and within half a hundredth of $x |
| FileSize.FormatFileSize | app/Http/Controllers/DocumentController.php:314-323 | the divide-while-at-least-1024 loop ends on the unit UnitFor chooses, with the value scaled by that unit and rounded |
| FolderTree.SubtreeBytesRecurrence | app/Http/Controllers/DocumentController.php:288-296 | a folder's size is the size of its own files plus the sizes of its child folders |
| FolderTree.EmptyFolderHasNoSize | app/Http/Controllers/DocumentController.php:286-298 | a folder with no files and no subfolders has size 0 |
| FolderTree.DescendantsSplit | app/Http/Controllers/DocumentController.php:151-157 | the folders below a folder are its children and the folders below those children |
| FolderTree.PathLinks | app/Http/Controllers/DocumentController.php:328-339 | every crumb names an existing folder with its own name, and each crumb's predecessor is its parent |
| FolderTree.PathEnds | app/Http/Controllers/DocumentController.php:325-341 | the path is empty exactly when the folder does not exist, and otherwise ends with the folder's (id, name) |
| FolderTree.PathStartsAtTop | app/Http/Controllers/DocumentController.php:328-339 | the first crumb is a root folder, unless the walk stopped at a missing parent |
| FolderTree.PathOnlyAncestry | app/Http/Controllers/DocumentController.php:328-339 | every crumb is the requested folder or one of its existing ancestors |
| FolderTree.AncestryOnPath | app/Http/Controllers/DocumentController.php:328-339 | the requested folder and each of its existing ancestors has a crumb |
| FolderTree.PathIsAncestry | app/Http/Controllers/DocumentController.php:325-341 | a folder is on the path exactly when it is the requested folder or one of its existing ancestors |
| DocumentListing.SortByName | app/Http/Controllers/DocumentController.php:143 | sorting reorders the rows and neither adds nor drops any (same multiset) |
| DocumentListing.SortByNameSorted | app/Http/Controllers/DocumentController.php:143 | the sorted rows are in ascending name order |
| DocumentListing.BuildDocumentQuery | app/Http/Controllers/DocumentController.php:67-144 | the listing is sorted by name and holds exactly the listed folder rows and the listed file rows |
| DocumentListing.InListing | app/Http/Controllers/DocumentController.php:143 | an entry is listed if and only if it is a listed folder row or a listed file row |
| DocumentListing.RootListing | app/Http/Controllers/DocumentController.php:112-136 | at menu root, a folder is listed if and only if it is a root folder of the menu matching the search; a file is listed if and only if it is a root file of the menu passing both filters; no file inside a folder is listed |
| DocumentListing.FolderListing | app/Http/Controllers/DocumentController.php:73-110 | inside folder F, a folder is listed if and only if it is a child of F in the menu matching the search; a file is listed if and only if it lies in F (whatever its menu) and passes both filters |
| DocumentListing.TypeFilter | app/Http/Controllers/DocumentController.php:123-141 | type "folder" lists no file; another type other than "all" or empty keeps only files of that type; the folders listed never depend on the type |
| DocumentListing.SearchFilter | app/Http/Controllers/DocumentController.php:76 | with a truthy search string, every listed name contains it |
| DocumentListing.ListedSizes | app/Http/Controllers/DocumentController.php:82-135 | a listed folder shows its subtree's byte total (the corrected calculateFolderSize, see Findings), a file its own size, and can_delete is the admin-or-owner rule |
| DocumentListing.ArraySlice | app/Http/Controllers/DocumentController.php:34 | a slice never holds more than the requested ten items |
| DocumentListing.Paginate | app/Http/Controllers/DocumentController.php:29-43 | page p of N items holds items (p-1)*10 up to min(p*10, N), nothing past the end, from/to/total/per_page as computed, last_page = ceil(N/10), and a page at or below 0 slices from the end as array_slice does |
| DocumentListing.ItemOnItsPage | app/Http/Controllers/DocumentController.php:29-43 | item i appears on page i/10+1 at position i%10 and on no other page, and that page is at most last_page |
| DocumentController.FolderBytes | app/Http/Controllers/DocumentController.php:286-296 | the two loops and the recursion add up exactly the bytes of every file in the folder's subtree |
| DocumentController.CalculateFolderSize | app/Http/Controllers/DocumentController.php:286-298 | the folder's formatted size is the subtree's byte total formatted once (the corrected behaviour) |
| DocumentController.AsWrittenSizeDropsUnits | app/Http/Controllers/DocumentController.php:295 | with the child's formatted string added to $size, a folder whose only subfolder holds a 2048-byte file gets 2 ("2 B"), while its subtree holds 2048 bytes ("2 KB") |
| DocumentController.ChildIds | app/Http/Controllers/DocumentController.php:152 | the ids plucked are exactly the folders whose parent is the given folder |
| DocumentController.ArrayUnique | app/Http/Controllers/DocumentController.php:160 | array_unique keeps every value, each once |
| DocumentController.GetAllSubfolderIds | app/Http/Controllers/DocumentController.php:147-161 | the result holds every folder below any of the given folders, each exactly once, and nothing else |
| DocumentController.Reverse | app/Http/Controllers/DocumentController.php:340 | array_reverse puts element i at position n-1-i |
| DocumentController.GetFolderBreadcrumbs | app/Http/Controllers/DocumentController.php:325-341 | the upward walk, reversed, is the root-to-leaf path of the folder |
| DocumentController.DeleteSubtree | app/Http/Controllers/DocumentController.php:300-312 | deleting a subtree keeps the folder table acyclic |
| DocumentController.DeleteSubtreeEffect | app/Http/Controllers/DocumentController.php:300-312 | deletion removes exactly the folder, its descendants and the files in them, records their blob paths, and leaves every other row and table unchanged |
| DocumentController.DeleteSubtreeLeavesNoOrphans | app/Http/Controllers/DocumentController.php:300-312 | no remaining folder or file points into the deleted subtree |
| DocumentController.PartlyDeletedStep | app/Http/Controllers/DocumentController.php:308-310 | deleting one more child's subtree from the partly deleted tables is the next partial state, and that child's subtree is untouched so far |
| DocumentController.DeleteFiles | app/Http/Controllers/DocumentController.php:302-306 | the folder's files are removed and exactly their blob paths are recorded |
| DocumentController.DeleteFolderRecursively | app/Http/Controllers/DocumentController.php:300-312 | the new database state is the old one with the folder's subtree deleted, and the tree stays acyclic |
| DocumentController.FindMenu | app/Http/Controllers/DocumentController.php:174 | fails exactly when no menu has that menu_name, and otherwise returns a menu with that name |
| DocumentController.Store | app/Http/Controllers/DocumentController.php:163-201 | a non-admin gets 403 first, then failed rules, then a missing menu; the upload succeeds exactly when all of these checks pass, and only then adds the file row and its upload log row, with the acting user as uploader |
| DocumentController.CreateFolder | app/Http/Controllers/DocumentController.php:205-225 | a non-admin gets 403 first, then a blank, long or dangling-parent request fails, then a missing menu; creation succeeds exactly when all of these checks pass, and only then adds the folder, owned by the acting user |
| DocumentController.Download | app/Http/Controllers/DocumentController.php:227-237 | a missing file is 404 with no log row; an existing file always yields its path and name and adds a download log row |
| DocumentController.Update | app/Http/Controllers/DocumentController.php:263-284 | the name rule is checked first; type "file" renames a file, any other type a folder; a missing row is 404; only an admin or the owner may rename; the rename succeeds exactly when the name is valid and the row exists and may be renamed; nothing else changes |
| DocumentController.Destroy | app/Http/Controllers/DocumentController.php:239-261 | type "file" deletes the file and its blob, any other type the whole folder subtree; the delete succeeds exactly when the row exists and the actor is an admin or its owner; a missing row and a non-owner non-admin both change nothing |
| DocumentController.Index | app/Http/Controllers/DocumentController.php:16-65 | an unknown menu is 404; otherwise the documents are the paginated listing, and the breadcrumbs are the folder's path when a folder is requested and empty otherwise |
| ManageUser.FoldersNotBy | app/Http/Controllers/ManageUserController.php:129 | removing a user's folders keeps the folder table acyclic |
| ManageUser.ExcludeActing | app/Http/Controllers/ManageUserController.php:162 | the filter keeps exactly the requested ids that are not the acting user's |
| ManageUser.RemoveOwnedEffect | app/Http/Controllers/ManageUserController.php:127-133 | the doomed users and every folder, file and log row they own are gone; every other row is kept unchanged |
| ManageUser.RemoveOwnedCompose | app/Http/Controllers/ManageUserController.php:169-179 | removing users one after another equals removing them all at once |
| ManageUser.RemoveOwnedIdempotent | app/Http/Controllers/ManageUserController.php:169-179 | removing the same users again changes nothing |
| ManageUser.ActingUserSurvives | app/Http/Controllers/ManageUserController.php:159-162 | bulk delete never removes the acting user's row |
| ManageUser.ApplyUpdateFields | app/Http/Controllers/ManageUserController.php:82-96 | update changes exactly the fields the request carries (the password only when filled), never the verification time, and is idempotent |
| ManageUser.MarkVerifiedOnce | app/Http/Controllers/ManageUserController.php:201-203 | after verification the user is verified; an earlier verification time is kept; verifying twice equals verifying once |
| ManageUser.Destroy | app/Http/Controllers/ManageUserController.php:113-145 | an unknown user is 404; deleting oneself is refused; deleting any other existing user succeeds and removes them and everything they own in one step; a failure changes nothing |
| ManageUser.RemoveUser | app/Http/Controllers/ManageUserController.php:127-133 | the transaction body removes the user with their folders, files and logs |
| ManageUser.BulkDelete | app/Http/Controllers/ManageUserController.php:150-191 | an empty list or an unknown id fails validation; a list holding only oneself is refused; every other request succeeds and removes exactly the listed users other than oneself with what they own |
| ManageUser.RemoveUsers | app/Http/Controllers/ManageUserController.php:169-179 | the loop over the users removes all of them with what they own |
| ManageUser.Update | app/Http/Controllers/ManageUserController.php:70-108 | an unknown user is 404, failing rules change nothing, and an existing user with passing rules is always updated: the row becomes the partial update of the old row |
| ManageUser.Verify | app/Http/Controllers/ManageUserController.php:196-213 | an unknown user is 404; verifying an existing user always succeeds and sets the verification time when unset |
| DocumentPage.PageWindow | resources/js/pages/SystemOwner/DocumentPage.tsx:488-493 | the window has min(5, last_page) buttons (none for fewer than one page) with consecutive ascending page numbers |
| DocumentPage.WindowWithinPages | resources/js/pages/SystemOwner/DocumentPage.tsx:488-493 | every button is a page between 1 and last_page, whatever the current page |
| DocumentPage.WindowShowsCurrent | resources/js/pages/SystemOwner/DocumentPage.tsx:488-493 | the current page has a button if and only if it lies between 1 and last_page |
| DocumentPage.WindowCentred | resources/js/pages/SystemOwner/DocumentPage.tsx:493 | away from both ends of a long list, the current page is the middle button |
| DocumentPage.Without | resources/js/pages/SystemOwner/DocumentPage.tsx:267 | filter removes the id and keeps every other selected id |
| DocumentPage.ToggleSelectItem | resources/js/pages/SystemOwner/DocumentPage.tsx:266-268 | the id becomes selected if and only if it was not; every other id keeps its state |
| DocumentPage.ToggleTwice | resources/js/pages/SystemOwner/DocumentPage.tsx:266-268 | toggling twice restores the set of selected ids, and the exact list when the id was not selected |
| DocumentPage.ToggleKeepsDistinct | resources/js/pages/SystemOwner/DocumentPage.tsx:266-268 | toggling never creates a duplicate id |
| DocumentPage.Ids | resources/js/pages/SystemOwner/DocumentPage.tsx:262 | the mapped list holds each row's id at the row's position |
| DocumentPage.ToggleSelectAll | resources/js/pages/SystemOwner/DocumentPage.tsx:257-264 | an empty page leaves the selection unchanged; as many selected ids as rows clears it; otherwise exactly the page's ids become selected |
| DocumentPage.SelectAllTwice | resources/js/pages/SystemOwner/DocumentPage.tsx:257-264 | select-all pressed twice on a page not fully selected ends with nothing selected |
| DocumentPage.CountMeansAllSelected | resources/js/pages/SystemOwner/DocumentPage.tsx:259 | for a duplicate-free selection of ids from the page, equal counts mean every row is selected, and the converse |
| DocumentPage.KindNameReadBack | resources/js/pages/SystemOwner/DocumentPage.tsx:205 | the type segment of a delete URL is "file" exactly for files, which destroy reads back as the same kind |
| DocumentPage.HandleDelete | resources/js/pages/SystemOwner/DocumentPage.tsx:202-210 | a delete request is sent if and only if the row may be deleted and the user confirms, and it is for that row's id and type |
| DocumentPage.FindDoc | resources/js/pages/SystemOwner/DocumentPage.tsx:216 | find returns the first row with the id, and nothing exactly when no row has it |
| DocumentPage.HandleBulkDelete | resources/js/pages/SystemOwner/DocumentPage.tsx:212-223 | an empty selection or a declined confirmation sends nothing and keeps the selection; a confirmation sends the per-id requests and clears the selection |
| DocumentPage.BulkDeletionsSound | resources/js/pages/SystemOwner/DocumentPage.tsx:215-220 | every bulk request is for a selected id whose row is on the page and may be deleted, and there are at most as many requests as selected ids |
| DocumentPage.BulkDeletionsComplete | resources/js/pages/SystemOwner/DocumentPage.tsx:215-220 | every selected id whose row on the page may be deleted gets a request |
| DocumentPage.BreadcrumbItems | resources/js/pages/SystemOwner/DocumentPage.tsx:131-139 | the trail is the three fixed entries followed by one entry per folder, in order, linking to that folder |
| DocumentPage.FolderHrefReadBack | resources/js/pages/SystemOwner/DocumentPage.tsx:137 | a folder link carries the folder id after the fixed prefix, so different folders get different links |
| DocumentPage.SyncParams | resources/js/pages/SystemOwner/DocumentPage.tsx:141-154 | search is in the query string if and only if it is non-empty, type if and only if it is not "all", folder_id if and only if a folder is open; other parameters are kept |
| DocumentPage.SyncIdempotent | resources/js/pages/SystemOwner/DocumentPage.tsx:141-154 | writing the same filter state again leaves the query string as it is |
| DocumentPage.SyncedFiltersReadBack | resources/js/pages/SystemOwner/DocumentPage.tsx:144-147 | the name and type filters the controller applies to the written query string are those of the page's own search text and type |
| EnsureIsAdmin.Handle | app/Http/Middleware/EnsureIsAdmin.php:11-18 | a request goes on if and only if the user is signed in, has the role "admin" and is verified; a missing role row is a server error; every other request is redirected with "Unauthorized access." |
| EnsureIsAdmin.VerifyOpensGate | app/Http/Middleware/EnsureIsAdmin.php:13 | after verify, an admin passes the gate |
| EnsureIsAdmin.RemovedUserShutOut | app/Http/Middleware/EnsureIsAdmin.php:13 | a deleted user is redirected, even with a session that still names them |
| EnsureIsAdmin.GateDependsOnUserAndRole | app/Http/Middleware/EnsureIsAdmin.php:13 | the verdict depends only on the user's row and the roles table |

## Left out

- Blob storage I/O. The upload store, the download stream and the deletes are out. A deleted blob is recorded only as a path in `removedPaths`, and the stored path is a parameter.
- Inertia rendering, redirects and flash messages are out. A handler's outcome is a `Done`/`Failed(error)` value. Every failing path leaves the state unchanged, which is what the handlers' try/catch blocks and aborts amount to here.
- Transactions are modelled as single atomic state updates, with no partial failure. The schema's foreign-key cascade and set-null rules (as in the migrations) are out: the handlers' own deletes are modelled, and the database's cascades are not.
- floating point: formatFileSize works on exact reals. Unit choice agrees with PHP because dividing by 1024 is exact. Binary rounding error in round() is out, and the number-to-string conversion and date formatting are out.
- SQL LIKE is modelled as a plain substring test. The collation's case folding and the `%`/`_` wildcards inside a search string are out.
- DocumentListing.ListedSizes: the size a listed folder shows is the corrected subtree byte total (SubtreeBytes). As written, line 82 calls calculateFolderSize, which for a folder with subfolders adds only the leading number of each child's formatted size (see Findings), and the warning PHP raises there may turn the whole listing into an error response. The model's listing does not capture either effect.
- DocumentListing.SortByName: sortBy('name') is modelled as a lexicographic order on code points. PHP's comparison of numeric strings as numbers is out, and stable order among equal names is not proved.
- Validation rules that query the database or inspect the upload are taken as booleans: the mimes list, exists on roles, unique e-mail and the password rules. The required/string/max:255 rule on names is modelled (`NameValid`).
- Hashing (bcrypt), the clock, the session and new UUIDs are parameters.
- The users index and store pages of the user-management controller are outside this core.
- The acting user's role name is an input. The User model has no `role_name` attribute and the source reads it as one, so what it yields at run time is not part of this model.
- Files table: the model follows the controller. A file has a menu and a nullable folder. The files migration disagrees: it has no menu column and a required folder. The File model's fillable list (app/Models/File.php:16) also omits menu_id, so the File::create of store (app/Http/Controllers/DocumentController.php:183-191) drops the menu the controller passes. As written, a file uploaded at a menu root carries no menu and never matches the root listing's menu_id test. DocumentController.Store keeps the menu, as the controller intends.
- getAllSubfolderIds is modelled and proved, but its result is not used by buildDocumentQuery (line 117 computes it and drops it), so the listing does not depend on it.
- The framework's trimming of request strings (TrimStrings, ConvertEmptyStringsToNull) is out. Request values are taken as they arrive at the controller.
- DocumentPage.SyncParams: URLSearchParams is modelled as a map from key to one value. Repeated keys and parameter order are out.
- The page's Previous/Next buttons, the "Showing … of …" line, file icons, rename and upload dialogs and toasts are UI only, and are out.
- The 500 ms debounce of the query-string effect is timing; the model gives the value written once it fires.

## Findings

| source | as written | input that shows it | evidently intended | confidence | as-written member | corrected member |
|---|---|---|---|---|---|---|
| app/Http/Controllers/DocumentController.php:295 | `$size += $this->calculateFolderSize(...)` adds the child's formatted text ("2 KB"). PHP uses its leading number and drops the unit (raising a warning that the framework may turn into an error). | folder 1 at a menu root, folder 2 inside it, file 10 of 2048 bytes inside folder 2: folder 1's size comes out as 2, shown "2 B" | the child's byte total is added, giving 2048 bytes, shown "2 KB" | not executed | DocumentController.AsWrittenSizeDropsUnits | DocumentController.CalculateFolderSize |
