/** The relational tables behind the portal, as in-memory maps from row id to
    row, and the database object whose fields the request handlers update.

    Ids stand for the UUID primary keys. Folder ids are numbered in creation
    order: a folder can only be created under a parent that already exists and
    no operation moves a folder, so a parent's id is always smaller than its
    children's (`FolderTree.ParentsPrecede`), which keeps the tree acyclic. */
module Schema {
  import opened Common

  type RoleId = nat
  type UserId = nat
  type MenuId = nat
  type FolderId = nat
  type FileId = nat
  type LogId = nat
  type Timestamp = nat

  /** A users row; `verifiedAt` is email_verified_at (None = not verified). */
  datatype User = User(
    name: string,
    email: string,
    password: string,
    roleId: RoleId,
    verifiedAt: Option<Timestamp>)

  /** A folders row: owning menu, optional parent folder (None = menu root),
      folder_name and created_by. */
  datatype Folder = Folder(menu: MenuId, parent: Option<FolderId>, name: string, creator: UserId)

  /** A files row as DocumentController reads and writes it: a menu and a
      nullable folder (None = the file sits at the menu root). */
  datatype FileRow = FileRow(
    menu: MenuId,
    folder: Option<FolderId>,
    name: string,
    path: string,
    size: nat,
    fileType: string,
    uploader: UserId)

  datatype Action = Upload | Download

  datatype ActivityLog = ActivityLog(user: UserId, file: FileId, action: Action, at: Timestamp)

  /** The user performing a request: their id and their role's name. */
  datatype Actor = Actor(id: UserId, role: string)

  /** The admin-only rule of store and createFolder: role_name === 'admin'. */
  predicate IsAdmin(actor: Actor) {
    actor.role == "admin"
  }

  /** The admin-or-owner rule of the listing's can_delete, update and destroy. */
  predicate MayModify(actor: Actor, owner: UserId) {
    IsAdmin(actor) || actor.id == owner
  }

  /** Every folder's parent, when it has one, was created before it. This is
      the invariant that keeps the folder tree free of cycles. */
  predicate ParentsPrecede(fs: map<FolderId, Folder>) {
    forall id | id in fs && fs[id].parent.Some? :: fs[id].parent.value < id
  }

  /** A snapshot of every table, plus the set of blob paths deleted from the
      public storage disk so far. */
  datatype Tables = Tables(
    roles: map<RoleId, string>,
    users: map<UserId, User>,
    menus: map<MenuId, string>,
    folders: map<FolderId, Folder>,
    files: map<FileId, FileRow>,
    logs: map<LogId, ActivityLog>,
    removedPaths: set<string>)

  /** The database (and the storage disk's deletions), updated in place. */
  class Db {
    var roles: map<RoleId, string>
    var users: map<UserId, User>
    var menus: map<MenuId, string>
    var folders: map<FolderId, Folder>
    var files: map<FileId, FileRow>
    var logs: map<LogId, ActivityLog>
    var removedPaths: set<string>

    constructor (roles: map<RoleId, string>, menus: map<MenuId, string>)
      ensures Valid()
      ensures State() == Tables(roles, map[], menus, map[], map[], map[], {})
    {
      this.roles := roles;
      this.users := map[];
      this.menus := menus;
      this.folders := map[];
      this.files := map[];
      this.logs := map[];
      this.removedPaths := {};
    }

    predicate Valid()
      reads this
    {
      ParentsPrecede(folders)
    }

    function State(): Tables
      reads this
    {
      Tables(roles, users, menus, folders, files, logs, removedPaths)
    }
  }
}
