/**
 * The "more" menu of a project row: six item helpers, each offering its
 * item or nil, and `project_more_menu_items`, which keeps the offered items
 * in a fixed order. Labels, paths and HTML options are not modelled; an
 * item is identified by its kind.
 */
module ProjectMenu {
  import opened Wrappers

  /**
   * What the item helpers ask the current user and the project. `parent` is
   * None for a project without a parent and Some(active) otherwise.
   */
  datatype MenuContext = MenuContext(
    canAddSubprojects: bool,   // allowed_to?(:add_subprojects, project)
    canOpenSettings: bool,     // allowed_to?(project_settings/generic#show, project)
    canCopyProjects: bool,     // allowed_to?(:copy_projects, project)
    isAdmin: bool,             // admin? and admin
    projectActive: bool,       // project.active?
    projectArchived: bool,     // project.archived?
    parent: Option<bool>)      // project.parent, as nil or parent.active?

  datatype MenuItem = NewSubproject | Settings | Archive | Unarchive | Copy | Delete

  /** The place of each item in the menu. */
  function Rank(item: MenuItem): nat
  {
    match item
    case NewSubproject => 0
    case Settings => 1
    case Archive => 2
    case Unarchive => 3
    case Copy => 4
    case Delete => 5
  }

  /** project_more_menu_subproject_item: offered to users who may add subprojects. */
  function SubprojectItem(ctx: MenuContext): (r: Option<MenuItem>)
    ensures r == None || r == Some(NewSubproject)
  {
    if ctx.canAddSubprojects then Some(NewSubproject) else None
  }

  /** project_more_menu_settings_item: offered to users who may open the settings. */
  function SettingsItem(ctx: MenuContext): (r: Option<MenuItem>)
    ensures r == None || r == Some(Settings)
  {
    if ctx.canOpenSettings then Some(Settings) else None
  }

  /** project_more_menu_archive_item: admins, active projects. */
  function ArchiveItem(ctx: MenuContext): (r: Option<MenuItem>)
    ensures r == None || r == Some(Archive)
  {
    if ctx.isAdmin && ctx.projectActive then Some(Archive) else None
  }

  /** project_more_menu_unarchive_item: admins, inactive projects whose parent is missing or active. */
  function UnarchiveItem(ctx: MenuContext): (r: Option<MenuItem>)
    ensures r == None || r == Some(Unarchive)
  {
    if ctx.isAdmin && !ctx.projectActive && (ctx.parent.None? || ctx.parent.value) then Some(Unarchive)
    else None
  }

  /** project_more_menu_copy_item: users who may copy projects, projects not archived. */
  function CopyItem(ctx: MenuContext): (r: Option<MenuItem>)
    ensures r == None || r == Some(Copy)
  {
    if ctx.canCopyProjects && !ctx.projectArchived then Some(Copy) else None
  }

  /** project_more_menu_delete_item: admins. */
  function DeleteItem(ctx: MenuContext): (r: Option<MenuItem>)
    ensures r == None || r == Some(Delete)
  {
    if ctx.isAdmin then Some(Delete) else None
  }

  /** The helper that decides on `item`. */
  function ItemHelper(item: MenuItem, ctx: MenuContext): Option<MenuItem>
  {
    match item
    case NewSubproject => SubprojectItem(ctx)
    case Settings => SettingsItem(ctx)
    case Archive => ArchiveItem(ctx)
    case Unarchive => UnarchiveItem(ctx)
    case Copy => CopyItem(ctx)
    case Delete => DeleteItem(ctx)
  }

  /** Ruby's `compact`: the values of the non-nil entries. */
  function Compact<T(!new)>(s: seq<Option<T>>): (r: seq<T>)
    ensures |r| <= |s|
    ensures forall x :: x in r <==> Some(x) in s
    decreases |s|
  {
    if s == [] then []
    else (if s[0].Some? then [s[0].value] else []) + Compact(s[1..])
  }

  /** `compact` keeps the menu entries in their order. */
  lemma {:induction false} CompactKeepsOrder(s: seq<Option<MenuItem>>)
    requires forall i, j :: 0 <= i < j < |s| && s[i].Some? && s[j].Some? ==> Rank(s[i].value) < Rank(s[j].value)
    ensures forall i, j :: 0 <= i < j < |Compact(s)| ==> Rank(Compact(s)[i]) < Rank(Compact(s)[j])
    decreases |s|
  {
    if s != [] {
      var tail := s[1..];
      forall i, j | 0 <= i < j < |tail| && tail[i].Some? && tail[j].Some?
        ensures Rank(tail[i].value) < Rank(tail[j].value)
      {
        assert tail[i] == s[i + 1] && tail[j] == s[j + 1];
      }
      CompactKeepsOrder(tail);
      if s[0].Some? {
        var r := Compact(s);
        forall j | 0 < j < |r|
          ensures Rank(r[0]) < Rank(r[j])
        {
          assert r[j] in Compact(tail);
          var m :| 0 <= m < |tail| && tail[m] == Some(r[j]);
          assert s[m + 1] == tail[m];
        }
      }
    }
  }

  /**
   * project_more_menu_items: exactly the items whose helper offers them,
   * each once, in the order subproject, settings, archive, unarchive, copy,
   * delete; so at most six.
   */
  function MoreMenuItems(ctx: MenuContext): (r: seq<MenuItem>)
    ensures |r| <= 6
    ensures forall i, j :: 0 <= i < j < |r| ==> Rank(r[i]) < Rank(r[j])
    ensures forall item :: item in r <==> ItemHelper(item, ctx) == Some(item)
  {
    var candidates := [SubprojectItem(ctx), SettingsItem(ctx), ArchiveItem(ctx),
                       UnarchiveItem(ctx), CopyItem(ctx), DeleteItem(ctx)];
    CandidatesInMenuOrder(candidates);
    CompactKeepsOrder(candidates);
    CandidatesOffered(ctx, candidates);
    Compact(candidates)
  }

  /** The candidate list holds `Some(item)` exactly for the items whose helper offers them. */
  lemma CandidatesOffered(ctx: MenuContext, candidates: seq<Option<MenuItem>>)
    requires candidates == [SubprojectItem(ctx), SettingsItem(ctx), ArchiveItem(ctx),
                            UnarchiveItem(ctx), CopyItem(ctx), DeleteItem(ctx)]
    ensures forall item :: Some(item) in candidates <==> ItemHelper(item, ctx) == Some(item)
  {
    forall item
      ensures Some(item) in candidates <==> ItemHelper(item, ctx) == Some(item)
    {
      assert ItemHelper(item, ctx) == candidates[Rank(item)];
    }
  }

  /** A list whose `i`-th entry is nil or the item of rank `i` is in menu order. */
  lemma CandidatesInMenuOrder(candidates: seq<Option<MenuItem>>)
    requires forall i :: 0 <= i < |candidates| && candidates[i].Some? ==> Rank(candidates[i].value) == i
    ensures forall i, j :: 0 <= i < j < |candidates| && candidates[i].Some? && candidates[j].Some?
              ==> Rank(candidates[i].value) < Rank(candidates[j].value)
  {
  }

  /**
   * The decision table of the menu: which items `project_more_menu_items`
   * contains, in terms of the user's permissions and the project's status.
   */
  lemma MoreMenuDecisionTable(ctx: MenuContext)
    ensures NewSubproject in MoreMenuItems(ctx) <==> ctx.canAddSubprojects
    ensures Settings in MoreMenuItems(ctx) <==> ctx.canOpenSettings
    ensures Archive in MoreMenuItems(ctx) <==> ctx.isAdmin && ctx.projectActive
    ensures Unarchive in MoreMenuItems(ctx)
        <==> ctx.isAdmin && !ctx.projectActive && (ctx.parent == None || ctx.parent == Some(true))
    ensures Copy in MoreMenuItems(ctx) <==> ctx.canCopyProjects && !ctx.projectArchived
    ensures Delete in MoreMenuItems(ctx) <==> ctx.isAdmin
  {
  }

  /** Archive and unarchive are never offered together. */
  lemma ArchiveAndUnarchiveExclusive(ctx: MenuContext)
    ensures !(Archive in MoreMenuItems(ctx) && Unarchive in MoreMenuItems(ctx))
  {
    MoreMenuDecisionTable(ctx);
  }

  /** A user who is not an admin can be offered only subproject, settings and copy. */
  lemma NonAdminMenu(ctx: MenuContext)
    requires !ctx.isAdmin
    ensures forall item :: item in MoreMenuItems(ctx) ==> item in {NewSubproject, Settings, Copy}
  {
  }

  /**
   * An admin always gets delete, and gets exactly one of archive and
   * unarchive unless the project is inactive under an inactive parent.
   */
  lemma AdminMenu(ctx: MenuContext)
    requires ctx.isAdmin
    ensures Delete in MoreMenuItems(ctx)
    ensures !(ctx.parent == Some(false) && !ctx.projectActive) ==> (Archive in MoreMenuItems(ctx) <==> Unarchive !in MoreMenuItems(ctx))
    ensures ctx.parent == Some(false) && !ctx.projectActive
      ==> Archive !in MoreMenuItems(ctx) && Unarchive !in MoreMenuItems(ctx)
  {
  }

  /** An archived project is never offered for copying. */
  lemma ArchivedProjectNotCopied(ctx: MenuContext)
    requires ctx.projectArchived
    ensures Copy !in MoreMenuItems(ctx)
  {
  }
}
