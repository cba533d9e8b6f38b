# OpenProject projects helper, modelled in Dafny

This project models the logic of OpenProject's `ProjectsHelper`, the view helper behind the
projects list. It covers five parts:

- `projects_with_level` (module `ProjectLevels`). It walks a list of projects once and keeps a
  stack of open ancestors. For each project it pops the entries that are not ancestors, reports
  the stack size as the level, then pushes the project. It is modelled as an imperative method
  with a `while` loop, proved equal to a specification function. The lemmas state what the
  levels mean.
- `projects_level_list_json` (module `LevelListJson`). It maps the (project, level) pairs to the
  records of the `{ projects: [...] }` payload.
- `short_project_description` (module `ProjectDescription`). Ruby's `blank?`, the regular
  expression substitution `\A(.{N}[^\n\r]*).*\z` with the `m` flag, and `strip` are written out
  on character sequences.
- The "more" menu (module `ProjectMenu`). It has six item helpers and `project_more_menu_items`,
  which keeps the offered items in a fixed order.
- `allowed_filters` and `whitelisted_project_filter?` (module `ProjectFilters`). These keep the
  whitelisted filter classes and sort them by human name.

`is_descendant_of?` is a relation on project ids, passed in as a parameter. The current user's
permissions, the enterprise-token check, translated labels and route paths are inputs or are
not modelled. The block that `projects_with_level` yields to becomes the returned sequence of
pairs.

The level guarantee holds under two hypotheses. First, the descendant relation is transitive.
Second, the list keeps subtrees contiguous: any project listed between an ancestor and one of
its descendants is also a descendant of that ancestor. A pre-order listing has this property.
The proof needs nothing more. In particular it does not need the relation to be irreflexive, or
ancestors to come first.

## Model

| member | source | states |
|---|---|---|
| `ProjectLevels.Unwind` | app/helpers/projects_helper.rb:164-166 | after the pop loop the stack is a prefix of the old stack, empty or topped by an ancestor of the project, and every popped entry was not an ancestor |
| `ProjectLevels.StackAfter` | app/helpers/projects_helper.rb:161-170 | the ancestor stack is at most as long as the input, ends with the last project, and each entry is a descendant of the entry below it |
| `ProjectLevels.WithLevel` | app/helpers/projects_helper.rb:163-171 | every project is yielded exactly once, in input order; an empty list yields nothing |
| `ProjectLevels.ProjectsWithLevel` | app/helpers/projects_helper.rb:160-172 | the loop yields exactly the pairs of the specification, one per project in order, and pops at most once per project |
| `ProjectLevels.WithLevelAt` | app/helpers/projects_helper.rb:164-168 | the level yielded for a project is the size of the ancestor stack after popping for it |
| `ProjectLevels.FirstLevelIsZero` | app/helpers/projects_helper.rb:161-168 | the first project gets level 0 |
| `ProjectLevels.LevelGrowsByAtMostOne` | app/helpers/projects_helper.rb:164-170 | each level is at most the previous level plus one |
| `ProjectLevels.LevelAtMostPosition` | app/helpers/projects_helper.rb:164-170 | the project at position i gets a level of at most i |
| `ProjectLevels.ChainIsFullChain` | app/helpers/projects_helper.rb:164-170 | with a transitive relation, the stack's entries are each a descendant of every entry below them |
| `ProjectLevels.UnwindChainKeepsAncestors` | app/helpers/projects_helper.rb:164-166 | on such a chain, popping leaves exactly the entries that are ancestors of the project |
| `ProjectLevels.UnwoundStackIsEarlierAncestors` | app/helpers/projects_helper.rb:163-170 | with contiguous subtrees and a transitive relation, the popped stack holds exactly the earlier-listed ancestors of the project, in list order |
| `ProjectLevels.LevelCountsEarlierAncestors` | app/helpers/projects_helper.rb:160-172 | with contiguous subtrees and a transitive relation, each level equals the number of earlier-listed ancestors |
| `ProjectLevels.StackIsOpenAncestors` | app/helpers/projects_helper.rb:160-172 | under the same hypotheses, the final stack is the last project's earlier-listed ancestors followed by that project |
| `ProjectLevels.SmallTreeLevels` | app/helpers/projects_helper.rb:160-172 | a root with children B and D, and C under B, listed A, B, C, D, gets levels 0, 1, 2, 1 |
| `LevelListJson.ProjectsLevelListJson` | app/helpers/projects_helper.rb:174-188 | one record per item, in order, with the project's id, name and identifier, `has_children` as not-a-leaf, and the item's level |
| `LevelListJson.LevelListOfProjectsWithLevel` | app/helpers/projects_helper.rb:174-188 | the payload built from the leveler's pairs lists the input ids in order, starts at level 0 and deepens by at most one per record |
| `ProjectDescription.LineRun` | app/helpers/projects_helper.rb:253 | the greedy `[^\n\r]*` stops at the first line break or at the end |
| `ProjectDescription.LineCutIsUnique` | app/helpers/projects_helper.rb:253 | the point where the captured group ends is unique |
| `ProjectDescription.EllipsizeAfter` | app/helpers/projects_helper.rb:253 | a text shorter than N is unchanged; otherwise it is cut after N characters plus the rest of that line, and "..." is appended |
| `ProjectDescription.LStrip` | app/helpers/projects_helper.rb:253 | removes exactly the leading whitespace and NUL characters |
| `ProjectDescription.RStrip` | app/helpers/projects_helper.rb:253 | removes exactly the trailing whitespace and NUL characters |
| `ProjectDescription.Strip` | app/helpers/projects_helper.rb:253 | the result is a stretch of the input with only whitespace outside it, and it neither starts nor ends with whitespace |
| `ProjectDescription.ShortProjectDescription` | app/helpers/projects_helper.rb:248-254 | nil or blank gives ""; a shorter text is stripped; a long one ends in "..."; the result is at most 3 longer than the input and is stripped |
| `ProjectDescription.StripEllipsized` | app/helpers/projects_helper.rb:253 | stripping a text that ends in "..." only strips its front |
| `ProjectDescription.ShortDescriptionOfLong` | app/helpers/projects_helper.rb:253 | a non-blank description of at least N characters gives the text up to the end of the line that character N is on, leading whitespace removed, followed by "..." |
| `ProjectDescription.DefaultLengthDescription` | app/helpers/projects_helper.rb:248-253 | with the default length of 255, a non-blank description shorter than that is only stripped, and a longer one is cut at its line cut and gets "..." |
| `ProjectMenu.SubprojectItem` | app/helpers/projects_helper.rb:78-85 | offers the new-subproject item or nothing |
| `ProjectMenu.SettingsItem` | app/helpers/projects_helper.rb:87-94 | offers the settings item or nothing |
| `ProjectMenu.ArchiveItem` | app/helpers/projects_helper.rb:96-105 | offers the archive item or nothing |
| `ProjectMenu.UnarchiveItem` | app/helpers/projects_helper.rb:107-115 | offers the unarchive item or nothing |
| `ProjectMenu.CopyItem` | app/helpers/projects_helper.rb:117-124 | offers the copy item or nothing |
| `ProjectMenu.DeleteItem` | app/helpers/projects_helper.rb:126-133 | offers the delete item or nothing |
| `ProjectMenu.Compact` | app/helpers/projects_helper.rb:75 | `compact` keeps exactly the values of the non-nil entries |
| `ProjectMenu.CompactKeepsOrder` | app/helpers/projects_helper.rb:70-75 | `compact` keeps the items in menu order |
| `ProjectMenu.MoreMenuItems` | app/helpers/projects_helper.rb:69-76 | exactly the offered items, each once, in the order subproject, settings, archive, unarchive, copy, delete, so at most six |
| `ProjectMenu.MoreMenuDecisionTable` | app/helpers/projects_helper.rb:78-133 | each item is present exactly when its permission and status condition holds |
| `ProjectMenu.ArchiveAndUnarchiveExclusive` | app/helpers/projects_helper.rb:97-108 | archive and unarchive are never offered together |
| `ProjectMenu.NonAdminMenu` | app/helpers/projects_helper.rb:96-133 | a non-admin can be offered only subproject, settings and copy |
| `ProjectMenu.AdminMenu` | app/helpers/projects_helper.rb:96-133 | an admin always gets delete, and gets exactly one of archive and unarchive unless the project and its parent are both inactive |
| `ProjectMenu.ArchivedProjectNotCopied` | app/helpers/projects_helper.rb:117-124 | an archived project is never offered for copying |
| `ProjectFilters.Whitelist` | app/helpers/projects_helper.rb:46-56 | the custom-field base class is whitelisted exactly when the enterprise flag is on; no other class is |
| `ProjectFilters.Detect` | app/helpers/projects_helper.rb:58 | finds a class exactly when the filter is an instance of one of the classes, and the class found is one of them |
| `ProjectFilters.WhitelistedProjectFilter` | app/helpers/projects_helper.rb:45-59 | returns the filter's own class exactly for the eight project filters, and for custom-field filters when the flag is on |
| `ProjectFilters.SelectWhitelisted` | app/helpers/projects_helper.rb:41 | keeps each whitelisted filter as often as it is available, and drops the rest |
| `ProjectFilters.NameLeTotal` | app/helpers/projects_helper.rb:42 | any two names are comparable |
| `ProjectFilters.NameLeTransitive` | app/helpers/projects_helper.rb:42 | the name order is transitive |
| `ProjectFilters.InsertByName` | app/helpers/projects_helper.rb:42 | inserting into a sorted list gives a sorted list with that filter added |
| `ProjectFilters.SortByName` | app/helpers/projects_helper.rb:42 | the result is sorted by human name and is a permutation of the input |
| `ProjectFilters.SortedByNamePairwise` | app/helpers/projects_helper.rb:42 | in a sorted list every name is at most every later name |
| `ProjectFilters.AllowedFilters` | app/helpers/projects_helper.rb:38-43 | the whitelisted available filters, each as often as available, sorted by human name |
| `ProjectFilters.AllowedFiltersMembership` | app/helpers/projects_helper.rb:38-59 | a filter is offered exactly when it is available and whitelisted; custom-field filters never are while the flag is off |

## Left out

- `shorten_text` (app/helpers/projects_helper.rb:156-158) is not modelled. Its pattern `.{#{length}[^\n\r]*` has no closing brace. What it matches depends on how the regular expression engine reads an unclosed `{`.
- `projects_with_levels_order_sensitive` (app/helpers/projects_helper.rb:190-196) is not modelled. When the list is sorted by `lft` it dispatches to `project_tree`, which is not part of this model; otherwise it calls `projects_with_level`, which is modelled.
- `sorted_by_lft?` (app/helpers/projects_helper.rb:211-213) is not modelled. It only asks whether the first key of the view's mutable sort criteria is `lft`, and those criteria are not part of this model.
- `projects_sort_header_tag` is not modelled. It wraps the framework's `sort_header_tag` around mutable sort criteria.
- `filter_set?`, `no_projects_result_box_params`, `project_options_for_status`, `project_options_for_templated` and `allowed_parent_projects` are not modelled. Neither are `gantt_portfolio_query_link`, `gantt_portfolio_project_ids` and `gantt_portfolio_title`. They depend on request parameters, persistence, contracts, services or translations.
- Authorization (`allowed_to?`, `admin?`) and `EnterpriseToken.allows_to?` are boolean inputs.
- The archive and unarchive items ask `User.current.admin?` (app/helpers/projects_helper.rb:97, 108) and the delete item asks `User.current.admin` (app/helpers/projects_helper.rb:127). The model takes both as the single input `isAdmin`, assuming the attribute and its predicate agree. `ProjectMenu.AdminMenu` and `ProjectMenu.NonAdminMenu` rely on that.
- `project.active?`, `project.archived?` and the parent's `active?` are separate inputs. The project model that relates them is not part of this model.
- Menu items carry only their kind. Their labels, paths, confirmation texts and HTML options are not modelled.
- Filter human names are input strings, because they come from translations. Names are compared character by character, by code point. For UTF-8 text this is the same order as Ruby's byte-wise comparison.
- ProjectFilters.AllowedFilters: does not fix the order of filters whose human names are equal. Ruby's `sort_by` is not stable, so the source does not fix it either.
- ProjectFilters.SelectWhitelisted: states which filters are kept and how often, but not their order. The sort that follows discards that order.
- ProjectMenu.SubprojectItem: its contract states only which item it can offer. ProjectMenu.MoreMenuDecisionTable states when the item is offered.
- ProjectMenu.SettingsItem: its contract states only which item it can offer. ProjectMenu.MoreMenuDecisionTable states when the item is offered.
- ProjectMenu.ArchiveItem: its contract states only which item it can offer. ProjectMenu.MoreMenuDecisionTable states when the item is offered.
- ProjectMenu.UnarchiveItem: its contract states only which item it can offer. ProjectMenu.MoreMenuDecisionTable states when the item is offered.
- ProjectMenu.CopyItem: its contract states only which item it can offer. ProjectMenu.MoreMenuDecisionTable states when the item is offered.
- ProjectMenu.DeleteItem: its contract states only which item it can offer. ProjectMenu.MoreMenuDecisionTable states when the item is offered.
- ProjectDescription.ShortProjectDescription: `length` is a natural number. A negative length, and a length beyond the regular expression engine's repeat limit (which raises an error), are not modelled.
- `strip` treats NUL as whitespace at both ends, as current Ruby documents it. Older Ruby releases kept a leading NUL. `blank?` uses Unicode White_Space, which does not include NUL. So a description of only NUL characters is not blank, yet it strips to "".
- The block given to `projects_with_level` is replaced by the returned sequence of pairs. Side effects of the block are not modelled.
- The level guarantee is usually stated for pre-order input. The model proves it under the weaker contiguous-subtree hypothesis stated above. The alternative traversal by nested-set order is `project_tree`, which is not part of this model.
