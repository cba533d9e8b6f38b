/**
 * `projects_level_list_json`: turns the (project, level) pairs into the
 * records of the `{ projects: [...] }` payload, one record per pair.
 */
module LevelListJson {
  import opened ProjectLevels

  /** One entry of the payload: `id`, `name`, `identifier`, `has_children`, `level`. */
  datatype ProjectJson = ProjectJson(id: ProjectId, name: string, identifier: string, hasChildren: bool, level: nat)

  /** The payload `{ projects: projects_list }`. */
  datatype LevelList = LevelList(projects: seq<ProjectJson>)

  function ItemJson(item: LeveledProject): ProjectJson
  {
    var project := item.project;
    ProjectJson(project.id, project.name, project.identifier, !project.isLeaf, item.level)
  }

  /**
   * One record per item, in item order; each record carries its project's
   * attributes, `has_children` is the negation of the project being a leaf,
   * and `level` is the item's level.
   */
  function ProjectsLevelListJson(items: seq<LeveledProject>): (r: LevelList)
    ensures |r.projects| == |items|
    ensures forall i :: 0 <= i < |items| ==>
      && r.projects[i].id == items[i].project.id
      && r.projects[i].name == items[i].project.name
      && r.projects[i].identifier == items[i].project.identifier
      && r.projects[i].hasChildren == !items[i].project.isLeaf
      && r.projects[i].level == items[i].level
    decreases |items|
  {
    if items == [] then LevelList([])
    else LevelList([ItemJson(items[0])] + ProjectsLevelListJson(items[1..]).projects)
  }

  /**
   * The payload built from the helper's own pairs lists the input projects'
   * ids in input order, starts at level 0 and deepens by at most one level
   * from one record to the next.
   */
  lemma LevelListOfProjectsWithLevel(projects: seq<Project>, desc: DescendantRelation)
    ensures var r := ProjectsLevelListJson(WithLevel(projects, desc));
      && |r.projects| == |projects|
      && (forall i :: 0 <= i < |projects| ==> r.projects[i].id == projects[i].id)
      && (projects != [] ==> r.projects[0].level == 0)
      && (forall i :: 0 <= i < |projects| - 1 ==> r.projects[i + 1].level <= r.projects[i].level + 1)
  {
    var visits := WithLevel(projects, desc);
    var r := ProjectsLevelListJson(visits);
    if projects != [] {
      FirstLevelIsZero(projects, desc);
    }
    forall i | 0 <= i < |projects| - 1
      ensures r.projects[i + 1].level <= r.projects[i].level + 1
    {
      LevelGrowsByAtMostOne(projects, desc, i);
    }
  }
}
