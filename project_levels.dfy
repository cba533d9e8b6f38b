/**
 * `projects_with_level`: one forward pass over a list of projects that gives
 * every project its nesting level, using a stack of the currently open
 * ancestors.
 *
 * `is_descendant_of?` is an abstract relation on project ids: `desc(a, b)`
 * holds when project `a` is a (strict) descendant of project `b`.
 */
module ProjectLevels {

  type ProjectId = nat

  /** The attributes of a project that the level helpers read. */
  datatype Project = Project(id: ProjectId, name: string, identifier: string, isLeaf: bool)

  /** One yielded pair: a project together with the level reported for it. */
  datatype LeveledProject = LeveledProject(project: Project, level: nat)

  /** `desc(a, b)` models `a.is_descendant_of?(b)`. */
  type DescendantRelation = (ProjectId, ProjectId) -> bool

  function Last(s: seq<Project>): Project
    requires s != []
  {
    s[|s| - 1]
  }

  function DropLast(s: seq<Project>): seq<Project>
    requires s != []
  {
    s[..|s| - 1]
  }

  /** Each stack entry is a descendant of the entry directly below it. */
  ghost predicate IsChain(stack: seq<Project>, desc: DescendantRelation)
  {
    forall k :: 0 < k < |stack| ==> desc(stack[k].id, stack[k - 1].id)
  }

  /** Each stack entry is a descendant of every entry below it. */
  ghost predicate IsFullChain(stack: seq<Project>, desc: DescendantRelation)
  {
    forall j, k :: 0 <= j < k < |stack| ==> desc(stack[k].id, stack[j].id)
  }

  ghost predicate Transitive(desc: DescendantRelation)
  {
    forall a, b, c :: desc(a, b) && desc(b, c) ==> desc(a, c)
  }

  /**
   * The ordering the helper relies on: a project listed between an ancestor
   * and one of that ancestor's descendants is itself a descendant of the
   * ancestor (every subtree occupies a contiguous stretch of the list, as in
   * a pre-order listing).
   */
  ghost predicate SubtreesContiguous(projects: seq<Project>, desc: DescendantRelation)
  {
    forall i, k, j :: 0 <= i < k < j < |projects| && desc(projects[j].id, projects[i].id) ==>
      desc(projects[k].id, projects[i].id)
  }

  /**
   * The pop loop: drop the top of the stack while it is not an ancestor of
   * `p`. What remains is a prefix of the stack that is empty or ends in an
   * ancestor of `p`, and every entry removed was not an ancestor of `p`.
   */
  function Unwind(stack: seq<Project>, p: Project, desc: DescendantRelation): (r: seq<Project>)
    ensures |r| <= |stack| && r == stack[..|r|]
    ensures r == [] || desc(p.id, r[|r| - 1].id)
    ensures forall k :: |r| <= k < |stack| ==> !desc(p.id, stack[k].id)
    decreases |stack|
  {
    if stack == [] || desc(p.id, Last(stack).id) then stack
    else Unwind(DropLast(stack), p, desc)
  }

  /** The ancestor stack after the helper has handled every project of `projects`. */
  function StackAfter(projects: seq<Project>, desc: DescendantRelation): (r: seq<Project>)
    ensures |r| <= |projects|
    ensures projects != [] ==> r != [] && Last(r) == Last(projects)
    ensures IsChain(r, desc)
    decreases |projects|
  {
    if projects == [] then []
    else Unwind(StackAfter(DropLast(projects), desc), Last(projects), desc) + [Last(projects)]
  }

  /** The pairs the helper yields for `projects`, in the order it yields them. */
  function WithLevel(projects: seq<Project>, desc: DescendantRelation): (r: seq<LeveledProject>)
    ensures |r| == |projects|
    ensures forall i :: 0 <= i < |projects| ==> r[i].project == projects[i]
    decreases |projects|
  {
    if projects == [] then []
    else
      var before := DropLast(projects);
      WithLevel(before, desc)
        + [LeveledProject(Last(projects), |Unwind(StackAfter(before, desc), Last(projects), desc)|)]
  }

  /** The projects of `prefix` that `p` is a descendant of, in list order. */
  function AncestorsAmong(prefix: seq<Project>, p: Project, desc: DescendantRelation): (r: seq<Project>)
    ensures |r| <= |prefix|
    ensures forall x :: x in r ==> desc(p.id, x.id)
    decreases |prefix|
  {
    if prefix == [] then []
    else
      AncestorsAmong(DropLast(prefix), p, desc)
        + (if desc(p.id, Last(prefix).id) then [Last(prefix)] else [])
  }

  /**
   * projects_with_level: yields every project with the size of the ancestor
   * stack after popping the entries that are not its ancestors, then pushes
   * the project. `pops` counts the pops: at most one per project.
   */
  method ProjectsWithLevel(projects: seq<Project>, desc: DescendantRelation)
    returns (visits: seq<LeveledProject>, ghost pops: nat)
    ensures visits == WithLevel(projects, desc)
    ensures |visits| == |projects|
    ensures forall i :: 0 <= i < |projects| ==> visits[i].project == projects[i]
    ensures pops <= |projects|
  {
    var ancestors: seq<Project> := [];
    visits := [];
    pops := 0;
    for i := 0 to |projects|
      invariant visits == WithLevel(projects[..i], desc)
      invariant ancestors == StackAfter(projects[..i], desc)
      invariant pops + |ancestors| == i
    {
      var project := projects[i];
      ghost var open := ancestors;
      while ancestors != [] && !desc(project.id, ancestors[|ancestors| - 1].id)
        invariant Unwind(ancestors, project, desc) == Unwind(open, project, desc)
        invariant pops + |ancestors| == i
        decreases |ancestors|
      {
        ancestors := ancestors[..|ancestors| - 1];
        pops := pops + 1;
      }
      assert ancestors == Unwind(open, project, desc);
      OneMoreProject(projects, i, desc);
      visits := visits + [LeveledProject(project, |ancestors|)];
      ancestors := ancestors + [project];
    }
    assert projects[..|projects|] == projects;
  }

  /** Handling the `i`-th project pops for it, yields one pair and pushes it. */
  lemma OneMoreProject(projects: seq<Project>, i: nat, desc: DescendantRelation)
    requires i < |projects|
    ensures var kept := Unwind(StackAfter(projects[..i], desc), projects[i], desc);
      && StackAfter(projects[..i + 1], desc) == kept + [projects[i]]
      && WithLevel(projects[..i + 1], desc) == WithLevel(projects[..i], desc) + [LeveledProject(projects[i], |kept|)]
  {
    var upTo := projects[..i + 1];
    assert DropLast(upTo) == projects[..i] && Last(upTo) == projects[i];
  }

  // ---------------------------------------------------------------------
  // Properties of the yielded levels
  // ---------------------------------------------------------------------

  /** The level yielded for the `i`-th project is the unwound stack size at that point. */
  lemma {:induction false} WithLevelAt(projects: seq<Project>, desc: DescendantRelation, i: nat)
    requires i < |projects|
    ensures WithLevel(projects, desc)[i].level
         == |Unwind(StackAfter(projects[..i], desc), projects[i], desc)|
    decreases |projects|
  {
    var before := DropLast(projects);
    if i < |projects| - 1 {
      WithLevelAt(before, desc, i);
      assert before[..i] == projects[..i];
    } else {
      assert before == projects[..i];
    }
  }

  /** The first project always gets level 0. */
  lemma FirstLevelIsZero(projects: seq<Project>, desc: DescendantRelation)
    requires projects != []
    ensures WithLevel(projects, desc)[0].level == 0
  {
    WithLevelAt(projects, desc, 0);
    assert projects[..0] == [];
  }

  /** A level exceeds the level just before it by at most one: one push per step. */
  lemma LevelGrowsByAtMostOne(projects: seq<Project>, desc: DescendantRelation, i: nat)
    requires i + 1 < |projects|
    ensures WithLevel(projects, desc)[i + 1].level <= WithLevel(projects, desc)[i].level + 1
  {
    WithLevelAt(projects, desc, i);
    WithLevelAt(projects, desc, i + 1);
    var upTo := projects[..i + 1];
    assert DropLast(upTo) == projects[..i] && Last(upTo) == projects[i];
  }

  /** The `i`-th project is nested at most `i` levels deep. */
  lemma LevelAtMostPosition(projects: seq<Project>, desc: DescendantRelation, i: nat)
    requires i < |projects|
    ensures WithLevel(projects, desc)[i].level <= i
  {
    WithLevelAt(projects, desc, i);
  }

  /** With a transitive relation, a stack chained entry by entry is chained throughout. */
  lemma {:induction false} ChainIsFullChain(stack: seq<Project>, desc: DescendantRelation)
    requires Transitive(desc)
    requires IsChain(stack, desc)
    ensures IsFullChain(stack, desc)
    decreases |stack|
  {
    if stack != [] {
      var below := DropLast(stack);
      assert IsChain(below, desc);
      ChainIsFullChain(below, desc);
      forall j, k | 0 <= j < k < |stack|
        ensures desc(stack[k].id, stack[j].id)
      {
        if k < |stack| - 1 {
          assert below[k] == stack[k] && below[j] == stack[j];
        } else if j < k - 1 {
          assert desc(stack[k - 1].id, stack[j].id);
        }
      }
    }
  }

  /** On a fully chained stack, popping leaves exactly the entries that are ancestors of `p`. */
  lemma {:induction false} UnwindChainKeepsAncestors(stack: seq<Project>, p: Project, desc: DescendantRelation)
    requires Transitive(desc)
    requires IsFullChain(stack, desc)
    ensures Unwind(stack, p, desc) == AncestorsAmong(stack, p, desc)
    decreases |stack|
  {
    if stack == [] {
    } else if desc(p.id, Last(stack).id) {
      AllAncestors(stack, p, desc);
    } else {
      UnwindChainKeepsAncestors(DropLast(stack), p, desc);
    }
  }

  /** When every entry of `prefix` is an ancestor of `p`, filtering keeps all of it. */
  lemma {:induction false} AncestorsAmongAll(prefix: seq<Project>, p: Project, desc: DescendantRelation)
    requires forall k :: 0 <= k < |prefix| ==> desc(p.id, prefix[k].id)
    ensures AncestorsAmong(prefix, p, desc) == prefix
    decreases |prefix|
  {
    if prefix != [] {
      var before := DropLast(prefix);
      AncestorsAmongAll(before, p, desc);
      assert AncestorsAmong(prefix, p, desc) == before + [Last(prefix)];
      assert before + [Last(prefix)] == prefix;
    }
  }

  lemma AllAncestors(stack: seq<Project>, p: Project, desc: DescendantRelation)
    requires Transitive(desc)
    requires IsFullChain(stack, desc)
    requires stack != [] && desc(p.id, Last(stack).id)
    ensures AncestorsAmong(stack, p, desc) == stack
  {
    forall k | 0 <= k < |stack|
      ensures desc(p.id, stack[k].id)
    {
      if k < |stack| - 1 {
        assert desc(Last(stack).id, stack[k].id);
      }
    }
    AncestorsAmongAll(stack, p, desc);
  }

  /**
   * Filtering `prefix` by "ancestor of `q`" and then by "ancestor of `p`" is
   * filtering by "ancestor of `p`" alone, when every ancestor of `p` in
   * `prefix` is one of `q`.
   */
  lemma {:induction false} AncestorsAmongNarrowed(prefix: seq<Project>, q: Project, p: Project, desc: DescendantRelation)
    requires forall k :: 0 <= k < |prefix| && desc(p.id, prefix[k].id) ==> desc(q.id, prefix[k].id)
    ensures AncestorsAmong(AncestorsAmong(prefix, q, desc), p, desc) == AncestorsAmong(prefix, p, desc)
    decreases |prefix|
  {
    if prefix != [] {
      var before := DropLast(prefix);
      var x := Last(prefix);
      forall k | 0 <= k < |before| && desc(p.id, before[k].id)
        ensures desc(q.id, before[k].id)
      {
        assert before[k] == prefix[k];
      }
      AncestorsAmongNarrowed(before, q, p, desc);
      var inner := AncestorsAmong(before, q, desc);
      if desc(q.id, x.id) {
        assert AncestorsAmong(prefix, q, desc) == inner + [x];
        AncestorsAmongAppend(inner, x, p, desc);
      } else {
        assert !desc(p.id, x.id);
        assert AncestorsAmong(prefix, q, desc) == inner;
      }
    }
  }

  lemma AncestorsAmongAppend(prefix: seq<Project>, x: Project, p: Project, desc: DescendantRelation)
    ensures AncestorsAmong(prefix + [x], p, desc)
         == AncestorsAmong(prefix, p, desc) + (if desc(p.id, x.id) then [x] else [])
  {
    assert DropLast(prefix + [x]) == prefix;
  }

  /** A prefix of a list with contiguous subtrees has contiguous subtrees. */
  lemma SubtreesContiguousPrefix(projects: seq<Project>, n: nat, desc: DescendantRelation)
    requires SubtreesContiguous(projects, desc)
    requires n <= |projects|
    ensures SubtreesContiguous(projects[..n], desc)
  {
    var front := projects[..n];
    forall i, k, j | 0 <= i < k < j < |front| && desc(front[j].id, front[i].id)
      ensures desc(front[k].id, front[i].id)
    {
      assert front[i] == projects[i] && front[k] == projects[k] && front[j] == projects[j];
    }
  }

  /** The projects up to and including the `i`-th one have contiguous subtrees. */
  lemma SubtreesContiguousUpTo(projects: seq<Project>, i: nat, desc: DescendantRelation)
    requires SubtreesContiguous(projects, desc)
    requires i < |projects|
    ensures SubtreesContiguous(projects[..i] + [projects[i]], desc)
  {
    var front := projects[..i] + [projects[i]];
    forall a, k, j | 0 <= a < k < j < |front| && desc(front[j].id, front[a].id)
      ensures desc(front[k].id, front[a].id)
    {
      assert front[a] == projects[a] && front[k] == projects[k] && front[j] == projects[j];
    }
  }

  /**
   * In a list with contiguous subtrees, an ancestor of `p` listed before the
   * project `q` that directly precedes `p` is also an ancestor of `q`.
   */
  lemma EarlierAncestorIsAncestorOfPrevious(before: seq<Project>, q: Project, p: Project, desc: DescendantRelation)
    requires SubtreesContiguous(before + [q] + [p], desc)
    ensures forall k :: 0 <= k < |before| && desc(p.id, before[k].id) ==> desc(q.id, before[k].id)
  {
    var all := before + [q] + [p];
    forall k | 0 <= k < |before| && desc(p.id, before[k].id)
      ensures desc(q.id, before[k].id)
    {
      assert all[k] == before[k] && all[|before|] == q && all[|before| + 1] == p;
    }
  }

  /**
   * Under contiguous subtrees and a transitive relation, the stack after
   * popping for `p` holds exactly the earlier-listed ancestors of `p`.
   */
  lemma {:induction false} UnwoundStackIsEarlierAncestors(projects: seq<Project>, p: Project, desc: DescendantRelation)
    requires Transitive(desc)
    requires SubtreesContiguous(projects + [p], desc)
    ensures Unwind(StackAfter(projects, desc), p, desc) == AncestorsAmong(projects, p, desc)
    decreases |projects|
  {
    if projects != [] {
      var before := DropLast(projects);
      var q := Last(projects);
      assert before + [q] == projects;
      assert (projects + [p])[..|projects|] == projects;
      SubtreesContiguousPrefix(projects + [p], |projects|, desc);
      UnwoundStackIsEarlierAncestors(before, q, desc);
      var stack := StackAfter(projects, desc);
      var open := AncestorsAmong(before, q, desc);
      assert stack == open + [q];
      ChainIsFullChain(stack, desc);
      UnwindChainKeepsAncestors(stack, p, desc);
      AncestorsAmongAppend(open, q, p, desc);
      EarlierAncestorIsAncestorOfPrevious(before, q, p, desc);
      AncestorsAmongNarrowed(before, q, p, desc);
      AncestorsAmongAppend(before, q, p, desc);
    }
  }

  /**
   * The guarantee of the helper: for a list whose subtrees are contiguous and
   * a transitive descendant relation, the level of each project is the number
   * of earlier-listed projects that are its ancestors.
   */
  lemma LevelCountsEarlierAncestors(projects: seq<Project>, desc: DescendantRelation, i: nat)
    requires Transitive(desc)
    requires SubtreesContiguous(projects, desc)
    requires i < |projects|
    ensures WithLevel(projects, desc)[i].level == |AncestorsAmong(projects[..i], projects[i], desc)|
  {
    WithLevelAt(projects, desc, i);
    SubtreesContiguousUpTo(projects, i, desc);
    UnwoundStackIsEarlierAncestors(projects[..i], projects[i], desc);
  }

  /**
   * Under the same assumptions the stack after the last project holds that
   * project's earlier-listed ancestors followed by the project itself.
   */
  lemma StackIsOpenAncestors(projects: seq<Project>, desc: DescendantRelation)
    requires Transitive(desc)
    requires SubtreesContiguous(projects, desc)
    requires projects != []
    ensures StackAfter(projects, desc)
         == AncestorsAmong(DropLast(projects), Last(projects), desc) + [Last(projects)]
  {
    var before, last := DropLast(projects), Last(projects);
    assert before + [last] == projects;
    assert SubtreesContiguous(before + [last], desc);
    UnwoundStackIsEarlierAncestors(before, last, desc);
    assert StackAfter(projects, desc) == Unwind(StackAfter(before, desc), last, desc) + [last];
  }

  /**
   * A tree with root 1, children 2 and 4 of 1, and child 3 of 2, listed as
   * 1, 2, 3, 4: the levels are 0, 1, 2, 1.
   */
  lemma SmallTreeLevels()
    ensures var desc := (a: ProjectId, b: ProjectId) =>
                          (a == 2 && b == 1) || (a == 3 && (b == 1 || b == 2)) || (a == 4 && b == 1);
      var projects := [Project(1, "A", "a", false), Project(2, "B", "b", false),
                       Project(3, "C", "c", true), Project(4, "D", "d", true)];
      var levels := WithLevel(projects, desc);
      levels[0].level == 0 && levels[1].level == 1 && levels[2].level == 2 && levels[3].level == 1
  {
    var desc := (a: ProjectId, b: ProjectId) =>
                  (a == 2 && b == 1) || (a == 3 && (b == 1 || b == 2)) || (a == 4 && b == 1);
    var a, b, c, d := Project(1, "A", "a", false), Project(2, "B", "b", false),
                      Project(3, "C", "c", true), Project(4, "D", "d", true);
    var projects := [a, b, c, d];
    assert DropLast(projects) == [a, b, c];
    assert DropLast([a, b, c]) == [a, b];
    assert DropLast([a, b]) == [a];
    assert DropLast([a]) == [];
    assert StackAfter([a], desc) == [a];
    assert Unwind([a], b, desc) == [a];
    assert StackAfter([a, b], desc) == [a, b];
    assert Unwind([a, b], c, desc) == [a, b];
    assert StackAfter([a, b, c], desc) == [a, b, c];
    assert Unwind([a, b], d, desc) == [a];
    assert Unwind([a, b, c], d, desc) == [a];
  }
}
