/**
 * `allowed_filters` and `whitelisted_project_filter?`: the filters of a
 * project query that the project list offers, sorted by their human name.
 */
module ProjectFilters {
  import opened Wrappers

  /**
   * The class of a filter. The eight project filter classes of the
   * whitelist are leaves; `CustomFieldFilter` stands for every subclass of
   * the shared custom-field filter base; any other class is `OtherFilter`.
   */
  datatype FilterClass =
    | ActiveFilter
    | TemplatedFilter
    | PublicFilter
    | ProjectStatusFilter
    | CreatedAtFilter
    | LatestActivityAtFilter
    | NameAndIdentifierFilter
    | TypeFilter
    | CustomFieldFilter
    | OtherFilter(className: string)

  /** An available filter: its class and its (translated) human name. */
  datatype Filter = Filter(kind: FilterClass, humanName: string)

  /** `filter.is_a?(clazz)` over the classes above. */
  predicate IsA(filter: Filter, clazz: FilterClass)
  {
    filter.kind == clazz
  }

  /**
   * The whitelist, in source order; the custom-field base class is appended
   * when the enterprise token allows custom fields in the projects list.
   */
  function Whitelist(customFieldsInProjectsList: bool): (r: seq<FilterClass>)
    ensures CustomFieldFilter in r <==> customFieldsInProjectsList
    ensures forall c :: c in r ==> !c.OtherFilter?
  {
    [ActiveFilter, TemplatedFilter, PublicFilter, ProjectStatusFilter,
     CreatedAtFilter, LatestActivityAtFilter, NameAndIdentifierFilter, TypeFilter]
      + (if customFieldsInProjectsList then [CustomFieldFilter] else [])
  }

  /** `detect`: the first class of `classes` that `filter` is an instance of, or nil. */
  function Detect(classes: seq<FilterClass>, filter: Filter): (r: Option<FilterClass>)
    ensures r.Some? <==> exists i :: 0 <= i < |classes| && IsA(filter, classes[i])
    ensures r.Some? ==> r.value in classes && IsA(filter, r.value)
    decreases |classes|
  {
    if classes == [] then None
    else if IsA(filter, classes[0]) then Some(classes[0])
    else
      var r := Detect(classes[1..], filter);
      assert forall i :: 0 < i < |classes| ==> classes[i] == classes[1..][i - 1];
      r
  }

  /**
   * whitelisted_project_filter?: the filter's own class when it is one of the
   * eight whitelisted project filters, or a custom-field filter while custom
   * fields are allowed; nil otherwise.
   */
  function WhitelistedProjectFilter(filter: Filter, customFieldsInProjectsList: bool): (r: Option<FilterClass>)
    ensures r.Some? <==> !filter.kind.OtherFilter? && (filter.kind == CustomFieldFilter ==> customFieldsInProjectsList)
    ensures r.Some? ==> r.value == filter.kind
  {
    var whitelist := Whitelist(customFieldsInProjectsList);
    var r := Detect(whitelist, filter);
    assert !filter.kind.OtherFilter? && (filter.kind == CustomFieldFilter ==> customFieldsInProjectsList)
      ==> filter.kind in whitelist;
    r
  }

  /** `select`: the whitelisted filters of `available`, in their order. */
  function SelectWhitelisted(available: seq<Filter>, customFieldsInProjectsList: bool): (r: seq<Filter>)
    ensures |r| <= |available|
    ensures forall f :: (multiset(r)[f]
      == if WhitelistedProjectFilter(f, customFieldsInProjectsList).Some? then multiset(available)[f] else 0)
    decreases |available|
  {
    if available == [] then []
    else
      var head := available[0];
      var rest := SelectWhitelisted(available[1..], customFieldsInProjectsList);
      assert multiset(available) == multiset{head} + multiset(available[1..]) by {
        assert available == [head] + available[1..];
      }
      if WhitelistedProjectFilter(head, customFieldsInProjectsList).Some? then
        assert multiset([head] + rest) == multiset{head} + multiset(rest);
        [head] + rest
      else
        rest
  }

  /** String `<=` as Ruby compares strings: character by character, a proper prefix first. */
  predicate NameLe(a: string, b: string)
    decreases |a|
  {
    a == [] || (b != [] && (a[0] < b[0] || (a[0] == b[0] && NameLe(a[1..], b[1..]))))
  }

  lemma {:induction false} NameLeTotal(a: string, b: string)
    ensures NameLe(a, b) || NameLe(b, a)
    decreases |a|
  {
    if a != [] && b != [] && a[0] == b[0] {
      NameLeTotal(a[1..], b[1..]);
    }
  }

  lemma {:induction false} NameLeTransitive(a: string, b: string, c: string)
    requires NameLe(a, b) && NameLe(b, c)
    ensures NameLe(a, c)
    decreases |a|
  {
    if a != [] && a[0] == b[0] && b[0] == c[0] {
      NameLeTransitive(a[1..], b[1..], c[1..]);
    }
  }

  /** Each filter's human name is at most the next one's. */
  predicate SortedByName(s: seq<Filter>)
  {
    forall i :: 0 < i < |s| ==> NameLe(s[i - 1].humanName, s[i].humanName)
  }

  /** Insert `f` into a list sorted by human name, before the first larger name. */
  function InsertByName(f: Filter, s: seq<Filter>): (r: seq<Filter>)
    requires SortedByName(s)
    ensures SortedByName(r)
    ensures multiset(r) == multiset(s) + multiset{f}
    ensures |r| == |s| + 1
    ensures r[0] == f || (s != [] && r[0] == s[0])
    decreases |s|
  {
    if s == [] || NameLe(f.humanName, s[0].humanName) then [f] + s
    else
      NameLeTotal(f.humanName, s[0].humanName);
      var rest := InsertByName(f, s[1..]);
      assert s == [s[0]] + s[1..];
      [s[0]] + rest
  }

  /** `sort_by(&:human_name)`: a permutation of `s` sorted by human name. */
  function SortByName(s: seq<Filter>): (r: seq<Filter>)
    ensures SortedByName(r)
    ensures multiset(r) == multiset(s)
    decreases |s|
  {
    if s == [] then []
    else
      assert s == [s[0]] + s[1..];
      InsertByName(s[0], SortByName(s[1..]))
  }

  /**
   * allowed_filters: the whitelisted filters of `available`, each as often
   * as it is available, sorted by human name.
   */
  function AllowedFilters(available: seq<Filter>, customFieldsInProjectsList: bool): (r: seq<Filter>)
    ensures SortedByName(r)
    ensures forall f :: (multiset(r)[f]
      == if WhitelistedProjectFilter(f, customFieldsInProjectsList).Some? then multiset(available)[f] else 0)
  {
    SortByName(SelectWhitelisted(available, customFieldsInProjectsList))
  }

  /** Sorted by human name means every name is at most every later name. */
  lemma {:induction false} SortedByNamePairwise(s: seq<Filter>, i: nat, j: nat)
    requires SortedByName(s)
    requires i <= j < |s|
    ensures NameLe(s[i].humanName, s[j].humanName)
    decreases j - i
  {
    if i == j {
      NameLeReflexive(s[i].humanName);
    } else {
      SortedByNamePairwise(s, i, j - 1);
      NameLeTransitive(s[i].humanName, s[j - 1].humanName, s[j].humanName);
    }
  }

  lemma {:induction false} NameLeReflexive(a: string)
    ensures NameLe(a, a)
    decreases |a|
  {
    if a != [] {
      NameLeReflexive(a[1..]);
    }
  }

  /**
   * A filter is offered exactly when it is available and whitelisted; the
   * custom-field filters are offered only while custom fields are allowed.
   */
  lemma AllowedFiltersMembership(available: seq<Filter>, customFieldsInProjectsList: bool, f: Filter)
    ensures f in AllowedFilters(available, customFieldsInProjectsList)
        <==> f in available && WhitelistedProjectFilter(f, customFieldsInProjectsList).Some?
    ensures f.kind == CustomFieldFilter && !customFieldsInProjectsList
        ==> f !in AllowedFilters(available, customFieldsInProjectsList)
  {
    var r := AllowedFilters(available, customFieldsInProjectsList);
    assert f in r <==> multiset(r)[f] > 0;
    assert f in available <==> multiset(available)[f] > 0;
  }
}
