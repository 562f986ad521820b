/**
 The component registry of the documentation site: the list of component
 configurations, their grouping by category for the sidebar, and the lookup
 by URL slug used by the detail pages.
 */
module Registry {
  import opened Wrappers
  import opened Seqs

  /** `ComponentCategory`. */
  datatype Category = Form | Layout | DataDisplay | Feedback

  /**
   The identifying part of a `ComponentConfig`; the description, demo props,
   code example, props table and dependencies are display data only.
   */
  datatype Component = Component(slug: string, name: string, category: Category, registryName: string)

  /** One entry of `componentsByCategory`: a category key and the array under it. */
  datatype Group = Group(category: Category, members: seq<Component>)

  const MultiSelectCombobox := Component("multi-select-combobox", "Multi Select Combobox", Form, "multi-select-combobox")
  const EllipsisPagination := Component("ellipsis-pagination", "Ellipsis Pagination", Layout, "ellipsis-pagination")

  /** The `components` array, in declaration order. */
  const Components: seq<Component> := [MultiSelectCombobox, EllipsisPagination]

  // ---------------------------------------------------------------------------
  // Lookup by slug

  /** `getComponentBySlug`: the first component whose slug matches, or `undefined`. */
  function GetBySlug(comps: seq<Component>, slug: string): (r: Option<Component>)
    ensures r.None? <==> forall i :: 0 <= i < |comps| ==> comps[i].slug != slug
    ensures r.Some? ==> exists i :: 0 <= i < |comps| && comps[i] == r.value && r.value.slug == slug
                                    && forall j :: 0 <= j < i ==> comps[j].slug != slug
  {
    Find(comps, (c: Component) => c.slug == slug)
  }

  /** No two components share a slug. */
  predicate UniqueSlugs(comps: seq<Component>) {
    forall i, j :: 0 <= i < j < |comps| ==> comps[i].slug != comps[j].slug
  }

  /** With unique slugs, looking up a component's own slug finds that component. */
  lemma GetOwnSlug(comps: seq<Component>, k: int)
    requires UniqueSlugs(comps) && 0 <= k < |comps|
    ensures GetBySlug(comps, comps[k].slug) == Some(comps[k])
  {
    var r := GetBySlug(comps, comps[k].slug);
    assert r.Some?;
    var i :| 0 <= i < |comps| && comps[i] == r.value && r.value.slug == comps[k].slug;
    assert forall j :: 0 <= j < |comps| && j != k ==> comps[j].slug != comps[k].slug;
  }

  // ---------------------------------------------------------------------------
  // Grouping by category

  /** `Object.keys(acc)`: the category keys, in insertion order. */
  function Keys(groups: seq<Group>): seq<Category> {
    Map(groups, (g: Group) => g.category)
  }

  predicate DistinctKeys(groups: seq<Group>) {
    forall i, j :: 0 <= i < j < |groups| ==> groups[i].category != groups[j].category
  }

  /** `acc[key]`: the array stored under `key`, or `undefined`. */
  function Lookup(groups: seq<Group>, key: Category): (r: Option<seq<Component>>)
    ensures r.None? <==> key !in Keys(groups)
  {
    if |groups| == 0 then None
    else if groups[0].category == key then Some(groups[0].members)
    else
      assert Keys(groups) == [groups[0].category] + Keys(groups[1..]);
      Lookup(groups[1..], key)
  }

  /**
   The reducer's step: create the array for the component's category if it is
   missing (a new key goes last, as object keys keep insertion order), then push.
   */
  function Add(groups: seq<Group>, c: Component): (r: seq<Group>)
    ensures |r| == |groups| || |r| == |groups| + 1
  {
    if |groups| == 0 then [Group(c.category, [c])]
    else if groups[0].category == c.category then [Group(c.category, groups[0].members + [c])] + groups[1..]
    else [groups[0]] + Add(groups[1..], c)
  }

  /** `components.reduce(step, {})`: a left fold over the components. */
  function GroupByCategory(comps: seq<Component>): (r: seq<Group>)
    ensures |r| <= |comps|
  {
    if |comps| == 0 then []
    else Add(GroupByCategory(comps[..|comps| - 1]), comps[|comps| - 1])
  }

  /** The filter callback `(c) => c.category === key`. */
  function InCategory(key: Category): Component -> bool {
    (c: Component) => c.category == key
  }

  /** The categories of the components, in order. */
  function Categories(comps: seq<Component>): seq<Category> {
    Map(comps, (c: Component) => c.category)
  }

  /** The position of the first component of category `key`; the length when there is none. */
  function FirstIndex(cats: seq<Category>, key: Category): (r: nat)
    ensures r <= |cats| && key !in cats[..r]
    ensures r < |cats| <==> key in cats
    ensures r < |cats| ==> cats[r] == key
  {
    if |cats| == 0 then 0
    else if cats[0] == key then 0
    else
      assert cats == [cats[0]] + cats[1..];
      var r := 1 + FirstIndex(cats[1..], key);
      assert cats[..r] == [cats[0]] + cats[1..][..r - 1];
      r
  }

  /** A position holding `key` with no earlier occurrence is the first index. */
  lemma {:induction false} FirstIndexIs(cats: seq<Category>, key: Category, n: nat)
    requires n < |cats| && cats[n] == key && forall m :: 0 <= m < n ==> cats[m] != key
    ensures FirstIndex(cats, key) == n
  {
    if n > 0 {
      FirstIndexIs(cats[1..], key, n - 1);
    }
  }

  /** The first occurrence of a key already in a prefix is not moved by extending it. */
  lemma FirstIndexPrefix(a: seq<Category>, b: seq<Category>, key: Category)
    requires key in a
    ensures FirstIndex(a + b, key) == FirstIndex(a, key)
  {
    var j := FirstIndex(a, key);
    forall m | 0 <= m < j ensures (a + b)[m] != key {
      assert a[..j][m] == a[m];
    }
    FirstIndexIs(a + b, key, j);
  }

  /** The keys of a non-empty list are its first category followed by the keys of the rest. */
  lemma KeysCons(groups: seq<Group>)
    requires |groups| > 0
    ensures Keys(groups) == [groups[0].category] + Keys(groups[1..])
  {
  }

  /** The reducer's step appends the component's category to the keys when it is new. */
  lemma {:induction false} AddKeys(groups: seq<Group>, c: Component)
    ensures Keys(Add(groups, c)) == if c.category in Keys(groups) then Keys(groups) else Keys(groups) + [c.category]
  {
    if |groups| > 0 {
      var rest := groups[1..];
      var r := Add(groups, c);
      KeysCons(groups);
      KeysCons(r);
      if groups[0].category == c.category {
        assert r[1..] == rest;
        assert c.category in Keys(groups);
      } else {
        AddKeys(rest, c);
        assert r[1..] == Add(rest, c);
        assert c.category in Keys(groups) <==> c.category in Keys(rest);
      }
    }
  }

  /** The reducer's step keeps the keys distinct. */
  lemma AddDistinct(groups: seq<Group>, c: Component)
    requires DistinctKeys(groups)
    ensures DistinctKeys(Add(groups, c))
  {
    AddKeys(groups, c);
    var r := Add(groups, c);
    forall i, j | 0 <= i < j < |r| ensures r[i].category != r[j].category {
      assert Keys(r)[i] == r[i].category && Keys(r)[j] == r[j].category;
      if j < |groups| {
        assert Keys(groups)[i] == groups[i].category && Keys(groups)[j] == groups[j].category;
      } else {
        assert Keys(groups)[i] == groups[i].category;
      }
    }
  }

  /**
   The reducer's step changes only the component's own category, which gains the
   component at the end of its array (a fresh array holding just it when new).
   */
  lemma {:induction false} AddLookup(groups: seq<Group>, c: Component, k: Category)
    ensures Lookup(Add(groups, c), k)
            == if k != c.category then Lookup(groups, k)
               else Some(if Lookup(groups, k).Some? then Lookup(groups, k).value + [c] else [c])
  {
    if |groups| > 0 {
      var r := Add(groups, c);
      if groups[0].category == c.category {
        assert r[1..] == groups[1..];
      } else {
        AddLookup(groups[1..], c, k);
        assert r[1..] == Add(groups[1..], c);
      }
    }
  }

  /** `componentsByCategory` has each category that occurs as a key, once, and no other. */
  lemma {:induction false} GroupKeys(comps: seq<Component>)
    ensures DistinctKeys(GroupByCategory(comps))
    ensures forall k :: k in Keys(GroupByCategory(comps)) <==> k in Categories(comps)
  {
    if |comps| > 0 {
      var init, c := comps[..|comps| - 1], comps[|comps| - 1];
      GroupKeys(init);
      var g := GroupByCategory(init);
      AddDistinct(g, c);
      AddKeys(g, c);
      assert Categories(comps) == Categories(init) + [c.category];
    }
  }

  /** `acc[key] ?? []`. */
  function Members(groups: seq<Group>, key: Category): seq<Component> {
    var l := Lookup(groups, key); if l.Some? then l.value else []
  }

  /** `[c].filter(p)`. */
  lemma FilterSingle<T>(c: T, p: T -> bool)
    ensures Filter([c], p) == if p(c) then [c] else []
  {
    assert [c][1..] == [];
  }

  /** Every category's array, missing ones read as empty, is the category's filter. */
  lemma {:induction false} GroupMembers(comps: seq<Component>, k: Category)
    ensures Members(GroupByCategory(comps), k) == Filter(comps, InCategory(k))
  {
    if |comps| > 0 {
      var init, c := comps[..|comps| - 1], comps[|comps| - 1];
      assert comps == init + [c];
      GroupMembers(init, k);
      AddLookup(GroupByCategory(init), c, k);
      FilterAppend(init, [c], InCategory(k));
      FilterSingle(c, InCategory(k));
    }
  }

  /**
   Under each key of `componentsByCategory` is exactly the list of components of
   that category, in declaration order: no array is empty and no component is lost
   or repeated.
   */
  lemma GroupContents(comps: seq<Component>, k: Category)
    requires k in Categories(comps)
    ensures Lookup(GroupByCategory(comps), k) == Some(Filter(comps, InCategory(k)))
    ensures |Lookup(GroupByCategory(comps), k).value| > 0
  {
    GroupKeys(comps);
    GroupMembers(comps, k);
    var i :| 0 <= i < |comps| && Categories(comps)[i] == k;
    FilterMembers(comps, InCategory(k));
    assert comps[i] in comps;
  }

  /** Each key's first component comes before the next key's first component. */
  predicate InFirstOrder(keys: seq<Category>, cats: seq<Category>) {
    forall i, j :: 0 <= i < j < |keys| ==> FirstIndex(cats, keys[i]) < FirstIndex(cats, keys[j])
  }

  /** Appending a category keeps the order; a category seen for the first time may be appended to the keys. */
  lemma OrderStep(keys: seq<Category>, cats: seq<Category>, x: Category)
    requires InFirstOrder(keys, cats)
    requires forall i :: 0 <= i < |keys| ==> keys[i] in cats
    ensures InFirstOrder(keys, cats + [x])
    ensures x !in cats ==> InFirstOrder(keys + [x], cats + [x])
  {
    forall k | k in cats ensures FirstIndex(cats + [x], k) == FirstIndex(cats, k) {
      FirstIndexPrefix(cats, [x], k);
    }
    if x !in cats {
      forall m | 0 <= m < |cats| ensures (cats + [x])[m] != x {
        assert (cats + [x])[m] == cats[m];
      }
      FirstIndexIs(cats + [x], x, |cats|);
      var ks := keys + [x];
      forall i, j | 0 <= i < j < |ks| ensures FirstIndex(cats + [x], ks[i]) < FirstIndex(cats + [x], ks[j]) {
        assert ks[i] == keys[i];
        if j < |keys| {
          assert ks[j] == keys[j];
        }
      }
    }
  }

  /** The keys of `componentsByCategory` come in the order of each category's first component. */
  lemma {:induction false} GroupOrder(comps: seq<Component>)
    ensures InFirstOrder(Keys(GroupByCategory(comps)), Categories(comps))
  {
    if |comps| > 0 {
      var init, c := comps[..|comps| - 1], comps[|comps| - 1];
      GroupOrder(init);
      GroupKeys(init);
      var g := GroupByCategory(init);
      AddKeys(g, c);
      assert Categories(comps) == Categories(init) + [c.category];
      forall i | 0 <= i < |Keys(g)| ensures Keys(g)[i] in Categories(init) {
        assert Keys(g)[i] in Keys(g);
      }
      OrderStep(Keys(g), Categories(init), c.category);
    }
  }

  /** The total length of the arrays under all keys. */
  function SumSizes(groups: seq<Group>): nat {
    if |groups| == 0 then 0 else |groups[0].members| + SumSizes(groups[1..])
  }

  /** The reducer's step stores exactly one more component. */
  lemma {:induction false} AddSize(groups: seq<Group>, c: Component)
    ensures SumSizes(Add(groups, c)) == SumSizes(groups) + 1
  {
    if |groups| > 0 {
      var r := Add(groups, c);
      if groups[0].category == c.category {
        assert r[1..] == groups[1..];
      } else {
        AddSize(groups[1..], c);
        assert r[1..] == Add(groups[1..], c);
      }
    }
  }

  /** Every component is stored under exactly one key: the group sizes sum to the number of components. */
  lemma {:induction false} GroupSizes(comps: seq<Component>)
    ensures SumSizes(GroupByCategory(comps)) == |comps|
  {
    if |comps| > 0 {
      var init := comps[..|comps| - 1];
      GroupSizes(init);
      AddSize(GroupByCategory(init), comps[|comps| - 1]);
    }
  }

  // ---------------------------------------------------------------------------
  // The site's registry

  /** The two registered components have different slugs, and each slug finds its own entry. */
  lemma RegistryLookups()
    ensures UniqueSlugs(Components)
    ensures GetBySlug(Components, "multi-select-combobox") == Some(MultiSelectCombobox)
    ensures GetBySlug(Components, "ellipsis-pagination") == Some(EllipsisPagination)
    ensures GetBySlug(Components, "exponential-pagination") == None
  {
    GetOwnSlug(Components, 0);
    GetOwnSlug(Components, 1);
  }

  /** The sidebar lists "form" then "layout", one component each. */
  lemma RegistryGroups()
    ensures GroupByCategory(Components)
            == [Group(Form, [MultiSelectCombobox]), Group(Layout, [EllipsisPagination])]
  {
    var first := Components[..1];
    assert first == [MultiSelectCombobox];
    assert first[..0] == [];
    assert GroupByCategory(first) == Add([], MultiSelectCombobox) == [Group(Form, [MultiSelectCombobox])];
    assert Components[..|Components| - 1] == first;
    assert GroupByCategory(Components) == Add([Group(Form, [MultiSelectCombobox])], EllipsisPagination);
    assert Add([Group(Form, [MultiSelectCombobox])], EllipsisPagination)
           == [Group(Form, [MultiSelectCombobox])] + Add([], EllipsisPagination);
  }
}
