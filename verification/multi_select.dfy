/**
 The multi-select combobox: the list of selected values, the toggle and remove
 actions on it, and the badges shown for it in the trigger button.
 */
module MultiSelect {
  import opened Wrappers
  import opened Seqs

  /** An option of the list; `text` is its label. */
  datatype SelectOption = SelectOption(value: string, text: string)

  /** What the trigger button shows: the placeholder, or badges and an optional "+N" badge. */
  datatype Trigger = Placeholder | Chips(badges: seq<string>, more: Option<nat>)

  /** The filter callback `(item) => item !== value`. */
  function Other(value: string): string -> bool {
    (item: string) => item != value
  }

  /** `selected.filter((item) => item !== value)`. */
  function Without(selected: seq<string>, value: string): seq<string> {
    Filter(selected, Other(value))
  }

  /** `handleRemove`: drops every occurrence of `value`, keeping the rest in order. */
  function HandleRemove(selected: seq<string>, value: string): (r: seq<string>)
    ensures value !in r
    ensures forall x :: x != value ==> (x in r <==> x in selected)
    ensures forall x :: x != value ==> multiset(r)[x] == multiset(selected)[x]
    ensures value !in selected ==> r == selected
  {
    FilterMembers(selected, Other(value));
    WithoutFacts(selected, value);
    Without(selected, value)
  }

  lemma WithoutFacts(selected: seq<string>, value: string)
    ensures forall x :: x != value ==> multiset(Without(selected, value))[x] == multiset(selected)[x]
    ensures value !in selected ==> Without(selected, value) == selected
  {
    var keep := Other(value);
    forall x | x != value ensures multiset(Without(selected, value))[x] == multiset(selected)[x] {
      FilterMultiset(selected, keep, x);
    }
    if value !in selected {
      FilterAll(selected, keep);
    }
  }

  /**
   `handleSelect`: a selected value is removed (every occurrence), an unselected one
   is appended at the end.
   */
  function HandleSelect(selected: seq<string>, value: string): (r: seq<string>)
    ensures value in r <==> value !in selected
    ensures forall x :: x != value ==> (x in r <==> x in selected)
    ensures value !in selected ==> |r| == |selected| + 1 && r[..|selected|] == selected && r[|selected|] == value
  {
    if value in selected then HandleRemove(selected, value) else selected + [value]
  }

  /** Removing a value that occurs once deletes exactly that position. */
  lemma RemoveAtIndex(selected: seq<string>, k: int)
    requires Distinct(selected) && 0 <= k < |selected|
    ensures Without(selected, selected[k]) == selected[..k] + selected[k + 1..]
  {
    var v := selected[k];
    var keep := Other(v);
    var pre, post := selected[..k], selected[k + 1..];
    assert selected == pre + [v] + post;
    assert forall i :: 0 <= i < |pre| ==> keep(pre[i]) by {
      forall i | 0 <= i < |pre| ensures pre[i] != v {
        assert pre[i] == selected[i];
      }
    }
    assert forall i :: 0 <= i < |post| ==> keep(post[i]) by {
      forall i | 0 <= i < |post| ensures post[i] != v {
        assert post[i] == selected[k + 1 + i];
      }
    }
    FilterDropsOne(pre, v, post, keep);
  }

  /** Toggling keeps the list free of duplicates. */
  lemma SelectKeepsNoDuplicates(selected: seq<string>, value: string)
    requires Distinct(selected)
    ensures Distinct(HandleSelect(selected, value))
  {
    if value in selected {
      var k :| 0 <= k < |selected| && selected[k] == value;
      RemoveAtIndex(selected, k);
      var r := selected[..k] + selected[k + 1..];
      forall i, j | 0 <= i < j < |r| ensures r[i] != r[j] {
        var i' := if i < k then i else i + 1;
        var j' := if j < k then j else j + 1;
        assert r[i] == selected[i'] && r[j] == selected[j'];
      }
    }
  }

  /** Selecting an unselected value twice restores the list. */
  lemma SelectTwiceRestores(selected: seq<string>, value: string)
    requires value !in selected
    ensures HandleSelect(HandleSelect(selected, value), value) == selected
  {
    var keep := Other(value);
    FilterAppend(selected, [value], keep);
    FilterAll(selected, keep);
  }

  /** Selecting a selected value twice moves it to the end. */
  lemma SelectTwiceMovesToEnd(selected: seq<string>, k: int)
    requires Distinct(selected) && 0 <= k < |selected|
    ensures HandleSelect(HandleSelect(selected, selected[k]), selected[k])
            == selected[..k] + selected[k + 1..] + [selected[k]]
  {
    RemoveAtIndex(selected, k);
  }

  // ---------------------------------------------------------------------------
  // Trigger badges

  /** Is `maxVisibleItems` truthy: given and not 0. */
  predicate Limited(maxVisibleItems: Option<nat>) {
    maxVisibleItems.Some? && maxVisibleItems.value != 0
  }

  /** `maxVisibleItems ? selected.slice(0, maxVisibleItems) : selected`. */
  function VisibleValues(selected: seq<string>, maxVisibleItems: Option<nat>): seq<string> {
    if Limited(maxVisibleItems) then
      selected[..if maxVisibleItems.value < |selected| then maxVisibleItems.value else |selected|]
    else selected
  }

  /** The "+N" badge: shown when a limit is given and exceeded, counting the values left out. */
  function Overflow(selected: seq<string>, maxVisibleItems: Option<nat>): Option<nat> {
    if Limited(maxVisibleItems) && |selected| > maxVisibleItems.value
    then Some(|selected| - maxVisibleItems.value)
    else None
  }

  /** `options.find((option) => option.value === value)?.label`. */
  function LabelOf(options: seq<SelectOption>, value: string): (r: Option<string>)
    ensures r.Some? <==> exists i :: 0 <= i < |options| && options[i].value == value
    ensures r.Some? ==> exists i :: 0 <= i < |options| && options[i].value == value
                                    && options[i].text == r.value
                                    && forall j :: 0 <= j < i ==> options[j].value != value
  {
    match Find(options, (option: SelectOption) => option.value == value)
    case Some(o) => Some(o.text)
    case None => None
  }

  /** The badges for `values`: the label of each, skipping values with no label or an empty one. */
  function Badges(options: seq<SelectOption>, values: seq<string>): (r: seq<string>)
    ensures |r| <= |values|
    ensures forall b :: b in r ==> b != "" && exists v :: v in values && LabelOf(options, v) == Some(b)
  {
    if |values| == 0 then []
    else
      var rest := Badges(options, values[1..]);
      match LabelOf(options, values[0])
      case Some(text) => if text != "" then [text] + rest else rest
      case None => rest
  }

  /** The trigger button's content. */
  function TriggerView(options: seq<SelectOption>, selected: seq<string>, maxVisibleItems: Option<nat>): Trigger {
    if |selected| > 0 then
      Chips(Badges(options, VisibleValues(selected, maxVisibleItems)), Overflow(selected, maxVisibleItems))
    else Placeholder
  }

  /**
   The visible values are a prefix of the selection — the first `min(len, m)` for a
   positive limit `m`, all of them otherwise — and together with "+N" they account
   for every selected value.
   */
  lemma VisiblePlusOverflow(selected: seq<string>, maxVisibleItems: Option<nat>)
    ensures var shown := VisibleValues(selected, maxVisibleItems);
            var more := Overflow(selected, maxVisibleItems);
            && shown <= selected
            && |shown| + (if more.Some? then more.value else 0) == |selected|
            && (Limited(maxVisibleItems) ==> |shown| == if |selected| < maxVisibleItems.value then |selected| else maxVisibleItems.value)
            && (!Limited(maxVisibleItems) ==> shown == selected && more == None)
            && (more.Some? <==> Limited(maxVisibleItems) && |selected| > maxVisibleItems.value)
  {
  }

  /** Does `value` have a label that renders (found and non-empty)? */
  predicate HasLabel(options: seq<SelectOption>, value: string) {
    var l := LabelOf(options, value); l.Some? && l.value != ""
  }

  /** `HasLabel` as a filter callback. */
  function Labelled(options: seq<SelectOption>): string -> bool {
    (v: string) => HasLabel(options, v)
  }

  /** One step of the badges: the head value's label comes first when it renders. */
  lemma BadgesCons(options: seq<SelectOption>, values: seq<string>)
    requires |values| > 0
    ensures Badges(options, values)
            == (if HasLabel(options, values[0]) then [LabelOf(options, values[0]).value] else [])
               + Badges(options, values[1..])
  {
  }

  /**
   The badges are exactly the labels of the labelled values, in selection order:
   one badge per value that has a non-empty label, none for the others.
   */
  lemma {:induction false} BadgesAreLabels(options: seq<SelectOption>, values: seq<string>)
    ensures var shown := Filter(values, Labelled(options));
            && |Badges(options, values)| == |shown|
            && forall i :: 0 <= i < |shown| ==> LabelOf(options, shown[i]) == Some(Badges(options, values)[i])
  {
    if |values| > 0 {
      var rest := values[1..];
      BadgesAreLabels(options, rest);
      BadgesCons(options, values);
      FilterCons(values, Labelled(options));
      var f, b := Filter(rest, Labelled(options)), Badges(options, rest);
      var shown, badges := Filter(values, Labelled(options)), Badges(options, values);
      if HasLabel(options, values[0]) {
        assert shown == [values[0]] + f && badges == [LabelOf(options, values[0]).value] + b;
        forall i | 0 <= i < |shown| ensures LabelOf(options, shown[i]) == Some(badges[i]) {
          if i > 0 {
            assert shown[i] == f[i - 1] && badges[i] == b[i - 1];
          }
        }
      } else {
        assert shown == f && badges == b;
      }
    }
  }

  /** Badges of a concatenation are the badges of each part, concatenated. */
  lemma {:induction false} BadgesAppend(options: seq<SelectOption>, a: seq<string>, b: seq<string>)
    ensures Badges(options, a + b) == Badges(options, a) + Badges(options, b)
  {
    if |a| == 0 {
      assert a + b == b;
    } else {
      assert (a + b)[1..] == a[1..] + b;
      BadgesAppend(options, a[1..], b);
    }
  }

  /** The badges with remove buttons in the open popover: one per labelled selected value. */
  function PopoverBadges(options: seq<SelectOption>, selected: seq<string>): seq<string> {
    if |selected| > 0 then Badges(options, selected) else []
  }

  /**
   The trigger's badges are the first badges of the popover's list: the popover
   shows every selected value, the trigger only the first `maxVisibleItems`.
   */
  lemma TriggerBadgesPrefixPopover(options: seq<SelectOption>, selected: seq<string>, maxVisibleItems: Option<nat>)
    requires |selected| > 0
    ensures TriggerView(options, selected, maxVisibleItems).badges <= PopoverBadges(options, selected)
    ensures !Limited(maxVisibleItems) ==> TriggerView(options, selected, maxVisibleItems).badges == PopoverBadges(options, selected)
  {
    var shown := VisibleValues(selected, maxVisibleItems);
    assert selected == shown + selected[|shown|..];
    BadgesAppend(options, shown, selected[|shown|..]);
  }

  /** The check mark of each option row: whether its value is selected. */
  function CheckMarks(options: seq<SelectOption>, selected: seq<string>): (r: seq<bool>)
    ensures |r| == |options|
    ensures forall i :: 0 <= i < |options| ==> (r[i] <==> options[i].value in selected)
  {
    seq(|options|, i requires 0 <= i < |options| => options[i].value in selected)
  }

  /** Choosing an option row flips its own check mark and the marks of rows with the same value, and no other. */
  lemma SelectFlipsOneMark(options: seq<SelectOption>, selected: seq<string>, k: int)
    requires 0 <= k < |options|
    ensures var before := CheckMarks(options, selected);
            var after := CheckMarks(options, HandleSelect(selected, options[k].value));
            && after[k] == !before[k]
            && forall i :: 0 <= i < |options| ==>
                 (after[i] == before[i] <==> options[i].value != options[k].value)
  {
  }

  /**
   Labels decide only which badges are drawn: the "+N" count depends on the
   selection alone, so an unlabelled value still counts towards it.
   */
  lemma OverflowIgnoresLabels(options1: seq<SelectOption>, options2: seq<SelectOption>,
                              selected: seq<string>, maxVisibleItems: Option<nat>)
    requires |selected| > 0
    ensures TriggerView(options1, selected, maxVisibleItems).more
            == TriggerView(options2, selected, maxVisibleItems).more
  {
  }
}
