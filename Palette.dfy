/**
 * The GladePalette: one expander section per widget group of the loaded
 * catalogs, each holding one toggle item per widget adaptor, plus a selector
 * toggle button. The items and the selector behave as one radio group: the
 * palette's "toggled" handlers react to each button's state change, and
 * setting a button's state from inside a handler runs the handlers again,
 * synchronously.
 *
 * The class `Palette` keeps the palette's private fields, the items' and the
 * selector's active flags, and the application's pointer mode. Its handler
 * methods call each other exactly as the emissions nest, and each is proved
 * to end in the state a closed-form function of the old state describes.
 * The lemmas then prove the radio-group invariants of those functions.
 */
module GladePalette {
  import opened Optional

  // ---------------------------------------------------------------------
  // Catalog input and palette contents
  // ---------------------------------------------------------------------

  /** A GladeWidgetAdaptor, as far as the palette reads it. */
  datatype Adaptor = Adaptor(name: string, title: string, toplevel: bool)

  /** A GladeWidgetGroup: a titled list of adaptors. */
  datatype Group = Group(name: string, title: string, expanded: bool, adaptors: seq<Adaptor>)

  /** A GladeCatalog: its widget groups in order. */
  datatype Catalog = Catalog(name: string, groups: seq<Group>)

  datatype Appearance = IconAndLabel | IconOnly | LabelOnly

  /** The application's pointer mode (glade_app_set_pointer_mode). */
  datatype PointerMode = Select | AddWidget

  /** A GladePaletteItem toggle button. */
  datatype Item = Item(adaptor: Adaptor, active: bool, appearance: Appearance, smallIcon: bool, hasTooltip: bool)

  /** An expander section and the items inside it. */
  datatype Section = Section(title: string, expanded: bool, items: seq<Item>)

  /** Where an item sits: its section and its place in that section. */
  datatype ItemId = ItemId(section: nat, index: nat)

  predicate ValidId(ss: seq<Section>, id: ItemId)
  {
    id.section < |ss| && id.index < |ss[id.section].items|
  }

  function ItemAt(ss: seq<Section>, id: ItemId): Item
    requires ValidId(ss, id)
  {
    ss[id.section].items[id.index]
  }

  /** Same sections with the same number of items each. */
  ghost predicate SameLayout(ss: seq<Section>, ts: seq<Section>)
  {
    |ss| == |ts| &&
    forall s :: 0 <= s < |ss| ==>
      ts[s].title == ss[s].title && ts[s].expanded == ss[s].expanded && |ts[s].items| == |ss[s].items|
  }

  /** The sections after one button's active flag becomes `v`. */
  function WithActive(ss: seq<Section>, id: ItemId, v: bool): (r: seq<Section>)
    requires ValidId(ss, id)
    ensures SameLayout(ss, r)
    ensures forall j :: ValidId(ss, j) ==>
      ItemAt(r, j) == if j == id then ItemAt(ss, j).(active := v) else ItemAt(ss, j)
  {
    var sec := ss[id.section];
    ss[id.section := sec.(items := sec.items[id.index := sec.items[id.index].(active := v)])]
  }

  function Bit(b: bool): nat
  {
    if b then 1 else 0
  }

  function CountItems(items: seq<Item>): nat
  {
    if items == [] then 0 else Bit(items[0].active) + CountItems(items[1..])
  }

  /** How many item buttons are active. */
  function CountActive(ss: seq<Section>): nat
  {
    if ss == [] then 0 else CountItems(ss[0].items) + CountActive(ss[1..])
  }

  lemma {:induction false} CountItemsUpdate(items: seq<Item>, k: nat, x: Item)
    requires k < |items|
    ensures CountItems(items[k := x]) == CountItems(items) - Bit(items[k].active) + Bit(x.active)
    decreases k
  {
    if k == 0 {
      assert items[k := x][1..] == items[1..];
    } else {
      assert items[k := x][1..] == items[1..][k - 1 := x];
      CountItemsUpdate(items[1..], k - 1, x);
    }
  }

  lemma {:induction false} CountActiveUpdate(ss: seq<Section>, s: nat, sec: Section)
    requires s < |ss|
    ensures CountActive(ss[s := sec]) == CountActive(ss) - CountItems(ss[s].items) + CountItems(sec.items)
    decreases s
  {
    if s == 0 {
      assert ss[s := sec][1..] == ss[1..];
    } else {
      assert ss[s := sec][1..] == ss[1..][s - 1 := sec];
      CountActiveUpdate(ss[1..], s - 1, sec);
    }
  }

  /** Switching one button moves the number of active buttons by the change in
      that button's own flag. */
  lemma WithActiveCount(ss: seq<Section>, id: ItemId, v: bool)
    requires ValidId(ss, id)
    ensures CountActive(WithActive(ss, id, v)) == CountActive(ss) - Bit(ItemAt(ss, id).active) + Bit(v)
  {
    var sec := ss[id.section];
    var x := sec.items[id.index].(active := v);
    CountItemsUpdate(sec.items, id.index, x);
    CountActiveUpdate(ss, id.section, sec.(items := sec.items[id.index := x]));
  }

  // ---------------------------------------------------------------------
  // The palette's state and the closed form of each handler
  // ---------------------------------------------------------------------

  /**
   * Everything the handlers read or change: the sections with the items'
   * flags, the current item, the selector's active flag, the application's
   * pointer mode, sticky selection mode, the appearance settings and the
   * number of "toggled" signals the palette has emitted.
   */
  datatype State = State(
    sections: seq<Section>,
    current: Option<ItemId>,
    selectorActive: bool,
    pointer: PointerMode,
    sticky: bool,
    appearance: Appearance,
    smallIcons: bool,
    toggled: nat)

  predicate WellFormed(s: State)
  {
    s.current.Some? ==> ValidId(s.sections, s.current.value)
  }

  /**
   * The radio-group invariant: a button is active exactly when it is the
   * current item, the selector is active exactly when no item is current,
   * the pointer mode follows the current item, and sticky mode is off when
   * nothing is current.
   */
  ghost predicate Consistent(s: State)
  {
    WellFormed(s) &&
    (forall id :: ValidId(s.sections, id) ==> (ItemAt(s.sections, id).active <==> s.current == Some(id))) &&
    (s.selectorActive <==> s.current.None?) &&
    s.pointer == (if s.current.None? then Select else AddWidget) &&
    (s.current.None? ==> !s.sticky)
  }

  /** At most one item is active, and it is the current one. */
  lemma ConsistentMeans(s: State, a: ItemId, b: ItemId)
    requires Consistent(s)
    requires ValidId(s.sections, a) && ItemAt(s.sections, a).active
    requires ValidId(s.sections, b) && ItemAt(s.sections, b).active
    ensures a == b && s.current == Some(a) && !s.selectorActive && s.pointer == AddWidget
  {
  }

  /**
   * The current item's button has just been switched off
   * (glade_palette_on_button_toggled, first branch): nothing is current, the
   * pointer returns to SELECT, the selector is switched on, sticky mode ends
   * and "toggled" is emitted.
   */
  function ToggledOff(s: State): State
  {
    s.(current := None, pointer := Select, selectorActive := true, sticky := false, toggled := s.toggled + 1)
  }

  /** gtk_toggle_button_set_active (item, FALSE) on the current item `a`. */
  function SwitchedOff(s: State, a: ItemId): State
    requires ValidId(s.sections, a)
  {
    if ItemAt(s.sections, a).active then ToggledOff(s.(sections := WithActive(s.sections, a, false)))
    else s
  }

  /**
   * Item `id` has just been switched on (last branch of
   * glade_palette_on_button_toggled): the previous current item, if any, is
   * switched off through its own handler; then `id` becomes current, the
   * pointer mode becomes ADD_WIDGET, the selector is switched off, sticky
   * mode is chosen from the adaptor and the Control key, and "toggled" is
   * emitted.
   */
  function Activated(s: State, id: ItemId, ctrl: bool): State
    requires WellFormed(s) && ValidId(s.sections, id)
  {
    var t := if s.current.Some? && s.current.value != id then SwitchedOff(s, s.current.value) else s;
    t.(current := Some(id), pointer := AddWidget, selectorActive := false,
       sticky := !ItemAt(s.sections, id).adaptor.toplevel && ctrl, toggled := t.toggled + 1)
  }

  /** glade_palette_on_button_toggled for item `id`, whose flag has just changed. */
  function ButtonToggled(s: State, id: ItemId, ctrl: bool): State
    requires WellFormed(s) && ValidId(s.sections, id)
  {
    if s.current == Some(id) then ToggledOff(s)
    else if !ItemAt(s.sections, id).active then s
    else Activated(s, id, ctrl)
  }

  /** glade_palette_deselect_current_item. */
  function Deselected(s: State, stickyAware: bool): State
    requires WellFormed(s)
  {
    if stickyAware && s.sticky then s
    else if s.current.None? then s
    else
      var t := SwitchedOff(s, s.current.value);
      t.(current := None, pointer := Select, toggled := t.toggled + 1)
  }

  /** selector_button_toggled_cb, the selector's flag having just changed. */
  function SelectorToggled(s: State): State
    requires WellFormed(s)
  {
    if s.selectorActive then Deselected(s, false)
    else if s.current.None? then s.(selectorActive := true)
    else s
  }

  /** The user clicks item `id`: its flag flips and its handler runs. */
  function ItemClicked(s: State, id: ItemId, ctrl: bool): State
    requires WellFormed(s) && ValidId(s.sections, id)
  {
    ButtonToggled(s.(sections := WithActive(s.sections, id, !ItemAt(s.sections, id).active)), id, ctrl)
  }

  /** The user clicks the selector: its flag flips and its handler runs. */
  function SelectorClicked(s: State): State
    requires WellFormed(s)
  {
    SelectorToggled(s.(selectorActive := !s.selectorActive))
  }

  /**
   * Clicking a button that is not current activates it: it becomes the only
   * active button and the current item, the selector goes off, the pointer
   * mode becomes ADD_WIDGET, sticky mode is on exactly when the adaptor is
   * not a toplevel and Control is held, and "toggled" is emitted once more
   * when another item had to be switched off first.
   */
  lemma ItemClickedActivates(s: State, id: ItemId, ctrl: bool)
    requires Consistent(s) && ValidId(s.sections, id) && s.current != Some(id)
    ensures var r := ItemClicked(s, id, ctrl);
      SameLayout(s.sections, r.sections) &&
      (forall j :: ValidId(r.sections, j) ==> (ItemAt(r.sections, j).active <==> j == id)) &&
      r.current == Some(id) && !r.selectorActive && r.pointer == AddWidget &&
      (r.sticky <==> !ItemAt(s.sections, id).adaptor.toplevel && ctrl) &&
      r.toggled == s.toggled + (if s.current.Some? then 2 else 1) &&
      r.appearance == s.appearance && r.smallIcons == s.smallIcons
  {
    var t := s.(sections := WithActive(s.sections, id, true));
    if s.current.Some? {
      var c := s.current.value;
      var u := WithActive(t.sections, c, false);
      forall j | ValidId(u, j) ensures ItemAt(u, j).active <==> j == id {
        assert ValidId(t.sections, j) && ValidId(s.sections, j);
      }
    }
  }

  /**
   * Clicking the current item deactivates it: nothing is current, no button
   * is active, the selector is back on, the pointer mode is SELECT, sticky
   * mode is off and "toggled" is emitted once.
   */
  lemma ItemClickedDeactivates(s: State, id: ItemId, ctrl: bool)
    requires Consistent(s) && s.current == Some(id)
    ensures var r := ItemClicked(s, id, ctrl);
      SameLayout(s.sections, r.sections) &&
      (forall j :: ValidId(r.sections, j) ==> !ItemAt(r.sections, j).active) &&
      r.current.None? && r.selectorActive && r.pointer == Select && !r.sticky &&
      r.toggled == s.toggled + 1
  {
    var r := ItemClicked(s, id, ctrl);
    forall j | ValidId(r.sections, j) ensures !ItemAt(r.sections, j).active {
      assert ValidId(s.sections, j);
    }
  }

  /**
   * A "toggled" notification for a button that is not current and is off
   * changes nothing; one for a button that is not current and is on
   * activates it; one for the current button deactivates it.
   */
  lemma ButtonToggledCases(s: State, id: ItemId, ctrl: bool)
    requires WellFormed(s) && ValidId(s.sections, id)
    ensures s.current != Some(id) && !ItemAt(s.sections, id).active ==> ButtonToggled(s, id, ctrl) == s
    ensures s.current == Some(id) ==>
      var r := ButtonToggled(s, id, ctrl);
      r.sections == s.sections && r.current.None? && r.selectorActive && r.pointer == Select && !r.sticky
    ensures s.current != Some(id) && ItemAt(s.sections, id).active ==>
      var r := ButtonToggled(s, id, ctrl);
      r.current == Some(id) && !r.selectorActive && r.pointer == AddWidget &&
      (r.sticky <==> !ItemAt(s.sections, id).adaptor.toplevel && ctrl)
  {
  }

  /**
   * Clicking the selector while an item is current deselects that item;
   * clicking it while nothing is current turns it off, and its handler
   * turns it straight back on, so nothing changes.
   */
  lemma SelectorClickedEffect(s: State)
    requires Consistent(s)
    ensures s.current.None? ==> SelectorClicked(s) == s
    ensures s.current.Some? ==> SelectorClicked(s) == Deselected(s, false)
  {
    if s.current.None? {
      assert SelectorClicked(s) == s.(selectorActive := false).(selectorActive := true);
    }
  }

  /**
   * glade_palette_deselect_current_item does nothing while sticky mode is on
   * and it is asked to respect it, and nothing when no item is current;
   * otherwise no item is current or active afterwards, the selector is on,
   * the pointer mode is SELECT and "toggled" has been emitted twice.
   */
  lemma DeselectedEffect(s: State, stickyAware: bool)
    requires Consistent(s)
    ensures stickyAware && s.sticky ==> Deselected(s, stickyAware) == s
    ensures s.current.None? ==> Deselected(s, stickyAware) == s
    ensures !(stickyAware && s.sticky) && s.current.Some? ==>
      var r := Deselected(s, stickyAware);
      SameLayout(s.sections, r.sections) &&
      (forall j :: ValidId(r.sections, j) ==> !ItemAt(r.sections, j).active) &&
      r.current.None? && r.selectorActive && r.pointer == Select && !r.sticky &&
      r.toggled == s.toggled + 2
  {
    if !(stickyAware && s.sticky) && s.current.Some? {
      var r := Deselected(s, stickyAware);
      forall j | ValidId(r.sections, j) ensures !ItemAt(r.sections, j).active {
        assert ValidId(s.sections, j);
      }
    }
  }

  // ---------------------------------------------------------------------
  // Appearance
  // ---------------------------------------------------------------------

  /** glade_palette_update_appearance on one item. */
  function Restyle(it: Item, a: Appearance, small: bool): Item
  {
    it.(appearance := a, smallIcon := small, hasTooltip := a == IconOnly)
  }

  function RestyleSection(sec: Section, a: Appearance, small: bool): Section
  {
    sec.(items := seq(|sec.items|, k requires 0 <= k < |sec.items| => Restyle(sec.items[k], a, small)))
  }

  /** Every item of every section restyled. */
  function Restyled(ss: seq<Section>, a: Appearance, small: bool): seq<Section>
  {
    seq(|ss|, i requires 0 <= i < |ss| => RestyleSection(ss[i], a, small))
  }

  /**
   * Restyling keeps every section and item in place with its adaptor and its
   * active flag, gives every item the palette's appearance and icon size, and
   * turns tooltips on exactly when items show only icons.
   */
  lemma RestyledSpec(ss: seq<Section>, a: Appearance, small: bool)
    ensures SameLayout(ss, Restyled(ss, a, small))
    ensures forall j :: ValidId(ss, j) ==>
      var it := ItemAt(Restyled(ss, a, small), j);
      it.adaptor == ItemAt(ss, j).adaptor && it.active == ItemAt(ss, j).active &&
      it.appearance == a && it.smallIcon == small && (it.hasTooltip <==> a == IconOnly)
  {
  }

  /** glade_palette_set_item_appearance. */
  function AppearanceSet(s: State, a: Appearance): State
  {
    if s.appearance == a then s
    else s.(appearance := a, sections := Restyled(s.sections, a, s.smallIcons))
  }

  /** glade_palette_set_use_small_item_icons. */
  function SmallIconsSet(s: State, small: bool): State
  {
    if s.smallIcons == small then s
    else s.(smallIcons := small, sections := Restyled(s.sections, s.appearance, small))
  }

  /** Changing the appearance settings never disturbs the selection. */
  lemma RestyleKeepsConsistent(s: State, a: Appearance, small: bool)
    requires Consistent(s)
    ensures Consistent(AppearanceSet(s, a)) && Consistent(SmallIconsSet(s, small))
  {
    RestyledSpec(s.sections, a, s.smallIcons);
    RestyledSpec(s.sections, s.appearance, small);
  }

  // ---------------------------------------------------------------------
  // Construction
  // ---------------------------------------------------------------------

  /**
   * glade_palette_new_item: an inactive item for `adaptor` in the palette's
   * appearance, with its title as tooltip. A new GladePaletteItem is taken to
   * use normal-size icons.
   */
  function NewItem(adaptor: Adaptor, a: Appearance): Item
  {
    Item(adaptor, false, a, false, true)
  }

  /** The items glade_palette_new_item_group creates, one per adaptor. */
  function ItemsFor(adaptors: seq<Adaptor>, a: Appearance): seq<Item>
  {
    if adaptors == [] then []
    else ItemsFor(adaptors[..|adaptors| - 1], a) + [NewItem(adaptors[|adaptors| - 1], a)]
  }

  lemma {:induction false} ItemsForSpec(adaptors: seq<Adaptor>, a: Appearance)
    ensures |ItemsFor(adaptors, a)| == |adaptors|
    ensures forall k :: 0 <= k < |adaptors| ==> ItemsFor(adaptors, a)[k] == NewItem(adaptors[k], a)
  {
    if adaptors != [] {
      ItemsForSpec(adaptors[..|adaptors| - 1], a);
    }
  }

  /** The section glade_palette_new_item_group makes for a group. */
  function SectionFor(g: Group, a: Appearance): Section
  {
    Section(g.title, g.expanded, ItemsFor(g.adaptors, a))
  }

  /** The groups of a catalog that have adaptors, in order. */
  function NonEmpty(gs: seq<Group>): seq<Group>
  {
    if gs == [] then []
    else NonEmpty(gs[..|gs| - 1]) + (if gs[|gs| - 1].adaptors != [] then [gs[|gs| - 1]] else [])
  }

  /** The groups that get a section: catalog by catalog, group by group. */
  function PaletteGroups(cs: seq<Catalog>): seq<Group>
  {
    if cs == [] then []
    else PaletteGroups(cs[..|cs| - 1]) + NonEmpty(cs[|cs| - 1].groups)
  }

  function SectionsFor(gs: seq<Group>, a: Appearance): seq<Section>
  {
    if gs == [] then []
    else SectionsFor(gs[..|gs| - 1], a) + [SectionFor(gs[|gs| - 1], a)]
  }

  lemma {:induction false} NonEmptyConcat(a: seq<Group>, b: seq<Group>)
    ensures NonEmpty(a + b) == NonEmpty(a) + NonEmpty(b)
    decreases |b|
  {
    if b == [] {
      assert a + b == a;
    } else {
      var n := |b| - 1;
      assert (a + b)[..|a + b| - 1] == a + b[..n];
      NonEmptyConcat(a, b[..n]);
    }
  }

  lemma {:induction false} NonEmptyMember(gs: seq<Group>, g: Group)
    ensures g in NonEmpty(gs) <==> g in gs && g.adaptors != []
  {
    if gs != [] {
      var n := |gs| - 1;
      NonEmptyMember(gs[..n], g);
      assert gs == gs[..n] + [gs[n]];
    }
  }

  lemma {:induction false} PaletteGroupsConcat(a: seq<Catalog>, b: seq<Catalog>)
    ensures PaletteGroups(a + b) == PaletteGroups(a) + PaletteGroups(b)
    decreases |b|
  {
    if b == [] {
      assert a + b == a;
    } else {
      var n := |b| - 1;
      var last := NonEmpty(b[n].groups);
      assert (a + b)[..|a + b| - 1] == a + b[..n] && (a + b)[|a + b| - 1] == b[n];
      assert PaletteGroups(a + b) == PaletteGroups(a + b[..n]) + last;
      assert PaletteGroups(b) == PaletteGroups(b[..n]) + last;
      PaletteGroupsConcat(a, b[..n]);
      assert (PaletteGroups(a) + PaletteGroups(b[..n])) + last == PaletteGroups(a) + (PaletteGroups(b[..n]) + last);
    }
  }

  lemma SectionsForAppend(gs: seq<Group>, g: Group, a: Appearance)
    ensures SectionsFor(gs + [g], a) == SectionsFor(gs, a) + [SectionFor(g, a)]
  {
    assert (gs + [g])[..|gs + [g]| - 1] == gs;
  }

  lemma {:induction false} SectionsForConcat(a: seq<Group>, b: seq<Group>, x: Appearance)
    ensures SectionsFor(a + b, x) == SectionsFor(a, x) + SectionsFor(b, x)
    decreases |b|
  {
    if b == [] {
      assert a + b == a;
    } else {
      var n := |b| - 1;
      assert (a + b)[..|a + b| - 1] == a + b[..n];
      SectionsForConcat(a, b[..n], x);
    }
  }

  /** One more group of a catalog, with adaptors, looked at while building sections. */
  lemma GroupKept(groups: seq<Group>, k: nat, a: Appearance)
    requires k < |groups| && groups[k].adaptors != []
    ensures SectionsFor(NonEmpty(groups[..k + 1]), a) == SectionsFor(NonEmpty(groups[..k]), a) + [SectionFor(groups[k], a)]
  {
    var g := groups[..k + 1];
    assert g[..|g| - 1] == groups[..k] && g[|g| - 1] == groups[k];
    SectionsForAppend(NonEmpty(groups[..k]), groups[k], a);
  }

  /** One more group of a catalog, without adaptors, looked at while building sections. */
  lemma GroupSkipped(groups: seq<Group>, k: nat)
    requires k < |groups| && groups[k].adaptors == []
    ensures NonEmpty(groups[..k + 1]) == NonEmpty(groups[..k])
  {
    var g := groups[..k + 1];
    assert g[..|g| - 1] == groups[..k] && g[|g| - 1] == groups[k];
    assert NonEmpty(g) == NonEmpty(groups[..k]) + [];
  }

  /** The sections built from the first `k` groups, counted without slicing. */
  function GroupSections(groups: seq<Group>, k: nat, a: Appearance): seq<Section>
    requires k <= |groups|
  {
    if k == 0 then []
    else GroupSections(groups, k - 1, a) + (if groups[k - 1].adaptors != [] then [SectionFor(groups[k - 1], a)] else [])
  }

  lemma GroupSectionsStep(groups: seq<Group>, k: nat, a: Appearance)
    requires 0 < k <= |groups|
    requires GroupSections(groups, k - 1, a) == SectionsFor(NonEmpty(groups[..k - 1]), a)
    ensures GroupSections(groups, k, a) == SectionsFor(NonEmpty(groups[..k]), a)
  {
    if groups[k - 1].adaptors != [] {
      GroupKept(groups, k - 1, a);
    } else {
      GroupSkipped(groups, k - 1);
      assert GroupSections(groups, k, a) == GroupSections(groups, k - 1, a) + [];
    }
  }

  lemma {:induction false} GroupSectionsSpec(groups: seq<Group>, k: nat, a: Appearance)
    requires k <= |groups|
    ensures GroupSections(groups, k, a) == SectionsFor(NonEmpty(groups[..k]), a)
  {
    if k > 0 {
      GroupSectionsSpec(groups, k - 1, a);
      GroupSectionsStep(groups, k, a);
    }
  }

  /** The sections built from the first `c` catalogs, counted without slicing. */
  function CatalogSections(cs: seq<Catalog>, c: nat, a: Appearance): seq<Section>
    requires c <= |cs|
  {
    if c == 0 then [] else CatalogSections(cs, c - 1, a) + GroupSections(cs[c - 1].groups, |cs[c - 1].groups|, a)
  }

  /** One more catalog looked at while building sections. */
  lemma CatalogStep(cs: seq<Catalog>, c: nat, a: Appearance)
    requires c < |cs|
    ensures SectionsFor(PaletteGroups(cs[..c + 1]), a) ==
      SectionsFor(PaletteGroups(cs[..c]), a) + SectionsFor(NonEmpty(cs[c].groups), a)
  {
    assert cs[..c + 1][..c] == cs[..c];
    SectionsForConcat(PaletteGroups(cs[..c]), NonEmpty(cs[c].groups), a);
  }

  lemma {:induction false} CatalogSectionsSpec(cs: seq<Catalog>, c: nat, a: Appearance)
    requires c <= |cs|
    ensures CatalogSections(cs, c, a) == SectionsFor(PaletteGroups(cs[..c]), a)
  {
    if c > 0 {
      CatalogSectionsSpec(cs, c - 1, a);
      CatalogStep(cs, c - 1, a);
      GroupSectionsSpec(cs[c - 1].groups, |cs[c - 1].groups|, a);
      assert cs[c - 1].groups[..|cs[c - 1].groups|] == cs[c - 1].groups;
    }
  }

  lemma {:induction false} SectionsForSpec(gs: seq<Group>, a: Appearance)
    ensures |SectionsFor(gs, a)| == |gs|
    ensures forall k :: 0 <= k < |gs| ==> SectionsFor(gs, a)[k] == SectionFor(gs[k], a)
  {
    if gs != [] {
      SectionsForSpec(gs[..|gs| - 1], a);
    }
  }

  /**
   * The sections of a palette built from `cs`: one per group with adaptors,
   * catalogs in order and each catalog's groups in order, each with the
   * group's title and expanded flag and one inactive item per adaptor in
   * order. Groups without adaptors get no section.
   */
  lemma BuiltSections(cs: seq<Catalog>, a: Appearance)
    ensures var ss := SectionsFor(PaletteGroups(cs), a);
      |ss| == |PaletteGroups(cs)| &&
      (forall k :: 0 <= k < |ss| ==>
         var g := PaletteGroups(cs)[k];
         g.adaptors != [] && ss[k].title == g.title && ss[k].expanded == g.expanded &&
         |ss[k].items| == |g.adaptors| &&
         forall i :: 0 <= i < |g.adaptors| ==> ss[k].items[i] == NewItem(g.adaptors[i], a))
  {
    var gs := PaletteGroups(cs);
    SectionsForSpec(gs, a);
    forall k | 0 <= k < |gs|
      ensures gs[k].adaptors != []
      ensures |ItemsFor(gs[k].adaptors, a)| == |gs[k].adaptors|
      ensures forall i :: 0 <= i < |gs[k].adaptors| ==> ItemsFor(gs[k].adaptors, a)[i] == NewItem(gs[k].adaptors[i], a)
    {
      PaletteGroupsNonEmpty(cs, gs[k]);
      ItemsForSpec(gs[k].adaptors, a);
    }
  }

  lemma {:induction false} PaletteGroupsNonEmpty(cs: seq<Catalog>, g: Group)
    requires g in PaletteGroups(cs)
    ensures g.adaptors != []
  {
    var n := |cs| - 1;
    if g in PaletteGroups(cs[..n]) {
      PaletteGroupsNonEmpty(cs[..n], g);
    } else {
      NonEmptyMember(cs[n].groups, g);
    }
  }

  /** The state of a new palette built from `cs`; it satisfies the radio-group invariant. */
  function Initial(cs: seq<Catalog>): (s: State)
    ensures Consistent(s)
  {
    BuiltSections(cs, IconOnly);
    State(SectionsFor(PaletteGroups(cs), IconOnly), None, true, Select, false, IconOnly, false, 0)
  }

  // ---------------------------------------------------------------------
  // Every sequence of user events keeps the invariant
  // ---------------------------------------------------------------------

  datatype Event =
    | ClickItem(id: ItemId, ctrl: bool)
    | ClickSelector
    | Deselect(stickyAware: bool)
    | SetAppearance(a: Appearance)
    | SetSmallIcons(small: bool)

  /** One event. A click on a position that holds no item is no event. */
  function Step(s: State, e: Event): (r: State)
    requires Consistent(s)
    ensures Consistent(r)
  {
    match e
    case ClickItem(id, ctrl) =>
      if !ValidId(s.sections, id) then s
      else if s.current == Some(id) then
        ItemClickedDeactivates(s, id, ctrl);
        ItemClicked(s, id, ctrl)
      else
        ItemClickedActivates(s, id, ctrl);
        ItemClicked(s, id, ctrl)
    case ClickSelector =>
      SelectorClickedEffect(s);
      DeselectedEffect(s, false);
      SelectorClicked(s)
    case Deselect(stickyAware) =>
      DeselectedEffect(s, stickyAware);
      Deselected(s, stickyAware)
    case SetAppearance(a) =>
      RestyleKeepsConsistent(s, a, s.smallIcons);
      AppearanceSet(s, a)
    case SetSmallIcons(small) =>
      RestyleKeepsConsistent(s, s.appearance, small);
      SmallIconsSet(s, small)
  }

  function Run(s: State, es: seq<Event>): State
    requires Consistent(s)
    decreases |es|
  {
    if es == [] then s else Run(Step(s, es[0]), es[1..])
  }

  /**
   * Whatever the user does, starting from a new palette: at most one item
   * is active and it is the current one, the selector is active exactly
   * when no item is current, and the pointer mode matches.
   */
  lemma RunConsistent(cs: seq<Catalog>, es: seq<Event>)
    ensures Consistent(Run(Initial(cs), es))
  {
    RunFrom(Initial(cs), es);
  }

  lemma {:induction false} RunFrom(s: State, es: seq<Event>)
    requires Consistent(s)
    ensures Consistent(Run(s, es))
    decreases |es|
  {
    if es != [] {
      RunFrom(Step(s, es[0]), es[1..]);
    }
  }

  // ---------------------------------------------------------------------
  // Termination measure of the nested emissions
  // ---------------------------------------------------------------------

  /** Active buttons, plus one when the current item's button is already off. */
  function Pending(s: State): nat
    requires WellFormed(s)
  {
    CountActive(s.sections) + (if s.current.Some? && !ItemAt(s.sections, s.current.value).active then 1 else 0)
  }

  /** One when the selector is off although nothing is current. */
  function SelectorDebt(s: State): nat
  {
    if s.current.None? && !s.selectorActive then 1 else 0
  }

  // ---------------------------------------------------------------------
  // The palette object
  // ---------------------------------------------------------------------

  class Palette {
    var sections: seq<Section>
    var current: Option<ItemId>
    var selectorActive: bool
    /** The application's pointer mode, a global the palette sets. */
    var pointerMode: PointerMode
    var sticky: bool
    var appearance: Appearance
    var smallIcons: bool
    /** Emissions of the palette's "toggled" signal. */
    var toggled: nat

    function Snapshot(): State
      reads this
    {
      State(sections, current, selectorActive, pointerMode, sticky, appearance, smallIcons, toggled)
    }

    predicate ActiveAt(id: ItemId)
      reads this
      requires ValidId(sections, id)
    {
      ItemAt(sections, id).active
    }

    /**
     * glade_palette_new / glade_palette_init: no current item, selector on,
     * icon-only items with normal icons and no sticky mode; then the
     * construct-only "catalogs" property builds the sections. Setting
     * "item-appearance" to ICON_ONLY afterwards finds it unchanged and does
     * nothing.
     */
    constructor (catalogs: seq<Catalog>)
      ensures Snapshot() == Initial(catalogs)
    {
      sections := [];
      current := None;
      selectorActive := true;
      pointerMode := Select;
      sticky := false;
      appearance := IconOnly;
      smallIcons := false;
      toggled := 0;
      new;
      SetCatalogs(catalogs);
      SetItemAppearance(IconOnly);
    }

    /** glade_palette_get_current_item. */
    function GetCurrentItem(): (r: Option<Adaptor>)
      reads this
      requires WellFormed(Snapshot())
      ensures r.None? <==> current.None?
      ensures r.Some? ==> r.value == ItemAt(sections, current.value).adaptor
    {
      match current
      case None => None
      case Some(id) => Some(ItemAt(sections, id).adaptor)
    }

    /**
     * glade_palette_on_button_toggled for item `id`, whose active flag has
     * just changed; `ctrl` is whether Control is held.
     */
    method OnButtonToggled(id: ItemId, ctrl: bool)
      requires WellFormed(Snapshot()) && ValidId(sections, id)
      requires current == Some(id) ==> !ActiveAt(id)
      requires current.Some? && current.value != id ==> ActiveAt(current.value)
      modifies this
      ensures Snapshot() == ButtonToggled(old(Snapshot()), id, ctrl)
      decreases Pending(Snapshot()), SelectorDebt(Snapshot()), CountActive(sections), 5
    {
      // toggling the currently active item into the non-active state
      if current == Some(id) {
        current := None;
        pointerMode := Select;
        SetSelectorActive(true);
        sticky := false;
        toggled := toggled + 1;
        return;
      }
      // only buttons toggled from inactive to active matter from here on
      if !ActiveAt(id) {
        return;
      }
      if current.Some? && current.value != id {
        var c := current.value;
        WithActiveCount(sections, c, false);
        SetItemInactive(c);
      }
      current := Some(id);
      pointerMode := AddWidget;
      SetSelectorActive(false);
      var adaptor := ItemAt(sections, id).adaptor;
      sticky := !adaptor.toplevel && ctrl;
      toggled := toggled + 1;
    }

    /**
     * gtk_toggle_button_set_active (current_item, FALSE): a real change runs
     * the item's handler. The pointer position is not read on that path.
     */
    method SetItemInactive(a: ItemId)
      requires WellFormed(Snapshot()) && current == Some(a)
      modifies this
      ensures Snapshot() == SwitchedOff(old(Snapshot()), a)
      decreases Pending(Snapshot()), SelectorDebt(Snapshot()), CountActive(sections), 0
    {
      if ActiveAt(a) {
        WithActiveCount(sections, a, false);
        sections := WithActive(sections, a, false);
        OnButtonToggled(a, false);
      }
    }

    /**
     * gtk_toggle_button_set_active (selector_button, v), always called with
     * `v` saying whether no item is current: a real change runs the
     * selector's handler, which then leaves everything else alone.
     */
    method SetSelectorActive(v: bool)
      requires WellFormed(Snapshot()) && v == current.None?
      requires current.Some? ==> ActiveAt(current.value)
      modifies this
      ensures Snapshot() == old(Snapshot()).(selectorActive := v)
      decreases Pending(Snapshot()), SelectorDebt(Snapshot()), CountActive(sections), if v then 1 else 4
    {
      if selectorActive != v {
        selectorActive := v;
        SelectorButtonToggled();
      }
    }

    /** selector_button_toggled_cb, the selector's flag having just changed. */
    method SelectorButtonToggled()
      requires WellFormed(Snapshot())
      requires current.Some? ==> ActiveAt(current.value)
      modifies this
      ensures Snapshot() == SelectorToggled(old(Snapshot()))
      decreases Pending(Snapshot()), SelectorDebt(Snapshot()), CountActive(sections), 3
    {
      if selectorActive {
        DeselectCurrentItem(false);
      } else if GetCurrentItem().None? {
        SetSelectorActive(true);
      }
    }

    /** glade_palette_deselect_current_item. */
    method DeselectCurrentItem(stickyAware: bool)
      requires WellFormed(Snapshot())
      requires current.Some? ==> ActiveAt(current.value)
      modifies this
      ensures Snapshot() == Deselected(old(Snapshot()), stickyAware)
      decreases Pending(Snapshot()), SelectorDebt(Snapshot()), CountActive(sections), 2
    {
      if stickyAware && sticky {
        return;
      }
      if current.Some? {
        WithActiveCount(sections, current.value, false);
        SetItemInactive(current.value);
        SetSelectorActive(true);
        current := None;
        pointerMode := Select;
        toggled := toggled + 1;
      }
    }

    /** The user clicks item `id`: the button flips and emits "toggled". */
    method ClickItem(id: ItemId, ctrl: bool)
      requires Consistent(Snapshot()) && ValidId(sections, id)
      modifies this
      ensures Snapshot() == ItemClicked(old(Snapshot()), id, ctrl)
    {
      sections := WithActive(sections, id, !ActiveAt(id));
      OnButtonToggled(id, ctrl);
    }

    /** The user clicks the selector: it flips and emits "toggled". */
    method ClickSelector()
      requires Consistent(Snapshot())
      modifies this
      ensures Snapshot() == SelectorClicked(old(Snapshot()))
    {
      selectorActive := !selectorActive;
      SelectorButtonToggled();
    }

    /** glade_palette_set_item_appearance. */
    method SetItemAppearance(a: Appearance)
      modifies this
      ensures Snapshot() == AppearanceSet(old(Snapshot()), a)
    {
      if appearance != a {
        appearance := a;
        UpdateAppearance();
      }
    }

    /** glade_palette_set_use_small_item_icons. */
    method SetUseSmallItemIcons(small: bool)
      modifies this
      ensures Snapshot() == SmallIconsSet(old(Snapshot()), small)
    {
      if smallIcons != small {
        smallIcons := small;
        UpdateAppearance();
      }
    }

    /**
     * glade_palette_update_appearance: give every item of every section the
     * palette's appearance and icon size, with tooltips exactly in icon-only
     * mode.
     */
    method UpdateAppearance()
      modifies this
      ensures Snapshot() == old(Snapshot()).(sections := Restyled(old(sections), appearance, smallIcons))
    {
      var showTooltips := appearance == IconOnly;
      var s := 0;
      while s < |sections|
        invariant 0 <= s <= |sections| == |old(sections)|
        invariant forall i :: 0 <= i < s ==> sections[i] == RestyleSection(old(sections)[i], appearance, smallIcons)
        invariant forall i :: s <= i < |sections| ==> sections[i] == old(sections)[i]
        invariant Snapshot() == old(Snapshot()).(sections := sections)
      {
        var items := sections[s].items;
        var k := 0;
        while k < |items|
          invariant 0 <= k <= |items| == |sections[s].items|
          invariant forall j :: 0 <= j < k ==> items[j] == Restyle(sections[s].items[j], appearance, smallIcons)
          invariant forall j :: k <= j < |items| ==> items[j] == sections[s].items[j]
        {
          items := items[k := items[k].(appearance := appearance, smallIcon := smallIcons, hasTooltip := showTooltips)];
          k := k + 1;
        }
        assert items == RestyleSection(sections[s], appearance, smallIcons).items;
        sections := sections[s := sections[s].(items := items)];
        s := s + 1;
      }
      assert sections == Restyled(old(sections), appearance, smallIcons);
    }

    /** glade_palette_new_item_group: one new item per adaptor, in order. */
    method NewItemGroup(g: Group) returns (sec: Section)
      ensures sec == SectionFor(g, appearance)
    {
      var items: seq<Item> := [];
      var i := 0;
      while i < |g.adaptors|
        invariant 0 <= i <= |g.adaptors|
        invariant items == ItemsFor(g.adaptors[..i], appearance)
      {
        assert g.adaptors[..i + 1][..i] == g.adaptors[..i];
        items := items + [NewItem(g.adaptors[i], appearance)];
        i := i + 1;
      }
      assert g.adaptors[..|g.adaptors|] == g.adaptors;
      sec := Section(g.title, g.expanded, items);
    }

    /** glade_palette_append_item_group. */
    method AppendItemGroup(g: Group)
      modifies this
      ensures sections == old(sections) + [SectionFor(g, appearance)]
      ensures SettingsKept()
    {
      var sec := NewItemGroup(g);
      sections := sections + [sec];
    }

    /** Every field but the sections is as it was. */
    twostate predicate SettingsKept()
      reads this
    {
      current == old(current) && selectorActive == old(selectorActive) && pointerMode == old(pointerMode) &&
      sticky == old(sticky) && appearance == old(appearance) && smallIcons == old(smallIcons) && toggled == old(toggled)
    }

    /** The loop over one catalog's groups in glade_palette_set_catalogs. */
    method AppendCatalogGroups(groups: seq<Group>)
      modifies this
      ensures sections == old(sections) + GroupSections(groups, |groups|, appearance)
      ensures SettingsKept()
    {
      var k := 0;
      while k < |groups|
        invariant 0 <= k <= |groups|
        invariant SettingsKept()
        invariant sections == old(sections) + GroupSections(groups, k, appearance)
      {
        if groups[k].adaptors != [] {
          AppendItemGroup(groups[k]);
          assert sections == old(sections) + (GroupSections(groups, k, appearance) + [SectionFor(groups[k], appearance)]);
        } else {
          assert GroupSections(groups, k + 1, appearance) == GroupSections(groups, k, appearance) + [];
        }
        k := k + 1;
      }
    }

    /** glade_palette_set_catalogs: a section for every group that has adaptors. */
    method SetCatalogs(catalogs: seq<Catalog>)
      modifies this
      ensures sections == old(sections) + SectionsFor(PaletteGroups(catalogs), appearance)
      ensures SettingsKept()
    {
      var c := 0;
      while c < |catalogs|
        invariant 0 <= c <= |catalogs|
        invariant SettingsKept()
        invariant sections == old(sections) + CatalogSections(catalogs, c, appearance)
      {
        AppendCatalogGroups(catalogs[c].groups);
        assert sections == old(sections) + (CatalogSections(catalogs, c, appearance) + GroupSections(catalogs[c].groups, |catalogs[c].groups|, appearance));
        c := c + 1;
      }
      CatalogSectionsSpec(catalogs, |catalogs|, appearance);
      assert catalogs[..|catalogs|] == catalogs;
    }
  }
}
