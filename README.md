# Glade palette and inspector, modelled in Dafny

This project models two stateful components of the Glade user-interface designer:

- **The palette** (`gladeui/glade-palette.c`). It shows one expander section per widget group of the loaded catalogs. Each section holds one toggle item per widget adaptor, and a selector toggle button sits beside them.
  - The items and the selector behave as one radio group. The palette's "toggled" handlers react to each button's change of state.
  - Setting a button's state from inside a handler runs the handlers again, synchronously.
  - The palette also sets the application's pointer mode (SELECT or ADD_WIDGET) and a "sticky selection" mode. It restyles all its items when the appearance settings change.
- **The inspector** (`gladeui/glade-inspector.c`). It is a tree view whose tree store mirrors the widget hierarchy of a project.
  - The store is rebuilt when the project is set.
  - It is updated on the project's add, remove and rename notifications.
  - Selections are copied both ways: from the project into the view, and from the view into the application's selection.

Files:

- `Optional.dfy`: the `Option` type that stands for the source's nullable pointers.
- `Forest.dfy` (module `TreeStore`): the GtkTreeStore as a forest of rows.
  - Each row holds a widget, a selected flag and its child rows. A `Path` (a sequence of child indices) stands for a GtkTreeIter.
  - It provides the depth-first search by widget and the edits the inspector makes: append under a parent, remove a subtree, unselect all, select one row.
  - It proves how each edit changes the depth-first order of widgets and the children of the row it touches, that every other row keeps its place, widget and selection flag, that the search finds the first matching row, and that every valid path is visited.
- `Inspector.dfy` (module `Inspector`): the inspector.
  - The objects, their GladeWidgets, the widgets' parents, the adaptors' child lists, names and child tags are read through a `World` of functions.
  - A height rank in `World` witnesses that the child lists are acyclic, so `fill_model`'s recursion terminates.
  - Every handler is a method of class `Inspector` over a `Store` object. Each is proved to leave the store equal to a function of the old store, and lemmas state what those functions do.
- `Palette.dfy` (module `GladePalette`): the palette.
  - Class `Palette` holds the private fields, the items' and the selector's active flags, the application's pointer mode, and a count of emitted "toggled" signals.
  - The handlers `OnButtonToggled`, `SelectorButtonToggled`, `DeselectCurrentItem` and the two `gtk_toggle_button_set_active` calls (`SetItemInactive`, `SetSelectorActive`) call one another exactly as the nested emissions do. Termination is proved by a lexicographic measure.
  - Each handler is proved to end in the state that a closed-form transition function gives. Lemmas about those functions prove the radio-group invariant and the effect of every user action.
  - Construction loops over catalogs, groups and adaptors.

A toggle button emits "toggled" only when its state actually changes, and it flips its flag before the handlers run. A user click is therefore modelled as "flip the flag, then run the handler" (`ClickItem`, `ClickSelector`).

## Model

| member | source | states |
|---|---|---|
| TreeStore.Find | gladeui/glade-inspector.c:351-353 | the search for a widget's row finds a valid path holding that widget, and finds none exactly when no row holds it |
| TreeStore.FindFirst | gladeui/glade-inspector.c:351-353 | the row the search finds is the first row holding the widget in depth-first order |
| TreeStore.Store.Append | gladeui/glade-inspector.c:294-295 | a new unselected, childless row holding the widget becomes the last child of the parent row (or the last root); the returned path points at it |
| TreeStore.Store.Remove | gladeui/glade-inspector.c:382 | the row at the path goes together with its whole subtree |
| TreeStore.Store.UnselectAll | gladeui/glade-inspector.c:432 | every row becomes unselected; see UnselectAllSpec |
| TreeStore.Store.Select | gladeui/glade-inspector.c:457 | the row at the path becomes selected; see SelectAtFlag |
| TreeStore.AppendAtPreorder | gladeui/glade-inspector.c:294-295 | appending rows under a parent inserts their widgets in depth-first order right after the parent's subtree and changes nothing else in that order |
| TreeStore.AppendAtChildren | gladeui/glade-inspector.c:294-295 | after appending, the parent's children are its old children followed by the new rows |
| TreeStore.RemoveAtChildren | gladeui/glade-inspector.c:382 | removing a row takes exactly that child out of its parent's children and keeps the other children in order |
| TreeStore.RemoveAtKeeps | gladeui/glade-inspector.c:382 | removing a row keeps every row outside its parent's subtree where it was, with the same widget and selection flag |
| TreeStore.AppendAtKeeps | gladeui/glade-inspector.c:294-295 | appending under a parent keeps every row outside the parent's subtree where it was, with the same widget and selection flag |
| TreeStore.RemoveAtPreorder | gladeui/glade-inspector.c:382 | removing a row takes exactly that row's subtree out of the depth-first order; putting it back at the row's offset gives the old order |
| TreeStore.UnselectAllSpec | gladeui/glade-inspector.c:432 | unselecting all keeps every row and widget in place and leaves no row selected |
| TreeStore.SelectAtFlag | gladeui/glade-inspector.c:457 | selecting a row selects that row and changes no other row's flag |
| TreeStore.SameShapeOrder | gladeui/glade-inspector.c:432-457 | changing selection flags changes neither the depth-first order nor the result of any search by widget |
| TreeStore.PreorderPathsSound | gladeui/glade-inspector.c:494-496 | the selected-rows walk visits one valid path per row, in depth-first order, each holding the widget at that place in the order |
| TreeStore.PreorderPathsOffset | gladeui/glade-inspector.c:494-496 | the k-th path the selected-rows walk visits names the row at position k of the depth-first order |
| TreeStore.PreorderPathsDistinct | gladeui/glade-inspector.c:494-496 | the selected-rows walk never visits the same path twice |
| TreeStore.PreorderPathsComplete | gladeui/glade-inspector.c:494-496 | the selected-rows walk visits every row of the store |
| Inspector.FillModel | gladeui/glade-inspector.c:279-313 | the store gains, under the given parent and after its existing children, exactly the rows described by RowsOf for the listed objects |
| Inspector.RowsOfShape | gladeui/glade-inspector.c:286-311 | one row per listed object that has a GladeWidget, in list order, objects without one skipped; each row is unselected and holds its widget with the rows of the adaptor's children under it |
| Inspector.RowsOfConcat | gladeui/glade-inspector.c:286-311 | the rows for two lists one after the other are the rows for the first list followed by the rows for the second |
| Inspector.ChildrenRank | gladeui/glade-inspector.c:297-307 | the adaptor children of a widget rank below it, so the recursion into them terminates |
| Inspector.ToplevelsConcat | gladeui/glade-inspector.c:326-335 | the toplevel list is built by prepending, so it comes out in reverse project order |
| Inspector.ToplevelsMember | gladeui/glade-inspector.c:326-335 | exactly the project objects whose GladeWidget has no parent are listed |
| Inspector.Inspector.UpdateModel | gladeui/glade-inspector.c:316-340 | the store is emptied; without a project it stays empty, otherwise it holds exactly the filled-in rows of the parent-less objects in reverse project order |
| Inspector.Inspector.SetProject | gladeui/glade-inspector.c:710-731 | afterwards GetProject returns the given project (None unbinds) and the store is rebuilt from it through the "project" notification; the app selection is untouched |
| Inspector.Inspector.AddWidget | gladeui/glade-inspector.c:343-368 | the store becomes AfterAdd of the old store; see AddWidgetEffect |
| Inspector.AddWidgetEffect | gladeui/glade-inspector.c:351-367 | a widget whose parent has no row is dropped and the store is unchanged; a parent-less widget's filled-in subtree becomes the last root; otherwise it becomes the last child of the parent's first row in depth-first order, enters the depth-first order right after the parent's subtree, and every row outside the parent's subtree keeps its place, widget and selection flag |
| Inspector.AddKeeps | gladeui/glade-inspector.c:343-368 | an add notification never loses an existing row |
| Inspector.AddParentsFirst | gladeui/glade-inspector.c:357-359 | when widgets are announced parents first, every announced widget gets a row and no row is lost |
| Inspector.Inspector.RemoveWidget | gladeui/glade-inspector.c:371-385 | the store becomes AfterRemove of the old store; see RemoveWidgetEffect |
| Inspector.RemoveWidgetEffect | gladeui/glade-inspector.c:371-385 | a widget with no row leaves the store unchanged; otherwise its first row in depth-first order goes with its subtree: the parent keeps its other children in order, every row outside the parent's subtree keeps its place, widget and selection flag, and putting the subtree back at the row's offset gives the old depth-first order |
| Inspector.Inspector.WidgetNameChanged | gladeui/glade-inspector.c:388-406 | the store is not modified; the reported row is the widget's row, and there is none exactly when the widget has no row |
| Inspector.Inspector.ProjectSelectionChanged | gladeui/glade-inspector.c:409-469 | a notification from another project changes nothing; otherwise the store becomes ApplyProjectSelection of the old store and the project's selection |
| Inspector.MarkSelectedSpec | gladeui/glade-inspector.c:437-458 | handling one selected object selects the row found for its widget, if there is one, and changes neither the rows nor any other row's flag |
| Inspector.SelectFirstSpec | gladeui/glade-inspector.c:432-464 | once the first n selected objects are handled, the rows are unchanged and a row is selected exactly when it is the row found for one of those objects' widgets |
| Inspector.ApplyProjectSelectionSpec | gladeui/glade-inspector.c:432-464 | after a project selection change the rows are unchanged and a row is selected exactly when it is the row found for a selected object's widget; selected objects whose widgets have no row are ignored |
| Inspector.Inspector.SelectionChanged | gladeui/glade-inspector.c:472-504 | the app selection becomes the objects of the selected rows in tree order, the app selection is signalled changed once, and "selection-changed" is emitted once |
| Inspector.CollectedMember | gladeui/glade-inspector.c:472-482 | after the first n visited rows, an object has been collected exactly when one of those rows is selected and holds a widget of that object |
| Inspector.GatherSelected | gladeui/glade-inspector.c:472-497 | the walk over the store in tree order collects the objects of the selected rows, one per selected row, in that order |
| Inspector.SelectedObjectsSpec | gladeui/glade-inspector.c:492-497 | the app selection holds the object of every selected row and nothing else |
| Inspector.SelectionRoundTrip | gladeui/glade-inspector.c:432-497 | copying a project selection into the view and reading the view back gives the objects of the selected widgets that have rows |
| Inspector.HasPrefix | gladeui/glade-inspector.c:621 | the character-by-character prefix test holds exactly when the key is a prefix of the name |
| Inspector.SearchSkips | gladeui/glade-inspector.c:606-622 | a row matches the typed key exactly when its widget's name starts with the key; a row without a widget never matches |
| Inspector.MiscText | gladeui/glade-inspector.c:566-598 | an internal child shows "(internal NAME)", taking precedence over a special child's "(TYPE child)"; a row with neither shows one blank, never an empty text; a row without a widget is left alone |
| Inspector.Inspector.constructor | gladeui/glade-inspector.c:208-221 | a new inspector has no project, an empty store and no signals emitted; the application's selection is left as it was |
| GladePalette.WithActive | gladeui/glade-palette.c:406-432 | switching one button keeps every section and item in place and changes only that button's flag |
| GladePalette.WithActiveCount | gladeui/glade-palette.c:427 | switching one button changes the number of active buttons by the change in that button's own flag, so switching an active button off lowers it by exactly one |
| GladePalette.ConsistentMeans | gladeui/glade-palette.c:395-442 | under the radio-group invariant at most one item is active, it is the current item, and the selector is off with the pointer in ADD_WIDGET mode |
| GladePalette.Palette.OnButtonToggled | gladeui/glade-palette.c:395-442 | the nested emissions end in ButtonToggled of the old state; see ButtonToggledCases |
| GladePalette.ButtonToggledCases | gladeui/glade-palette.c:405-439 | toggling the current item off clears the current item, re-activates the selector, sets SELECT and clears sticky mode; a stray "toggled" for an inactive non-current button changes nothing; activating a button makes it current, sets ADD_WIDGET, turns the selector off and sets sticky mode exactly when the adaptor is not a toplevel and Control is held |
| GladePalette.Palette.SetItemInactive | gladeui/glade-palette.c:427 | switching the current item off runs its handler and ends with nothing current, the selector on, SELECT, no sticky mode and one emission |
| GladePalette.Palette.SetSelectorActive | gladeui/glade-palette.c:413 | setting the selector to match "no item is current" changes nothing but the selector's flag, whatever nested handlers run |
| GladePalette.Palette.SelectorButtonToggled | gladeui/glade-palette.c:107-117 | the nested emissions end in SelectorToggled of the old state; see SelectorClickedEffect |
| GladePalette.Palette.DeselectCurrentItem | gladeui/glade-palette.c:703-724 | the nested emissions end in Deselected of the old state; see DeselectedEffect |
| GladePalette.DeselectedEffect | gladeui/glade-palette.c:703-724 | it is a no-op while sticky mode is on and respected, and with no current item; otherwise nothing is current or active afterwards, the selector is on, the pointer is SELECT and "toggled" was emitted twice |
| GladePalette.Palette.ClickItem | gladeui/glade-palette.c:395-442 | a click on an item flips it and runs its handler, ending in ItemClicked of the old state |
| GladePalette.ItemClickedActivates | gladeui/glade-palette.c:426-439 | clicking a non-current item leaves it the only active button and the current item, turns the selector off, sets ADD_WIDGET, sets sticky mode exactly for a non-toplevel adaptor with Control held, and emits one more "toggled" when another item had to be switched off |
| GladePalette.ItemClickedDeactivates | gladeui/glade-palette.c:405-420 | clicking the current item leaves nothing current and no button active, re-activates the selector, sets SELECT, clears sticky mode and emits once |
| GladePalette.Palette.ClickSelector | gladeui/glade-palette.c:107-117 | a click on the selector flips it and runs its handler, ending in SelectorClicked of the old state |
| GladePalette.SelectorClickedEffect | gladeui/glade-palette.c:107-117 | turning the selector on deselects the current item; turning it off while nothing is current makes the handler turn it straight back on, so nothing changes |
| GladePalette.Palette.GetCurrentItem | gladeui/glade-palette.c:656-669 | the result is absent exactly when no item is current, and otherwise is the current item's adaptor |
| GladePalette.Palette.SetItemAppearance | gladeui/glade-palette.c:156-170 | the state becomes AppearanceSet of the old state: unchanged when the value is the same, otherwise every item restyled |
| GladePalette.Palette.SetUseSmallItemIcons | gladeui/glade-palette.c:180-196 | the state becomes SmallIconsSet of the old state: unchanged when the value is the same, otherwise every item restyled |
| GladePalette.Palette.UpdateAppearance | gladeui/glade-palette.c:528-556 | every item of every section gets the palette's appearance and icon size and has a tooltip exactly in icon-only mode; nothing else changes |
| GladePalette.RestyledSpec | gladeui/glade-palette.c:538-552 | restyling keeps every section and item in place with its adaptor and active flag, gives each item the settings, and turns tooltips on exactly when items show only icons |
| GladePalette.RestyleKeepsConsistent | gladeui/glade-palette.c:156-196 | changing the appearance settings never disturbs the radio-group invariant |
| GladePalette.Palette.NewItemGroup | gladeui/glade-palette.c:467-506 | the section for a group has the group's title and expanded flag and one new item per adaptor, in order |
| GladePalette.ItemsForSpec | gladeui/glade-palette.c:482-491 | one new item per adaptor, in adaptor order |
| GladePalette.Palette.AppendItemGroup | gladeui/glade-palette.c:509-525 | the group's section is appended after the existing sections |
| GladePalette.Palette.AppendCatalogGroups | gladeui/glade-palette.c:132-141 | one catalog's groups that have adaptors get their sections appended, in group order; groups without adaptors are skipped and no setting changes |
| GladePalette.Palette.SetCatalogs | gladeui/glade-palette.c:120-146 | the sections gain one section per group with adaptors, catalog by catalog and group by group |
| GladePalette.NonEmptyMember | gladeui/glade-palette.c:134-141 | a group gets a section exactly when it has adaptors |
| GladePalette.NonEmptyConcat | gladeui/glade-palette.c:134-141 | the filtered groups keep the catalog's group order |
| GladePalette.PaletteGroupsConcat | gladeui/glade-palette.c:130-142 | catalogs contribute their sections in catalog order |
| GladePalette.BuiltSections | gladeui/glade-palette.c:120-146 | a new palette's sections correspond one to one, in order, to the groups with adaptors, each with the group's title and expanded flag and one inactive item per adaptor |
| GladePalette.Palette.constructor | gladeui/glade-palette.c:597-644 | a new palette has nothing current, the selector on, SELECT, no sticky mode, icon-only items and normal icons, and the sections built from the catalogs |
| GladePalette.Initial | gladeui/glade-palette.c:597-644 | the state of a new palette satisfies the radio-group invariant |
| GladePalette.Step | gladeui/glade-palette.c:395-442 | every user event (clicking an item or the selector, deselecting, changing appearance settings) keeps the radio-group invariant |
| GladePalette.RunConsistent | gladeui/glade-palette.c:395-442 | after any sequence of user events on a new palette, at most one item is active and it is current, the selector is active exactly when no item is current, and the pointer mode matches |

## Left out

- Signal connection, disconnection and handler blocking. While the project selection is copied into the view, the view's own "changed" handler is blocked; in the model it is simply not called. The failed selection check at gladeui/glade-inspector.c:428 returns without unblocking; that is not modelled.
- The GtkTreeSelection "changed" signal is not modelled as a consequence of store edits. `SelectionChanged` is an operation the environment calls.
- Selection flags are kept in the store's rows rather than in a separate GtkTreeSelection object.
- A NULL element in the project's selection list stops the copy loop in `project_selection_changed_cb`. Objects are never NULL in the model, so that stop is not modelled.
- Inspector.Inspector.SelectionChanged: the app selection is assigned once, after the walk, rather than cleared and then added to object by object. No signal runs in between, so the end state is the same. `glade_app_selection_add` is taken to append without removing duplicates; glade-app.c is not part of this model.
- Inspector.Inspector.UpdateModel: requires every project object to have a GladeWidget, which the source asserts with `g_assert`.
- `glade_inspector_get_selected_items`, `glade_inspector_new_with_project`, the popup menu, row activation, cell icons and names, expanding to and scrolling to selected rows: presentation only, or not in the modelled set of operations.
- gettext translation of the "(internal %s)" and "(%s child)" labels.
- Palette widget construction and layout: the selector box, scrolled window, size group, expanders, the viewport remove/re-add workaround, `set_show_selector_button`, `show_all`.
- GObject property get/set switches, the "current-item" notification and reference counting.
- The stored catalog list (`priv->catalogs`): it is read only by the property getter, so the model does not keep it.
- `glade_palette_new` returns NULL for an empty catalog list; the model builds a palette with no sections instead.
- GladePalette.NewItem: a new GladePaletteItem is taken to use normal-size icons. glade-palette-item.c is not part of this model.
- GladePalette.Palette.constructor: the application is taken to start in SELECT pointer mode. The palette does not set the mode at construction, and glade-app.c is not part of this model.
- `glade_util_find_iter_by_widget` is defined in glade-utils.c, which is not part of this model. `TreeStore.Find` takes it to walk the store depth first and return the first row holding the widget.
- The Control-key state is an input of `OnButtonToggled`. It stands for `gdk_window_get_pointer`.
- `SetItemInactive` passes `false` for the Control key to the nested handler. The handler's deactivation branch never reads it.
- Of the palette's signals only "toggled" is counted. Its "notify" emissions (current-item, item-appearance, use-small-item-icons) are left out. The inspector counts its own "selection-changed" emissions and the calls to `glade_app_selection_changed`; its other notifications are left out.
