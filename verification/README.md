# A verified model of the fe front-end's data logic

This project is a Dafny model of the data logic in the TypeScript front-end of
fe, a desktop editor shell. It also proves what that logic promises. The model
is pure: each store is an immutable value, and each handler is a function from
the old state to the new state together with what its caller observes.

The Effect runtime's results are kept apart in `Wrappers.Outcome`:

- `Ok` is a success.
- `Fail` is a typed failure raised with `yield*`.
- `Rejected` is a generator that writes `return Effect.fail(..)`. It stops early without failing its caller.
- `Defect` is anything thrown: a brand refinement, an `assert`, or `runSync` of a failing effect.

Fresh ids, the clock and the hovered socket are parameters. Percents, zoom and
coordinates are reals.

The modules follow the program's groups.

- **Id-keyed panel trees.**
  - `PanelStore` is the shared id→node store, with its link invariants and its sibling-size writes.
  - `PanelSizing` is the arithmetic of making room for a child and refilling after a change.
  - `PanelSubtree` holds subtrees of a store whose children lists do not loop.
  - `Percents` is the `Percent` brand.
  - The renderer's current tree is modelled by three modules: `PanelTree` (lookups, create, add-child, redistribute), `PanelTreeEdit` (re-parent, replace, promote, set-percent) and `PanelTreeDestroy` (destroy).
  - `PanelTreeOld` is the older renderer tree.
  - `Panels3` and `Panels3Delete` are the app shell's third generation.
  - `Panels2` is the app shell's `panels` object.
  - `Panels2Embedded` is the copy embedded in the panels2 page.
  - `PanelDrop` is the renderer's drop dispatch onto these edits.
- **Immutable layout tree.**
  - `LayoutData` holds splits, tabs, sidebars and the workspace, with their pure operations. It follows ui/app/src/renderer/ui/Panels/data.ts and its near-copy ui/src/renderer/ui/panel3/data.ts. The drag-and-drop view in ui/src imports its own copy of that file, ui/src/renderer/ui/Panels/data.ts, which is not part of this model. The model uses the ui/app copy in its place.
  - `LayoutDnd` holds the drag-and-drop restructuring rules and the drop points the split and tabs views offer.
- **DockSpace store.** `DockSpace` covers the panels2 node constructors, `getNode`, `addChild` for each layout, and `selectTab`.
- **Text editing.**
  - `FlatText` is the first experiment: one string and a caret.
  - `TextBuffer` is the line buffer with a remembered column. A refinement relates it to `FlatText`.
- **Node graph.**
  - `NodeSnap` covers snap settings, grid snapping, size snapping and zoom bounds.
  - `NodeGraph` covers the mouse-down mode choice, node and selection drags, and the connection rules.
  - `NodeGraphTest` covers the earlier prototype's tag helper and its node-press ordering.
- **Chess tutorial.** `Chess` covers the move rule and the drop update.
- **Ordered registries.**
  - `StatusRegistry` is the first status bar.
  - `StatusBar` is the later `addItem`/cleanup registry.
  - `WorkspaceTabs` is the window's workspace tab list.
- **Theme helpers.**
  - `ThemePaths` covers JavaScript objects as data, `flattenArrayOfObjects` and `flattenObjectToPaths`.
  - `ZodPaths` covers schema path flattening.
  - `ThemeColors` covers building a theme from a base16 palette and naming CSS variables.
  - `ThemeContext` covers the transformed theme and nested providers.

Each operation is paired with something independent of its own body:

- an invariant it keeps, such as `Valid`, `Wf`, `Listed`, `CaretIn` or the sibling sum;
- an inverse, such as add-then-get, remove-then-add or split-then-join;
- a reference definition, such as `Sub` for deletes, `UpdateNodesDeep` for the node search, or `FlatText` for the line buffer.

## Model

| member | source | states |
|---|---|---|
| Percents.Make | ui/app/src/renderer/lib/Percent.ts:3-8 | `Percent(n)` succeeds exactly when 0 <= n <= 1 and then gives back n itself, branded but not converted |
| Percents.From | ui/app/src/renderer/lib/Percent.ts:10-14 | `Percent.from(n)` succeeds exactly for n in [0, 100] and gives a value that times 100 is n |
| Percents.FromTwentyFive | ui/app/src/renderer/lib/Percent.ts:10 | `Percent.from(25)`, the default sidebar size, is 0.25 |
| Percents.FromInvertsScaling | ui/app/src/renderer/lib/Percent.ts:3-10 | a valid percent passes the brand unchanged, and `from(100·p)` returns p |
| StatusRegistry.Empty | app/src/StatusBar.tsx:32-39 | the registry starts with an empty left map and an empty right map |
| StatusRegistry.CreateItem | app/src/StatusBar.tsx:43-57 | an item already stored under the same alignment and id is returned and nothing changes; otherwise a new item with empty content and the given props is stored under that id on that side, and the other side is untouched |
| StatusRegistry.CreateTwice | app/src/StatusBar.tsx:44-48 | creating the same item a second time returns the first result and leaves the registry as it was |
| StatusRegistry.SidesIndependent | app/src/StatusBar.tsx:47-54 | one id under both alignments makes two separate entries, and the second does not disturb the first |
| WorkspaceTabs.Rendered | ui/src/renderer/App.tsx:183-193 | the body shows a workspace exactly when the active index is in range, and then the one at that index |
| WorkspaceTabs.RemoveAt | ui/src/renderer/App.tsx:165-169 | `splice(i, 1)` leaves the entries before i in place, shifts the later ones down by one, and loses exactly the one removed |
| WorkspaceTabs.InsertAt | ui/src/renderer/App.tsx:146-149 | `splice(i, 0, w)` puts w at i, keeps the entries before i and shifts the rest up by one |
| WorkspaceTabs.RemoveInserted | ui/src/renderer/App.tsx:146-149 | removing what was just inserted at i gives the list back |
| WorkspaceTabs.InsertRemoved | ui/src/renderer/App.tsx:146-149 | putting the removed entry back at its index gives the list back |
| WorkspaceTabs.Reorder | ui/src/renderer/App.tsx:144-152 | `onReorder` is a permutation that moves the tab at oldIdx to newIdx, keeps the others in their relative order, and makes newIdx active, so the moved tab is shown (also app/src/App.tsx:172-180) |
| WorkspaceTabs.ReorderBack | ui/src/renderer/App.tsx:144-152 | dragging the tab back to where it came from restores the order |
| WorkspaceTabs.Select | ui/src/renderer/App.tsx:153 | the clicked tab becomes active and is the one shown; the list is unchanged |
| WorkspaceTabs.Close | ui/src/renderer/App.tsx:154-170 | `onCloseClick` as written removes exactly the tab at the index; closing the active tab moves the index back by one or keeps it at 0, closing another tab leaves the index as it was (also app/src/App.tsx:182-198) |
| WorkspaceTabs.NewTab | ui/src/renderer/App.tsx:171-178 | `onNewClick` appends a workspace, makes it active, and it is the one shown (also app/src/App.tsx:199-206) |
| WorkspaceTabs.NewThenClose | ui/src/renderer/App.tsx:154-178 | closing the tab just opened gives the workspace list back |
| WorkspaceTabs.CloseInFrontLosesView | ui/src/renderer/App.tsx:154-164 | as written, closing a tab in front of the active one shows a different workspace, or none (workspaces 0, 1, 2 with 2 active: closing 0 shows nothing) |
| WorkspaceTabs.CloseTracking | ui/src/renderer/App.tsx:154-170 | closing as intended keeps the active index in range and keeps showing the same workspace unless it was the one closed, in which case the one in front of it (or the new first one) is shown |
| WorkspaceTabs.CloseBehindActiveAgrees | ui/src/renderer/App.tsx:154-170 | closing a tab behind the active one, the handler as written and the tracking version agree |
| StatusBar.Empty | ui/app/src/renderer/ui/StatusBar/ContextProvider.tsx:28-29 | a new bar has no items and both alignment lists are empty |
| StatusBar.IndexOf | ui/app/src/renderer/ui/StatusBar/ContextProvider.tsx:43 | `findIndex` gives -1 exactly when the id is absent, and otherwise the first position holding it |
| StatusBar.InsertAt | ui/app/src/renderer/ui/StatusBar/ContextProvider.tsx:44 | `splice(i, 0, id)` puts the id at i with the entries before i in place and the rest shifted up by one |
| StatusBar.PlaceAsWritten | ui/app/src/renderer/ui/StatusBar/ContextProvider.tsx:38-60 | as written, `after: x` with x non-empty and listed splices the id in at x's first index, so it lands right in front of x; every other case (x empty or absent, `before`, no placement) appends; exactly one copy of the id is added |
| StatusBar.AddItem | ui/app/src/renderer/ui/StatusBar/ContextProvider.tsx:31-61 | `addItem` stores the item, tagged with its fresh id, in the item map and leaves the other list alone; with `after: x` (x non-empty and listed) the id goes in at x's index, right in front of x, and otherwise it is appended (same code in ui/src/renderer/ui/StatusBar/ContextProvider.tsx:29-59 and ui/src/renderer/ui/StatusBarContext.tsx:84-113) |
| StatusBar.Without | ui/app/src/renderer/ui/StatusBar/ContextProvider.tsx:69-71 | `filter(item => item !== id)` keeps every other entry and no copy of the id, and is the identity when the id is absent |
| StatusBar.Cleanup | ui/app/src/renderer/ui/StatusBar/ContextProvider.tsx:63-73 | the returned cleanup removes exactly that id from the item map and from its alignment's list and changes nothing else |
| StatusBar.WithoutInsert | ui/app/src/renderer/ui/StatusBar/ContextProvider.tsx:63-71 | filtering out an id that was spliced into a list without it gives the list back |
| StatusBar.CleanupUndoes | ui/app/src/renderer/ui/StatusBar/ContextProvider.tsx:63-73 | unregistering an id whose list entry was the only change gives the old bar back |
| StatusBar.AddThenCleanup | ui/app/src/renderer/ui/StatusBar/ContextProvider.tsx:31-75 | running the cleanup straight after `addItem` restores the bar exactly, whatever the placement |
| StatusBar.AfterLandsInFront | ui/app/src/renderer/ui/StatusBar/ContextProvider.tsx:38-47 | as written, `after: x` puts the new id in front of x |
| StatusBar.BeforeAppends | ui/app/src/renderer/ui/StatusBar/ContextProvider.tsx:48-57 | as written, `before: x` appends even when x is in the list, because the branch searches for `opts.after` |
| StatusBar.PlaceIntended | ui/app/src/renderer/ui/StatusBar/ContextProvider.tsx:38-60 | placement as the option names promise: the id lands right behind `after`, right in front of `before`, and at the end when there is no anchor or the anchor is absent |
| StatusBar.InsertedIndexes | ui/app/src/renderer/ui/StatusBar/ContextProvider.tsx:43-44 | inserting behind the first x keeps x where it was and puts the new id right behind it |
| StatusBar.InsertedIndexesFront | ui/app/src/renderer/ui/StatusBar/ContextProvider.tsx:53-54 | inserting in front of the first x puts the new id where x was and x right behind it |
| StatusBar.AddItemPlaced | ui/app/src/renderer/ui/StatusBar/ContextProvider.tsx:31-61 | `addItem` with the intended placement stores the item and places the id as PlaceIntended says, leaving the other list alone |
| StatusBar.BeforePlacedInFront | ui/app/src/renderer/ui/StatusBar/ContextProvider.tsx:48-57 | with the intended placement, `before: x` lands right in front of x |
| StatusBar.AddPlacedThenCleanup | ui/app/src/renderer/ui/StatusBar/ContextProvider.tsx:31-75 | the cleanup also undoes `addItem` with the intended placement |
| Chess.CoordEqual | ui/src/renderer/dnd_tut.tsx:32-34 | `isCoordEqual` holds exactly when both components agree (same in app/src/dnd_tut.tsx:27-29) |
| Chess.FirstAt | ui/src/renderer/dnd_tut.tsx:257-259 | `pieces.find` on a square gives none exactly when no piece stands there, and otherwise the first piece standing there |
| Chess.CanMoveRule | ui/src/renderer/dnd_tut.tsx:114-134 | `canMove` holds exactly when the destination is empty, a king moves at most one row and one column, and a pawn moves one row forward in the same column (same in app/src/dnd_tut.tsx:114-126) |
| Chess.NoMoveInPlace | ui/src/renderer/dnd_tut.tsx:120 | a piece on the board never moves onto its own square, which it occupies |
| Chess.PawnNeverReturns | ui/src/renderer/dnd_tut.tsx:130-132 | a pawn move is never undone by another pawn move |
| Chess.CanDrop | ui/src/renderer/dnd_tut.tsx:171-175 | a square accepts a dragged piece exactly when the piece does not start on it (same in app/src/dnd_tut.tsx:162-166) |
| Chess.JsRem | ui/src/renderer/dnd_tut.tsx:198 | JavaScript's `%` truncates toward zero: it agrees with Dafny's remainder on non-negative operands and is its negation on negative ones |
| Chess.DarkSquares | ui/src/renderer/dnd_tut.tsx:196-199 | on the board a square is dark exactly when row and column differ in parity, so colours alternate along rows and along columns (same in app/src/dnd_tut.tsx:186-187) |
| Chess.DarkParity | ui/src/renderer/dnd_tut.tsx:196-199 | for non-negative coordinates, `(row + col) % 2 === 1` means row and column differ in parity |
| Chess.OnDrop | ui/src/renderer/dnd_tut.tsx:248-270 | the monitor's drop leaves the pieces alone with no target, a refused target, no piece on the start square or an illegal move; otherwise the first piece on the start square is taken out and put first, on the destination |
| Chess.FirstAtWithout | ui/src/renderer/dnd_tut.tsx:265 | taking one piece out of the list leaves every other square's first piece as it was |
| Chess.PieceAt | ui/src/renderer/dnd_tut.tsx:224-226 | what a square shows is none exactly when it is empty, and otherwise a piece standing there |
| Chess.LegalDrop | ui/src/renderer/dnd_tut.tsx:257-270 | a legal drop puts the dragged piece on the destination, empties the start square, leaves every other square as it was, keeps the kinds and their numbers, and keeps squares distinct (same in app/src/dnd_tut.tsx:242-255) |
| Chess.DroppedPlaces | ui/src/renderer/dnd_tut.tsx:265-269 | the moved piece leads the list on the destination and every other square reads as before |
| Chess.DroppedKinds | ui/src/renderer/dnd_tut.tsx:265-269 | moving one piece to the front keeps the same kinds in the same numbers |
| Chess.DroppedDistinct | ui/src/renderer/dnd_tut.tsx:265-269 | no two pieces share a square after a legal drop |
| Chess.IllegalDropUnchanged | ui/src/renderer/dnd_tut.tsx:248-264 | a drop with no square under the mouse, or one the rules refuse, leaves the pieces as they were |
| Chess.InitialPieces | ui/src/renderer/dnd_tut.tsx:238-241 | the starting king and pawn stand on distinct squares of the board |
| Chess.RenderSquares | ui/src/renderer/dnd_tut.tsx:219-235 | `renderSquares` makes the 64 squares row by row, each showing the kind of the first piece standing on it, or nothing |
| ThemeContext.RoundingClass | ui/src/renderer/ui/Theme/Context.ts:24-31 | the class for any `windowRounding` value is one of the four Tailwind rounding classes |
| ThemeContext.RoundingClassExactly | ui/src/renderer/ui/Theme/Context.ts:24-31 | small, medium and large each get their own class, and `rounded-none` goes to `none` and to every other value, a missing one included (same in ui/src/renderer/ui/ThemeProvider.tsx:25-32) |
| ThemeContext.Transform | ui/src/renderer/ui/Theme/Context.ts:18-34 | `TransformedTheme` always gives a tagged theme; a tagged one comes back as it is, and any other gets the rounding class of its own `windowRounding` |
| ThemeContext.TransformIdempotent | ui/src/renderer/ui/Theme/Context.ts:21 | transforming twice is transforming once (same in ui/src/renderer/ui/ThemeProvider.tsx:22) |
| ThemeContext.TransformKeepsOthers | ui/src/renderer/ui/Theme/Context.ts:23-33 | every key other than `windowRounding` and `_tag` reads as it did before |
| ThemeContext.TransformKeepsUnique | ui/src/renderer/ui/Theme/Context.ts:23-33 | a theme without repeated keys stays without them, since `Object.assign` overwrites a present key and appends a new one |
| ThemeContext.Provide | ui/src/renderer/ui/ThemeProvider.tsx:57-74 | a provider has a theme exactly when it has a theme prop or its parent context has a theme; its own prop wins, transformed, and otherwise the parent's theme is passed on |
| ThemeContext.Nest | ui/src/renderer/ui/ThemeProvider.tsx:57-74 | a chain of providers gives a context exactly when there is at least one provider |
| ThemeContext.NestRoot | ui/src/renderer/ui/ThemeProvider.tsx:71-73 | however deeply nested, every provider reports the outermost provider's element as the root |
| ThemeContext.NestTheme | ui/src/renderer/ui/ThemeProvider.tsx:59-61 | the nearest provider with a theme prop decides the theme, transformed |
| ThemeContext.NestNoTheme | ui/src/renderer/ui/ThemeProvider.tsx:62-64 | with no theme prop anywhere in the chain, asking for the theme throws |
| ZodPaths.SchemaPathSound | app/theme/src/Theme.ts:216-244 | every path `flattenZodSchemaPaths` returns is the prefix followed by a path the schema describes |
| ZodPaths.SchemaPathComplete | app/theme/src/Theme.ts:216-244 | every path the schema describes is returned, behind the prefix |
| ZodPaths.SchemaPathsExactly | app/theme/src/Theme.ts:216-244 | the walk returns exactly the described paths: object fields by key, an enum-keyed record once per option, any other record under `*`, anything else a leaf |
| ZodPaths.WalksAgree | theme/src/Theme.ts:53-66 | on schemas without records, the older walk that only descends objects returns the same list as the later one (also app/src/flatten.ts:76-89) |
| ZodPaths.ConformingPathsAgree | app/src/flatten.ts:73-89 | as its comment promises, the schema walk gives the same paths as `flattenObjectToPaths` on a value conforming to the schema, provided no object is empty |
| ZodPaths.EmptyObjectSchema | app/theme/src/Theme.ts:206-226 | an empty object schema yields no path at all, where an empty object value yields its prefix |
| ThemePaths.Get | app/theme/src/Theme.ts:253 | looking a key up gives none exactly when the key is absent, and otherwise a value stored under it |
| ThemePaths.Lookup | app/theme/src/Theme.ts:253 | `path.reduce((acc, key) => acc[key], v)` on the empty path is the value itself |
| ThemePaths.Assign | ui/src/renderer/ui/Theme/Context.ts:23 | assigning a key gives it the value; a present key keeps its place and a new key goes last |
| ThemePaths.AssignOther | ui/src/renderer/ui/Theme/Context.ts:23 | assigning one key leaves every other key reading as before |
| ThemePaths.Spread | app/theme/src/Theme.ts:179 | `{ ...acc, ...obj }` keeps keys unique |
| ThemePaths.SpreadGet | app/theme/src/Theme.ts:179 | after a spread, a key of `obj` reads obj's value and any other key reads acc's |
| ThemePaths.FlattenArrayOfObjects | app/theme/src/Theme.ts:173-180 | the merged object has no repeated key |
| ThemePaths.FlattenHasKey | app/theme/src/Theme.ts:173-180 | merging keeps exactly the keys some object has (also theme/src/Theme.ts:10-17, app/src/flatten.ts:7-14) |
| ThemePaths.FlattenLaterWins | app/theme/src/Theme.ts:173-180 | a key reads the value from the last object that has it |
| ThemePaths.FlattenExample | app/theme/src/Theme.ts:169-172 | the documented example `[{ a: 1 }, { b: 2 }]` becomes `{ a: 1, b: 2 }` |
| ThemePaths.ObjectPathSound | app/theme/src/Theme.ts:187-211 | every path `flattenObjectToPaths` returns is the prefix followed by a path ending at a leaf: a non-object, an array, or an empty object |
| ThemePaths.ObjectPathComplete | app/theme/src/Theme.ts:187-211 | every path to a leaf is returned, behind the prefix |
| ThemePaths.ObjectPathsExactly | app/theme/src/Theme.ts:187-211 | the returned paths are exactly the leaf paths, so a key holding a non-empty object never ends one (also theme/src/Theme.ts:24-48, app/src/flatten.ts:47-71) |
| ThemePaths.EmptyObjectPaths | app/theme/src/Theme.ts:205-208 | `{}` at the top with no prefix gives the single empty path |
| ThemePaths.DocExamplePaths | app/theme/src/Theme.ts:182-186 | the documented example gives `foo.bar`, `foo.baz.a`, `foo.baz.b` and `quux`, in that order; the path `foo.bar.b` printed in app/src/flatten.ts:45 is not among them |
| ThemeColors.Pick | app/theme/src/Theme.ts:137 | `overrides?.k1?.k2 ?? fallback` gives the override when it is present and neither null nor undefined, and the fallback otherwise |
| ThemeColors.AutoIcon | app/theme/src/Theme.ts:81-86 | `autoIcon` keeps the stroke and takes the fill as given, or one derived from the stroke when none is given (also app/src/theme.ts:59-67) |
| ThemeColors.ThemeFields | app/theme/src/Theme.ts:136-166 | the builder writes its top-level keys in the source's order, each with its value; the app/src/theme.ts copy has no `deemphasis` or `selection`, and the ui copy adds `windowRounding` |
| ThemeColors.BuildDefaults | app/theme/src/Theme.ts:136-164 | every defaulted colour reads the override at its path when one is given, and otherwise its palette slot: background 00, text 05, deemphasis 04, selection and border 02, tab idle 00, active 01, drop target 03, icon strokes 04 and 06, status bar 01 (app/src/theme.ts:146-171 uses drop target 07 and base stroke 05; ui/src/renderer/ui/Theme/index.ts:42-69 is as app/theme) |
| ThemeColors.PlainPalette | app/theme/src/Theme.ts:136-164 | with no overrides, the palette slot decides every defaulted colour |
| ThemeColors.IconFill | app/theme/src/Theme.ts:152-161 | an icon's fill is the override's fill when given, and otherwise derived from the icon's resolved stroke |
| ThemeColors.BuildExtras | ui/src/renderer/ui/Theme/index.ts:70-71 | the colour set passes through under `colors`, and `windowRounding` is "large" in the copy that sets it |
| ThemeColors.ColorNamesExactly | theme/src/Theme.ts:68-87 | `colors` lists each of the eight colour kinds exactly once and nothing else |
| ThemeColors.ThemeColorsSchemaLeaf | app/theme/src/Theme.ts:43-67 | the leaf paths of `ThemeColorsSchema` are the listed colour paths and, under `colors`, a colour kind followed by one of its parts |
| ThemeColors.ThemeLeavesResolve | app/theme/src/Theme.ts:246-265 | every CSS variable the schema walk names has a string behind it in a theme built by `themeColorsFromBase16`, whatever the palette, when the overrides and the colour set have the schema's types |
| ThemeColors.CssVarNameSplits | app/theme/src/Theme.ts:250-262 | splitting a variable name's path part at the dashes gives the path back when no key contains a dash |
| ThemeColors.CssVarNameInjective | app/theme/src/Theme.ts:250-262 | two dash-free paths share a `--theme-` variable name only if they are the same path (also app/src/theme.ts:201-208) |
| NodeSnap.SnapKindToNumber | ui/app/src/renderer/NodeGraph/coords.ts:12-18 | `snapKindToNumber` is 1 exactly for none and disabled, a multiple of the grid size exactly for 1s and 5s, and at most five grid squares (also app/ui/src/renderer/NodeGraphTest.tsx:46-52) |
| NodeSnap.SnapKindForConfig | ui/app/src/renderer/NodeGraph/coords.ts:20-31 | `snapKindForConfig` picks one of the configuration's four fields |
| NodeSnap.EachFieldOneCombination | ui/app/src/renderer/NodeGraph/coords.ts:24-31 | each field is read by exactly one (ctrl, shift) combination: changing it changes what that combination selects and nothing else (also app/ui/src/renderer/NodeGraphTest.tsx:66-77) |
| NodeSnap.DefaultSnapping | ui/app/src/renderer/NodeGraph/Config.ts:16-33 | with the default configuration nodes snap to the grid unless shift is held, the canvas snaps only with exactly one modifier, and ctrl+shift disables node snapping |
| NodeSnap.Round | ui/app/src/renderer/NodeGraph/coords.ts:8-9 | `Math.round` gives the integer in (v - 0.5, v + 0.5] |
| NodeSnap.RoundNearest | ui/app/src/renderer/NodeGraph/coords.ts:8-9 | no integer is nearer to v than its rounding |
| NodeSnap.RoundHalfUp | ui/app/src/renderer/NodeGraph/coords.ts:8-9 | halves round up, on both sides of zero, and integers stay put |
| NodeSnap.CoordsSnapToGrid | ui/app/src/renderer/NodeGraph/coords.ts:7-10 | `coordsSnapToGrid` puts both coordinates on the grid of the step, each at most half a step away (also app/ui/src/renderer/NodeGraphTest.tsx:54-57) |
| NodeSnap.SnapClose | ui/app/src/renderer/NodeGraph/coords.ts:7-10 | a snapped value is at most half a step from the input |
| NodeSnap.SnapNearest | ui/app/src/renderer/NodeGraph/coords.ts:7-10 | the snapped value is the multiple of the step nearest to the input |
| NodeSnap.SnapOnGridFixed | ui/app/src/renderer/NodeGraph/coords.ts:7-10 | a value already on the grid snaps to itself |
| NodeSnap.SnapIdempotent | ui/app/src/renderer/NodeGraph/coords.ts:7-10 | snapping twice is snapping once |
| NodeSnap.SnapWholeToOne | ui/app/src/renderer/NodeGraph/coords.ts:7-14 | whole-number coordinates do not move with the step of 1 that none and disabled give |
| NodeSnap.FiveSquaresOnOneSquare | ui/app/src/renderer/NodeGraph/coords.ts:15-16 | a point snapped to five grid squares is already on the one-square grid |
| NodeSnap.CeilToGrid | ui/app/src/renderer/NodeGraph/Node.tsx:116-117 | `ceilToGrid(v)` is a multiple of the grid size, at least v + 2 and less than one grid square above it |
| NodeSnap.SnapSize | ui/app/src/renderer/NodeGraph/Node.tsx:119-122 | `snapSize` is "auto" exactly when size snapping is off or the size is 0, and otherwise a pixel size on the grid covering the size plus its border |
| NodeSnap.CeilToGridStable | ui/app/src/renderer/NodeGraph/Node.tsx:116-117 | a size that is a whole number of grid squares less the border rounds back to those squares |
| NodeSnap.ZoomStep | ui/app/src/renderer/NodeGraph/index.tsx:274-284 | a zoom step always lands in [0.2, 5], and a zero step leaves a zoom in range unchanged |
| NodeSnap.ZoomFactor | ui/app/src/renderer/NodeGraph/index.tsx:277-279 | the factor is within 15% of one, above one for a positive step and below for a negative one |
| NodeSnap.ZoomStepBounded | ui/app/src/renderer/NodeGraph/index.tsx:274-284 | a zoom step moves the zoom by at most 15%, in the direction asked for |
| NodeSnap.ZoomKeepsPointUnderMouse | ui/app/src/renderer/NodeGraph/index.tsx:290-301 | the new offset keeps the world point under the mouse where it was |
| NodeSnap.DragNode | ui/app/src/renderer/NodeGraph/index.tsx:372-399 | a dragged node's new coordinates, its start plus the mouse's movement over the zoom, are on the grid |
| NodeSnap.DragNodeStill | ui/app/src/renderer/NodeGraph/index.tsx:380-393 | a press without movement leaves a node that is on the grid where it was |
| NodeSnap.PanCanvas | ui/app/src/renderer/NodeGraph/index.tsx:402-428 | a panned offset, converted to world units, lies on the grid |
| NodeSnap.Unzoom | ui/app/src/renderer/NodeGraph/index.tsx:423-426 | world coordinates on the grid converted back to screen units by the zoom are still on the grid once divided by the zoom |
| NodeGraph.MakeNode | ui/app/src/renderer/NodeGraph/Node.tsx:37-51 | the `Node` constructor sets `lastTouchedTime` to null, defaults the sockets to empty lists, keeps every given field and takes a fresh id unless one is given |
| NodeGraph.MakeSocket | ui/app/src/renderer/NodeGraph/Node.tsx:83-90 | the `Socket` constructor keeps a given id or takes a fresh one, and keeps name and kind |
| NodeGraph.MouseDown | ui/app/src/renderer/NodeGraph/index.tsx:325-361 | a press on the canvas does nothing during a drag; otherwise a drag starts exactly for the left, middle and right buttons, at the mouse, and only a plain left press touches the selection, clearing it and starting a selection box at the mouse |
| NodeGraph.MouseDownModes | ui/app/src/renderer/NodeGraph/index.tsx:333-360 | right zooms, middle or space+left pans from the current offset, left alone clears the selection (also app/ui/src/renderer/NodeGraphTest.tsx:501-537) |
| NodeGraph.MouseLeave | ui/app/src/renderer/NodeGraph/index.tsx:739-745 | leaving the canvas ends any drag and changes nothing else |
| NodeGraph.NotInto | ui/app/src/renderer/NodeGraph/index.tsx:718 | the filter keeps exactly the connections not into the given input |
| NodeGraph.Commit | ui/app/src/renderer/NodeGraph/index.tsx:716-729 | committing appends the new connection, keeps every connection into another input, and leaves no other connection into the same input |
| NodeGraph.CommitKeepsOneIncoming | ui/app/src/renderer/NodeGraph/index.tsx:717-729 | after a commit each input has at most one incoming connection, if it had before |
| NodeGraph.MouseUp | ui/app/src/renderer/NodeGraph/index.tsx:710-735 | releasing ends any drag; the connections change only when a connection drag has both ends |
| NodeGraph.MouseUpKeepsGraphOk | ui/app/src/renderer/NodeGraph/index.tsx:710-735 | releasing a well-formed connection drag keeps every connection between an existing output and an existing input with one connection per input |
| NodeGraph.FirstInto | ui/app/src/renderer/NodeGraph/index.tsx:932-934 | `connections.find` finds a connection into the input exactly when one exists |
| NodeGraph.Untouched | ui/app/src/renderer/NodeGraph/index.tsx:938-945 | the filter keeps exactly the connections touching neither end at the socket |
| NodeGraph.StartFrom | ui/app/src/renderer/NodeGraph/index.tsx:952-969 | a connection drag from a pin fills the end of the pin's own kind and leaves the other empty |
| NodeGraph.BeginConnection | ui/app/src/renderer/NodeGraph/index.tsx:924-970 | an unknown socket does nothing; pressing an output keeps the connections; pressing an input drops exactly the connections touching it; nodes and selection never change |
| NodeGraph.MoveConnection | ui/app/src/renderer/NodeGraph/index.tsx:539-575 | a pointer move during a connection drag keeps the drag's start and moves its end to the mouse |
| NodeGraph.BeginFixedDragOk | ui/app/src/renderer/NodeGraph/index.tsx:924-970 | with the start node taken from the restarted socket, starting a connection gives a well-formed drag |
| NodeGraph.MoveFixedDragOk | ui/app/src/renderer/NodeGraph/index.tsx:539-575 | with the fix, a pointer move keeps a connection drag well formed |
| NodeGraph.MoveFixedKeepsInputStart | ui/app/src/renderer/NodeGraph/index.tsx:554-563 | with the fix, a drag from an input keeps that input as its `to` wherever the mouse goes |
| NodeGraph.PointerMove | ui/app/src/renderer/NodeGraph/index.tsx:363-577 | during a connection drag a pointer move only updates the drag; nodes, connections and selection stay |
| NodeGraph.RestartKeepsPressedNode | ui/app/src/renderer/NodeGraph/index.tsx:931-969 | as written, restarting from A.ao by pressing B.bi records B as the start node, so the drag is not well formed, B's other input is refused, and releasing over A's input stores a self-connection whose source names B |
| NodeGraph.RestartFixedReconnects | ui/app/src/renderer/NodeGraph/index.tsx:931-969 | with the fix, the same restart reconnects A.ao to B's other input |
| NodeGraph.InputStartLost | ui/app/src/renderer/NodeGraph/index.tsx:554-563 | as written, a drag from an unconnected input that first passes over its own node loses its `to`, so releasing over an output connects nothing |
| NodeGraph.InputStartFixedConnects | ui/app/src/renderer/NodeGraph/index.tsx:554-563 | with the fix, the same gesture connects the output to the input |
| NodeGraph.NodePress | ui/app/src/renderer/NodeGraph/index.tsx:983-998 | a press on a node stamps its touch time and nothing else in the nodes; unless a drag is in progress ctrl appends it to the selection and a plain press selects only it |
| NodeGraph.CtrlPressRepeats | ui/app/src/renderer/NodeGraph/index.tsx:992-993 | a ctrl-press on an already selected node lists it once more |
| NodeGraph.BeginDragging | ui/app/src/renderer/NodeGraph/index.tsx:891-922 | `beginDragging` does nothing during a drag; otherwise the node ends up selected and a node drag starts at the mouse that moves every selected node from its current coordinates |
| NodeGraph.TitlebarPressIgnoresCtrl | ui/app/src/renderer/NodeGraph/index.tsx:891-998 | a titlebar press runs `beginDragging` first, so with ctrl held an unselected node still becomes the only selected one |
| NodeGraph.MoveNodes | ui/app/src/renderer/NodeGraph/index.tsx:372-400 | a node drag changes only the coordinates of the listed nodes and no node's other fields |
| NodeGraph.MoveNodesPlaces | ui/app/src/renderer/NodeGraph/index.tsx:374-398 | after a node drag, each moved node stands at its start plus the movement, snapped, as its last entry says |
| NodeGraphTest.TaggedEnumAs | app/ui/src/renderer/NodeGraphTest.tsx:200-208 | `TaggedEnumAs(tag)(x)` is some exactly when x is truthy and carries the tag, and then it is x itself |
| NodeGraphTest.TaggedEnumAsExclusive | app/ui/src/renderer/NodeGraphTest.tsx:200-208 | a value narrows to at most one tag |
| NodeGraphTest.BringToFront | app/ui/src/renderer/NodeGraphTest.tsx:905-909 | `items.push(items.splice(idx, 1)[0])` is a permutation that moves the item at idx to the end and keeps the others in order |
| NodeGraphTest.BringLastToFront | app/ui/src/renderer/NodeGraphTest.tsx:905-909 | the last item is already on top |
| NodeGraphTest.BringToFrontTwice | app/ui/src/renderer/NodeGraphTest.tsx:905-909 | bringing the same item to the front twice is bringing it once |
| NodeGraphTest.NodePress | app/ui/src/renderer/NodeGraphTest.tsx:902-918 | a press moves the node to the end of the list; unless a drag is in progress ctrl appends it to the selection and a plain press selects only it |
| NodeGraphTest.PressedDrawnLast | app/ui/src/renderer/NodeGraphTest.tsx:902-918 | whatever the press does to the selection, the pressed node is drawn last and no node is lost |
| FlatText.SliceIndex | ui/src/renderer/TextEditingTest.tsx:256 | a `slice` bound counts from the end when negative and is clamped to the text, so it is an index in range |
| FlatText.Slice | ui/src/renderer/TextEditingTest.tsx:72 | `slice(from, to)` with bounds in range is the plain subsequence |
| FlatText.SliceFrom | ui/src/renderer/TextEditingTest.tsx:72 | `slice(from)` with a bound in range is the plain suffix |
| FlatText.Initial | ui/src/renderer/TextEditingTest.tsx:66-68 | the caret starts at the end of the sample text |
| FlatText.InsertText | ui/src/renderer/TextEditingTest.tsx:70-73 | `insertText` splices the string in at the caret, keeping the text on either side, and leaves the caret alone |
| FlatText.InputText | ui/src/renderer/TextEditingTest.tsx:292-298 | an `insertText` input does nothing for empty data, and otherwise inserts the data and moves the caret past it |
| FlatText.Enter | ui/src/renderer/TextEditingTest.tsx:261-266 | Enter inserts a line break at the caret and moves the caret past it, staying within the text |
| FlatText.Left | ui/src/renderer/TextEditingTest.tsx:267-270 | ArrowLeft moves the caret one back but never below 0 |
| FlatText.Right | ui/src/renderer/TextEditingTest.tsx:271-274 | ArrowRight moves the caret one forward but never past the end |
| FlatText.Backspace | ui/src/renderer/TextEditingTest.tsx:252-260 | Backspace as written keeps the caret within the text |
| FlatText.BackspaceAtStartIgnored | ui/src/renderer/TextEditingTest.tsx:252-260 | Backspace as intended removes the character before the caret and moves it back one, and does nothing at the start |
| FlatText.BackspaceAwayFromStart | ui/src/renderer/TextEditingTest.tsx:255-259 | away from the start, the written and the intended Backspace agree |
| FlatText.BackspaceAtStartDuplicates | ui/src/renderer/TextEditingTest.tsx:255-258 | as written, Backspace at the start of "abc" gives "ababc", because `slice(0, -1)` keeps all but the last character |
| FlatText.BackspaceAtStartGrows | ui/src/renderer/TextEditingTest.tsx:255-258 | as written, Backspace at the start of any non-empty text makes it 2n - 1 characters long |
| FlatText.TypeThenBackspace | ui/src/renderer/TextEditingTest.tsx:252-298 | typing one character and then Backspace (as intended) gives the state back |
| FlatText.EnterThenBackspace | ui/src/renderer/TextEditingTest.tsx:252-266 | Enter and then Backspace (as intended) gives the state back |
| FlatText.LeftRightInverse | ui/src/renderer/TextEditingTest.tsx:267-274 | away from the ends, ArrowRight undoes ArrowLeft |
| TextBuffer.SplitLines | ui/app/src/renderer/TextEditingTest.tsx:74 | `split("\n")` gives at least one piece and no piece holds a line break |
| TextBuffer.JoinSplit | ui/app/src/renderer/TextEditingTest.tsx:74 | joining the pieces of a split with line breaks gives the string back |
| TextBuffer.SplitJoin | ui/app/src/renderer/TextEditingTest.tsx:74 | lines without line breaks, joined and split again, come back as they were |
| TextBuffer.FromString | ui/app/src/renderer/TextEditingTest.tsx:70-80 | a buffer made from a non-empty string holds its lines, which join back to the string, with the cursor at (0, 0); the empty string, being falsy, gives no lines |
| TextBuffer.FromLines | ui/app/src/renderer/TextEditingTest.tsx:70-80 | a buffer made from an array holds those lines with the cursor at (0, 0), and is usable exactly when there is at least one line |
| TextBuffer.LengthIsTextPlusOne | ui/app/src/renderer/TextEditingTest.tsx:82-86 | `length`, each line plus its line break, is one more than the joined text |
| TextBuffer.Offset | ui/app/src/renderer/TextEditingTest.tsx:38-49 | the cursor corresponds to a caret inside the joined text |
| TextBuffer.Insert | ui/app/src/renderer/TextEditingTest.tsx:88-104 | `insert` of a string with a line break does nothing; otherwise the column advances by the string's length and the line count stays |
| TextBuffer.DeleteBackward | ui/app/src/renderer/TextEditingTest.tsx:105-132 | `deleteBackward` does nothing at (0, 0); at column 0 it joins the line onto the previous one, with the cursor at the old end of that line; otherwise the column goes back one on the same line |
| TextBuffer.DeleteForward | ui/app/src/renderer/TextEditingTest.tsx:133-155 | `deleteForward` never moves the cursor and keeps the buffer usable |
| TextBuffer.Newline | ui/app/src/renderer/TextEditingTest.tsx:156-171 | `newline` adds one line and moves the cursor to the start of the next line |
| TextBuffer.InsertIsTyping | ui/app/src/renderer/TextEditingTest.tsx:88-104 | `insert` of text without a line break is typing it at the caret of the flat text editor (ui/src/renderer/TextEditingTest.tsx:292-298) |
| TextBuffer.InsertSplices | ui/app/src/renderer/TextEditingTest.tsx:88-104 | typing splices the text into the joined text at the caret, and the caret follows it |
| TextBuffer.DeleteBackwardIsBackspace | ui/app/src/renderer/TextEditingTest.tsx:105-132 | `deleteBackward` is the flat editor's Backspace at the caret, with nothing happening at the start |
| TextBuffer.DeleteForwardRemovesNext | ui/app/src/renderer/TextEditingTest.tsx:133-155 | `deleteForward` removes the character after the caret, a line break at a line's end, and nothing at the very end |
| TextBuffer.NewlineIsEnter | ui/app/src/renderer/TextEditingTest.tsx:156-171 | `newline` is the flat editor's Enter at the caret |
| TextBuffer.ClampColumn | ui/app/src/renderer/TextEditingTest.tsx:212-215 | clamping the remembered column to a line gives a column on it: the column itself when it fits, the end for infinity |
| TextBuffer.MoveLeft | ui/app/src/renderer/TextEditingTest.tsx:173-187 | `moveLeft` does nothing at the start of the buffer and otherwise remembers the column it lands on |
| TextBuffer.MoveRight | ui/app/src/renderer/TextEditingTest.tsx:188-201 | `moveRight` does nothing at the end of the buffer and otherwise remembers the column it lands on |
| TextBuffer.MoveLeftIsArrowLeft | ui/app/src/renderer/TextEditingTest.tsx:173-187 | `moveLeft` is the flat editor's ArrowLeft at the caret, wrapping across line ends |
| TextBuffer.MoveRightIsArrowRight | ui/app/src/renderer/TextEditingTest.tsx:188-201 | `moveRight` is the flat editor's ArrowRight at the caret, wrapping across line ends |
| TextBuffer.MoveUp | ui/app/src/renderer/TextEditingTest.tsx:202-218 | `moveUp` goes to column 0 on the first line, and otherwise to the remembered column, clamped, on the line above |
| TextBuffer.MoveDown | ui/app/src/renderer/TextEditingTest.tsx:219-237 | `moveDown` goes to the line's end on the last line, and otherwise to the remembered column, clamped, on the line below |
| TextBuffer.DownThenUpReturns | ui/app/src/renderer/TextEditingTest.tsx:202-237 | after a horizontal move, down then up returns to the same place, because the remembered column survives a short line |
| TextBuffer.Home | ui/app/src/renderer/TextEditingTest.tsx:238-242 | `home` goes to the start of the line and remembers column 0 |
| TextBuffer.End | ui/app/src/renderer/TextEditingTest.tsx:243-247 | `end` goes to the end of the line and remembers an infinite column |
| TextBuffer.EndStaysAtEnds | ui/app/src/renderer/TextEditingTest.tsx:243-247 | after `end`, moving down or up lands at the end of the next line whatever its length |
| TextBuffer.MoveClamped | ui/app/src/renderer/TextEditingTest.tsx:248-263 | `move` with the line clamped to the last line, as the store's comment says: an in-range line and column are taken as given (also lines 40-43) |
| TextBuffer.MoveAgreesBelowEnd | ui/app/src/renderer/TextEditingTest.tsx:248-263 | `move` as written agrees with the clamped one for a line index below the end, and for one at or past the end it throws and leaves the line index out of range |
| PanelSizing.Clamp01 | ui/src/renderer/panels/Panel.ts:628-631 | `Order.clamp` to [0, 1] keeps a percent and sends values below or above the range to 0 or 1 |
| PanelSizing.MapRule | ui/src/renderer/panels/Panel.ts:669-675 | every sibling is resized by the same rule, in order |
| PanelSizing.ApplyWhere | ui/src/renderer/panels/Panel.ts:706-740 | excluded children keep their percent and the rest follow the rule |
| PanelSizing.SumWhereApplied | ui/src/renderer/panels/Panel.ts:715-740 | resizing leaves the fixed children's sum alone; rescaling multiplies the adjustable sum by the factor, and an even share makes it the share times their count |
| PanelSizing.AddChildPlanShape | ui/src/renderer/panels/Panel.ts:616-680 | the new child's size is a percent; the first child gets 1; with a zero sum the siblings share what it leaves evenly, and with a positive sum they are rescaled into it |
| PanelSizing.AddChildPlanSumsToOne | ui/src/renderer/panels/Panel.ts:616-680 | after `addChild` the siblings and the new child sum to exactly 1 and every size written is in [0, 1], so the `Percent` refinement never throws (the same rule in app/src/panels3/Panel.ts:198-249, app/src/panels2/panel.ts:129-187, ui/src/renderer/src/panels/Panel.ts:263-323 and ui/src/renderer/ui/panels2/context.tsx:182-292) |
| PanelSizing.RescaledSumsToOne | ui/src/renderer/panels/Panel.ts:667-677 | siblings rescaled to fill what the new child leaves sum with it to 1 and stay in range |
| PanelSizing.SharedSumsToOne | ui/src/renderer/panels/Panel.ts:651-662 | siblings given even shares of what the new child leaves sum with it to 1 and stay in range |
| PanelSizing.AddChildPlanKeepsRatios | ui/src/renderer/panels/Panel.ts:667-675 | with a positive sum, each existing child keeps its share of the old total, taken of what the new child leaves |
| PanelSizing.RedistributeEvenShape | ui/src/renderer/panels/Panel.ts:728-733 | with a zero adjustable sum the adjustable children share 1 - fixedSum evenly |
| PanelSizing.RedistributeScaleShape | ui/src/renderer/panels/Panel.ts:734-740 | with a positive adjustable sum the adjustable children are scaled to fill 1 - fixedSum |
| PanelSizing.RedistributeSumsToOne | ui/src/renderer/panels/Panel.ts:684-744 | after `redistributeChildren` with at least one adjustable child, all children sum to exactly 1 (also app/src/panels3/Panel.ts:253-306) |
| PanelSizing.RedistributeInRange | ui/src/renderer/panels/Panel.ts:721-740 | the redistribution writes only valid percents exactly when the fixed children do not exceed 1; otherwise `Percent` throws on an adjustable child |
| PanelSizing.AddChildExamples | ui/src/renderer/panels/Panel.ts:642-680 | the worked examples: a first child gets 1; a second asking for all gets 0.5 and the first keeps 0.5; a second asking for half gets 0.25 and the first keeps 0.75 |
| PanelSizing.RedistributeExamples | app/src/panels3/Panel.ts:253-306 | refilling after a delete: 0.75 alone grows to 1, and 0.5 with 0.3 become 0.625 and 0.375 |
| PanelStore.FirstMissing | ui/src/renderer/panels/Panel.ts:697-704 | the fetch of the children fails exactly when a listed id has no node, and it names the first such id: every id before it is present |
| PanelStore.ChildPercents | ui/src/renderer/panels/Panel.ts:715-719 | the children's percents are read in list order, one per child, and each is a percent in [0, 1] |
| PanelStore.Without | ui/src/renderer/panels/Panel.ts:315-317 | filtering an id out of a children list removes every copy of it and keeps exactly the other entries; a list without the id is returned unchanged |
| PanelStore.Adjustable | ui/src/renderer/panels/Panel.ts:706-713 | the adjustable children are exactly the listed children that are not excluded |
| PanelStore.FixedMask | ui/src/renderer/panels/Panel.ts:706-710 | a child is fixed exactly when it is on the exclude list, position by position |
| PanelStore.Rewrite | ui/src/renderer/panels/Panel.ts:731-739 | writing the percents one node at a time keeps the set of nodes and changes nothing but percents |
| PanelStore.RewriteDistinct | ui/src/renderer/panels/Panel.ts:731-739 | for distinct ids, the sequential writes succeed exactly when every new value is a percent; each listed node then gets the rule applied to its old percent and every other node is untouched |
| PanelStore.Attach | ui/src/renderer/panels/Panel.ts:616-680 | adding a child writes only the parent's list, the child's parent link and percents: no node appears or disappears and no attribute changes |
| PanelStore.Redistribute | ui/src/renderer/panels/Panel.ts:694-742 | refilling a parent changes only percents, and a refill that does not succeed leaves the store as it was |
| PanelStore.AttachMissingListed | ui/src/renderer/panels/Panel.ts:620-626 | a failed add names one of the parent's listed children, the only lookups after the checks |
| PanelStore.AttachLinksChild | ui/src/renderer/panels/Panel.ts:617-640 | a successful add points the child at the parent and appends it to the parent's list |
| PanelStore.RedistributeMissingListed | ui/src/renderer/panels/Panel.ts:697-704 | a failed refill names one of the parent's listed children, and a refill is never turned away silently |
| PanelStore.ListedOnlyByParent | ui/src/renderer/panels/Panel.ts:315-325 | in a store whose links agree, the only panel that lists a child is the child's own parent |
| PanelStore.AttachKeepsWf | ui/src/renderer/panels/Panel.ts:611-680 | adding a parentless child to a well-formed store always succeeds, appends it, links it, and leaves a well-formed store whose sibling percents sum to 1 |
| PanelStore.AttachWrites | ui/src/renderer/panels/Panel.ts:628-680 | each sibling is rescaled by the sizing plan, the child takes the plan's share, and the parent's children then sum to exactly 1 |
| PanelStore.RedistributeSizes | ui/src/renderer/panels/Panel.ts:694-742 | a refill never fails when the links agree; it throws exactly when some child is adjustable and the excluded ones already sum past 1; otherwise only adjustable children change, the links stay in agreement, and if every child is excluded nothing changes |
| PanelStore.RedistributeOutcome | ui/src/renderer/panels/Panel.ts:694-742 | with every child present and distinct, a refill never fails, throws exactly when the excluded children sum past 1 while some child is adjustable, changes nothing when all are excluded, and otherwise rewrites the adjustable children by the redistribution plan |
| PanelStore.RedistributePair | ui/src/renderer/panels/Panel.ts:728-740 | refilling two children with nothing excluded gives each its share of the pair's total and touches nothing else |
| PanelStore.RedistributeKeepsWf | ui/src/renderer/panels/Panel.ts:694-742 | on a well-formed store a refill never fails, throws exactly when the excluded children already exceed 1 while some child is adjustable, and otherwise keeps the store well formed |
| PanelStore.ChildrenDisjoint | ui/src/renderer/panels/Panel.ts:315-325 | two different parents in a store whose links agree list no child in common |
| PanelStore.SpliceStart | ui/src/renderer/panels/Panel.ts:320-321 | `splice` starts at the given index when it lies in the list, counts a negative index back from the end, and never starts past the end |
| PanelStore.InsertPos | ui/src/renderer/panels/Panel.ts:320-324 | an insert with no index appends; with an index it lands within the list |
| PanelStore.InsertAt | ui/src/renderer/panels/Panel.ts:320-324 | inserting grows the list by one, puts the entry at its position, keeps the entries before and after in order, and adds nothing else |
| PanelStore.MoveLinks | ui/src/renderer/panels/Panel.ts:314-325 | re-parenting keeps the links in agreement and the lists free of repeats, takes the panel off its old parent's list, inserts it into the new one, points it at the new parent, and leaves every other list, every percent and every attribute alone |
| PanelStore.DetachLinks | ui/src/renderer/panels/Panel.ts:837-846 | taking a panel off its parent keeps the links in agreement; afterwards no panel lists it, it has no parent, and only its old parent's list changed |
| PanelStore.IndexOf | ui/src/renderer/panels/Panel.ts:430-432 | `findIndex` gives -1 exactly when the id is absent, and otherwise the first position holding it |
| PanelStore.SpliceOne | ui/src/renderer/panels/Panel.ts:429-435 | replacing at an index inside the list writes the new entry there and keeps every other entry |
| PanelStore.RemoveAt | app/src/panels2/panel.ts:203-204 | `splice(idx, 1)` removes the entry at an index inside the list, and index -1 removes the last entry |
| PanelStore.RemoveFoundIsWithout | app/src/panels2/panel.ts:203-204 | for a list without repeats that holds the id, removing at the index `findIndex` gives is the same as filtering the id out |
| PanelStore.SwapLinks | ui/src/renderer/panels/Panel.ts:424-438 | the replacement takes the outgoing panel's slot and percent, the outgoing panel is unlinked and reset to 1, and the store stays linked, free of repeats and sized |
| PanelStore.PrunedKeepsWf | ui/src/renderer/panels/Panel.ts:848-898 | deleting a detached panel together with only panels that deleted panels listed, leaving every survivor untouched, keeps the store well formed |
| PanelTree.CrossDirection | ui/src/renderer/panels/Panel.ts:81-82 | the cross direction of a split axis is always the other axis |
| PanelTree.Get | ui/src/renderer/panels/Panel.ts:243-247 | a lookup finds nothing exactly when the id has no node, and otherwise returns the stored node |
| PanelTree.GetOrError | ui/src/renderer/panels/Panel.ts:249-267 | a lookup fails exactly when the id has no node, with a not-in-tree error for that id that carries the requesting parent when one is given; otherwise it returns the stored node |
| PanelTree.ParentGetOrError | ui/src/renderer/panels/Panel.ts:559-574 | a parent lookup fails exactly on a missing id, throws exactly when the id names a leaf, and succeeds exactly on a parent |
| PanelTree.LeafGetOrError | ui/src/renderer/panels/Panel.ts:795-805 | a leaf lookup fails exactly on a missing id, throws exactly when the id names a parent, and succeeds exactly on a leaf |
| PanelTree.Update | ui/src/renderer/panels/Panel.ts:269-279 | an update fails exactly on a missing id and then changes nothing; otherwise only that node changes, keeping its kind and children and taking each given property |
| PanelTree.UpdateIdempotent | ui/src/renderer/panels/Panel.ts:269-279 | spreading the same properties twice is the same as once, and spreading no properties changes nothing |
| PanelTree.ParentUpdate | ui/src/renderer/panels/Panel.ts:576-587 | a parent update succeeds exactly on a parent, fails exactly on a missing id, changes nothing unless it succeeds, and otherwise changes only that node, replacing its layout when one is given |
| PanelTree.LeafUpdate | ui/src/renderer/panels/Panel.ts:807-817 | a leaf update succeeds exactly on a leaf, fails exactly on a missing id, changes nothing unless it succeeds, and otherwise changes only that node, which stays a childless leaf with any given title |
| PanelTree.SetAttrsKeeps | ui/src/renderer/panels/Panel.ts:327-342 | changing a node's layout attributes, such as the active tab, keeps the links in agreement, the lists free of repeats and the sizes as they were |
| PanelTree.NewParent | ui/src/renderer/panels/Panel.ts:165-182 | a new parent takes every given property and otherwise the defaults: no parent, percent 1, every edge accepting drops, a horizontal split with no children, no titlebar (also lines 509-514) |
| PanelTree.NewLeaf | ui/src/renderer/panels/Panel.ts:165-170 | a new leaf has no children, takes every given property, and otherwise the defaults: no parent, percent 1, every edge accepting drops, no content (also lines 190-194, 748-753) |
| PanelTree.TreeCreate | ui/src/renderer/panels/Panel.ts:934-953 | a new tree holds a single parentless root, a horizontal split with no children at percent 1, whose left and right edges accept drops and whose top and bottom do not |
| PanelTree.TreeCreateValid | ui/src/renderer/panels/Panel.ts:934-953 | a new tree is valid |
| PanelTree.CreateWith | ui/src/renderer/panels/Panel.ts:535-549 | creating stores the node under the new id and returns that id; without a target nothing else happens, and it is never turned away silently (also lines 771-785) |
| PanelTree.ParentCreate | ui/src/renderer/panels/Panel.ts:527-551 | creating a parent with no target stores the new parent and returns its id; with a target the id is still stored and returned on success |
| PanelTree.LeafCreate | ui/src/renderer/panels/Panel.ts:766-787 | creating a leaf with no target stores the new leaf and returns its id; with a target the id is still stored and returned on success |
| PanelTree.AddChild | ui/src/renderer/panels/Panel.ts:589-681 | adding a child fails on a missing parent, throws on a leaf parent, fails on a missing child, is turned away without change exactly when a parent is added under tabs or the child already has a parent, and otherwise fails only naming a listed sibling |
| PanelTree.AddChildKeepsValid | ui/src/renderer/panels/Panel.ts:589-681 | on a valid tree, adding a parentless non-root node to a parent that accepts it always succeeds, appends and links the child, and keeps the tree valid |
| PanelTree.Redistribute | ui/src/renderer/panels/Panel.ts:684-744 | a refill changes only percents, changes nothing unless it succeeds, fails on a missing parent, throws on a leaf, and otherwise fails only naming a listed child |
| PanelTree.RedistributeKeepsValid | ui/src/renderer/panels/Panel.ts:684-744 | with nothing excluded, a refill on a valid tree always succeeds, keeps it valid, and leaves every node outside the parent's children untouched |
| PanelTreeEdit.ListerIsParent | ui/src/renderer/panels/Panel.ts:559-574 | in a valid tree only a parent lists children, so the parent lookups of an edit never throw (also lines 211-212) |
| PanelTreeEdit.RefillIsStore | ui/src/renderer/panels/Panel.ts:684-744 | on a parent, the tree's refill carries a store success or a store throw over unchanged |
| PanelTreeEdit.ClearActive | ui/src/renderer/panels/Panel.ts:328-338 | a tabs parent whose active tab is the moved node ends with no active tab; every other node, and any other layout, is left exactly as it was |
| PanelTreeEdit.MarkActive | ui/src/renderer/panels/Panel.ts:339-342 | a tabs parent makes the moved node its active tab; any other node or layout is left exactly as it was |
| PanelTreeEdit.ReParent | ui/src/renderer/panels/Panel.ts:287-350 | a re-parent fails on a missing node, fails on a node without a parent, fails on a missing new parent, never adds or removes nodes, and is never turned away silently |
| PanelTreeEdit.RelocateShape | ui/src/renderer/panels/Panel.ts:314-342 | the re-parent writes insert the node into the new list at the index, filter it out of the old list, point it at the new parent, mark it active in a tabs parent, and leave every percent, every kind and every other link alone |
| PanelTreeEdit.RefillBothKeeps | ui/src/renderer/panels/Panel.ts:344-350 | the two refills that end a re-parent succeed on a store that only those two parents unsettle, leave it well formed, and touch only percents |
| PanelTreeEdit.ReParentUnfolds | ui/src/renderer/panels/Panel.ts:300-350 | once both parents are found, a re-parent is the list and link writes followed by the refill of the old parent and then of the new one |
| PanelTreeEdit.ReParentKeepsValid | ui/src/renderer/panels/Panel.ts:287-350 | re-parenting any node that has a parent under any parent always succeeds in a valid tree and keeps it valid |
| PanelTreeEdit.ReParentPlaces | ui/src/renderer/panels/Panel.ts:314-342 | after a re-parent the node points at its new parent, sits in its list at the index, is gone from its old parent's list, every other list is unchanged, and a tabs parent shows the node |
| PanelTreeEdit.ReParentFrame | ui/src/renderer/panels/Panel.ts:314-350 | a re-parent changes no other node's parent link, and a split parent receiving the node keeps its attributes |
| PanelTreeEdit.ReParentBesideOnly | ui/src/renderer/panels/Panel.ts:314-350 | moving a node beside the only child of another parent leaves the pair in index order, the old child at 1/(1+x) and the newcomer at x/(1+x) of the parent, where x is the newcomer's old percent |
| PanelTreeEdit.ReParentBeside | ui/src/renderer/panels/Panel.ts:287-350 | in a valid tree such a move succeeds, keeps the tree valid, and leaves the parent where it was, holding the pair in index order at those shares, a tabs parent showing the newcomer |
| PanelTreeEdit.RefillPair | ui/src/renderer/panels/Panel.ts:728-740 | refilling a parent whose two children are a node that filled it and a newcomer of percent x leaves them at 1/(1+x) and x/(1+x) |
| PanelTreeEdit.OnlyChildFills | ui/src/renderer/panels/Panel.ts:642-649 | in a well-formed store a parent's only child holds the whole parent |
| PanelTreeEdit.InsertBesideOne | ui/src/renderer/panels/Panel.ts:320-324 | inserting into a one-entry list puts the new entry first or second, as the index says |
| PanelTreeEdit.TakeOut | ui/src/renderer/panels/Panel.ts:405-422 | taking the replacement out of its old parent fails when that parent is missing, never adds or removes nodes, and is never turned away silently |
| PanelTreeEdit.Release | ui/src/renderer/panels/Panel.ts:405-422 | a replacement without a parent is released with no change |
| PanelTreeEdit.Family | ui/src/renderer/panels/Panel.ts:405-419 | a node without a parent has no siblings to resize |
| PanelTreeEdit.ReplaceWith | ui/src/renderer/panels/Panel.ts:386-441 | a replace fails on a missing node or replacement, is turned away without change exactly when the replaced node has no parent, and never adds or removes nodes |
| PanelTreeEdit.TakeOutIsDetach | ui/src/renderer/panels/Panel.ts:405-422 | taking a node out is detaching it from its parent and refilling that parent, once the refill succeeds |
| PanelTreeEdit.TakeOutKeeps | ui/src/renderer/panels/Panel.ts:405-422 | in a valid tree taking a node out succeeds, leaves a well-formed store where it is parentless and unlisted, and changes no other link, no other list, no attribute, and only its old siblings' percents |
| PanelTreeEdit.ReleaseKeeps | ui/src/renderer/panels/Panel.ts:405-422 | releasing a non-root node keeps a valid tree valid, makes the node parentless, and touches only its old parent's list and its old siblings' percents |
| PanelTreeEdit.SwapKeepsValid | ui/src/renderer/panels/Panel.ts:424-438 | swapping a parentless node other than the root into a child's slot keeps a valid tree valid |
| PanelTreeEdit.ReplaceWithUnfolds | ui/src/renderer/panels/Panel.ts:400-441 | once the parent is found, a replace is the release of the replacement followed by the slot swap |
| PanelTreeEdit.ReplaceWithKeepsValid | ui/src/renderer/panels/Panel.ts:386-441 | replacing a child with another node that is neither the root nor the child's parent always succeeds and keeps a valid tree valid |
| PanelTreeEdit.ReplaceWithPlaces | ui/src/renderer/panels/Panel.ts:424-438 | after a replace the replacement has the replaced node's parent and slot (and percent, when it came from elsewhere), the replaced node is parentless at 1, and no attribute or other list changes |
| PanelTreeEdit.RedistributeSetParent | ui/src/renderer/panels/Panel.ts:417-421 | writing a parent link before or after a refill gives the same store and outcome, so the order of those writes in the source does not matter |
| PanelTreeEdit.RewriteSetParent | ui/src/renderer/panels/Panel.ts:731-739 | the percent writes of a refill commute with a parent-link write |
| PanelTreeEdit.PromoteToParent | ui/src/renderer/panels/Panel.ts:480-506 | a promotion adds exactly the new id to the store, returns that id on success, and fails on a missing node |
| PanelTreeEdit.NewNodeKeepsValid | ui/src/renderer/panels/Panel.ts:535-540 | storing a new parentless, childless node under an unused id keeps a valid tree valid |
| PanelTreeEdit.AttachToEmpty | ui/src/renderer/panels/Panel.ts:642-649 | adding to a parent without children sets the child's percent to 1 and links the two, changing nothing else |
| PanelTreeEdit.PromoteKeepsValid | ui/src/renderer/panels/Panel.ts:480-506 | promoting a child under an unused id succeeds, keeps the tree valid, puts the new parent in the node's slot with the node's percent, and makes the node its only child, filling it |
| PanelTreeEdit.PromoteFrame | ui/src/renderer/panels/Panel.ts:480-506 | a promotion changes no other node's link, percent or attributes, no list but the old parent's, and the new parent has the requested layout |
| PanelTreeEdit.SetPercentOfParent | ui/src/renderer/panels/Panel.ts:905-923 | sizing fails on a missing node, only writes the percent of a parentless node, never adds or removes nodes, and is never turned away silently |
| PanelTreeEdit.SetPercentKeeps | ui/src/renderer/panels/Panel.ts:913 | writing a child's percent keeps the links and unsettles only its own parent |
| PanelTreeEdit.SetPercentOfParentUnfolds | ui/src/renderer/panels/Panel.ts:911-921 | once the node and its parent are found, sizing is the percent write followed by a refill that excludes the node |
| PanelTreeEdit.SizeAmongSiblings | ui/src/renderer/panels/Panel.ts:913-921 | in a well-formed store, writing a child's percent and refilling its siblings succeeds when it has a sibling, keeps the store well formed with the child at the written percent, and changes only sibling percents |
| PanelTreeEdit.SetPercentOfParentKeepsValid | ui/src/renderer/panels/Panel.ts:905-923 | in a valid tree, sizing a node that has a sibling succeeds and keeps the tree valid: the node holds the percent, its siblings fill the rest, nodes outside the family are untouched |
| PanelTreeEdit.ExcludedSumOne | ui/src/renderer/panels/Panel.ts:715 | excluding just the sized child makes the fixed sum that child's percent (also line 919) |
| PanelSubtree.Sub | ui/src/renderer/panels/Panel.ts:848-898 | the subtree a delete walks contains its top and only panels that have nodes |
| PanelSubtree.SubAll | ui/src/renderer/panels/Panel.ts:868-895 | the panels the child loop reaches all have nodes |
| PanelSubtree.SubRank | ui/src/renderer/panels/Panel.ts:848-898 | every panel of a subtree sits at most as high as its top, and strictly lower unless it is the top, so the recursive delete terminates |
| PanelSubtree.ParentInSub | ui/src/renderer/panels/Panel.ts:848-898 | below its top, every panel of a subtree has a parent link, and it points into the same subtree |
| PanelSubtree.SubsNest | ui/src/renderer/panels/Panel.ts:848-898 | two subtrees that meet are nested: the lower top lies inside the other subtree |
| PanelSubtree.SiblingsApart | ui/src/renderer/panels/Panel.ts:868-895 | the subtrees of two different children of one panel share no panel, so deleting one child's subtree leaves the next child's whole |
| PanelSubtree.FirstApart | ui/src/renderer/panels/Panel.ts:868-895 | the subtree of a panel's first listed child shares nothing with the subtrees the loop visits after it |
| PanelSubtree.RootOutside | ui/src/renderer/panels/Panel.ts:829-835 | the parentless root lies in no other panel's subtree, so a delete below it never reaches it |
| PanelSubtree.AboveOutside | ui/src/renderer/panels/Panel.ts:837-846 | a panel ranked above another lies outside the other's subtree |
| PanelSubtree.ShrunkRanked | ui/src/renderer/panels/Panel.ts:841-843 | dropping entries from children lists keeps a rank a valid height |
| PanelSubtree.SubFrame | ui/src/renderer/panels/Panel.ts:837-846 | changing lists only outside a subtree leaves that subtree the same set of panels |
| PanelSubtree.DetachRanked | ui/src/renderer/panels/Panel.ts:837-846 | taking a panel off its parent keeps a rank a height and the panel's subtree the same set |
| PanelTreeDestroy.Unhook | ui/src/renderer/panels/Panel.ts:837-846 | unhooking changes only the old parent's list, which either stays or loses the node; no attribute changes, no node appears or disappears, and a failure is a missing node |
| PanelTreeDestroy.DestroyFrom | ui/src/renderer/panels/Panel.ts:820-902 | a destroy is turned away without change exactly on the root, fails on a missing node, never deletes the root, changes no survivor unless it unhooks, and on success the node is gone along with every panel a deleted parent listed |
| PanelTreeDestroy.Finish | ui/src/renderer/panels/Panel.ts:848-898 | past the unhook, a destroy checks the children before deleting anything: a missing listed child fails the destroy with the store unchanged; on success the node is gone and survivors are untouched |
| PanelTreeDestroy.DestroyAll | ui/src/renderer/panels/Panel.ts:868-895 | the child loop never fails with a tagged error (the second not-in-tree case is unreachable and dies), leaves survivors untouched, and on success no listed child but the root survives |
| PanelTreeDestroy.Destroy | ui/src/renderer/panels/Panel.ts:820-902 | a destroy is turned away without change exactly on the root, never deletes the root, and fails naming the first missing child, with the store unchanged, when a parent lists a panel that has no node |
| PanelTreeDestroy.UnhookKeepsValid | ui/src/renderer/panels/Panel.ts:837-846 | in a valid tree the unhook succeeds, keeps the tree valid, leaves the node parentless and unlisted by its old parent, and changes no other parent link |
| PanelTreeDestroy.DestroyAllListed | ui/src/renderer/panels/Panel.ts:868-895 | the child loop deletes only the listed children and panels their deleted parents listed |
| PanelTreeDestroy.FinishListed | ui/src/renderer/panels/Panel.ts:848-898 | past the unhook, a destroy deletes the node and only panels that deleted parents listed |
| PanelTreeDestroy.GoneKeepsValid | ui/src/renderer/panels/Panel.ts:848-898 | deleting from a valid tree a detached panel, the children of every deleted parent and nothing else keeps the tree valid |
| PanelTreeDestroy.DestroyKeepsValid | ui/src/renderer/panels/Panel.ts:820-902 | a successful destroy of a non-root panel with the default unhook leaves a valid tree: no survivor lists a deleted panel or points at one |
| PanelTreeDestroy.DestroyLeafPlaces | ui/src/renderer/panels/Panel.ts:820-902 | destroying a leaf of a valid tree always succeeds, deletes exactly that leaf, leaves its old parent listing the rest, and keeps the tree valid |
| PanelTreeDestroy.DestroyLeafUnfolds | ui/src/renderer/panels/Panel.ts:837-898 | on a leaf whose unhook succeeds, a destroy is the unhook followed by deleting the entry |
| PanelTreeDestroy.DestroyDetachedRemovesSubtree | ui/src/renderer/panels/Panel.ts:848-898 | on a valid tree with no loops, destroying any non-root panel without unhooking succeeds and removes exactly its subtree, every other panel as it was |
| PanelTreeDestroy.DestroyRemovesSubtree | ui/src/renderer/panels/Panel.ts:820-902 | on a valid tree with no loops, destroying any non-root panel with the default unhook succeeds and removes exactly its subtree |
| PanelTreeDestroy.UnhookRanked | ui/src/renderer/panels/Panel.ts:837-846 | the unhook keeps the rank a height and the node's subtree the same set |
| PanelTreeDestroy.FinishRemovesSub | ui/src/renderer/panels/Panel.ts:848-898 | past the unhook, with the subtree intact, a destroy succeeds and removes exactly that subtree |
| PanelTreeDestroy.DestroyAllRemovesSub | ui/src/renderer/panels/Panel.ts:868-895 | the child loop over distinct children succeeds and removes exactly the union of their subtrees |
| PanelTreeOld.AddChild | ui/src/renderer/src/panels/Panel.ts:255-325 | this generation's add fails on a missing parent, throws on a leaf parent, fails on a missing child, fails (rather than being turned away) on a child that already has a parent, and otherwise fails only naming a listed sibling |
| PanelTreeOld.AddChildKeepsValid | ui/src/renderer/src/panels/Panel.ts:255-325 | adding a parentless non-root node to any parent, tabs included, always succeeds in a valid tree, appends and links the child, and keeps the tree valid |
| PanelTreeOld.DestroyFrom | ui/src/renderer/src/panels/Panel.ts:436-513 | this generation's destroy fails on the root with the store unchanged, fails on a missing node, never deletes the root, and on success the node is gone with every panel a deleted parent listed |
| PanelTreeOld.Finish | ui/src/renderer/src/panels/Panel.ts:459-509 | past the unhook, a missing listed child fails the destroy before anything is deleted; on success the node is gone and survivors are untouched |
| PanelTreeOld.DestroyAll | ui/src/renderer/src/panels/Panel.ts:479-506 | the child loop ends in success, a death, or a re-raised cannot-delete-root; a list holding the root never succeeds, and on success no listed child survives |
| PanelTreeOld.Destroy | ui/src/renderer/src/panels/Panel.ts:436-513 | a destroy of the root fails unchanged, a missing node fails, the root is never deleted, and a parent listing a missing panel fails naming it with the store unchanged |
| PanelTreeOld.DestroyAllListed | ui/src/renderer/src/panels/Panel.ts:479-506 | the child loop deletes only the listed children and panels deleted parents listed |
| PanelTreeOld.FinishListed | ui/src/renderer/src/panels/Panel.ts:459-509 | past the unhook, a destroy deletes the node and only panels that deleted parents listed |
| PanelTreeOld.DestroyKeepsValid | ui/src/renderer/src/panels/Panel.ts:436-513 | a successful destroy with the default unhook leaves a valid tree |
| PanelTreeOld.RootChildFails | ui/src/renderer/src/panels/Panel.ts:486-490 | a parent that lists the root cannot be destroyed: the cannot-delete-root error from the child loop is raised again |
| PanelTreeOld.DestroyDetachedRemovesSubtree | ui/src/renderer/src/panels/Panel.ts:459-509 | on a valid tree with no loops, destroying any non-root panel without unhooking succeeds and removes exactly its subtree |
| PanelTreeOld.DestroyRemovesSubtree | ui/src/renderer/src/panels/Panel.ts:436-513 | on a valid tree with no loops, destroying any non-root panel with the default unhook succeeds and removes exactly its subtree |
| PanelTreeOld.FinishRemovesSub | ui/src/renderer/src/panels/Panel.ts:459-509 | past the unhook, with the subtree intact, a destroy succeeds and removes exactly that subtree |
| PanelTreeOld.DestroyAllRemovesSub | ui/src/renderer/src/panels/Panel.ts:479-506 | the child loop over distinct children succeeds and removes exactly the union of their subtrees |
| Panels3.CreateTree | app/src/panels3/Panel.ts:108-123 | a new tree holds exactly one panel, the parentless, childless root, and is valid |
| Panels3.CreateNode | app/src/panels3/Panel.ts:125-144 | creating adds exactly the new id, parentless and childless, with each given prop and otherwise the defaults (horizontal, the whole parent, no tabs), and touches no other panel |
| Panels3.CreateNodeKeepsValid | app/src/panels3/Panel.ts:125-144 | a fresh panel keeps a valid tree valid |
| Panels3.GetNode | app/src/panels3/Panel.ts:155-175 | a lookup fails exactly on a missing panel, tagged with the parent being fetched for, and otherwise returns the stored panel |
| Panels3.AddChild | app/src/panels3/Panel.ts:177-251 | adding fails on a missing parent or child, fails on a child that already has a parent, otherwise fails only naming a listed sibling, and never adds or removes panels |
| Panels3.AddChildKeepsValid | app/src/panels3/Panel.ts:177-251 | adding a parentless non-root panel to a valid tree always succeeds, makes it the last child, links it, and keeps the tree valid, so the siblings share the parent exactly |
| Panels3.RedistributeChildren | app/src/panels3/Panel.ts:253-305 | a refill changes only percents, changes nothing unless it succeeds, fails on a missing parent, and otherwise fails only naming a listed child |
| Panels3.RedistributeKeepsValid | app/src/panels3/Panel.ts:253-305 | with nothing excluded, a refill on a valid tree always succeeds, keeps it valid, and touches only the parent's children |
| Panels3.SetAll | app/src/panels3/Panel.ts:320-326 | the write loop stops exactly at the first listed id with no panel, with the earlier writes done; it changes only percents of listed panels, and on success every listed panel holds the value |
| Panels3.UniformChildren | app/src/panels3/Panel.ts:307-328 | equal shares fail on a missing parent or naming a listed child; on success every child holds 1/n, and no panel outside the children changes |
| Panels3.UniformSumsToOne | app/src/panels3/Panel.ts:307-328 | after a successful equal share of a list without repeats, the children sum to exactly 1 |
| Panels3.ValidateChildrenSizes | app/src/panels3/Panel.ts:404-436 | the size check fails on a missing panel or naming a listed child, is fine with no difference for a childless panel, and otherwise reports the sum less 1, fine exactly when that is 0 |
| Panels3.ValidSizesCheckOut | app/src/panels3/Panel.ts:404-436 | in a valid tree every panel's children check out |
| Panels3.UpdateNode | app/src/panels3/Panel.ts:438-453 | an update fails exactly on a missing panel; otherwise only that panel changes, keeping its links and taking each given prop |
| Panels3.UpdateIdempotent | app/src/panels3/Panel.ts:438-453 | updating with the same props twice is updating once |
| Panels3.UpdateKeepsValid | app/src/panels3/Panel.ts:438-453 | an update that leaves the percent alone keeps a valid tree valid |
| Panels3Delete.Unhook | app/src/panels3/Panel.ts:347-354 | unhooking changes only the old parent's list, which either stays or loses the panel; no panel appears or disappears, and a failure is a missing panel |
| Panels3Delete.DeleteFrom | app/src/panels3/Panel.ts:330-402 | a delete fails on the root with the store unchanged, fails on a missing panel, never deletes the root, changes no survivor unless it unhooks, and on success the panel is gone with every panel a deleted parent listed |
| Panels3Delete.Finish | app/src/panels3/Panel.ts:356-398 | past the unhook, a missing listed child fails the delete before anything is deleted; on success the panel is gone and survivors are untouched |
| Panels3Delete.DeleteAll | app/src/panels3/Panel.ts:371-396 | the child loop ends in success, a death, or a re-raised cannot-delete-root; a list holding the root never succeeds, and on success no listed child survives |
| Panels3Delete.DeleteNode | app/src/panels3/Panel.ts:330-402 | a delete of the root fails unchanged, a missing panel fails, the root is never deleted, and a panel listing a missing child fails naming it with the store unchanged |
| Panels3Delete.UnhookKeepsValid | app/src/panels3/Panel.ts:347-354 | in a valid tree the unhook succeeds, keeps the tree valid, and leaves the panel parentless and unlisted by its old parent |
| Panels3Delete.DetachRefillKeepsWf | app/src/panels3/Panel.ts:349-353 | taking a child out of a well-formed store and refilling its old parent succeeds and keeps the store well formed |
| Panels3Delete.DeleteAllListed | app/src/panels3/Panel.ts:371-396 | the child loop deletes only the listed children and panels deleted parents listed |
| Panels3Delete.FinishListed | app/src/panels3/Panel.ts:356-398 | past the unhook, a delete removes the panel and only panels that deleted parents listed |
| Panels3Delete.GoneKeepsValid | app/src/panels3/Panel.ts:356-398 | deleting from a valid tree a detached panel, every child of a deleted panel and nothing else keeps the tree valid |
| Panels3Delete.DeleteKeepsValid | app/src/panels3/Panel.ts:330-402 | a successful delete with the default unhook leaves a valid tree |
| Panels3Delete.RootChildFails | app/src/panels3/Panel.ts:375-380 | a panel that lists the root cannot be deleted: the cannot-delete-root error from the child loop is raised again |
| Panels3Delete.DeleteLeafPlaces | app/src/panels3/Panel.ts:330-402 | deleting a childless panel of a valid tree always succeeds, removes exactly it, leaves its old parent listing the rest, and keeps the tree valid |
| Panels3Delete.DeleteLeafUnfolds | app/src/panels3/Panel.ts:347-398 | on a childless panel whose unhook succeeds, a delete is the unhook followed by deleting the entry |
| Panels3Delete.DeleteDetachedRemovesSubtree | app/src/panels3/Panel.ts:356-398 | on a valid tree with no loops, deleting any non-root panel without unhooking succeeds and removes exactly its subtree |
| Panels3Delete.DeleteRemovesSubtree | app/src/panels3/Panel.ts:330-402 | on a valid tree with no loops, deleting any non-root panel with the default unhook succeeds and removes exactly its subtree |
| Panels3Delete.UnhookRanked | app/src/panels3/Panel.ts:347-354 | the unhook keeps the rank a height and the panel's subtree the same set |
| Panels3Delete.FinishRemovesSub | app/src/panels3/Panel.ts:356-398 | past the unhook, with the subtree intact, a delete succeeds and removes exactly that subtree |
| Panels3Delete.DeleteAllRemovesSub | app/src/panels3/Panel.ts:371-396 | the child loop over distinct children succeeds and removes exactly the union of their subtrees |
| Panels2.NewPanelNode | app/src/panels2/panel.ts:90-107 | a new panel is written under the new id, parentless and childless, horizontal and filling its parent unless the props say otherwise, and no other panel changes |
| Panels2.CreateRootPanelNode | app/src/panels2/panel.ts:87-88 | the root panel is named "root" under the fixed root id, and on an empty store it alone makes a valid tree |
| Panels2.Tag | app/src/panels2/panel.ts:117-121 | a lookup error is tagged with a parent exactly when a non-empty parent id is given, since an empty id is falsy |
| Panels2.GetPanel | app/src/panels2/panel.ts:109-127 | a lookup fails exactly on a missing panel, tagged with any given parent, and otherwise returns the stored panel |
| Panels2.AddChild | app/src/panels2/panel.ts:129-187 | adding fails on a missing parent or child tagged with the parent, otherwise fails only naming a listed sibling, and never adds or removes panels |
| Panels2.AddChildKeepsValid | app/src/panels2/panel.ts:129-187 | adding a free non-root panel to a valid, sized store always succeeds, appends and links it, and keeps the store valid and sized |
| Panels2.AddChildOfParentedBreaksLinks | app/src/panels2/panel.ts:139-143 | with no free-child check, a successful add of a panel another parent lists leaves that parent listing a child linked elsewhere |
| Panels2.Update | app/src/panels2/panel.ts:228-243 | an update fails exactly on a missing panel; otherwise only that panel changes, keeping its links and taking each given prop |
| Panels2.UpdateKeepsValid | app/src/panels2/panel.ts:228-243 | an update keeps a valid store valid, and keeps the sizes when it leaves the percent alone |
| Panels2.UpdateIdempotent | app/src/panels2/panel.ts:228-243 | applying the same update twice is applying it once |
| Panels2.PresentPercents | app/src/panels2/panel.ts:254-259 | when every listed child is present, the summed percents are exactly the children's percents in order |
| Panels2.ValidateChildrenSizes | app/src/panels2/panel.ts:245-262 | the size check throws exactly on a missing panel; otherwise it reports a non-negative difference, fine exactly when it is 0, equal to the distance of the present children's sum from 1 |
| Panels2.SizedChecksOut | app/src/panels2/panel.ts:245-262 | a linked and sized store checks out at every panel |
| Panels2.Unhooked | app/src/panels2/panel.ts:201-206 | the unhook changes no list but the parent's and no node appears or disappears |
| Panels2.DeleteFrom | app/src/panels2/panel.ts:189-226 | a delete is turned away without change exactly on the root, fails on a missing panel with the store unchanged, never deletes the root, and on success the panel is gone with every panel a deleted parent listed |
| Panels2.Finish | app/src/panels2/panel.ts:208-223 | the child loop and final delete succeed or die (runSync throws), never delete the root, leave survivors untouched, and on success the panel is gone |
| Panels2.DeleteAll | app/src/panels2/panel.ts:208-210 | the child loop succeeds or dies, turning the root away as a child and going on; on success no listed child but the root survives |
| Panels2.DeletePanel | app/src/panels2/panel.ts:189-226 | a delete is turned away without change exactly on the root, fails on a missing panel, never deletes the root, and on success the panel is gone |
| Panels2.DeleteAllListed | app/src/panels2/panel.ts:208-210 | the child loop deletes only the listed children and panels deleted parents listed |
| Panels2.FinishListed | app/src/panels2/panel.ts:208-223 | past the unhook, a delete removes the panel and only panels that deleted parents listed |
| Panels2.UnhookIsDetach | app/src/panels2/panel.ts:201-206 | on a valid store, removing at the index `findIndex` gives is the store's detach, and the links still agree afterwards |
| Panels2.DeleteKeepsValid | app/src/panels2/panel.ts:189-226 | a successful delete with the default unhook leaves a valid store, though not a sized one |
| Panels2.FinishKeepsLinked | app/src/panels2/panel.ts:208-223 | past the unhook, a successful delete of a parentless panel keeps the links in agreement |
| Panels2.DeleteDetachedRemovesSubtree | app/src/panels2/panel.ts:208-223 | on a valid store with no loops, deleting any non-root panel without unhooking succeeds and removes exactly its subtree |
| Panels2.DeleteRemovesSubtree | app/src/panels2/panel.ts:189-226 | on a valid store with no loops, deleting any non-root panel with the default unhook succeeds and removes exactly its subtree |
| Panels2.FinishRemovesSub | app/src/panels2/panel.ts:208-223 | past the unhook, with the subtree intact, a delete succeeds and removes exactly that subtree |
| Panels2.DeleteAllRemovesSub | app/src/panels2/panel.ts:208-210 | the child loop over distinct children succeeds and removes exactly the union of their subtrees |
| Panels2.DeleteLeavesGap | app/src/panels2/panel.ts:201-223 | the delete does not refill the siblings: deleting one half of a root split in two succeeds, and the root's children then fail the size check, 0.5 short (also lines 245-262) |
| Panels2.DeleteLeaf | app/src/panels2/panel.ts:196-223 | deleting a leaf with a parent is unhooking it and dropping its entry |
| Panels2Embedded.NewPanelNode | app/src/panels2.tsx:72-87 | a new panel is written under the new id, parentless and childless, with its name, and no other panel changes |
| Panels2Embedded.CreateRootPanelNode | app/src/panels2.tsx:69-70 | the root panel is named "root" under the fixed root id, and on an empty store it alone makes a valid tree |
| Panels2Embedded.AddChild | app/src/panels2.tsx:89-105 | adding fails on a missing parent or child before any write; otherwise it always succeeds, appends the child, links it, and changes no other list |
| Panels2Embedded.AddChildKeepsValid | app/src/panels2.tsx:89-105 | adding a free non-root panel keeps a valid store valid |
| Panels2Embedded.AddChildOfParentedBreaksLinks | app/src/panels2.tsx:101-102 | adding a panel another parent lists succeeds and leaves that parent listing a child linked elsewhere |
| Panels2Embedded.Tagged | app/src/panels2.tsx:129-134 | a missing-panel failure from the child loop gets the deleting panel appended to its parent chain; a root failure passes unchanged |
| Panels2Embedded.DeleteFrom | app/src/panels2.tsx:107-142 | a delete fails on the root or a missing panel with the store unchanged, never deletes the root, leaves survivors untouched unless it unhooks, and a missing-panel failure's chain ends at the panel deleted |
| Panels2Embedded.Finish | app/src/panels2.tsx:126-141 | the child loop and final delete never delete the root, leave survivors untouched, and on success the panel is gone along with everything its deleted parents listed |
| Panels2Embedded.DeleteAll | app/src/panels2.tsx:126-128 | the first failing child ends the loop with the earlier deletes done; a missing-panel failure names a listed child or carries a chain ending at one; on success no listed child survives |
| Panels2Embedded.DeletePanel | app/src/panels2.tsx:107-142 | a delete fails on the root or a missing panel, never deletes the root, and on success the panel is gone |
| Panels2Embedded.DeleteAllListed | app/src/panels2.tsx:126-128 | the child loop deletes only the listed children and panels deleted parents listed |
| Panels2Embedded.FinishListed | app/src/panels2.tsx:126-141 | past the unhook, a delete removes the panel and only panels that deleted parents listed |
| Panels2Embedded.DeleteKeepsValid | app/src/panels2.tsx:107-142 | a successful delete with the default unhook leaves a valid store |
| Panels2Embedded.FinishKeepsLinked | app/src/panels2.tsx:126-141 | past the unhook, a successful delete of a parentless panel keeps the links in agreement |
| Panels2Embedded.RootChildFails | app/src/panels2.tsx:113-128 | a root listed as a child fails the whole delete with the cannot-delete-root error, and nothing is deleted |
| Panels2Embedded.DeleteDetachedRemovesSubtree | app/src/panels2.tsx:126-141 | on a valid store with no loops, deleting any non-root panel without unhooking succeeds and removes exactly its subtree |
| Panels2Embedded.DeleteRemovesSubtree | app/src/panels2.tsx:107-142 | on a valid store with no loops, deleting any non-root panel with the default unhook succeeds and removes exactly its subtree |
| Panels2Embedded.FinishRemovesSub | app/src/panels2.tsx:126-141 | past the unhook, with the subtree intact, a delete succeeds and removes exactly that subtree |
| Panels2Embedded.DeleteAllRemovesSub | app/src/panels2.tsx:126-128 | the child loop over distinct children succeeds and removes exactly the union of their subtrees |
| PanelDrop.SideAxis | ui/src/renderer/panels/render.tsx:222-233 | left and right split horizontally, top and bottom vertically (also lines 152-155) |
| PanelDrop.CenterIndex | ui/src/renderer/panels/render.tsx:152-155 | a centre-side drop puts the tab in the first slot exactly for the left and top sides, and otherwise in the second |
| PanelDrop.EdgeIndex | ui/src/renderer/panels/render.tsx:188-233 | an edge drop inserts at index 0 exactly for the left and top edges, and otherwise appends |
| PanelDrop.AndThen | ui/src/renderer/panels/render.tsx:102-143 | inside a generator a failure or throw stops the sequence with the writes so far, and a success hands its value on |
| PanelDrop.Then | ui/src/renderer/panels/render.tsx:124-143 | a step without a value stops the sequence when it does not succeed and otherwise runs the next step |
| PanelDrop.Drop | ui/src/renderer/panels/render.tsx:55-60 | with no drop target, or a source and target the handler does not pair, nothing changes (also line 238) |
| PanelDrop.TabBarDropPlaces | ui/src/renderer/panels/render.tsx:66-77 | a tab dropped on a tab bar of a valid tree moves into that bar at the index, and the tree stays valid |
| PanelDrop.MiddleOnParentPlaces | ui/src/renderer/panels/render.tsx:87-96 | a tab dropped on the middle of a parent joins the end of its list, and the tree stays valid |
| PanelDrop.MiddleOnParentIsReParent | ui/src/renderer/panels/render.tsx:87-96 | on a parent, a middle drop is a plain re-parent to the end of its list |
| PanelDrop.EdgeAlongAxisPlaces | ui/src/renderer/panels/render.tsx:182-190 | a tab dropped on the edge of a split along the edge's axis joins that split first for left and top and last for right and bottom, and the tree stays valid |
| PanelDrop.EdgeAlongAxisIsReParent | ui/src/renderer/panels/render.tsx:182-190 | along the axis, an edge drop is a plain re-parent into that split at the edge's index |
| PanelDrop.EdgeOnTabsOrMissing | ui/src/renderer/panels/render.tsx:168-175 | an edge drop on a missing parent fails naming it, on a tabs parent it breaks the handler's assertion, and either way nothing changes |
| PanelDrop.MiddleOnLeafPlaces | ui/src/renderer/panels/render.tsx:97-116 | a tab dropped on the middle of a leaf puts a new tabs parent in the leaf's place, listing the leaf then the tab, showing the tab, shared 1 to the tab's old percent, and the tree stays valid |
| PanelDrop.MiddleOnLeafIsReParent | ui/src/renderer/panels/render.tsx:97-116 | on a leaf, a middle drop is the promotion followed by a re-parent to the end of the new tabs |
| PanelDrop.PromotedBeside | ui/src/renderer/panels/render.tsx:200-208 | the promotion a drop begins with leaves a valid tree in which the new parent holds only the target, in the target's old slot, and the tab is where and as large as it was (also lines 103-109, 125-131) |
| PanelDrop.SideDropSplits | ui/src/renderer/panels/render.tsx:120-155 | a tab dropped on a side of a panel's centre puts a new split on the side's axis in the panel's place, the tab first for left and top and second otherwise, and the two share the split equally |
| PanelDrop.IndexSlots | ui/src/renderer/panels/render.tsx:152-155 | into a one-entry list, both a centre side's index and an edge's index put the tab first exactly at the start of the axis (also lines 188, 213) |
| PanelDrop.EdgeAcrossAxisPromotes | ui/src/renderer/panels/render.tsx:193-215 | a tab dropped on the edge of a split across the edge's axis puts a new split on the edge's axis in the old split's place, the tab first for left and top and last otherwise, the old split keeping 1 to the tab's old percent |
| PanelDrop.SideIsReParent | ui/src/renderer/panels/render.tsx:120-143 | a centre-side drop is the promotion, sizing the tab to 1, and a re-parent into the new split's slot |
| PanelDrop.EdgeAcrossIsReParent | ui/src/renderer/panels/render.tsx:193-215 | across the axis, an edge drop is the promotion followed by a re-parent into the new split at the edge's index |
| PanelDrop.SidesAgree | ui/src/renderer/panels/render.tsx:222-233 | the centre and edge handlers agree: a side's tab goes first exactly when the side is the start of its axis (also lines 152-155) |
| LayoutData.AxisCross | ui/app/src/renderer/ui/Panels/data.ts:78-84 | the cross axis of a split axis is always the other axis |
| LayoutData.AxisCrossInvolution | ui/app/src/renderer/ui/Panels/data.ts:78-84 | crossing twice gives the axis back, and the cross of vertical is horizontal and only that |
| LayoutData.MakeSplit | ui/app/src/renderer/ui/Panels/data.ts:43-60 | a made split throws exactly when it has no children (1/0 is not a percent); otherwise it keeps the axis and the children in order, each at 1/k |
| LayoutData.ActiveLeaf | ui/src/renderer/ui/Panels/View/PanelNodeTabs.tsx:62-68 | a tabs node shows one of its own leaves, and nothing without an active index or when the index is past the last leaf |
| LayoutData.MakeTabsShows | ui/app/src/renderer/ui/Panels/data.ts:62-74 | a tabs node made with one leaf active at 0 shows that leaf, and a default tabs node shows nothing |
| LayoutData.MakeSplitFills | ui/app/src/renderer/ui/Panels/data.ts:43-60 | a made split with children always succeeds and its shares fill it exactly |
| LayoutData.SliceIndex | ui/app/src/renderer/ui/Panels/data.ts:158-162 | a `slice` bound inside the list is used as is, a negative one counts from the end, and none lies past the end |
| LayoutData.InsertPosition | ui/app/src/renderer/ui/Panels/data.ts:156 | the new child goes at the given index, and at the end without one |
| LayoutData.Scale | ui/app/src/renderer/ui/Panels/data.ts:151-154 | scaling multiplies every child's percent by the factor and keeps every node, in order |
| LayoutData.SplitAddChild | ui/app/src/renderer/ui/Panels/data.ts:127-177 | an index past the end throws; a successful add keeps the axis and grows the children by one |
| LayoutData.SpliceSums | ui/app/src/renderer/ui/Panels/data.ts:158-162 | splicing one child in adds its share to the total and its node at the position |
| LayoutData.ScaleSums | ui/app/src/renderer/ui/Panels/data.ts:151-154 | scaling multiplies the total by the factor and keeps the nodes |
| LayoutData.InsertedSum | ui/app/src/renderer/ui/Panels/data.ts:149-162 | before the drift correction the children add up to the old total scaled by 1 - 1/(n+1), plus the new share 1/(n+1) |
| LayoutData.SplitAddChildPlaces | ui/app/src/renderer/ui/Panels/data.ts:156-162 | the new child sits at the insert position and the old children keep their order around it |
| LayoutData.InsertedShares | ui/app/src/renderer/ui/Panels/data.ts:149-162 | the new child's share is 1/(n+1) and every old child's share is scaled by 1 - 1/(n+1), in order around it |
| LayoutData.SplitAddChildKeepsTotal | ui/app/src/renderer/ui/Panels/data.ts:127-177 | when the old shares fill the split, nothing throws and no correction happens: the result is the spliced list and its shares fill the split |
| LayoutData.SplitAddChildNearOne | ui/app/src/renderer/ui/Panels/data.ts:164-174 | whatever the old shares, a successful add leaves the total within the drift tolerance of 1 |
| LayoutData.SplitUpdateChildPercent | ui/app/src/renderer/ui/Panels/data.ts:179-196 | updating succeeds exactly for 0 <= idx <= n, keeps the axis, the nodes and every other child, and sets that child's percent when idx is below n |
| LayoutData.SplitUpdateChildPercentNoOp | ui/app/src/renderer/ui/Panels/data.ts:179-196 | setting a child to the percent it has, or addressing one past the end, changes nothing |
| LayoutData.RemoveTab | ui/src/renderer/ui/Panels/View/dnd.ts:116-122 | filtering out an index in range drops exactly one leaf, and an index out of range keeps them all |
| LayoutData.TabsAddTab | ui/app/src/renderer/ui/Panels/data.ts:201-227 | adding a tab succeeds exactly without an index or with one in [0, n]; the leaves then grow by exactly the new leaf and it is shown |
| LayoutData.AddThenRemoveTab | ui/app/src/renderer/ui/Panels/data.ts:201-227 | removing the tab just added gives the old leaves back, with the new tab's index active |
| LayoutData.TabsSelectShows | ui/app/src/renderer/ui/Panels/data.ts:229-241 | selecting keeps the leaves; an index in range shows that leaf and none shows nothing |
| LayoutData.MakeSidebar | ui/app/src/renderer/ui/Panels/data.ts:114-123 | a sidebar is enabled and a quarter of the window unless told otherwise |
| LayoutData.SidebarUpdate | ui/app/src/renderer/ui/Panels/data.ts:243-260 | an update changes only the named side, each field taking the patch's value when given |
| LayoutData.SidebarToggle | ui/app/src/renderer/ui/Panels/data.ts:262-275 | a toggle flips the named side's enabled flag and nothing else |
| LayoutData.SidebarToggleTwice | ui/app/src/renderer/ui/Panels/data.ts:243-275 | toggling a side twice restores the sidebars, and an empty patch changes nothing |
| LayoutData.UpdateNodes | ui/app/src/renderer/ui/Panels/data.ts:288-308 | the search finds something exactly when the update answers for the node itself or, in a split, for one of its direct children; the node's own answer wins, and otherwise the split keeps its axis and every child's percent, each child the update answers for becomes that answer and every other child stays as it was |
| LayoutData.UpdateNodesDeep | ui/app/src/renderer/ui/Panels/data.ts:277-313 | the intended search finds something exactly when the update answers for some node at any depth below splits; the node's own answer wins, and otherwise the split keeps its axis and every child's percent, each child the search reaches becomes its own deep answer and every other child stays as it was |
| LayoutData.UpdateNodesDeepExtends | ui/app/src/renderer/ui/Panels/data.ts:277-313 | whatever the one-level search finds, the deep search finds too |
| LayoutData.UpdateWorkspace | ui/app/src/renderer/ui/Panels/data.ts:315-355 | the workspace search finds something exactly when one of the four trees matched, replaces each tree by its result or keeps it, and keeps the sidebars' flags and sizes |
| LayoutDnd.ModifyAt | ui/src/renderer/ui/Panels/View/PanelNodeSplit.tsx:92-101 | a write through nested split closures either succeeds or throws; it never fails quietly |
| LayoutDnd.ModifyAtSets | ui/src/renderer/ui/Panels/View/PanelNodeSplit.tsx:92-101 | when the update succeeds on the node a path leads to, that node is replaced by the update's result; when it does not, the whole write throws |
| LayoutDnd.ModifyAtElsewhere | ui/src/renderer/ui/Panels/View/PanelNodeSplit.tsx:92-101 | a write along one path leaves every node on a path that neither leads to nor passes through it exactly as it was |
| LayoutDnd.ModifyLoc | ui/src/renderer/ui/Panels/View/PanelNode.tsx:24-41 | a workspace write through a tabs or split view either succeeds or throws |
| LayoutDnd.ModifyLocSets | ui/src/renderer/ui/Panels/View/PanelNode.tsx:24-41 | a write through a location lands on the node at that location, and throws when the update does |
| LayoutDnd.ModifyLocElsewhere | ui/src/renderer/ui/Panels/View/PanelNode.tsx:24-41 | a write at one location leaves the node at every location apart from it unchanged |
| LayoutDnd.SideAxis | ui/src/renderer/ui/Panels/View/dnd.ts:196-206 | a side drop at a root splits horizontally exactly for the left and right sides |
| LayoutDnd.Continue | ui/src/renderer/ui/Panels/View/dnd.ts:116-130 | inside a batch a later write that throws keeps what the earlier writes left and reports the throw |
| LayoutDnd.NewSplit | ui/src/renderer/ui/Panels/View/dnd.ts:170-194 | the new split has the given axis and two children at half each: the new single-leaf tabs first for left and top, after the existing node for right and bottom |
| LayoutDnd.FindTabs | ui/src/renderer/ui/Panels/View/dnd.ts:253-256 | the index found is the first child showing the tabs node; none is found exactly when no child shows it |
| LayoutDnd.RootTabsPart | ui/src/renderer/ui/Panels/View/dnd.ts:208-245 | the tree picked is one whose root is the dropped-on tabs node, and none is picked only when no tree has it at its root |
| LayoutDnd.HandleDrop | ui/src/renderer/ui/Panels/View/dnd.ts:66-110 | without a drop target, or for a drag and target pair the handler does not match, the workspace is left as it was and nothing throws |
| LayoutDnd.TakeTabRemoves | ui/src/renderer/ui/Panels/View/dnd.ts:116-122 | taking the dragged tab from a tabs node always succeeds and leaves that node without the tab at the dragged index |
| LayoutDnd.RemoveThenAddKeepsLeaves | ui/src/renderer/ui/Panels/View/dnd.ts:116-129 | removing a tab and adding the same leaf back leaves the same multiset of leaves |
| LayoutDnd.TabOntoOwnBar | ui/src/renderer/ui/Panels/View/dnd.ts:116-129 | a tab dropped on its own tab bar is moved to the drop index, becomes the active tab, and the bar keeps exactly its leaves |
| LayoutDnd.TabOntoOtherBar | ui/src/renderer/ui/Panels/View/dnd.ts:116-129 | a tab dropped on another tab bar leaves its source and joins the target; the two bars together keep exactly the leaves they had |
| LayoutDnd.TabOntoSplit | ui/src/renderer/ui/Panels/View/dnd.ts:133-155 | a tab dropped on a split insert point leaves its source; the split gains a new tabs node showing the tab at that index, and the drop throws exactly when adding the child fails |
| LayoutDnd.SideDropAtRoot | ui/src/renderer/ui/Panels/View/dnd.ts:196-245 | a side drop on the tabs node at the root of a tree replaces that tree with an even split along the side's axis and leaves the other trees alone |
| LayoutDnd.SideDropNested | ui/src/renderer/ui/Panels/View/dnd.ts:246-279 | a side drop on a nested tabs node throws exactly when no tree has a split with that tabs node among its children; when it goes through, each tree the search reaches becomes its deep answer (so the enclosing split holds the new cross-axis split where the tabs node was), every other tree is kept, and the sidebars keep their flags and sizes |
| LayoutDnd.EnclosingSplitShape | ui/src/renderer/ui/Panels/View/dnd.ts:250-271 | the enclosing split keeps its axis and shares; its child that showed the tabs node becomes a split across that axis holding the old node and the new tab |
| LayoutDnd.DeepSideDropThrows | ui/app/src/renderer/ui/Panels/data.ts:277-313 | with the one-level node search, a side drop on a tabs node three levels down throws |
| LayoutDnd.DeepSideDropSplits | ui/src/renderer/ui/Panels/View/dnd.ts:246-279 | with the deep search the same side drop goes through |
| LayoutDnd.DeepOneLevelMisses | ui/app/src/renderer/ui/Panels/data.ts:277-313 | the one-level search finds no split in that workspace that holds the tabs node |
| LayoutDnd.DeepSearchFinds | ui/app/src/renderer/ui/Panels/data.ts:277-313 | the deep search reaches the split that holds the tabs node |
| LayoutDnd.OfferedSidesAgree | ui/src/renderer/ui/Panels/View/PanelNodeTabs.tsx:351-371 | a nested tabs node offers exactly the sides whose axis is across its enclosing split, which is the axis of the split the drop creates; a root offers every side |
| LayoutDnd.AppendIndex | ui/src/renderer/ui/Panels/View/PanelNodeSplit.tsx:140-162 | an append point targets index 0 exactly for left and top (or an empty split), and otherwise the end of the split |
| LayoutDnd.AppendPointPlaces | ui/src/renderer/ui/Panels/View/PanelNodeSplit.tsx:272-279 | an append point puts the new tabs node first or last, and a split offers exactly the append points on its own axis |
| LayoutDnd.Range | ui/src/renderer/ui/Panels/View/PanelNodeSplit.tsx:282 | the inclusive integer range from start to end, and the start alone when the end is smaller |
| LayoutDnd.InsertPointsBetween | ui/src/renderer/ui/Panels/View/PanelNodeSplit.tsx:282-291 | the intended insert points are one for each gap between neighbouring children, none for a single child |
| LayoutDnd.InsertPointsInside | ui/src/renderer/ui/Panels/View/PanelNodeSplit.tsx:282-291 | every intended insert point lies strictly inside the split, and its offset passes the below-one assertion exactly when a later child has a positive share |
| LayoutDnd.SingleChildInsertPointThrows | ui/src/renderer/ui/Panels/View/PanelNodeSplit.tsx:282-291 | as written a single-child split still gets an insert point, whose offset assertion throws when that child fills the split |
| LayoutDnd.ClickSelects | ui/src/renderer/ui/Panels/View/PanelNodeTabs.tsx:148-157 | a click on a tab handle selects that handle alone and shows its leaf; clicking it again changes nothing; the leaves stay the same |
| LayoutDnd.ClickStripClears | ui/src/renderer/ui/Panels/View/PanelNodeTabs.tsx:172-179 | a click on the empty strip leaves no handle selected and no leaf shown, with the leaves unchanged |
| DockSpace.IdOf | ui/src/renderer/ui/panels2/data.ts:11-30 | a node's id keeps its uuid and is tagged as a dock space exactly when the node is one |
| DockSpace.NewDockSpace | ui/src/renderer/ui/panels2/data.ts:60-69 | a new dock space keeps a given id or takes the fresh one, and keeps the parent and layout it is given |
| DockSpace.NewLeaf | ui/src/renderer/ui/panels2/data.ts:71-84 | a new leaf always gets a fresh leaf id and keeps its parent and title |
| DockSpace.NewSplit | ui/src/renderer/ui/panels2/data.ts:138-139 | a new split layout has the given direction and no children |
| DockSpace.NewTabs | ui/src/renderer/ui/panels2/data.ts:140-141 | a new tabs layout has no children and no active tab |
| DockSpace.SlotRecord | ui/src/renderer/ui/panels2/data.ts:147-150 | the slot record has exactly the slot names as keys |
| DockSpace.NewSlotted | ui/src/renderer/ui/panels2/data.ts:142-151 | a slotted layout keeps its accepts-children setting and is keyed by exactly the slot names |
| DockSpace.SlotRecordLastWins | ui/src/renderer/ui/panels2/data.ts:147-150 | when a name repeats, the record keeps the last slot with that name |
| DockSpace.CanBeRootOfNew | ui/src/renderer/ui/panels2/data.ts:93-99 | a fresh dock space can be the root exactly when it has no parent and a slotted layout; a leaf never can |
| DockSpace.AddNode | ui/src/renderer/ui/panels2/context.tsx:78-81 | storing a node adds its uuid and keeps every other key |
| DockSpace.GetNode | ui/src/renderer/ui/panels2/context.tsx:96-108 | a lookup fails with a missing-panel error exactly when the uuid is absent, throws exactly when the stored node is of the other kind, and otherwise returns the stored node |
| DockSpace.AddThenGet | ui/src/renderer/ui/panels2/context.tsx:78-108 | a node stored under its id is what the lookup returns for that id, and lookups of other uuids are unchanged |
| DockSpace.SplitAdded | ui/src/renderer/ui/panels2/context.tsx:184-290 | the split gains the child last, and each old share is rescaled by the sizing rule while the newcomer gets the new share |
| DockSpace.Attach | ui/src/renderer/ui/panels2/context.tsx:198-230 | the two writes of an add change only existing entries |
| DockSpace.AddChild | ui/src/renderer/ui/panels2/context.tsx:110-292 | an add fails for a missing dock space, and it succeeds only when both nodes exist and the child had no parent |
| DockSpace.AddChildToTabs | ui/src/renderer/ui/panels2/context.tsx:146-180 | adding to tabs fails for a child that already has a parent or is a dock space; otherwise the leaf is appended, gets the tabs as its parent, and nothing else changes |
| DockSpace.SplitAddedShares | ui/src/renderer/ui/panels2/context.tsx:184-290 | after an add to a split the shares sum to 1, a first child fills the split, and the old children keep their ratios to one another |
| DockSpace.AddChildToSplit | ui/src/renderer/ui/panels2/context.tsx:182-292 | adding a parentless node to a split always succeeds: it is appended with the shares above, the split becomes its parent, and nothing else changes |
| DockSpace.AddChildKeepsListed | ui/src/renderer/ui/panels2/context.tsx:110-292 | after a successful add to tabs or a split, every listed child still exists and names its lister as its parent |
| DockSpace.SelectTab | ui/src/renderer/ui/panels2/context.tsx:297-330 | a successful select was on an existing tabs dock space |
| DockSpace.SelectTabInRange | ui/src/renderer/ui/panels2/context.tsx:309-313 | with the intended bound a successful select was on an existing tabs dock space |
| DockSpace.SelectTabBounded | ui/src/renderer/ui/panels2/context.tsx:309-313 | a select with either bound check succeeds only on an existing tabs dock space |
| DockSpace.SelectTabSelects | ui/src/renderer/ui/panels2/context.tsx:297-330 | a select fails for a missing dock space, another layout, or an index below 0 or above the tab count; otherwise the index becomes active and nothing else in the store changes |
| DockSpace.SelectTabIdempotent | ui/src/renderer/ui/panels2/context.tsx:315-316 | selecting the same tab twice is the same as selecting it once |
| DockSpace.SelectTabInRangeActive | ui/src/renderer/ui/panels2/context.tsx:309-313 | with the intended bound a successful select makes the requested index active, and it names a tab or is none |
| DockSpace.SelectTabPastEnd | ui/src/renderer/ui/panels2/context.tsx:311 | as written, selecting index one past the last tab succeeds and leaves the active index naming no tab; the intended bound rejects it |

## Left out

- Rendering is not modelled: Solid components, DOM refs, canvas drawing of the grid and connections, pragmatic-drag-and-drop registration, and the panel titlebar's scrolling. It is presentation, not data logic. A view appears here only through the data it hands to a handler: a location, a drop index, or the offered sides.
- Resize-handle pixel math is not modelled: the split resize handles in the three views, and the Inspector dividers. It works on sizes measured from the DOM.
- The node graph's selection-rectangle hit test is not modelled. `NodeGraph.MouseDown` starts the rectangle, but which nodes it covers depends on DOM-measured node boxes.
- native/src/lib.rs is not modelled. Its napi exports are one-liners or OS queries.
- Undo and redo of the panels2 store are not modelled (ui/src/renderer/ui/panels2/context.tsx:332-390). They are driven by effects and only half built.
- Generated ids are parameters. This covers UUIDs, node, socket and status-item ids, and the clock. Where an operation needs an unused id, its lemmas require one. Nothing checks UUID syntax.
- The `color` library is not modelled. The icon fill it derives from a stroke is the parameter `fade` of `ThemeColors.AutoIcon`.
- zod is not modelled as a library. A schema is the small `ZodPaths.Schema` datatype.
- `Array.prototype.flatten` in app/src/flatten.ts is not modelled separately. It only forwards to `flattenArrayOfObjects`, which is modelled.
- Numbers are reals. This drops IEEE rounding, NaN, the infinities and every finiteness check. A percent or coordinate can never be NaN here, and `Percents.Make` only checks the range [0, 1].
- Panels3.ValidateChildrenSizes: requires the sum to be exactly 1. The source accepts any sum within `2 * Number.EPSILON` of 1 (app/src/panels3/Panel.ts:430), which only matters for floating point.
- Ids are compared by value, as their uuid. ui/src/renderer/src/panels/Panel.ts:447 and 454 and ui/src/renderer/panels/Panel.ts:832 compare ids with `===` and `!==`, which compares object references (PanelTreeDestroy compares the line-832 root guard by value). Take a copy of the root's id. It passes the source's `id === tree.root` guard, but the model turns it away. Filtering the parent's children with `!==` also removes nothing for such a copy, while the model removes the matching child.
- Text is a sequence of characters. JavaScript's `length` and `slice` count UTF-16 code units, so a character outside the Basic Multilingual Plane counts twice in the source and can be cut in half by a caret move. `FlatText` and `TextBuffer` do not model this.
- The model keeps every object's keys in insertion order. JavaScript enumerates integer-like keys first, in numeric order, in `for…in`, in spread and in `Object.keys`. `ThemePaths` does not model this, so the order of paths differs from the source for a theme whose keys are integer-like.
- `Object.assign` changes its target in place. `ThemeContext.Transform` and `StatusBar.AddItem` return a new value instead. Nothing models the caller's own object also being changed.
- A children list that loops back to an ancestor is not excluded. The deletes in the source recurse on it until the stack overflows. The model stops as soon as an id comes round again and reports a `Defect`.
  - The store invariant (`Valid` / `Wf`) allows such loops.
  - So the lemmas that say a delete succeeds and removes exactly the subtree require a `PanelSubtree.Ranked` height map as well.
  - These lemmas are PanelTreeDestroy.DestroyRemovesSubtree, PanelTreeOld.DestroyRemovesSubtree, Panels3Delete.DeleteRemovesSubtree, Panels2.DeleteRemovesSubtree and Panels2Embedded.DeleteRemovesSubtree.
- When a delete throws part-way, no lemma describes the store it leaves. This happens on a loop, a missing parent, or a child's failure inside `runSync`. The model keeps the writes made before the throw. The lemmas speak of the failures that happen before any write, and of deletes that succeed.
- PanelTreeEdit.ReParent: the collapse of a unary old parent (ui/src/renderer/panels/Panel.ts:352-376) is not modelled. It builds effects that are never run, so it changes nothing.
- PanelDrop.EdgeAcrossAxisPromotes: only covers a split that has a parent. An edge drop across the axis of the root split promotes the root, and no lemma states the tree that results.
- PanelDrop.SideDropSplits: requires the tab's old parent to keep another child. No lemma states the tree that results when the tab is its old parent's only child.
- LayoutDnd.HandleDrop: searches for the enclosing split with `LayoutData.UpdateNodesDeep`, the search the handler evidently intends. The source calls the one-level `updateNodes`. `LayoutDnd.SideDrop` takes the search as a parameter, and the source's search is modelled and exhibited under Findings.
- ZodPaths.ConformingPathsAgree: only holds for values whose objects are all non-empty. An empty object schema yields no path, while an empty object yields its prefix (`ZodPaths.EmptyObjectSchema`).
- Two modules are not modelled on their own, because they run the same logic as a modelled copy:
  - the panel3 view's drop handlers and its active-tab resolution (ui/src/renderer/ui/panel3/View.tsx);
  - the second copies of the status-bar registry, of the chess rules and of the workspace tab handlers.
- NodeGraph.MoveNodes: a drag entry whose id has no node is skipped, where `setNodes(id, …)` in ui/app/src/renderer/NodeGraph/index.tsx:394-397 would create an entry holding only the coordinates. A drag lists only nodes present when it starts, and the model has no operation that deletes a node mid-drag.

## Findings

| source | as written | input that shows it | evidently intended | confidence | as-written member | corrected member |
|---|---|---|---|---|---|---|
| ui/app/src/renderer/ui/Panels/data.ts:288-308 | `updateNodes` tries the update on the node and on a split's direct children, and goes no deeper | a side drop on tabs "t" that sits in a split, inside a split, inside the root split: the search finds nothing and the drop handler throws "failed to find parent split" | find the enclosing split at any depth | not executed | LayoutDnd.DeepSideDropThrows | LayoutDnd.DeepSideDropSplits |
| ui/src/renderer/ui/Panels/View/PanelNodeSplit.tsx:282-291 | `Array.range(0, n - 2)` is inclusive, and gives `[0]` when `n - 2 < 0`, so a split with one child gets an insert point whose offset is that child's whole share | a split with a single child of share 1 while a tab is dragged over it: `assert(accum < 1)` throws | one insert point per gap between neighbouring children | not executed | LayoutDnd.SingleChildInsertPointThrows | LayoutDnd.InsertPointsInside |
| ui/src/renderer/ui/panels2/context.tsx:311 | the bound check rejects `idx > length` only | `selectTab` with index 1 on a tabs dock space with one tab succeeds, and the active index names no tab | reject `idx >= length` | not executed | DockSpace.SelectTabPastEnd | DockSpace.SelectTabInRangeActive |
| ui/app/src/renderer/TextEditingTest.tsx:252-258 | `move` clamps the line index to `lines.length`, while the store's comment (lines 40-41) promises at most `lines.length - 1`; the next read `lines[lineIndex].length` then fails | `move(1, 0)` on a one-line buffer | clamp the line index to the last line | not executed | TextBuffer.MoveAgreesBelowEnd | TextBuffer.MoveClamped |
| ui/src/renderer/TextEditingTest.tsx:255-258 | Backspace at caret 0 computes `slice(0, -1)`, which keeps all but the last character | text "abc" with the caret at 0 becomes "ababc" | Backspace at the start does nothing | not executed | FlatText.BackspaceAtStartDuplicates | FlatText.BackspaceAtStartIgnored |
| ui/app/src/renderer/NodeGraph/index.tsx:931-969 | pressing a connected input restarts the drag from the connection's output but records the pressed node as the start node | with A.ao connected to B.bi, pressing B.bi starts from (B, ao): B's other input is refused, and dropping on A.ai connects "B.ao", a socket B does not have | the start node is the node that owns the output | not executed | NodeGraph.RestartKeepsPressedNode | NodeGraph.RestartFixedReconnects |
| ui/app/src/renderer/NodeGraph/index.tsx:562-563 | hovering a socket of the start node clears `to` even when the start is an input, and so loses the start itself | dragging from the unconnected input B.bj, passing over B.bj, then releasing over A.ao connects nothing | clear only the end the hovered socket would have filled | not executed | NodeGraph.InputStartLost | NodeGraph.InputStartFixedConnects |
| ui/app/src/renderer/ui/StatusBar/ContextProvider.tsx:43-54 | `after: x` splices the new id in at x's index, in front of x; the `before` branch searches for `opts.after`, which is undefined there, and so always appends | items `[x]`: `after: x` gives `[id, x]`, and `before: x` gives `[x, id]` | `after` lands right behind its anchor and `before` right in front of it | not executed | StatusBar.AfterLandsInFront | StatusBar.PlaceIntended |
| ui/src/renderer/App.tsx:155-170 | closing a tab moves the active index only when the closed tab is the active one | workspaces 0, 1, 2 with 2 active: closing 0 leaves the active index at 2 in a two-tab list, so nothing is shown | closing a tab in front of the active one moves the index back by one | not executed | WorkspaceTabs.CloseInFrontLosesView | WorkspaceTabs.CloseTracking |
