# dufus: a verified model of the treemap engine

dufus is a Plan 9 disk-usage viewer. It scans a directory into a tree of
`FsNode` records, lays the tree out as a slice-style treemap, and lets the
user click into directories and move around with the keyboard. This project
models its non-graphical core in Dafny and proves properties of that model:

- **Geometry** (`geometry.dfy`): the libdraw primitives the code relies on.
  `Rect`, `Dx`, `Dy` and `insetrect` are as usual, and `ptinrect` is
  half-open. These primitives are defined here; libdraw is not part of this
  model.
- **Node store** (`fstree.dfy`): `FsNode` is a class with the C fields and
  three ghost fields:
  - `kids`, the children array's used slots;
  - `Nodes` and `Arrays`, the subtree's footprint.

  `Valid()` is the tree invariant and `Abs()` the subtree's value as a `Tree`
  datatype. `create_fsnode` is the constructor, and `add_child` (with growth
  of the child array by realloc) is `AddChild`/`Append`/`Grow`.
- **Sizes** (`sizes.dfy`): `format_size`'s choice of unit, and the decimal
  text of its bytes branch.
- **Scanner** (`scanner.dfy`): `scan_directory` over an abstract file
  system. That file system is a map from a path to the outcome of
  open+dirread: a failed open, a failed read, or a list of entries with
  name, qid type and length. The specification function is `ScanSpec` on
  `Tree` values. The method `ScanDirectory` builds real `FsNode` objects
  and is proved to produce `ScanSpec`.
- **Layout** (`layout.dfy`): the specification is `layout_nodes` as
  `LayoutTree` on `Tree` values. The method `LayoutNodes` writes `bounds`
  in place and is proved equal to that function.
- **Hit test** (`hittest.dfy`): `find_node_at_point` as a method proved
  equal to "the first node of the subtree's post-order whose bounds contain
  the point".
- **Navigation** (`navigation.dfy`): the globals `mode`, `root` and
  `current` as a class `App`, updated by:
  - `navigate` and `handlekey`;
  - the left-click step of `main`'s event loop;
  - the layout call at the top of `draw_interface`, as `Relayout`.

The model follows the code as written. In three places the code does less
than a comment beside it says, and the model has the code's behaviour:
- The comment at `dufus.c:152` says a directory's size includes all its
  children. The size is actually the sum of its entries' raw `length`
  fields, not the sizes of the scanned subtrees: `SizeNotAggregated`.
- The comment at `dufus.c:244` says the last child uses the remaining
  space. `MINBOX` can push it past the available rectangle:
  `MinboxOverflows`.
- The comment at `dufus.c:520` says the previously selected node is
  deselected. Only the old `current`'s flag is cleared, and it may not be
  the selected node: `Navigation.App.Click`.

Two more behaviours of the code are worth stating, though no comment
promises otherwise:
- Children keep the listing's order, and nothing sorts them:
  `ListingOrderKept`.
- The hit test does not prune by a node's own bounds: `NoPruning`.

## Model

| member | source | states |
|---|---|---|
| FsTree.NewCapacity | dufus.c:96 | Definition: the capacity a full array grows to, 16 when it had none and twice the old one otherwise. Its properties over many appends are in CapacityBounds. |
| FsTree.CapacityBounds | dufus.c:95-103 | After n appends, the capacity holds the n children. It is 0 exactly when there are none, it is 16 doubled some number of times, and past 16 it is less than 2n. |
| FsTree.FsNode.constructor | dufus.c:67-86 | A new node has the given name, path, size, directory flag and parent. It has no child array, zero children and capacity, is not selected, has zero bounds, its colour follows the directory flag, and it is a valid one-node tree. |
| FsTree.FsNode.Abs | dufus.h:23-35 | The value of a subtree has one child value per used slot of the children array. |
| FsTree.FsNode.KidTrees | dufus.h:29-31 | Child value i is the value of the subtree in slot i. |
| FsTree.FsNode.PostOrder | dufus.c:362-371 | The search order ends with the node itself and lists only valid nodes of its subtree. |
| FsTree.FsNode.KidsPostOrder | dufus.c:362-367 | The children's part of the search order lists only valid nodes below the node. |
| FsTree.AddChild | dufus.c:89-106 | A nil parent or child changes nothing. Otherwise the child lands at index old nchildren, earlier slots keep their children, and nchildren grows by one. The capacity becomes the next one (16, then doubling) exactly when the array was full. The tree invariant is kept when, before the call, the parent and the child are valid trees, their nodes and arrays are disjoint, and the child's parent pointer is the parent. |
| FsTree.Append | dufus.c:95-105 | The append for non-nil arguments: grow when full, store at index nchildren, increment. The used slots become the old ones plus the child. |
| FsTree.Grow | dufus.c:95-103 | A full array is replaced by a new one with the next capacity. The new array keeps the existing children in its first nchildren slots. |
| FsTree.KeepsValid | dufus.c:105 | Appending a valid, disjoint subtree whose parent pointer is the node keeps the tree invariant. |
| Scanner.IsDir | dufus.c:139 | Definition: an entry is a directory when its qid type has the QTDIR bit (0x80) set. |
| Scanner.NonDot | dufus.c:134 | Definition: the entries kept are those named neither "." nor "..". |
| Scanner.RawTotal | dufus.c:149 | Definition: `total` after the first n entries, starting from 0 (line 114) and adding the raw length of each non-dot entry. Its meaning is stated in RawTotalIsSum. |
| Scanner.ChildPath | dufus.c:137 | An entry's path is the directory path, then '/', then the entry name: its length is the sum, and it splits into exactly those three parts. |
| Scanner.DeeperShrinks | dufus.c:146-147 | A recursive scan looks at a strictly longer path, so the set of listed paths at least that long shrinks. This is why the recursion ends. |
| Scanner.NonDots | dufus.c:133-135 | The kept entries are never more than the listed ones. |
| Scanner.NonDotsMembers | dufus.c:133-135 | An entry is kept exactly when it is listed and is neither "." nor "..". |
| Scanner.ScanSpec | dufus.c:110-156 | Definition: what scanning a path does to a node's value. A failed open (118-122) or dirread (124-130) leaves it unchanged. Otherwise the children of the listing are appended after the existing ones, and the size becomes the running total of the raw lengths (153). Its properties are in ScanKeeps and ScanEntriesShape. |
| Scanner.ScanEntries | dufus.c:132-150 | Definition: the children the loop appends for the first n entries, in listing order, skipping "." and "..". |
| Scanner.EntryTree | dufus.c:137-147 | Definition: the child one entry yields. It is a node created with the entry's name, path/name, raw length and QTDIR bit, and it is scanned in turn when it is a directory. Its properties are in EntryTreeMade. |
| Scanner.RawTotalIsSum | dufus.c:132-150 | The loop's running total after n entries is the sum of the raw lengths of the non-dot entries among them. |
| Scanner.ScanKeeps | dufus.c:118-153 | A scan keeps name, path, flags, bounds and existing children. A failed open or read changes nothing. Otherwise the listing's children follow the old ones and the size becomes the sum of the raw lengths of the non-dot entries. |
| Scanner.EntryTreeMade | dufus.c:137-147 | The child made from an entry has the entry's name and path/name as its path. Its directory flag comes from QTDIR. It is unselected, with zero bounds. A file or unreadable directory keeps its raw length and has no children. A readable directory gets the raw total of its own listing. |
| Scanner.ScanEntriesShape | dufus.c:132-150 | Exactly one child per entry other than "." and "..", in listing order, each made from its entry. |
| Scanner.SizeNotAggregated | dufus.c:140-153 | Concrete case: a root containing a zero-length directory that holds a 2048-byte file gets size 0, while the subdirectory gets 2048. |
| Scanner.ListingOrderKept | dufus.c:132-143 | Concrete case: the listing "b", "a" yields children "b", "a". Nothing sorts them. |
| Scanner.ScanDirectory | dufus.c:110-156 | The node's new value is ScanSpec of its old value. The tree stays valid, and only new nodes and arrays join its footprint. |
| Scanner.AppendEntries | dufus.c:132-150 | The loop appends ScanEntries of the whole listing after the existing children. It returns the raw total and leaves the size alone. |
| Scanner.ScanStep | dufus.c:133-149 | One pass of the loop extends the children by the entry's child (none for a dot entry) and returns the entry's contribution to the total. |
| Scanner.ScanChild | dufus.c:139-147 | The created (and, for a directory, scanned) child is new, valid, has the node as its parent, and has the value EntryTree gives the entry. |
| Scanner.Adopt | dufus.c:143 | add_child of a complete subtree appends that subtree's value to the node's children. |
| Sizes.UnitFor | dufus.c:180-187 | Definition: the case split on strict comparisons with KB, MB and GB in turn. Its properties are in UnitForRange and UnitForMonotonic. |
| Sizes.FormatSize | dufus.c:176-190 | Definition: the decimal integer with "B" for the first branch, the quotient by the unit with its suffix for the others. Its properties are in FormatSizeShows. |
| Sizes.DigitChar | dufus.c:181 | A digit below 10 prints as a character '0'..'9'. |
| Sizes.Decimal | dufus.c:181 | `%lld` of a non-negative number is never empty. |
| Sizes.DigitRoundTrip | dufus.c:181 | Reading a printed digit gives it back. |
| Sizes.DecimalRoundTrip | dufus.c:181 | Reading the printed decimal text of a number gives the number back. |
| Sizes.DecimalDigits | dufus.c:181 | The decimal text is all digits, with a leading zero only for 0. |
| Sizes.UnitForRange | dufus.c:180-187 | Bytes is chosen exactly below KB, KB exactly in [KB, MB), MB exactly in [MB, GB), and GB from GB on (strict comparisons). Each unit except GB is used only below 1024 of itself. |
| Sizes.UnitForMonotonic | dufus.c:180-187 | A larger size never gets a smaller unit. |
| Sizes.FormatSizeShows | dufus.c:180-187 | format_size picks the integer form exactly below KB, and then the text reads back as the size with suffix "B". Otherwise it shows the quotient by the unit with that unit's suffix. The quotient is at least 1, below 1024 except in GB, and times the unit gives back the size. |
| Layout.SizeTotal | dufus.c:224-226 | Definition: the sum of the first n children's sizes, as the first loop accumulates it. SumSizes is proved to compute it. |
| Layout.Horizontal | dufus.c:229 | Definition: the split runs along x exactly when the rectangle is at least as wide as it is high (Dx ≥ Dy), and along y otherwise. Every "axis" in the rows below is this choice. |
| Layout.Share | dufus.c:240-245 | Definition: `(int)(ratio * w)` with ratio size/total, and 0 when the total is 0, with the quotient truncated toward zero. Its bounds are in ShareBounds. |
| Layout.Cursor | dufus.c:232-259 | Definition: where child i starts along the axis. The first child starts at the low edge, and each later child starts where the previous one ended (the `x += width` / `y += height` of the loop). |
| Layout.Extent | dufus.c:242-256 | Definition: child j's length along the axis. The last child gets what is left up to the high edge, the others their share, and either is raised to MINBOX. |
| Layout.KidRect | dufus.c:249-258 | Definition: child j's rectangle, from its start and extent along the axis and the full extent of avail across it. Its properties are in KidRectShape, KidsInOrder and KidsDisjoint. |
| Layout.Placed | dufus.c:262-270 | Definition: a child given rectangle r. A directory with children is laid out again in r inset by 2, and any other child takes r. Its properties are in PlacedOnlyBounds. |
| Layout.LayoutTree | dufus.c:208-272 | Definition: layout_nodes on a tree value. A node without children is unchanged. Otherwise the node takes avail and every child is placed in its rectangle. Its properties are in LayoutOnlyBounds, LayoutKidsAt and LayoutTwice, and LayoutNodes is proved to perform it. |
| Layout.KidRectSame | dufus.c:238-260 | A child's rectangle depends only on the number of children and their sizes. |
| Layout.LayoutTwice | dufus.c:329 | Laying out again in the same rectangle changes nothing. So the layout that draw_interface runs at the top of every pass of the event loop (dufus.c:510) gives the same bounds as any layout done before it with the same window. |
| Layout.PlacedTwice | dufus.c:262-270 | Placing a child again in the same rectangle changes nothing. |
| Layout.LayoutKids | dufus.c:238-271 | Layout makes one child value per child. |
| Layout.LayoutKidsAt | dufus.c:238-271 | Child j after layout is child j placed in its own rectangle. |
| Layout.LayoutKidsOnlyKids | dufus.c:238-271 | The laid-out children depend only on the children being laid out. |
| Layout.LayoutOnlyBounds | dufus.c:217-221 | Layout changes only bounds, at every depth. A node without children is untouched. A node with children takes avail as its bounds. |
| Layout.PlacedOnlyBounds | dufus.c:262-270 | A placed child changes only in its bounds. A directory with children ends with its rectangle inset by 2, because the recursive call overwrites it. Any other child keeps the rectangle. |
| Layout.KidRectShape | dufus.c:229-260 | The first child starts at avail's low edge on the axis, and each child ends where the next begins. Every child spans avail across the axis and is at least MINBOX long. A non-last child gets max(MINBOX, its share). The last child reaches avail's high edge unless less than MINBOX was left, and then it gets MINBOX. |
| Layout.KidsInOrder | dufus.c:238-260 | Children's rectangles follow one another in child order along the axis. |
| Layout.KidsDisjoint | dufus.c:238-260 | No point lies in the rectangles of two different children. |
| Layout.ShareBounds | dufus.c:240-245 | A share of size ≤ total in length full is between 0 and full, and is the floor of size·full/total. |
| Layout.MinboxOverflows | dufus.c:243-250 | Concrete case: two equal children in a 50×10 area get 40 each, so the second ends at x = 80, past the area. |
| Layout.LayoutNodes | dufus.c:208-272 | On a valid node, layout writes only bounds in the node's subtree, and the new value is LayoutTree of the old value. Nil changes nothing. |
| Layout.LayoutChildren | dufus.c:224-271 | After the node took avail, the two loops leave it with value LayoutTree. |
| Layout.SumSizes | dufus.c:224-226 | The first loop computes the sum of the children's sizes. |
| Layout.PlaceChildren | dufus.c:229-271 | The second loop places every child in its rectangle KidRect, with the cursor x or y at the start of each child. |
| Layout.Assembled | dufus.c:238-271 | All children placed gives the node's laid-out value. |
| Layout.ChildRect | dufus.c:240-260 | One pass's arithmetic gives KidRect and advances the cursor to the next child's start. The other coordinate stays at avail.min. |
| Layout.PlacePass | dufus.c:239-262 | One pass of the second loop places child i in KidRect and moves the cursor to the start of child i+1. The earlier children stay placed. |
| Layout.PlaceStep | dufus.c:262-270 | Placing child i leaves the earlier children placed and the later ones untouched. |
| Layout.LayoutChild | dufus.c:262-270 | `child->bounds = r`, then the inset recursion for a directory with children, gives Placed of the child's old value. |
| HitTest.FirstHit | dufus.c:353-374 | Definition: the first node of a sequence whose bounds contain the point under the half-open ptinrect, or nil. Its properties are in FirstHitMeans, FirstHitAppend and NoPruning, and FindNodeAtPoint is proved to compute it over the post-order. |
| HitTest.FirstHitMeans | dufus.c:353-374 | The search finds a node exactly when some node of the order contains the point. That node contains the point, and no earlier node does. |
| HitTest.FirstHitAppend | dufus.c:363-371 | Searching a concatenation searches the first part, then the second. |
| HitTest.SearchStep | dufus.c:363-367 | Searching from child i on gives child i's subtree result, or else the result of searching from child i+1 on. |
| HitTest.FindNodeAtPoint | dufus.c:353-374 | Nil gives nil. Otherwise the result is the first node of the post-order (children in array order, each with its subtree, then the node) whose bounds contain the point under the half-open ptinrect. |
| HitTest.SearchChild | dufus.c:364-366 | One pass of the children loop returns what searching from child i on finds, or nil to go on with child i+1. |
| HitTest.NoPruning | dufus.c:362-371 | A point in some node below is found below, even outside the node's own bounds. The node itself is found only when no node below contains the point. |
| Navigation.Navigates | dufus.c:442-457 | Definition: handlekey passes the key to navigate exactly when the mode is NORMAL or the key is not Esc. |
| Navigation.DataRect | dufus.c:323-324 | Definition: the treemap's area, the window rectangle without the bottom STATUSHEIGHT (30) rows. |
| Navigation.ModeAfter | dufus.c:440-459 | The mode becomes NORMAL exactly when it was NORMAL or the key is Esc. It changes only on Esc outside NORMAL, and it stays the same whenever the key goes to navigate. |
| Navigation.NormalForever | dufus.c:19 | Starting in NORMAL, the mode stays NORMAL whatever keys arrive. |
| Navigation.InKidsPostOrder | dufus.c:362-367 | A node of child j's subtree is in the search order from child i on, for i ≤ j. |
| Navigation.KidHolding | dufus.c:362-367 | A node in the search order from child i on lies in the subtree of some child j ≥ i. |
| Navigation.SubtreeInTree | dufus.c:362-371 | A node of a tree is a valid subtree whose nodes are all in the tree. |
| Navigation.ParentInTree | dufus.c:403-404 | Every node of a tree except its top has a non-nil parent inside the tree, so 'u' stays inside the tree. |
| Navigation.HitInTree | dufus.c:518-529 | A hit from any node of the tree is a node of the tree. |
| Navigation.App.constructor | dufus.c:503-505 | Start-up: NORMAL mode. root and current are a new parentless directory node named "root" for the path, scanned as ScanSpec gives. |
| Navigation.App.Navigated | dufus.c:378-418 | Definition: the state change navigate makes for a key, between two states. 'q' asks to quit, with root and current kept. 'o' gives a new parentless directory node named "root" for ".", scanned, made of new nodes only, as root and current. 'u' moves to the parent when current and its parent are non-nil. 'r' moves to root when there is one. Any other key changes nothing. |
| Navigation.App.Navigate | dufus.c:378-418 | 'q' asks to quit. 'o' replaces the tree with a new one made only of new nodes: a directory named "root" for ".", parentless and scanned, both root and current. 'u' moves to the parent when current and its parent are non-nil, so at the root it stays. 'r' moves to the root when there is one. Other keys change nothing. The mode is kept, and for a key other than 'o' no node or array changes. |
| Navigation.App.Open | dufus.c:385-399 | The 'o' case: a new scanned "root" for "." becomes root and current. |
| Navigation.App.SwitchMode | dufus.c:422-424 | The mode becomes the new mode. |
| Navigation.App.HandleKey | dufus.c:440-459 | Outside NORMAL, Esc switches to NORMAL and changes nothing else. Every other key, and every key in NORMAL, has navigate's effect. The new mode is ModeAfter. |
| Navigation.App.Click | dufus.c:516-529 | Without button 1 nothing happens. Otherwise the result is the hit test from current. On a hit, the clicked node's flag is set and the old current's flag is cleared (unless it is the clicked node). No other flag changes. current moves to the clicked node exactly when it is a directory with children. |
| Navigation.App.Select | dufus.c:519-529 | The state update of a hit, with the same flags and current as in Click. |
| Navigation.App.Relayout | dufus.c:323-329 | With a tree, root's new value is LayoutTree of its old value in the data area (the window minus the status bar) inset by MARGIN. |

## Left out

- Drawing, windowing and text: `setupdraw`, `initcolors`, `draw_fsnode`, `draw_status_bar`, the drawing parts of `draw_interface`, `update_status` and `eresized`. They are graphics and output with no logic; the colour handles are an enumeration `Color`.
- The event loop, `event()`, argv parsing and `usage` are left out. `exits` on 'q' is modelled as a returned quit flag with the state unchanged.
- The file system: `open`, `dirread` and the error messages on failure are replaced by the abstract listing. The path written by `snprint` is modelled without its 1024-byte truncation, and names are modelled without `strecpy`'s field-size truncation.
- `clear_fsnode` is not modelled, because freeing memory cannot be observed here. On 'o', the old tree is dropped, and the model requires the new tree to be made only of new nodes.
- `sysfatal` on a failed `mallocz` or `realloc` is left out; allocation always succeeds in the model.
- Integer widths are not modelled: sizes are unbounded `nat`s and coordinates unbounded `int`s. The `u64int` sum of sizes, the `int` extents and `nchildren` never overflow in the model.
- Layout.Share: `(int)(ratio * w)` with a `double` ratio, and the `double` sum of sizes, are taken as exact rational arithmetic truncated toward zero; floating-point rounding is not modelled.
- Sizes.FormatSizeShows: the `%.1f` rounding to one decimal is not modelled; the value shown is the exact quotient. The static buffer that `format_size` returns is not modelled.
- `acc` in `layout_nodes` is written but never read, so it is left out, as are the unused globals `viewport`, `pan_start` and `panning`.
- Scanner.ScanChild: the child's node is created and scanned before it is appended to the parent; the C appends it first and then scans it. Nothing reads the parent during a child's scan, so the resulting tree is the same.
- The loops of `scan_directory`, `layout_nodes` and `find_node_at_point` have their bodies split into helper methods (ScanStep, PlacePass, ChildRect, PlaceStep, SearchChild); each helper performs exactly one pass.
- Navigation.App.Navigate: the calls to `draw_interface` inside navigate (dufus.c:398, 406, 414) and after a click (dufus.c:535) are not modelled. Apart from drawing, such a call only lays the tree out, and the event loop lays it out again (dufus.c:510) before the next event is handled. LayoutTwice shows that a second layout in the same window changes nothing, so leaving out these calls loses no state.
- ScanDirectory terminates in the model because the listing is a finite map and every child path is longer than its parent's (Deeper, DeeperShrinks). The code has no such bound. Two cases may not terminate there:
  - `snprint` truncates a path at 1023 bytes (dufus.c:137). A subdirectory of a directory at that length gets the same path, so dufus.c:147 scans the same directory again, without end.
  - A namespace whose binds form a loop gives unboundedly deep paths.
- Navigation.App.Navigate: 'o' rescans ".", as the code does; the path given on the command line is not used again.
- Nothing in the code enters NAVIGATING or ZOOMING. The mode handling is modelled, and NormalForever shows the mode never leaves NORMAL.
