/**
  The searchable menu of the editor's widgets: a tree of rows (categories and items) that
  is built from '/'-separated internal paths, with a memo from category path to its row;
  the selection of the first selectable leaf of the filtered tree; and the menu's
  reactions to activating a row, pressing Enter and changing the search text.

  Rows are identified by their index in `rows`, in the order they were made; row 0 is the
  model's invisible root. A row records the row it was appended to; a row's children are
  the rows that record it, in the order they were appended. The search filter model is outside the model: the rows it keeps for a search text are given
  to `OnSearchChanged`. A QVariant is `Option<Variant>`, `None` being the invalid variant.
*/
module SearchableMenu {
  import opened Common

  /** The payload a menu item carries. */
  type Variant = int

  /** The invisible root row. */
  const ROOT: nat := 0

  /** One row of the item model: its caption, the internal path and variant an item stores
      (a category stores neither) and the row it was appended to. */
  datatype Row = Row(caption: string, internalPath: Option<string>, variant: Option<Variant>, parent: nat)

  /** Signals the menu emits. */
  datatype Signal =
    | MenuItemTriggered(name: string, variant: Variant)
    | SearchTextChanged(text: string)

  // ---------------------------------------------------------------------------
  // Paths

  /** The position of the last `ch` in `s`, if any. */
  function LastIndexOf(s: string, ch: char): (r: Option<nat>)
    ensures r.None? <==> ch !in s
    ensures r.Some? ==> r.value < |s| && s[r.value] == ch && ch !in s[r.value + 1..]
  {
    if s == [] then None
    else if s[|s| - 1] == ch then Some(|s| - 1)
    else
      var r := LastIndexOf(s[..|s| - 1], ch);
      assert s == s[..|s| - 1] + [s[|s| - 1]];
      if r.Some? then
        assert s[r.value + 1..] == s[..|s| - 1][r.value + 1..] + [s[|s| - 1]];
        r
      else r
  }

  function TrimLeading(s: string): (r: string)
    ensures |r| <= |s|
    ensures r == [] || r[0] != '/'
    ensures (s == [] || s[0] != '/') ==> r == s
    ensures r == s[|s| - |r|..]
  {
    if s != [] && s[0] == '/' then TrimLeading(s[1..]) else s
  }

  function TrimTrailing(s: string): (r: string)
    ensures |r| <= |s|
    ensures r == [] || r[|r| - 1] != '/'
    ensures (s == [] || s[|s| - 1] != '/') ==> r == s
    ensures r == s[..|r|]
  {
    if s != [] && s[|s| - 1] == '/' then TrimTrailing(s[..|s| - 1]) else s
  }

  /** `s` without leading and trailing '/' characters. */
  function TrimSlashes(s: string): (r: string)
    ensures |r| <= |s|
    ensures r == [] || (r[0] != '/' && r[|r| - 1] != '/')
    ensures (s == [] || (s[0] != '/' && s[|s| - 1] != '/')) ==> r == s
  {
    var t := TrimLeading(s);
    var r := TrimTrailing(t);
    assert r != [] ==> r[0] == t[0];
    r
  }

  /** The parent category of a category path: the text before its last '/', trimmed of
      '/' (empty for a top-level category). */
  function ParentCategory(category: string): (r: string)
    ensures category != "" ==> |r| < |category|
  {
    match LastIndexOf(category, '/')
    case None => ""
    case Some(i) => TrimSlashes(category[..i])
  }

  /** The last segment of a path: the text after its last '/'. */
  function LastSegment(path: string): (r: string)
    ensures '/' !in r
  {
    match LastIndexOf(path, '/')
    case None => path
    case Some(i) => path[i + 1..]
  }

  /** The caption of a category row: the last segment without its extension (the text
      from the segment's last '.' on). */
  function FileName(category: string): (r: string)
    ensures '/' !in r
    ensures '.' !in LastSegment(category) ==> r == LastSegment(category)
  {
    var segment := LastSegment(category);
    match LastIndexOf(segment, '.')
    case None => segment
    case Some(d) => segment[..d]
  }

  /** A clean path: empty, or without leading, trailing or doubled '/'. */
  predicate CleanPath(p: string) {
    p == [] || (p[0] != '/' && p[|p| - 1] != '/' && forall i :: 0 <= i < |p| - 1 ==> !(p[i] == '/' && p[i + 1] == '/'))
  }

  /** A clean category splits into its parent category, '/' and its last segment, and its
      parent category is clean again; a category without '/' is top-level. */
  lemma SplitCategory(c: string)
    requires CleanPath(c) && c != ""
    ensures CleanPath(ParentCategory(c))
    ensures '/' !in c ==> ParentCategory(c) == "" && LastSegment(c) == c
    ensures '/' in c ==> ParentCategory(c) != "" && c == ParentCategory(c) + "/" + LastSegment(c)
  {
    match LastIndexOf(c, '/')
    case None =>
    case Some(i) =>
      var p := c[..i];
      assert i > 0;
      assert p[0] == c[0] && p[|p| - 1] == c[i - 1];
      assert p[|p| - 1] != '/';
      assert ParentCategory(c) == p;
      assert c == p + "/" + c[i + 1..];
  }

  /** The category and all its ancestors: what `CreateCategoryMenu` makes sure exist. */
  function Chain(category: string): set<string>
    decreases |category|
  {
    if category == "" then {} else {category} + Chain(ParentCategory(category))
  }

  lemma {:induction false} ChainShorter(category: string)
    ensures forall x :: x in Chain(category) ==> x != "" && |x| <= |category|
    decreases |category|
  {
    if category != "" {
      ChainShorter(ParentCategory(category));
    }
  }

  // ---------------------------------------------------------------------------
  // The tree

  /** Every row but the root was appended to an earlier row. */
  predicate TreeShaped(rows: seq<Row>) {
    |rows| >= 1 && forall i :: 0 < i < |rows| ==> rows[i].parent < i
  }

  /** Every row of `kids` comes after row `lo` and exists. */
  predicate Below(kids: seq<nat>, lo: nat, n: nat) {
    forall j :: 0 <= j < |kids| ==> lo < kids[j] < n
  }

  /** The rows from row `from` on that were appended to row `p`, in row order. */
  function ChildrenFrom(rows: seq<Row>, p: nat, from: nat): (r: seq<nat>)
    ensures forall j :: 0 <= j < |r| ==> from <= r[j] < |rows| && rows[r[j]].parent == p
    decreases |rows| - from
  {
    if from >= |rows| then []
    else (if rows[from].parent == p then [from] else []) + ChildrenFrom(rows, p, from + 1)
  }

  /** The children of row `p`: the rows appended to it, in the order they were appended. */
  function Children(rows: seq<Row>, p: nat): (r: seq<nat>)
    requires TreeShaped(rows)
    ensures Below(r, p, |rows|)
    ensures forall j :: 0 <= j < |r| ==> rows[r[j]].parent == p
  {
    ChildrenFrom(rows, p, p + 1)
  }

  /** The row of a category: the root for a category not (or not yet) registered. */
  function CategoryRow(hierarchy: map<string, nat>, category: string): nat
  {
    if category in hierarchy then hierarchy[category] else ROOT
  }

  /** `c` is a registered category. Named separately so that the parent condition of
      `Registered`, which speaks of the parent category, is only instantiated for the
      categories a proof names, not for the parent of each parent in turn. */
  predicate Known(hierarchy: map<string, nat>, c: string) {
    c in hierarchy
  }

  /** The memo agrees with the tree: every registered category has a folder row of its
      own with its file name as caption, its parent category is registered too (or is
      the root), and its row was appended to its parent category's row. */
  ghost predicate Registered(rows: seq<Row>, hierarchy: map<string, nat>) {
    && TreeShaped(rows)
    && (forall c :: c in hierarchy ==> c != "" && 0 < hierarchy[c] < |rows|)
    && (forall c :: c in hierarchy ==> rows[hierarchy[c]].caption == FileName(c) && rows[hierarchy[c]].variant.None?)
    && (forall c {:trigger Known(hierarchy, c)} :: Known(hierarchy, c) ==>
          && (ParentCategory(c) == "" || ParentCategory(c) in hierarchy)
          && rows[hierarchy[c]].parent == CategoryRow(hierarchy, ParentCategory(c)))
  }

  lemma AppendKeepsRegistered(rows: seq<Row>, hierarchy: map<string, nat>, row: Row)
    requires Registered(rows, hierarchy) && row.parent < |rows|
    ensures Registered(rows + [row], hierarchy)
  {
    var r := rows + [row];
    forall c {:trigger Known(hierarchy, c)} | Known(hierarchy, c)
      ensures && (ParentCategory(c) == "" || ParentCategory(c) in hierarchy)
              && r[hierarchy[c]].parent == CategoryRow(hierarchy, ParentCategory(c))
    {
      assert r[hierarchy[c]] == rows[hierarchy[c]];
    }
  }

  /** After registering `c` under `parent`, each registered category still sits under its
      parent category's row. */
  lemma RegisteredParentAfter(rows: seq<Row>, hierarchy: map<string, nat>, c: string, parent: nat, x: string)
    requires Registered(rows, hierarchy)
    requires c != "" && c !in hierarchy
    requires ParentCategory(c) == "" || ParentCategory(c) in hierarchy
    requires parent == CategoryRow(hierarchy, ParentCategory(c))
    requires x == c || x in hierarchy
    ensures var r := rows + [Row(FileName(c), None, None, parent)];
      var h := hierarchy[c := |rows|];
      && (ParentCategory(x) == "" || ParentCategory(x) in h)
      && r[h[x]].parent == CategoryRow(h, ParentCategory(x))
  {
    var h := hierarchy[c := |rows|];
    var px := ParentCategory(x);
    if x == c {
      assert |px| < |c|;
      assert CategoryRow(h, px) == parent;
    } else {
      assert Known(hierarchy, x);
      assert CategoryRow(h, px) == CategoryRow(hierarchy, px);
    }
  }

  lemma RegisteredCaptionsAfter(rows: seq<Row>, hierarchy: map<string, nat>, c: string, parent: nat)
    requires Registered(rows, hierarchy)
    requires c != "" && c !in hierarchy
    ensures var r := rows + [Row(FileName(c), None, None, parent)];
      var h := hierarchy[c := |rows|];
      forall x :: x in h ==> x != "" && 0 < h[x] < |r| && r[h[x]].caption == FileName(x) && r[h[x]].variant.None?
  {
    var r := rows + [Row(FileName(c), None, None, parent)];
    var h := hierarchy[c := |rows|];
    forall x | x in h
      ensures x != "" && 0 < h[x] < |r| && r[h[x]].caption == FileName(x) && r[h[x]].variant.None?
    {
      if x != c {
        assert r[h[x]] == rows[hierarchy[x]];
      }
    }
  }

  lemma RegisteredParentsAfter(rows: seq<Row>, hierarchy: map<string, nat>, c: string, parent: nat)
    requires Registered(rows, hierarchy)
    requires c != "" && c !in hierarchy
    requires ParentCategory(c) == "" || ParentCategory(c) in hierarchy
    requires parent == CategoryRow(hierarchy, ParentCategory(c))
    ensures var r := rows + [Row(FileName(c), None, None, parent)];
      var h := hierarchy[c := |rows|];
      forall x {:trigger Known(h, x)} :: Known(h, x) ==>
        && (ParentCategory(x) == "" || ParentCategory(x) in h)
        && r[h[x]].parent == CategoryRow(h, ParentCategory(x))
  {
    var r := rows + [Row(FileName(c), None, None, parent)];
    var h := hierarchy[c := |rows|];
    forall x {:trigger Known(h, x)} | Known(h, x)
      ensures && (ParentCategory(x) == "" || ParentCategory(x) in h)
              && r[h[x]].parent == CategoryRow(h, ParentCategory(x))
    {
      RegisteredParentAfter(rows, hierarchy, c, parent, x);
    }
  }

  /** Registering an unknown category, whose parent category is registered, under its
      parent category's row keeps the memo and the tree in agreement. */
  lemma RegisterCategoryKeepsRegistered(rows: seq<Row>, hierarchy: map<string, nat>, c: string, parent: nat)
    requires Registered(rows, hierarchy)
    requires c != "" && c !in hierarchy
    requires ParentCategory(c) == "" || ParentCategory(c) in hierarchy
    requires parent == CategoryRow(hierarchy, ParentCategory(c))
    ensures parent < |rows|
    ensures Registered(rows + [Row(FileName(c), None, None, parent)], hierarchy[c := |rows|])
  {
    assert TreeShaped(rows + [Row(FileName(c), None, None, parent)]);
    RegisteredCaptionsAfter(rows, hierarchy, c, parent);
    RegisteredParentsAfter(rows, hierarchy, c, parent);
  }

  /** Every ancestor of a registered category is registered. */
  lemma {:induction false} ChainRegistered(rows: seq<Row>, hierarchy: map<string, nat>, c: string)
    requires Registered(rows, hierarchy) && c in hierarchy
    ensures Chain(c) <= hierarchy.Keys
    decreases |c|
  {
    var p := ParentCategory(c);
    assert Known(hierarchy, c);
    if p != "" {
      ChainRegistered(rows, hierarchy, p);
    }
  }

  /** What creating `category` does to the rows and the memo: the root is the row of the
      empty category and the remembered row that of a known one; a known category (or the
      empty one) changes nothing; an unknown one gets a new last row, a folder captioned
      with its file name and appended to its parent category's row. Rows are only added,
      remembered rows stay, the category and its ancestors are remembered afterwards and
      nothing else is added, and one row is added per category newly remembered. */
  ghost predicate CategoryCreated(rows0: seq<Row>, h0: map<string, nat>, rows1: seq<Row>, h1: map<string, nat>,
                                  category: string, item: nat)
  {
    && Registered(rows1, h1)
    && item < |rows1|
    && (category == "" ==> item == ROOT)
    && (category != "" ==> category in h1 && h1[category] == item)
    && (category == "" || category in h0 ==> rows1 == rows0 && h1 == h0)
    && (category != "" && category !in h0 ==>
          && item == |rows1| - 1
          && rows1[item] == Row(FileName(category), None, None, CategoryRow(h1, ParentCategory(category))))
    && rows0 <= rows1
    && (forall c :: c in h0 ==> c in h1 && h1[c] == h0[c])
    && Chain(category) <= h1.Keys
    && (forall c :: c in h1 && c !in h0 ==> c in Chain(category))
    && |rows1| - |rows0| == |h1| - |h0|
  }

  lemma KnownCategory(rows: seq<Row>, hierarchy: map<string, nat>, category: string)
    requires Registered(rows, hierarchy) && (category == "" || category in hierarchy)
    ensures CategoryCreated(rows, hierarchy, rows, hierarchy, category,
                            if category == "" then ROOT else hierarchy[category])
  {
    if category != "" {
      ChainRegistered(rows, hierarchy, category);
    }
  }

  /** Remembering an unknown category after its ancestors. */
  lemma MemoGrows(h0: map<string, nat>, h1: map<string, nat>, category: string, item: nat)
    requires category != "" && category !in h1
    requires forall c :: c in h0 ==> c in h1 && h1[c] == h0[c]
    requires Chain(ParentCategory(category)) <= h1.Keys
    requires forall c :: c in h1 && c !in h0 ==> c in Chain(ParentCategory(category))
    ensures forall c :: c in h0 ==> c in h1[category := item] && h1[category := item][c] == h0[c]
    ensures Chain(category) <= h1[category := item].Keys
    ensures forall c :: c in h1[category := item] && c !in h0 ==> c in Chain(category)
    ensures |h1[category := item]| == |h1| + 1
  {
    var h2 := h1[category := item];
    forall c | c in h0
      ensures c in h2 && h2[c] == h0[c]
    {
      assert c in h1;
    }
    assert h2.Keys == h1.Keys + {category};
    assert Chain(category) == {category} + Chain(ParentCategory(category));
  }

  /** What the parent category's creation gives the creation of a new category. */
  lemma ParentCreated(rows0: seq<Row>, h0: map<string, nat>, rows1: seq<Row>, h1: map<string, nat>,
                      category: string, parent: nat)
    requires Registered(rows0, h0) && category != "" && category !in h0
    requires ParentCategory(category) == "" ==> rows1 == rows0 && h1 == h0 && parent == ROOT
    requires ParentCategory(category) != "" ==> CategoryCreated(rows0, h0, rows1, h1, ParentCategory(category), parent)
    ensures Registered(rows1, h1) && rows0 <= rows1 && category !in h1
    ensures forall c :: c in h0 ==> c in h1 && h1[c] == h0[c]
    ensures Chain(ParentCategory(category)) <= h1.Keys
    ensures forall c :: c in h1 && c !in h0 ==> c in Chain(ParentCategory(category))
    ensures |rows1| - |rows0| == |h1| - |h0|
    ensures parent == CategoryRow(h1, ParentCategory(category))
    ensures ParentCategory(category) == "" || ParentCategory(category) in h1
  {
    var path := ParentCategory(category);
    ChainShorter(path);
    if path == "" {
      assert Chain(path) == {};
    }
  }

  /** The conditions of `CategoryCreated` for a newly made category, one by one. */
  lemma NewCategoryCreated(rows0: seq<Row>, h0: map<string, nat>, rows2: seq<Row>, h2: map<string, nat>,
                           category: string, item: nat)
    requires Registered(rows2, h2) && category != "" && category !in h0
    requires item == |rows2| - 1 && category in h2 && h2[category] == item
    requires rows2[item] == Row(FileName(category), None, None, CategoryRow(h2, ParentCategory(category)))
    requires rows0 <= rows2
    requires forall c :: c in h0 ==> c in h2 && h2[c] == h0[c]
    requires Chain(category) <= h2.Keys
    requires forall c :: c in h2 && c !in h0 ==> c in Chain(category)
    requires |rows2| - |rows0| == |h2| - |h0|
    ensures CategoryCreated(rows0, h0, rows2, h2, category, item)
  {
  }

  /** Creating an unknown category once its parent category has been created. */
  lemma NewCategory(rows0: seq<Row>, h0: map<string, nat>, rows1: seq<Row>, h1: map<string, nat>,
                    category: string, parent: nat)
    requires Registered(rows0, h0) && category != "" && category !in h0
    requires ParentCategory(category) == "" ==> rows1 == rows0 && h1 == h0 && parent == ROOT
    requires ParentCategory(category) != "" ==> CategoryCreated(rows0, h0, rows1, h1, ParentCategory(category), parent)
    ensures parent < |rows1|
    ensures CategoryCreated(rows0, h0, rows1 + [Row(FileName(category), None, None, parent)],
                            h1[category := |rows1|], category, |rows1|)
  {
    var path := ParentCategory(category);
    ParentCreated(rows0, h0, rows1, h1, category, parent);
    RegisterCategoryKeepsRegistered(rows1, h1, category, parent);
    MemoGrows(h0, h1, category, |rows1|);
    var rows2 := rows1 + [Row(FileName(category), None, None, parent)];
    var h2 := h1[category := |rows1|];
    assert CategoryRow(h2, path) == parent;
    assert rows0 <= rows2;
    NewCategoryCreated(rows0, h0, rows2, h2, category, |rows1|);
  }

  /** The memo only names existing rows. */
  predicate MemoInRange(rows: seq<Row>, hierarchy: map<string, nat>) {
    |rows| >= 1 && forall c :: c in hierarchy ==> hierarchy[c] < |rows|
  }

  /** The row a category lookup yields, with the rows and the memo after it. */
  datatype Creation = Creation(item: nat, rows: seq<Row>, hierarchy: map<string, nat>)

  /** The row of `category`: the root for the empty category, the remembered row for a
      known one; otherwise the parent category's row is made first and a new folder row,
      captioned with the category's file name, is appended to it and remembered. */
  function CreateCategoryIn(rows: seq<Row>, hierarchy: map<string, nat>, category: string): (r: Creation)
    requires MemoInRange(rows, hierarchy)
    ensures MemoInRange(r.rows, r.hierarchy) && r.item < |r.rows| && |rows| <= |r.rows|
    decreases |category|
  {
    if category == "" then Creation(ROOT, rows, hierarchy)
    else if category in hierarchy then Creation(hierarchy[category], rows, hierarchy)
    else
      var parent := CreateCategoryIn(rows, hierarchy, ParentCategory(category));
      var item := |parent.rows|;
      Creation(item, parent.rows + [Row(FileName(category), None, None, parent.item)],
               parent.hierarchy[category := item])
  }

  /** `CreateCategoryIn` does what `CategoryCreated` describes. */
  lemma {:induction false} CreateCategoryInCreates(rows: seq<Row>, hierarchy: map<string, nat>, category: string)
    requires Registered(rows, hierarchy)
    ensures MemoInRange(rows, hierarchy)
    ensures var r := CreateCategoryIn(rows, hierarchy, category);
      CategoryCreated(rows, hierarchy, r.rows, r.hierarchy, category, r.item)
    decreases |category|
  {
    if category == "" || category in hierarchy {
      KnownCategory(rows, hierarchy, category);
    } else {
      var path := ParentCategory(category);
      CreateCategoryInCreates(rows, hierarchy, path);
      var parent := CreateCategoryIn(rows, hierarchy, path);
      NewCategory(rows, hierarchy, parent.rows, parent.hierarchy, category, parent.item);
    }
  }

  lemma CreateCategoryInKeepsRegistered(rows: seq<Row>, hierarchy: map<string, nat>, category: string)
    requires Registered(rows, hierarchy)
    ensures MemoInRange(rows, hierarchy)
    ensures var r := CreateCategoryIn(rows, hierarchy, category); Registered(r.rows, r.hierarchy) && rows <= r.rows
  {
    CreateCategoryInCreates(rows, hierarchy, category);
  }

  /** Asking again for a category just asked for yields the same row and changes nothing. */
  lemma CreateCategoryInMemoised(rows: seq<Row>, hierarchy: map<string, nat>, category: string)
    requires Registered(rows, hierarchy)
    ensures MemoInRange(rows, hierarchy)
    ensures var r := CreateCategoryIn(rows, hierarchy, category);
      MemoInRange(r.rows, r.hierarchy) && CreateCategoryIn(r.rows, r.hierarchy, category) == r
  {
    CreateCategoryInCreates(rows, hierarchy, category);
  }

  /** The row an item is appended to: the root when its internal path has no '/',
      otherwise the row of the category before the path's last '/'. */
  function ItemParent(rows: seq<Row>, hierarchy: map<string, nat>, internalPath: string): (r: Creation)
    requires MemoInRange(rows, hierarchy)
    ensures MemoInRange(r.rows, r.hierarchy) && r.item < |r.rows| && |rows| <= |r.rows|
  {
    match LastIndexOf(internalPath, '/')
    case None => Creation(ROOT, rows, hierarchy)
    case Some(i) => CreateCategoryIn(rows, hierarchy, internalPath[..i])
  }

  /** Adding an item appends its row, captioned with its display name, to its category's
      row, making the category (and its ancestors) as needed; a path without '/' puts the
      item under the root and leaves the memo alone. */
  lemma ItemAddedUnderCategory(rows: seq<Row>, hierarchy: map<string, nat>, displayName: string,
                               internalPath: string, variant: Option<Variant>)
    requires Registered(rows, hierarchy)
    ensures MemoInRange(rows, hierarchy)
    ensures var p := ItemParent(rows, hierarchy, internalPath);
      var rows' := p.rows + [Row(displayName, Some(internalPath), variant, p.item)];
      && Registered(rows', p.hierarchy)
      && rows <= rows'
      && match LastIndexOf(internalPath, '/')
         case None => p.item == ROOT && p.rows == rows && p.hierarchy == hierarchy
         case Some(i) =>
           && p.item == CategoryRow(p.hierarchy, internalPath[..i])
           && Chain(internalPath[..i]) <= p.hierarchy.Keys
           && (forall c :: c in p.hierarchy && c !in hierarchy ==> c in Chain(internalPath[..i]))
  {
    var p := ItemParent(rows, hierarchy, internalPath);
    match LastIndexOf(internalPath, '/')
    case None =>
    case Some(i) =>
      CreateCategoryInCreates(rows, hierarchy, internalPath[..i]);
    AppendKeepsRegistered(p.rows, p.hierarchy, Row(displayName, Some(internalPath), variant, p.item));
  }

  /** A category's row is a folder: activating it emits nothing. */
  lemma CategoryActivationEmitsNothing(rows: seq<Row>, hierarchy: map<string, nat>, category: string)
    requires Registered(rows, hierarchy) && category in hierarchy
    ensures hierarchy[category] < |rows| && Activation(rows, hierarchy[category]) == []
  {
  }

  // ---------------------------------------------------------------------------
  // First selectable leaf

  /** The rows of `kids` that the filter keeps, in order. */
  function Visible(kids: seq<nat>, shown: set<nat>): (r: seq<nat>)
    ensures forall k :: k in r <==> k in kids && k in shown
  {
    if kids == [] then []
    else (if kids[0] in shown then [kids[0]] else []) + Visible(kids[1..], shown)
  }

  /** The children of row `p` that the filter keeps. */
  function VisibleChildren(rows: seq<Row>, shown: set<nat>, p: nat): (r: seq<nat>)
    requires TreeShaped(rows)
    ensures Below(r, p, |rows|)
  {
    var kids := Children(rows, p);
    var r := Visible(kids, shown);
    assert forall j :: 0 <= j < |r| ==> r[j] in kids by {
      forall j | 0 <= j < |r|
        ensures r[j] in kids
      {
        assert r[j] in r;
      }
    }
    r
  }

  /** A row the search selects: it has no visible child and it carries a valid variant. */
  predicate SelectableLeaf(rows: seq<Row>, shown: set<nat>, k: nat)
    requires TreeShaped(rows) && k < |rows|
  {
    VisibleChildren(rows, shown, k) == [] && rows[k].variant.Some?
  }

  /** The first selectable leaf below the visible rows `kids` of row `parent`, searched
      row by row, descending into rows that have visible children. */
  function FirstLeafAmong(rows: seq<Row>, shown: set<nat>, parent: nat, kids: seq<nat>): (r: Option<nat>)
    requires TreeShaped(rows) && parent < |rows|
    requires Below(kids, parent, |rows|)
    ensures r.Some? ==> parent < r.value < |rows|
    decreases |rows| - parent, |kids|
  {
    if kids == [] then None
    else
      var child := kids[0];
      var grandKids := VisibleChildren(rows, shown, child);
      if grandKids == [] then
        if rows[child].variant.Some? then Some(child) else FirstLeafAmong(rows, shown, parent, kids[1..])
      else
        match FirstLeafAmong(rows, shown, child, grandKids)
        case Some(leaf) => Some(leaf)
        case None => FirstLeafAmong(rows, shown, parent, kids[1..])
  }

  function FirstLeaf(rows: seq<Row>, shown: set<nat>, parent: nat): (r: Option<nat>)
    requires TreeShaped(rows) && parent < |rows|
    ensures r.Some? ==> parent < r.value < |rows|
  {
    FirstLeafAmong(rows, shown, parent, VisibleChildren(rows, shown, parent))
  }

  /** One step of the search: the first leaf among `kids[i..]` is found at or below
      `kids[i]`, or else among the rows after it. */
  lemma FirstLeafAmongStep(rows: seq<Row>, shown: set<nat>, parent: nat, kids: seq<nat>, i: nat)
    requires TreeShaped(rows) && parent < |rows|
    requires Below(kids, parent, |rows|) && i < |kids|
    ensures Below(kids[i..], parent, |rows|) && Below(kids[i + 1..], parent, |rows|)
    ensures FirstLeafAmong(rows, shown, parent, kids[i..])
      == var child := kids[i];
         if VisibleChildren(rows, shown, child) == [] then
           if rows[child].variant.Some? then Some(child) else FirstLeafAmong(rows, shown, parent, kids[i + 1..])
         else if FirstLeaf(rows, shown, child).Some? then FirstLeaf(rows, shown, child)
         else FirstLeafAmong(rows, shown, parent, kids[i + 1..])
  {
    assert kids[i..][1..] == kids[i + 1..];
  }

  /** The visible rows below `kids` in pre-order: each row, then its visible descendants. */
  function PreOrderAmong(rows: seq<Row>, shown: set<nat>, parent: nat, kids: seq<nat>): (r: seq<nat>)
    requires TreeShaped(rows) && parent < |rows|
    requires Below(kids, parent, |rows|)
    ensures Below(r, parent, |rows|)
    decreases |rows| - parent, |kids|
  {
    if kids == [] then []
    else
      var child := kids[0];
      [child] + PreOrderAmong(rows, shown, child, VisibleChildren(rows, shown, child))
      + PreOrderAmong(rows, shown, parent, kids[1..])
  }

  function PreOrder(rows: seq<Row>, shown: set<nat>, parent: nat): (r: seq<nat>)
    requires TreeShaped(rows) && parent < |rows|
    ensures Below(r, parent, |rows|)
  {
    PreOrderAmong(rows, shown, parent, VisibleChildren(rows, shown, parent))
  }

  predicate RowsIn(s: seq<nat>, n: nat) {
    forall j :: 0 <= j < |s| ==> s[j] < n
  }

  /** The first selectable leaf of a list of rows. */
  function FirstSelectable(rows: seq<Row>, shown: set<nat>, s: seq<nat>): (r: Option<nat>)
    requires TreeShaped(rows) && RowsIn(s, |rows|)
    ensures r.None? <==> forall j :: 0 <= j < |s| ==> !SelectableLeaf(rows, shown, s[j])
    ensures r.Some? ==> r.value in s && SelectableLeaf(rows, shown, r.value)
  {
    if s == [] then None
    else if SelectableLeaf(rows, shown, s[0]) then Some(s[0])
    else FirstSelectable(rows, shown, s[1..])
  }

  lemma {:induction false} FirstSelectableAppend(rows: seq<Row>, shown: set<nat>, a: seq<nat>, b: seq<nat>)
    requires TreeShaped(rows) && RowsIn(a, |rows|) && RowsIn(b, |rows|)
    ensures RowsIn(a + b, |rows|)
    ensures FirstSelectable(rows, shown, a + b)
      == if FirstSelectable(rows, shown, a).Some? then FirstSelectable(rows, shown, a) else FirstSelectable(rows, shown, b)
    decreases |a|
  {
    if a == [] {
      assert a + b == b;
    } else {
      assert (a + b)[1..] == a[1..] + b;
      FirstSelectableAppend(rows, shown, a[1..], b);
    }
  }

  /** The search returns the first selectable leaf of the visible rows in pre-order. */
  lemma {:induction false} FirstLeafAmongIsPreOrderFirst(rows: seq<Row>, shown: set<nat>, parent: nat, kids: seq<nat>)
    requires TreeShaped(rows) && parent < |rows|
    requires Below(kids, parent, |rows|)
    ensures FirstLeafAmong(rows, shown, parent, kids) == FirstSelectable(rows, shown, PreOrderAmong(rows, shown, parent, kids))
    decreases |rows| - parent, |kids|
  {
    if kids != [] {
      var child := kids[0];
      var grandKids := VisibleChildren(rows, shown, child);
      var below := PreOrderAmong(rows, shown, child, grandKids);
      var after := PreOrderAmong(rows, shown, parent, kids[1..]);
      FirstLeafAmongIsPreOrderFirst(rows, shown, child, grandKids);
      FirstLeafAmongIsPreOrderFirst(rows, shown, parent, kids[1..]);
      FirstSelectableAppend(rows, shown, [child], below);
      FirstSelectableAppend(rows, shown, [child] + below, after);
      if grandKids == [] {
        assert below == [];
      }
    }
  }

  lemma FirstLeafIsPreOrderFirst(rows: seq<Row>, shown: set<nat>, parent: nat)
    requires TreeShaped(rows) && parent < |rows|
    ensures FirstLeaf(rows, shown, parent) == FirstSelectable(rows, shown, PreOrder(rows, shown, parent))
  {
    FirstLeafAmongIsPreOrderFirst(rows, shown, parent, VisibleChildren(rows, shown, parent));
  }

  /** What activating row `i` emits: nothing for a folder (a row without a valid variant). */
  function Activation(rows: seq<Row>, i: nat): (r: seq<Signal>)
    requires i < |rows|
    ensures r == [] <==> rows[i].variant.None?
  {
    if rows[i].variant.Some? then [MenuItemTriggered(rows[i].caption, rows[i].variant.value)] else []
  }

  // ---------------------------------------------------------------------------
  // The menu

  class Menu {
    var rows: seq<Row>
    var hierarchy: map<string, nat>
    /** The rows the search filter keeps, set with the search text. */
    var shown: set<nat>
    var filterText: string
    /** The tree view's selected rows. */
    var selection: seq<nat>
    var signals: seq<Signal>

    ghost predicate Valid()
      reads this
    {
      Registered(rows, hierarchy) && RowsIn(selection, |rows|)
    }

    /** A new menu holds only the invisible root. */
    constructor ()
      ensures Valid()
      ensures rows == [Row("", None, None, ROOT)] && hierarchy == map[]
      ensures selection == [] && signals == [] && filterText == ""
    {
      rows := [Row("", None, None, ROOT)];
      hierarchy := map[];
      shown := {};
      filterText := "";
      selection := [];
      signals := [];
    }

    /** The row of `category`: the root for the empty category, the remembered row for a
        known one; otherwise the parent category's row is made first and a new folder row,
        captioned with the category's file name, is appended to it and remembered. */
    method CreateCategoryMenu(category: string) returns (item: nat)
      requires MemoInRange(rows, hierarchy)
      modifies this`rows, this`hierarchy
      decreases |category|
      ensures Creation(item, rows, hierarchy) == CreateCategoryIn(old(rows), old(hierarchy), category)
    {
      if category == "" {
        return ROOT;
      }
      if category in hierarchy {
        return hierarchy[category];
      }
      var path := ParentCategory(category);
      var parent := ROOT;
      if path != "" {
        parent := CreateCategoryMenu(path);
      }
      item := |rows|;
      rows := rows + [Row(FileName(category), None, None, parent)];
      hierarchy := hierarchy[category := item];
    }

    /** Adds an item row, captioned `displayName`, storing the internal path and the
        variant, under the category before the path's last '/' (the root without '/'). */
    method AddItem(displayName: string, internalPath: string, variant: Option<Variant>)
      requires Valid()
      modifies this`rows, this`hierarchy
      ensures MemoInRange(old(rows), old(hierarchy))
      ensures var p := ItemParent(old(rows), old(hierarchy), internalPath);
        rows == p.rows + [Row(displayName, Some(internalPath), variant, p.item)] && hierarchy == p.hierarchy
      ensures Valid()
    {
      ItemAddedUnderCategory(rows, hierarchy, displayName, internalPath, variant);
      var parent := ROOT;
      var lastCat := LastIndexOf(internalPath, '/');
      if lastCat.Some? {
        parent := CreateCategoryMenu(internalPath[..lastCat.value]);
      }
      rows := rows + [Row(displayName, Some(internalPath), variant, parent)];
    }

    /** Selects the first selectable leaf below `parent` in the filtered tree, row by row
        and depth first; reports whether there was one. */
    method SelectFirstLeaf(parent: nat) returns (found: bool)
      requires TreeShaped(rows) && parent < |rows|
      modifies this`selection
      decreases |rows| - parent
      ensures found <==> FirstLeaf(rows, shown, parent).Some?
      ensures found ==> selection == [FirstLeaf(rows, shown, parent).value]
      ensures !found ==> selection == old(selection)
    {
      var kids := VisibleChildren(rows, shown, parent);
      var i := 0;
      while i < |kids|
        invariant selection == old(selection)
        invariant i <= |kids|
        invariant FirstLeafAmong(rows, shown, parent, kids) == FirstLeafAmong(rows, shown, parent, kids[i..])
      {
        var child := kids[i];
        FirstLeafAmongStep(rows, shown, parent, kids, i);
        if VisibleChildren(rows, shown, child) == [] {
          if rows[child].variant.Some? {
            selection := [child];
            return true;
          }
        } else {
          found := SelectFirstLeaf(child);
          if found {
            return true;
          }
        }
        i := i + 1;
      }
      return false;
    }

    /** Emits the activated row's caption and variant, unless the index is invalid or the
        row is a folder. */
    method OnItemActivated(index: Option<nat>)
      requires Valid() && (index.Some? ==> index.value < |rows|)
      modifies this`signals
      ensures index.None? ==> signals == old(signals)
      ensures index.Some? ==> signals == old(signals) + Activation(rows, index.value)
    {
      if index.None? {
        return;
      }
      var row := rows[index.value];
      if row.variant.None? {
        return;
      }
      signals := signals + [MenuItemTriggered(row.caption, row.variant.value)];
    }

    /** Enter activates the selected row, and only when exactly one row is selected. */
    method OnEnterPressed()
      requires Valid()
      modifies this`signals
      ensures Valid()
      ensures |selection| != 1 ==> signals == old(signals)
      ensures |selection| == 1 ==> signals == old(signals) + Activation(rows, selection[0])
    {
      if |selection| != 1 {
        return;
      }
      OnItemActivated(Some(selection[0]));
    }

    /** Applies the search text to the filter (which then keeps the rows `filtered`);
        a non-empty text selects the first selectable leaf; the text is passed on. */
    method OnSearchChanged(text: string, filtered: set<nat>)
      requires Valid()
      modifies this`filterText, this`shown, this`selection, this`signals
      ensures Valid()
      ensures filterText == text && shown == filtered
      ensures text == "" || FirstLeaf(rows, filtered, ROOT).None? ==> selection == old(selection)
      ensures text != "" && FirstLeaf(rows, filtered, ROOT).Some? ==> selection == [FirstLeaf(rows, filtered, ROOT).value]
      ensures signals == old(signals) + [SearchTextChanged(text)]
    {
      filterText := text;
      shown := filtered;
      if text != "" {
        var found := SelectFirstLeaf(ROOT);
      }
      signals := signals + [SearchTextChanged(text)];
    }
  }

  /** Asking twice for the same category yields one row and adds no row the second time. */
  method CreateCategoryTwice(menu: Menu, category: string) returns (first: nat, second: nat)
    requires menu.Valid()
    modifies menu
    ensures first == second && first < |menu.rows|
    ensures category != "" ==> menu.rows[first].caption == FileName(category)
  {
    CreateCategoryInCreates(menu.rows, menu.hierarchy, category);
    first := menu.CreateCategoryMenu(category);
    ghost var rowsBefore := menu.rows;
    CreateCategoryInMemoised(old(menu.rows), old(menu.hierarchy), category);
    second := menu.CreateCategoryMenu(category);
    assert menu.rows == rowsBefore;
  }
}
