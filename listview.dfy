/** The list, tree and text view part of the file manager: selecting rows by
    wildcard pattern, select-all, unselect-all and invert, showing and hiding
    attribute columns (with the visible set remembered per protocol), which
    actions a selection enables, the URL list that copy puts on the
    clipboard, the icon size, and the widget chosen for a view mode. */
module ListView {
  import opened Options

  // ---------------------------------------------------------------------
  // Displayed rows and the wildcard matcher

  /** One displayed row: the text of its filename column, the URL of its file
      item, the directory part of that URL (with its trailing slash), its MIME
      type, and whether the row is selected. */
  datatype Item = Item(name: string, url: string, dir: string, mimetype: string, selected: bool)

  /** The toolkit's wildcard matcher, `matches(pattern, text)`. Whether it
      anchors the match to the whole text is the toolkit's business and is not
      modelled: every property below holds for any matcher. */
  type Matcher = (string, string) -> bool

  /** One step of a pattern sweep: a row whose filename text matches gets
      `value`, any other row is left as it is. */
  function Mark(it: Item, pattern: string, matches: Matcher, value: bool): Item
  {
    if matches(pattern, it.name) then it.(selected := value) else it
  }

  /** The rows after a sweep that sets every matching row to `value`: row by
      row, in the same order, each one marked on its own. */
  function Sweep(items: seq<Item>, pattern: string, matches: Matcher, value: bool): (r: seq<Item>)
    ensures |r| == |items|
    ensures forall k :: 0 <= k < |items| ==> r[k] == Mark(items[k], pattern, matches, value)
  {
    if items == [] then []
    else [Mark(items[0], pattern, matches, value)] + Sweep(items[1..], pattern, matches, value)
  }

  /** A sweep sets exactly the matching rows to `value`; every other row keeps
      its previous state, and the count and order of the rows do not change. */
  lemma SweepSetsExactlyMatching(items: seq<Item>, pattern: string, matches: Matcher, value: bool)
    ensures |Sweep(items, pattern, matches, value)| == |items|
    ensures forall k :: 0 <= k < |items| && matches(pattern, items[k].name) ==>
      Sweep(items, pattern, matches, value)[k] == items[k].(selected := value)
    ensures forall k :: 0 <= k < |items| && !matches(pattern, items[k].name) ==>
      Sweep(items, pattern, matches, value)[k] == items[k]
  {
  }

  /** Of two sweeps with the same pattern, the second decides: unselecting
      after selecting is the same as unselecting alone, and so on. */
  lemma SweepAbsorbs(items: seq<Item>, pattern: string, matches: Matcher, first: bool, second: bool)
    ensures Sweep(Sweep(items, pattern, matches, first), pattern, matches, second)
         == Sweep(items, pattern, matches, second)
  {
    var once := Sweep(items, pattern, matches, first);
    assert forall k :: 0 <= k < |items| ==> once[k].name == items[k].name;
  }

  /** Selecting (or unselecting) twice with the same pattern gives the same rows as once. */
  lemma SweepIdempotent(items: seq<Item>, pattern: string, matches: Matcher, value: bool)
    ensures Sweep(Sweep(items, pattern, matches, value), pattern, matches, value)
         == Sweep(items, pattern, matches, value)
  {
    SweepAbsorbs(items, pattern, matches, value, value);
  }

  /** Select followed by unselect with the same pattern gives back every row
      that the pattern does not match, and every matched row that was not
      selected before. */
  lemma SelectThenUnselectRestores(items: seq<Item>, pattern: string, matches: Matcher)
    ensures forall k :: 0 <= k < |items| && (!matches(pattern, items[k].name) || !items[k].selected) ==>
      Sweep(Sweep(items, pattern, matches, true), pattern, matches, false)[k] == items[k]
  {
    SweepAbsorbs(items, pattern, matches, true, false);
    SweepSetsExactlyMatching(items, pattern, matches, false);
  }

  // ---------------------------------------------------------------------
  // Select all, unselect all, invert, and the selected rows

  /** The rows after the toolkit's `selectAll(value)`: every row, in the same
      order, with its flag set to `value`. */
  function SetAll(items: seq<Item>, value: bool): (r: seq<Item>)
    ensures |r| == |items|
    ensures forall k :: 0 <= k < |items| ==> r[k] == items[k].(selected := value)
  {
    if items == [] then [] else [items[0].(selected := value)] + SetAll(items[1..], value)
  }

  /** The rows after the toolkit's `invertSelection()`: every row, in the same
      order, with its flag flipped. */
  function Inverted(items: seq<Item>): (r: seq<Item>)
    ensures |r| == |items|
    ensures forall k :: 0 <= k < |items| ==> r[k] == items[k].(selected := !items[k].selected)
  {
    if items == [] then [] else [items[0].(selected := !items[0].selected)] + Inverted(items[1..])
  }

  /** Inverting twice restores the original rows. */
  lemma {:induction false} InvertInvolutive(items: seq<Item>)
    ensures Inverted(Inverted(items)) == items
  {
    if items != [] {
      assert Inverted(items)[1..] == Inverted(items[1..]);
      InvertInvolutive(items[1..]);
    }
  }

  /** The selected rows in display order, as the widget's `selectedItems`
      lists them: it lists only selected rows, and every selected row. */
  function Selected(items: seq<Item>): (r: seq<Item>)
    ensures |r| <= |items|
    ensures forall x :: x in r ==> x in items && x.selected
    ensures forall k :: 0 <= k < |items| && items[k].selected ==> items[k] in r
  {
    if items == [] then []
    else (if items[0].selected then [items[0]] else []) + Selected(items[1..])
  }

  /** When every row is selected, `Selected` lists all of them. */
  lemma {:induction false} SelectedWhenAll(items: seq<Item>)
    requires forall k :: 0 <= k < |items| ==> items[k].selected
    ensures Selected(items) == items
  {
    if items != [] {
      SelectedWhenAll(items[1..]);
    }
  }

  /** When no row is selected, `Selected` is empty. */
  lemma {:induction false} SelectedWhenNone(items: seq<Item>)
    requires forall k :: 0 <= k < |items| ==> !items[k].selected
    ensures Selected(items) == []
  {
    if items != [] {
      SelectedWhenNone(items[1..]);
    }
  }

  /** Select-all makes every row selected, unselect-all makes none selected,
      and neither changes anything but the selection flags. */
  lemma SelectAllAndUnselectAll(items: seq<Item>)
    ensures Selected(SetAll(items, true)) == SetAll(items, true)
    ensures Selected(SetAll(items, false)) == []
    ensures forall k :: 0 <= k < |items| ==> SetAll(items, true)[k].(selected := items[k].selected) == items[k]
    ensures forall k :: 0 <= k < |items| ==> SetAll(items, false)[k].(selected := items[k].selected) == items[k]
  {
    SelectedWhenAll(SetAll(items, true));
    SelectedWhenNone(SetAll(items, false));
  }

  /** Inverting turns the selected rows into the unselected ones: together
      they account for every row exactly once. */
  lemma {:induction false} InvertComplements(items: seq<Item>)
    ensures |Selected(items)| + |Selected(Inverted(items))| == |items|
  {
    if items != [] {
      assert Inverted(items)[1..] == Inverted(items[1..]);
      InvertComplements(items[1..]);
    }
  }

  // ---------------------------------------------------------------------
  // Column descriptors

  /** The state of a column's toggle action. */
  datatype Toggle = Toggle(checked: bool, enabled: bool)

  /** The file attribute a column shows. */
  datatype Field = FileType | Size | ModificationTime | AccessTime | CreationTime | Access | User | Group | LinkDest

  /** A column descriptor: its name (the untranslated title, under which it
      is also remembered), the second name it is created with, the attribute
      it shows, whether it is displayed, and the state of the toggle action
      bound to it. */
  datatype ColumnInfo = ColumnInfo(name: string, desktopName: string, field: Field, display: bool, toggle: Toggle)

  /** The names of the nine descriptors, in the order they are created. */
  const ColumnNames: seq<string> :=
    ["Type", "Size", "Modified", "Accessed", "Created", "Permissions", "Owner", "Group", "Link"]

  /** The name of the configuration entry that holds the visible columns. */
  const ColumnsKey: string := "Columns"

  function Names(cols: seq<ColumnInfo>): (r: seq<string>)
    ensures |r| == |cols| && forall k :: 0 <= k < |cols| ==> r[k] == cols[k].name
  {
    seq(|cols|, k requires 0 <= k < |cols| => cols[k].name)
  }

  /** The nine descriptors as the part creates them: none displayed, each
      bound to a fresh toggle action (unchecked, enabled). */
  function DefaultColumns(): (r: seq<ColumnInfo>)
    ensures Names(r) == ColumnNames
    ensures forall k :: 0 <= k < |r| ==> !r[k].display && r[k].toggle == Toggle(false, true)
  {
    var t := Toggle(false, true);
    [ ColumnInfo("Type", "Type", FileType, false, t),
      ColumnInfo("Size", "Size", Size, false, t),
      ColumnInfo("Modified", "Date", ModificationTime, false, t),
      ColumnInfo("Accessed", "AccessDate", AccessTime, false, t),
      ColumnInfo("Created", "CreationDate", CreationTime, false, t),
      ColumnInfo("Permissions", "Access", Access, false, t),
      ColumnInfo("Owner", "Owner", User, false, t),
      ColumnInfo("Group", "Group", Group, false, t),
      ColumnInfo("Link", "Link", LinkDest, false, t) ]
  }

  /** A descriptor whose visibility flag is recomputed from its toggle. */
  function Refresh(c: ColumnInfo): ColumnInfo
  {
    c.(display := c.toggle.checked && c.toggle.enabled)
  }

  /** The descriptors after every visibility flag is recomputed. */
  function Refreshed(cols: seq<ColumnInfo>): (r: seq<ColumnInfo>)
    ensures |r| == |cols| && Names(r) == Names(cols)
  {
    seq(|cols|, k requires 0 <= k < |cols| => Refresh(cols[k]))
  }

  /** Every descriptor's visibility flag mirrors its toggle: checked and enabled. */
  predicate Synced(cols: seq<ColumnInfo>)
  {
    forall k :: 0 <= k < |cols| ==> cols[k].display == (cols[k].toggle.checked && cols[k].toggle.enabled)
  }

  /** After the recomputation every flag mirrors its toggle, and nothing but the flags changed. */
  lemma RefreshedIsSynced(cols: seq<ColumnInfo>)
    ensures Synced(Refreshed(cols))
    ensures forall k :: 0 <= k < |cols| ==> Refreshed(cols)[k].(display := cols[k].display) == cols[k]
  {
  }

  /** The descriptors after the user sets the toggle of column `k`. */
  function WithToggle(cols: seq<ColumnInfo>, k: nat, checked: bool): (r: seq<ColumnInfo>)
    requires k < |cols|
    ensures |r| == |cols| && r[k].toggle.checked == checked
    ensures r[k] == cols[k].(toggle := cols[k].toggle.(checked := checked))
    ensures forall j :: 0 <= j < |cols| && j != k ==> r[j] == cols[j]
  {
    cols[k := cols[k].(toggle := cols[k].toggle.(checked := checked))]
  }

  /** Switching a shown column off and back on restores the descriptors, and
      so the persisted list. */
  lemma ToggleOffThenOnRestores(cols: seq<ColumnInfo>, k: nat)
    requires k < |cols| && Synced(cols) && cols[k].toggle.checked
    ensures Refreshed(WithToggle(Refreshed(WithToggle(cols, k, false)), k, true)) == cols
  {
  }

  /** The names of the displayed descriptors, in descriptor order: the list written under "Columns". */
  function Displayed(cols: seq<ColumnInfo>): (r: seq<string>)
    ensures |r| <= |cols|
    ensures (forall k :: 0 <= k < |cols| ==> cols[k].display) ==> r == Names(cols)
    ensures (forall k :: 0 <= k < |cols| ==> !cols[k].display) ==> r == []
  {
    if cols == [] then []
    else
      var init := cols[..|cols| - 1];
      assert forall k :: 0 <= k < |init| ==> init[k] == cols[k];
      assert Names(cols) == Names(init) + [cols[|cols| - 1].name];
      Displayed(init) + (if cols[|cols| - 1].display then [cols[|cols| - 1].name] else [])
  }

  /** `a` is `b` with some elements left out. */
  predicate IsSubsequence(a: seq<string>, b: seq<string>)
    decreases |b|
  {
    if a == [] then true
    else if b == [] then false
    else if a[|a| - 1] == b[|b| - 1] then IsSubsequence(a[..|a| - 1], b[..|b| - 1])
    else IsSubsequence(a, b[..|b| - 1])
  }

  lemma {:induction false} SubsequenceExtend(a: seq<string>, b: seq<string>, x: string)
    requires IsSubsequence(a, b)
    ensures IsSubsequence(a, b + [x])
    decreases |b|, 1
  {
    assert (b + [x])[..|b|] == b;
    if a != [] && a[|a| - 1] == x {
      SubsequenceDropLast(a, b);
    }
  }

  lemma {:induction false} SubsequenceDropLast(a: seq<string>, b: seq<string>)
    requires a != [] && IsSubsequence(a, b)
    ensures IsSubsequence(a[..|a| - 1], b)
    decreases |b|, 0
  {
    var b' := b[..|b| - 1];
    assert b == b' + [b[|b| - 1]];
    if a[|a| - 1] == b[|b| - 1] {
      SubsequenceExtend(a[..|a| - 1], b', b[|b| - 1]);
    } else {
      SubsequenceDropLast(a, b');
      SubsequenceExtend(a[..|a| - 1], b', b[|b| - 1]);
    }
  }

  lemma SubsequenceSnoc(a: seq<string>, b: seq<string>, x: string)
    requires IsSubsequence(a, b)
    ensures IsSubsequence(a + [x], b + [x])
  {
    assert (a + [x])[..|a|] == a;
    assert (b + [x])[..|b|] == b;
  }

  lemma NamesSnoc(cols: seq<ColumnInfo>)
    requires cols != []
    ensures Names(cols) == Names(cols[..|cols| - 1]) + [cols[|cols| - 1].name]
  {
  }

  /** The persisted list keeps descriptor order and only leaves names out. */
  lemma {:induction false} DisplayedIsSubsequence(cols: seq<ColumnInfo>)
    ensures IsSubsequence(Displayed(cols), Names(cols))
  {
    if cols != [] {
      var init := cols[..|cols| - 1];
      var c := cols[|cols| - 1];
      DisplayedIsSubsequence(init);
      NamesSnoc(cols);
      if c.display {
        assert Displayed(cols) == Displayed(init) + [c.name];
        SubsequenceSnoc(Displayed(init), Names(init), c.name);
      } else {
        assert Displayed(cols) == Displayed(init);
        SubsequenceExtend(Displayed(init), Names(init), c.name);
      }
    }
  }

  /** A name is in the persisted list exactly when some displayed descriptor carries it. */
  lemma {:induction false} DisplayedMembership(cols: seq<ColumnInfo>, name: string)
    ensures name in Displayed(cols) <==> exists k :: 0 <= k < |cols| && cols[k].display && cols[k].name == name
  {
    if cols != [] {
      var init := cols[..|cols| - 1];
      DisplayedMembership(init, name);
      if name in Displayed(cols) && name !in Displayed(init) {
        assert cols[|cols| - 1].display && cols[|cols| - 1].name == name;
      }
      if exists k :: 0 <= k < |cols| && cols[k].display && cols[k].name == name {
        var k :| 0 <= k < |cols| && cols[k].display && cols[k].name == name;
        if k < |cols| - 1 {
          assert init[k] == cols[k];
        }
      }
    }
  }

  /** For the part's own descriptors the persisted list is a subsequence of
      Type, Size, Modified, Accessed, Created, Permissions, Owner, Group, Link. */
  lemma PersistedColumnsOrdered(cols: seq<ColumnInfo>)
    requires Names(cols) == ColumnNames
    ensures IsSubsequence(Displayed(cols), ColumnNames)
  {
    DisplayedIsSubsequence(cols);
  }

  /** The configuration group that remembers the columns for a protocol. */
  function GroupName(protocol: string): (r: string)
    ensures |r| == 9 + |protocol| && r[..9] == "ListView_" && r[9..] == protocol
  {
    "ListView_" + protocol
  }

  /** Different protocols remember their columns in different groups. */
  lemma GroupNameInjective(p: string, q: string)
    requires GroupName(p) == GroupName(q)
    ensures p == q
  {
    assert p == GroupName(p)[9..];
    assert q == GroupName(q)[9..];
  }

  /** The configuration after `writeEntry(key, value)` in `group`: that entry
      holds `value`, every other entry and group is as it was. */
  function WriteEntry(config: map<string, map<string, seq<string>>>, group: string, key: string, value: seq<string>)
    : (r: map<string, map<string, seq<string>>>)
    ensures r.Keys == config.Keys + {group}
    ensures key in r[group] && r[group][key] == value
    ensures r[group].Keys == (if group in config then config[group].Keys else {}) + {key}
    ensures forall g :: g in config && g != group ==> r[g] == config[g]
    ensures group in config ==> forall e :: e in config[group] && e != key ==> e in r[group] && r[group][e] == config[group][e]
  {
    var entries := if group in config then config[group] else map[];
    config[group := entries[key := value]]
  }

  // ---------------------------------------------------------------------
  // Action enablement, copy, and the single-item requests

  /** Which actions a selection enables. */
  datatype Actions = Actions(
    copy: bool, cut: bool, trash: bool, del: bool, shred: bool,
    pastecut: bool, pastecopy: bool, properties: bool, editMimeType: bool)

  /** The decision once the selection has been scanned: `count` selected rows,
      `inTrash` if one of them lies in the trash, `first` the first of them.
      `canDisplay` is the properties dialog's own verdict on an item list. */
  function Enablement(count: nat, inTrash: bool, first: Option<Item>, clipboardFilled: bool,
                      canDisplay: seq<Item> -> bool): (r: Actions)
    ensures r.copy == (count > 0) && r.cut == r.copy && r.del == r.copy && r.shred == r.copy
    ensures r.trash ==> r.del
    ensures r.pastecopy == r.pastecut
    ensures r.pastecut || r.properties ==> r.editMimeType
    ensures r.editMimeType <==> count == 1
    ensures r.editMimeType ==> r.copy
  {
    var some := count > 0;
    var paste := clipboardFilled && count == 1;
    var candidates := if first.Some? then [first.value] else [];
    Actions(some, some, some && !inTrash, some, some, paste, paste,
            count == 1 && canDisplay(candidates), count == 1)
  }

  /** The enabled state of every action for the rows `items`. Copy, cut,
      delete and shred need a selection; moving to the trash also needs no
      selected row to lie in the trash already; pasting needs exactly one
      selected row and something on either clipboard; properties and the MIME
      type editor need exactly one selected row. */
  method UpdateActions(items: seq<Item>, trashPath: string, kioClipboardFilled: bool, appClipboardFilled: bool,
                       canDisplay: seq<Item> -> bool) returns (a: Actions)
    ensures var sel := Selected(items);
      && a.copy == (|sel| > 0) && a.cut == (|sel| > 0) && a.del == (|sel| > 0) && a.shred == (|sel| > 0)
      && a.trash == (|sel| > 0 && forall k :: 0 <= k < |sel| ==> sel[k].dir != trashPath)
      && a.pastecut == ((kioClipboardFilled || appClipboardFilled) && |sel| == 1)
      && a.pastecopy == a.pastecut
      && a.properties == (|sel| == 1 && canDisplay([sel[0]]))
      && a.editMimeType == (|sel| == 1)
  {
    var selection := Selected(items);
    var inTrash := false;
    var first: Option<Item> := None;
    var i := 0;
    while i < |selection|
      invariant 0 <= i <= |selection|
      invariant inTrash == exists k :: 0 <= k < i && selection[k].dir == trashPath
      invariant first == if i == 0 then None else Some(selection[0])
    {
      if selection[i].dir == trashPath {
        inTrash := true;
      }
      if first.None? {
        first := Some(selection[i]);
      }
      i := i + 1;
    }
    a := Enablement(|selection|, inTrash, first, kioClipboardFilled || appClipboardFilled, canDisplay);
  }

  /** The URLs that copy (and cut, which is the same) puts on the clipboard:
      one per selected row, in selection order. */
  method Copy(items: seq<Item>) returns (urls: seq<string>)
    ensures |urls| == |Selected(items)|
    ensures forall k :: 0 <= k < |urls| ==> urls[k] == Selected(items)[k].url
  {
    var selection := Selected(items);
    urls := [];
    var i := 0;
    while i < |selection|
      invariant 0 <= i <= |selection|
      invariant |urls| == i
      invariant forall k :: 0 <= k < i ==> urls[k] == selection[k].url
    {
      urls := urls + [selection[i].url];
      i := i + 1;
    }
  }

  /** What an operation on the single selected row asks of the framework.
      `AssertionFailure` stands for the fatal assertion that fires when not
      exactly one row is selected. */
  datatype Request =
    | PasteClipboard(target: string, move: bool)
    | OpenProperties(item: Item)
    | EditMimeType(mimetype: string)
    | AssertionFailure

  /** The row an operation on a single item works on: present exactly when one
      row is selected, and then it is a selected row that every selected row
      equals. */
  function SoleSelected(items: seq<Item>): (r: Option<Item>)
    ensures r.Some? <==> |Selected(items)| == 1
    ensures r.Some? ==> r.value in items && r.value.selected
    ensures r.Some? ==> forall k :: 0 <= k < |items| && items[k].selected ==> items[k] == r.value
  {
    var sel := Selected(items);
    if |sel| == 1 then Some(sel[0]) else None
  }

  /** Paste onto the single selected row, as a move or as a copy. */
  function PasteSelection(items: seq<Item>, move: bool): (r: Request)
    ensures r.AssertionFailure? <==> |Selected(items)| != 1
    ensures |Selected(items)| == 1 ==> r == PasteClipboard(Selected(items)[0].url, move)
  {
    match SoleSelected(items)
    case Some(it) => PasteClipboard(it.url, move)
    case None => AssertionFailure
  }

  /** Open the properties dialog for the single selected row. */
  function Properties(items: seq<Item>): (r: Request)
    ensures r.AssertionFailure? <==> |Selected(items)| != 1
    ensures |Selected(items)| == 1 ==> r == OpenProperties(Selected(items)[0])
  {
    match SoleSelected(items)
    case Some(it) => OpenProperties(it)
    case None => AssertionFailure
  }

  /** Edit the MIME type of the single selected row. */
  function EditMimeTypeOf(items: seq<Item>): (r: Request)
    ensures r.AssertionFailure? <==> |Selected(items)| != 1
    ensures |Selected(items)| == 1 ==> r == EditMimeType(Selected(items)[0].mimetype)
  {
    match SoleSelected(items)
    case Some(it) => EditMimeType(it.mimetype)
    case None => AssertionFailure
  }

  /** An action that the enablement allows never reaches the fatal assertion. */
  lemma EnabledRequestsDoNotAbort(items: seq<Item>, inTrash: bool, first: Option<Item>, clipboardFilled: bool,
                                  canDisplay: seq<Item> -> bool, move: bool)
    ensures var a := Enablement(|Selected(items)|, inTrash, first, clipboardFilled, canDisplay);
      && (a.pastecut || a.pastecopy ==> !PasteSelection(items, move).AssertionFailure?)
      && (a.properties ==> !Properties(items).AssertionFailure?)
      && (a.editMimeType ==> !EditMimeTypeOf(items).AssertionFailure?)
  {
  }

  // ---------------------------------------------------------------------
  // Icon size

  datatype IconSize = Small | Medium | Large

  /** The checked state of the three icon-size toggles. */
  datatype IconToggles = IconToggles(large: bool, medium: bool, small: bool)

  /** The icon size the toggles select: large wins over medium, and small is
      what remains. */
  function IconSizeFor(t: IconToggles): (r: IconSize)
    ensures r == Large <==> t.large
    ensures r == Medium <==> !t.large && t.medium
    ensures r == Small <==> !t.large && !t.medium
  {
    if t.large then Large
    else if t.medium then Medium
    else Small
  }

  /** The toggles of an exclusive group in which only `size` is checked. */
  function OnlyChecked(size: IconSize): IconToggles
  {
    IconToggles(size == Large, size == Medium, size == Small)
  }

  /** With the toggles in their exclusive group, the size is the checked one;
      the small toggle itself is never consulted. */
  lemma IconSizeByPriority(t: IconToggles, size: IconSize, small: bool)
    ensures IconSizeFor(OnlyChecked(size)) == size
    ensures IconSizeFor(t.(small := small)) == IconSizeFor(t)
  {
  }

  // ---------------------------------------------------------------------
  // View mode

  /** The widget the part creates. */
  datatype ViewKind = TextView | MixedTree | DetailedList

  function ViewKindFor(mode: string): (k: ViewKind)
    ensures k == TextView <==> mode == "TextView"
    ensures k == MixedTree <==> mode == "MixedTree"
    ensures k == DetailedList <==> mode != "TextView" && mode != "MixedTree"
  {
    if mode == "TextView" then TextView
    else if mode == "MixedTree" then MixedTree
    else DetailedList
  }

  /** The XML file describing the part's menus and toolbars for each widget. */
  function XmlFileFor(k: ViewKind): (r: string)
    ensures r == "konq_textview.rc" <==> k == TextView
    ensures r == "konq_treeview.rc" <==> k == MixedTree
    ensures r == "konq_detailedlistview.rc" <==> k == DetailedList
  {
    match k
    case TextView => "konq_textview.rc"
    case MixedTree => "konq_treeview.rc"
    case DetailedList => "konq_detailedlistview.rc"
  }

  /** Each widget has its own XML file. */
  lemma XmlFileIdentifiesKind(a: ViewKind, b: ViewKind)
    requires XmlFileFor(a) == XmlFileFor(b)
    ensures a == b
  {
  }

  // ---------------------------------------------------------------------
  // The part and its widget

  class KonqListView {
    /** The widget created for the view mode, and its XML file. */
    const kind: ViewKind
    const xmlFile: string
    /** The URL shown, and its protocol. */
    var url: string
    var protocol: string
    /** The window captions the part has asked for, in order. */
    var captions: seq<string>
    /** The displayed rows, in iteration order. */
    var items: seq<Item>
    /** Whether the widget's signals are blocked. */
    var signalsBlocked: bool
    /** How many `selectionChanged` signals the widget has delivered. */
    var selectionChangedEmitted: nat
    /** How many times the selected-files summary was refreshed. */
    var selectionInfoUpdates: nat
    var repaints: nat
    /** How many times the list contents were rebuilt. */
    var contentUpdates: nat
    var columns: seq<ColumnInfo>
    /** The configuration: group, then entry, then list value. */
    var config: map<string, map<string, seq<string>>>
    var iconToggles: IconToggles
    var iconSize: IconSize

    /** Signals are not blocked, and the part keeps its nine descriptors. */
    ghost predicate Shaped()
      reads this
    {
      !signalsBlocked && Names(columns) == ColumnNames
    }

    /** Between events, moreover, every descriptor's visibility flag mirrors its toggle. */
    ghost predicate Valid()
      reads this
    {
      Shaped() && Synced(columns)
    }

    /** Choose the widget and XML file for `mode`, create the nine column
        descriptors (none displayed) and check the small icon toggle. */
    constructor (mode: string, initialConfig: map<string, map<string, seq<string>>>)
      ensures Valid()
      ensures kind == ViewKindFor(mode) && xmlFile == XmlFileFor(kind)
      ensures columns == DefaultColumns() && items == [] && url == "" && protocol == "" && captions == []
      ensures config == initialConfig
      ensures iconToggles == IconToggles(false, false, true) && iconSize == Small
      ensures selectionChangedEmitted == 0 && selectionInfoUpdates == 0 && repaints == 0 && contentUpdates == 0
    {
      var k := ViewKindFor(mode);
      kind := k;
      xmlFile := XmlFileFor(k);
      url, protocol, captions := "", "", [];
      items := [];
      signalsBlocked := false;
      selectionChangedEmitted, selectionInfoUpdates, repaints, contentUpdates := 0, 0, 0, 0;
      columns := DefaultColumns();
      config := initialConfig;
      iconToggles := IconToggles(false, false, true);
      iconSize := Small;
    }

    /** Open `newUrl`, whose protocol is `newProtocol` and whose decoded form
        is `decoded`: remember it, ask for `decoded` as the window caption,
        and hand the URL to the widget, whose verdict `widgetOpened` is the
        result. The rows are what the directory lister delivered. */
    method OpenUrl(newUrl: string, newProtocol: string, decoded: string, widgetOpened: bool, listing: seq<Item>)
      returns (ok: bool)
      requires Valid()
      modifies this`url, this`protocol, this`captions, this`items
      ensures Valid()
      ensures url == newUrl && protocol == newProtocol && items == listing
      ensures captions == old(captions) + [decoded]
      ensures ok == widgetOpened
    {
      url := newUrl;
      captions := captions + [decoded];
      protocol := newProtocol;
      items := listing;
      ok := widgetOpened;
    }

    /** The widget delivers `selectionChanged` unless its signals are blocked. */
    method EmitSelectionChanged()
      modifies this`selectionChangedEmitted
      ensures selectionChangedEmitted == old(selectionChangedEmitted) + (if signalsBlocked then 0 else 1)
    {
      if !signalsBlocked {
        selectionChangedEmitted := selectionChangedEmitted + 1;
      }
    }

    /** Set one row's selection flag; the toolkit then signals the change. */
    method SetItemSelected(i: nat, value: bool)
      requires i < |items|
      modifies this`items, this`selectionChangedEmitted
      ensures items == old(items)[i := old(items)[i].(selected := value)]
      ensures selectionChangedEmitted == old(selectionChangedEmitted) + (if signalsBlocked then 0 else 1)
    {
      items := items[i := items[i].(selected := value)];
      EmitSelectionChanged();
    }

    /** The sweep of select and unselect: with signals blocked, set every
        matching row to `value`; then unblock and repaint. No signal escapes
        during the sweep. */
    method SweepMatching(pattern: string, matches: Matcher, value: bool)
      requires Valid()
      modifies this`items, this`signalsBlocked, this`selectionChangedEmitted, this`repaints
      ensures Valid()
      ensures items == Sweep(old(items), pattern, matches, value)
      ensures selectionChangedEmitted == old(selectionChangedEmitted)
      ensures repaints == old(repaints) + 1
    {
      signalsBlocked := true;
      var i := 0;
      while i < |items|
        invariant 0 <= i <= |items| == |old(items)|
        invariant signalsBlocked
        invariant selectionChangedEmitted == old(selectionChangedEmitted)
        invariant repaints == old(repaints) && columns == old(columns)
        invariant forall k :: 0 <= k < i ==> items[k] == Mark(old(items)[k], pattern, matches, value)
        invariant forall k :: i <= k < |items| ==> items[k] == old(items)[k]
      {
        if matches(pattern, items[i].name) {
          SetItemSelected(i, value);
        }
        i := i + 1;
      }
      signalsBlocked := false;
      repaints := repaints + 1;
    }

    /** Select by pattern. `accepted` and `pattern` are the dialog's result.
        An accepted empty pattern returns at once: nothing changes and no
        signal is sent. Otherwise the matching rows are selected if the dialog
        was accepted, and in either case `selectionChanged` is delivered
        exactly once and the summary is refreshed. */
    method SlotSelect(accepted: bool, pattern: string, matches: Matcher)
      requires Valid()
      modifies this`items, this`signalsBlocked, this`selectionChangedEmitted, this`repaints, this`selectionInfoUpdates
      ensures Valid()
      ensures accepted && pattern == [] ==>
        && items == old(items) && selectionChangedEmitted == old(selectionChangedEmitted)
        && repaints == old(repaints) && selectionInfoUpdates == old(selectionInfoUpdates)
      ensures !(accepted && pattern == []) ==>
        && items == (if accepted then Sweep(old(items), pattern, matches, true) else old(items))
        && selectionChangedEmitted == old(selectionChangedEmitted) + 1
        && repaints == old(repaints) + (if accepted then 1 else 0)
        && selectionInfoUpdates == old(selectionInfoUpdates) + 1
    {
      if accepted {
        if pattern == [] {
          return;
        }
        SweepMatching(pattern, matches, true);
      }
      EmitSelectionChanged();
      selectionInfoUpdates := selectionInfoUpdates + 1;
    }

    /** Unselect by pattern: as `SlotSelect`, with matching rows unselected. */
    method SlotUnselect(accepted: bool, pattern: string, matches: Matcher)
      requires Valid()
      modifies this`items, this`signalsBlocked, this`selectionChangedEmitted, this`repaints, this`selectionInfoUpdates
      ensures Valid()
      ensures accepted && pattern == [] ==>
        && items == old(items) && selectionChangedEmitted == old(selectionChangedEmitted)
        && repaints == old(repaints) && selectionInfoUpdates == old(selectionInfoUpdates)
      ensures !(accepted && pattern == []) ==>
        && items == (if accepted then Sweep(old(items), pattern, matches, false) else old(items))
        && selectionChangedEmitted == old(selectionChangedEmitted) + 1
        && repaints == old(repaints) + (if accepted then 1 else 0)
        && selectionInfoUpdates == old(selectionInfoUpdates) + 1
    {
      if accepted {
        if pattern == [] {
          return;
        }
        SweepMatching(pattern, matches, false);
      }
      EmitSelectionChanged();
      selectionInfoUpdates := selectionInfoUpdates + 1;
    }

    method SlotSelectAll()
      requires Valid()
      modifies this`items, this`selectionChangedEmitted, this`selectionInfoUpdates
      ensures Valid()
      ensures items == SetAll(old(items), true)
      ensures selectionChangedEmitted == old(selectionChangedEmitted) + 1
      ensures selectionInfoUpdates == old(selectionInfoUpdates) + 1
    {
      items := SetAll(items, true);
      EmitSelectionChanged();
      selectionInfoUpdates := selectionInfoUpdates + 1;
    }

    method SlotUnselectAll()
      requires Valid()
      modifies this`items, this`selectionChangedEmitted, this`selectionInfoUpdates
      ensures Valid()
      ensures items == SetAll(old(items), false)
      ensures selectionChangedEmitted == old(selectionChangedEmitted) + 1
      ensures selectionInfoUpdates == old(selectionInfoUpdates) + 1
    {
      items := SetAll(items, false);
      EmitSelectionChanged();
      selectionInfoUpdates := selectionInfoUpdates + 1;
    }

    method SlotInvertSelection()
      requires Valid()
      modifies this`items, this`repaints, this`selectionChangedEmitted, this`selectionInfoUpdates
      ensures Valid()
      ensures items == Inverted(old(items))
      ensures repaints == old(repaints) + 1
      ensures selectionChangedEmitted == old(selectionChangedEmitted) + 1
      ensures selectionInfoUpdates == old(selectionInfoUpdates) + 1
    {
      items := Inverted(items);
      repaints := repaints + 1;
      EmitSelectionChanged();
      selectionInfoUpdates := selectionInfoUpdates + 1;
    }

    /** Recompute the icon size from the toggles and rebuild the contents. */
    method SlotIconSizeToggled()
      modifies this`iconSize, this`contentUpdates
      ensures iconSize == IconSizeFor(iconToggles)
      ensures contentUpdates == old(contentUpdates) + 1
    {
      if iconToggles.large {
        iconSize := Large;
      } else if iconToggles.medium {
        iconSize := Medium;
      } else {
        iconSize := Small;
      }
      contentUpdates := contentUpdates + 1;
    }

    /** The user picks an icon size in the exclusive group: that toggle
        becomes the only checked one and the size follows it. Picking the
        size that is already the only one checked is assumed to change no
        toggle and send no signal, so it is excluded. */
    method ChooseIconSize(size: IconSize)
      requires iconToggles != OnlyChecked(size)
      modifies this`iconToggles, this`iconSize, this`contentUpdates
      ensures iconToggles == OnlyChecked(size)
      ensures iconSize == size
      ensures contentUpdates == old(contentUpdates) + 1
    {
      iconToggles := OnlyChecked(size);
      SlotIconSizeToggled();
      IconSizeByPriority(iconToggles, size, false);
    }

    /** Recompute every descriptor's visibility from its toggle, rebuild the
        contents, and write the names of the displayed descriptors, in order,
        to entry "Columns" of group "ListView_" + protocol. */
    method SlotColumnToggled()
      requires Shaped()
      modifies this`columns, this`contentUpdates, this`config
      ensures Valid()
      ensures columns == Refreshed(old(columns)) && Synced(columns)
      ensures contentUpdates == old(contentUpdates) + 1
      ensures config == WriteEntry(old(config), GroupName(protocol), ColumnsKey, Displayed(columns))
    {
      var i := 0;
      while i < |columns|
        invariant 0 <= i <= |columns| == |old(columns)|
        invariant forall k :: 0 <= k < i ==> columns[k] == Refresh(old(columns)[k])
        invariant forall k :: i <= k < |columns| ==> columns[k] == old(columns)[k]
        invariant contentUpdates == old(contentUpdates) && config == old(config)
      {
        columns := columns[i := columns[i].(display := columns[i].toggle.checked && columns[i].toggle.enabled)];
        i := i + 1;
      }
      assert columns == Refreshed(old(columns));
      RefreshedIsSynced(old(columns));
      contentUpdates := contentUpdates + 1;

      var group := GroupName(protocol);
      var lst: seq<string> := [];
      i := 0;
      while i < |columns|
        invariant 0 <= i <= |columns|
        invariant lst == Displayed(columns[..i])
        invariant columns == Refreshed(old(columns)) && Synced(columns)
        invariant contentUpdates == old(contentUpdates) + 1 && config == old(config)
      {
        assert columns[..i + 1][..i] == columns[..i];
        if columns[i].display {
          lst := lst + [columns[i].name];
        }
        i := i + 1;
      }
      assert columns[..|columns|] == columns;
      config := WriteEntry(config, group, ColumnsKey, lst);
    }

    /** The user switches the toggle of column `k`, whose `toggled` signal
        runs `SlotColumnToggled`; a toggle that does not change sends no signal. */
    method SetColumnToggle(k: nat, checked: bool)
      requires Valid() && k < |columns| && checked != columns[k].toggle.checked
      modifies this`columns, this`contentUpdates, this`config
      ensures Valid()
      ensures columns == Refreshed(WithToggle(old(columns), k, checked))
      ensures contentUpdates == old(contentUpdates) + 1
      ensures config == WriteEntry(old(config), GroupName(protocol), ColumnsKey, Displayed(columns))
    {
      columns := WithToggle(columns, k, checked);
      SlotColumnToggled();
    }
  }
}
