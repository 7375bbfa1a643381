/** The folders side panel: a tree of directories that follows the URL of the
    main view. It ignores invalid and search URLs, loads the tree from a base
    URL, selects the row of the current URL or asks the model to expand its
    parent directories and selects it once loading completes, creates its
    controller lazily on the first real show event, and guards activation,
    drops and inline renames. */
module Folders {
  import opened Options

  // ---------------------------------------------------------------------
  // URLs

  /** A URL: whether it is valid, its protocol, its authority (user, host and
      port), its path and its query. */
  datatype Url = Url(valid: bool, protocol: string, authority: string, path: string, query: string)

  /** The empty URL, which a new model reports as its directory and a null item as its URL. */
  const EmptyUrl: Url := Url(false, "", "", "", "")

  /** The file system's root path, on a Unix system. */
  const RootPath: string := "/"

  /** The root directory as a local URL. */
  const RootUrl: Url := Url(true, "file", "", RootPath, "")

  predicate IsLocalFile(u: Url)
  {
    u.protocol == "file"
  }

  /** `t` occurs in `s` as a contiguous piece: it is a prefix of `s` or occurs in its tail. */
  predicate Contains(s: string, t: string)
  {
    t <= s || (s != [] && Contains(s[1..], t))
  }

  /** A URL the panel does not follow: an invalid one, or one whose protocol mentions "search". */
  predicate Ignored(u: Url)
  {
    !u.valid || Contains(u.protocol, "search")
  }

  /** Every protocol with "search" in it is ignored, whatever surrounds it. */
  lemma SearchProtocolsIgnored(u: Url, before: string, after: string)
    requires u.protocol == before + "search" + after
    ensures Ignored(u)
  {
    ContainsPiece(before, "search", after);
  }

  lemma {:induction false} ContainsPiece(before: string, t: string, after: string)
    ensures Contains(before + t + after, t)
  {
    if before == [] {
      assert before + t + after == t + after;
    } else {
      assert (before + t + after)[1..] == before[1..] + t + after;
      ContainsPiece(before[1..], t, after);
    }
  }

  /** A valid local URL is followed. */
  lemma LocalFilesFollowed(u: Url)
    requires u.valid && u.protocol == "file"
    ensures !Ignored(u)
  {
    ContainsNeedsRoom(u.protocol, "search");
  }

  /** `t` sits in `s` at position `i`. */
  predicate OccursAt(s: string, t: string, i: int)
  {
    0 <= i && i + |t| <= |s| && s[i..i + |t|] == t
  }

  /** `Contains` finds `t` exactly when `t` sits somewhere in `s`. */
  lemma ContainsExactly(s: string, t: string)
    ensures Contains(s, t) <==> exists i :: OccursAt(s, t, i)
  {
    if Contains(s, t) {
      ContainsSound(s, t);
    }
    if exists i :: OccursAt(s, t, i) {
      var i :| OccursAt(s, t, i);
      assert s == s[..i] + t + s[i + |t|..];
      ContainsPiece(s[..i], t, s[i + |t|..]);
    }
  }

  lemma {:induction false} ContainsSound(s: string, t: string)
    requires Contains(s, t)
    ensures exists i :: OccursAt(s, t, i)
  {
    if t <= s {
      assert OccursAt(s, t, 0);
    } else {
      ContainsSound(s[1..], t);
      var i :| OccursAt(s[1..], t, i);
      assert s[1..][i..i + |t|] == s[i + 1..i + 1 + |t|];
      assert OccursAt(s, t, i + 1);
    }
  }

  /** The panel ignores exactly the invalid URLs and those whose protocol has
      "search" somewhere in it. */
  lemma IgnoredExactly(u: Url)
    ensures Ignored(u) <==> !u.valid || exists i :: OccursAt(u.protocol, "search", i)
  {
    ContainsExactly(u.protocol, "search");
  }

  /** Nothing longer than `s` occurs in it. */
  lemma {:induction false} ContainsNeedsRoom(s: string, t: string)
    requires |t| > |s|
    ensures !Contains(s, t)
  {
    if s != [] {
      ContainsNeedsRoom(s[1..], t);
    }
  }

  /** The URL the tree is loaded from: the root directory for a local URL,
      otherwise the URL itself with its path set to "/". */
  function BaseUrl(u: Url): (r: Url)
    ensures r.path == RootPath && r.protocol == u.protocol
    ensures IsLocalFile(u) ==> r == RootUrl
    ensures !IsLocalFile(u) ==> r.valid == u.valid && r.authority == u.authority && r.query == u.query
  {
    if IsLocalFile(u) then RootUrl else u.(path := "/")
  }

  /** Two URLs share a base exactly when they have the same protocol and are
      both local, or agree on everything but the path. So navigating within
      one site never reloads the tree, and changing site always does. */
  lemma SameBaseExactlyWhenSameSite(u: Url, v: Url)
    ensures BaseUrl(u) == BaseUrl(v) <==>
      u.protocol == v.protocol &&
      (IsLocalFile(u) || (u.valid == v.valid && u.authority == v.authority && u.query == v.query))
  {
  }

  /** The base of a base is itself, and no base is the empty URL of a new model. */
  lemma BaseUrlStable(u: Url)
    ensures BaseUrl(BaseUrl(u)) == BaseUrl(u)
    ensures BaseUrl(u) != EmptyUrl
  {
  }

  // ---------------------------------------------------------------------
  // Model rows, effects and the tree state

  /** A row of the directory model: its URL and its display text. */
  datatype FileItem = FileItem(url: Url, text: string)

  /** The file item at `index`, or none (the null item) outside the rows. */
  function ItemAt(rows: seq<FileItem>, index: int): (r: Option<FileItem>)
    ensures r.Some? <==> 0 <= index < |rows|
    ensures r.Some? ==> r.value == rows[index]
  {
    if 0 <= index < |rows| then Some(rows[index]) else None
  }

  /** The display text of the item at `index`; the null item's text is empty. */
  function TextAt(rows: seq<FileItem>, index: int): string
  {
    match ItemAt(rows, index)
    case Some(it) => it.text
    case None => ""
  }

  /** The URL of the item at `index`; the null item's URL is empty. */
  function UrlAt(rows: seq<FileItem>, index: int): Url
  {
    match ItemAt(rows, index)
    case Some(it) => it.url
    case None => EmptyUrl
  }

  /** The model's row for `u`, or -1 when it has none. */
  function IndexIn(indices: map<Url, nat>, u: Url): (r: int)
    ensures r >= 0 <==> u in indices
    ensures u in indices ==> r == indices[u]
  {
    if u in indices then indices[u] else -1
  }

  /** Every indexed URL names a row that carries that URL. */
  predicate ModelConsistent(indices: map<Url, nat>, rows: seq<FileItem>)
  {
    forall u :: u in indices ==> indices[u] < |rows| && rows[indices[u]].url == u
  }

  datatype MouseButton = LeftButton | MiddleButton

  /** What the panel asks of the framework, in order. */
  datatype Effect =
    | RefreshDirectory(url: Url)
    | ExpandParentDirectories(url: Url)
    | ScrollToItem(index: int)
    | ScheduleFadeIn
    | ChangeUrl(url: Url, button: MouseButton)
    | RenameFile(url: Url, newName: string)
    | DropUrls(url: Url)
    | EditRole(index: int, role: string)

  /** The navigation state: the model's directory, URL index and rows, the
      selection manager's current item and selection, whether a selection of
      the current URL is still owed, and the effects issued so far. */
  datatype TreeState = TreeState(
    directory: Url, indices: map<Url, nat>, rows: seq<FileItem>,
    currentItem: int, selection: set<int>, pending: bool, effects: seq<Effect>)

  /** The state of a just-created controller: an empty model and no selection. */
  function FreshTree(pending: bool, effects: seq<Effect>): TreeState
  {
    TreeState(EmptyUrl, map[], [], -1, {}, pending, effects)
  }

  /** `updateCurrentItem(index)`: make `index` current, select only it, scroll to it. */
  function TreeAfterSelect(s: TreeState, index: int): (r: TreeState)
    ensures r.currentItem == index && r.selection == {r.currentItem}
    ensures r.directory == s.directory && r.indices == s.indices && r.rows == s.rows && r.pending == s.pending
    ensures |r.effects| == |s.effects| + 1 && r.effects[..|s.effects|] == s.effects
  {
    s.(currentItem := index, selection := {index}, effects := s.effects + [ScrollToItem(index)])
  }

  /** `refreshDirectory(base)`: the model reloads from `base`; its rows are
      gone until the load completes, and a selection is owed. */
  function TreeAfterRefresh(s: TreeState, base: Url): (r: TreeState)
    ensures r.directory == base && r.rows == [] && ModelConsistent(r.indices, r.rows) && r.pending
    ensures forall u :: IndexIn(r.indices, u) == -1
    ensures r.currentItem == s.currentItem && r.selection == s.selection
    ensures |r.effects| == |s.effects| + 1 && r.effects[..|s.effects|] == s.effects
  {
    s.(directory := base, indices := map[], rows := [], pending := true,
       effects := s.effects + [RefreshDirectory(base)])
  }

  /** `loadTree(u)`, step by step: clear the owed flag; refresh from the base
      when the model shows another directory; then select the row of `u`, or
      owe the selection and ask for the parents of `u` to be expanded. */
  function TreeAfterLoad(s: TreeState, u: Url): (r: TreeState)
    ensures r.directory == BaseUrl(u)
    ensures !r.pending ==> r.selection == {r.currentItem} && r.directory == s.directory && r.indices == s.indices
    ensures r.pending ==> r.currentItem == s.currentItem && r.selection == s.selection
    ensures |r.effects| > |s.effects| && r.effects[..|s.effects|] == s.effects
  {
    var base := BaseUrl(u);
    var s1 := s.(pending := false);
    var s2 := if s1.directory != base then TreeAfterRefresh(s1, base) else s1;
    var index := IndexIn(s2.indices, u);
    if index >= 0 then TreeAfterSelect(s2, index)
    else s2.(pending := true, effects := s2.effects + [ExpandParentDirectories(u)])
  }

  /** `slotLoadingCompleted()` for the current URL `u`: schedule the fade-in
      while the view is still transparent; then, if a selection is owed,
      select the row of `u` and clear the flag. */
  function TreeAfterCompletion(s: TreeState, u: Url, opacityZero: bool): (r: TreeState)
    ensures !r.pending
    ensures r.directory == s.directory && r.indices == s.indices && r.rows == s.rows
    ensures s.pending ==> r.selection == {IndexIn(s.indices, u)}
    ensures !s.pending ==> r.currentItem == s.currentItem && r.selection == s.selection
    ensures |r.effects| >= |s.effects| && r.effects[..|s.effects|] == s.effects
  {
    var s1 := if opacityZero then s.(effects := s.effects + [ScheduleFadeIn]) else s;
    if !s1.pending then s1
    else TreeAfterSelect(s1, IndexIn(s1.indices, u)).(pending := false)
  }

  /** The model finished loading and now holds `indices` and `rows`. */
  function TreeAfterLoading(s: TreeState, indices: map<Url, nat>, rows: seq<FileItem>): TreeState
  {
    s.(indices := indices, rows := rows)
  }

  /** What `loadTree(u)` does. It refreshes exactly when the model shows
      another directory than the base of `u`. Afterwards the model shows the
      base, and a selection is owed exactly when it refreshed or the model had
      no row for `u`. With a row the selection is exactly that row; without
      one the selection is untouched and the parents of `u` are requested. */
  lemma LoadTreeOutcome(s: TreeState, u: Url)
    ensures var r := TreeAfterLoad(s, u);
      var base := BaseUrl(u);
      var refresh := s.directory != base;
      var index := if refresh then -1 else IndexIn(s.indices, u);
      && r.directory == base
      && r.pending == (refresh || index < 0)
      && (index >= 0 ==> r.currentItem == index && r.selection == {index})
      && (index < 0 ==> r.currentItem == s.currentItem && r.selection == s.selection)
      && r.effects == s.effects + (if refresh then [RefreshDirectory(base)] else [])
                                + (if index >= 0 then [ScrollToItem(index)] else [ExpandParentDirectories(u)])
  {
  }

  /** Loading the same URL again changes neither the directory, nor the
      selection, nor whether a selection is owed. */
  lemma LoadTreeTwice(s: TreeState, u: Url)
    ensures var once := TreeAfterLoad(s, u);
      var twice := TreeAfterLoad(once, u);
      && twice.directory == once.directory
      && twice.currentItem == once.currentItem && twice.selection == once.selection
      && twice.pending == once.pending
  {
  }

  /** What `slotLoadingCompleted()` does. With a selection owed it selects
      exactly the row of the current URL and clears the flag; without one the
      selection is untouched. The fade-in is scheduled exactly when the view
      is still transparent. */
  lemma CompletionOutcome(s: TreeState, u: Url, opacityZero: bool)
    ensures var r := TreeAfterCompletion(s, u, opacityZero);
      && !r.pending
      && (s.pending ==> r.currentItem == IndexIn(s.indices, u) && r.selection == {IndexIn(s.indices, u)})
      && (!s.pending ==> r.currentItem == s.currentItem && r.selection == s.selection)
      && r.effects == s.effects + (if opacityZero then [ScheduleFadeIn] else [])
                                + (if s.pending then [ScrollToItem(IndexIn(s.indices, u))] else [])
      && r.directory == s.directory && r.indices == s.indices && r.rows == s.rows
  {
  }

  /** Navigation end to end: load `u`; the model finishes loading with a row
      for `u`; loading completes. Nothing is owed afterwards. If a selection
      was owed, the only selection is the row of `u` in the loaded model. If
      the row was found at once, it is the index found then, because rows are
      not remapped. */
  lemma LoadThenCompleteSelectsTarget(s: TreeState, u: Url, indices: map<Url, nat>, rows: seq<FileItem>,
                                      opacityZero: bool)
    requires u in indices
    ensures var loaded := TreeAfterLoad(s, u);
      var r := TreeAfterCompletion(TreeAfterLoading(loaded, indices, rows), u, opacityZero);
      && !r.pending
      && r.selection == {if loaded.pending then indices[u] else loaded.currentItem}
      && (loaded.pending ==> r.currentItem == indices[u])
  {
    LoadTreeOutcome(s, u);
    CompletionOutcome(TreeAfterLoading(TreeAfterLoad(s, u), indices, rows), u, opacityZero);
  }

  /** In a consistent model the row found for a URL is a file item carrying that URL. */
  lemma FoundRowCarriesUrl(indices: map<Url, nat>, rows: seq<FileItem>, u: Url)
    requires ModelConsistent(indices, rows)
    ensures IndexIn(indices, u) >= 0 ==> ItemAt(rows, IndexIn(indices, u)).Some? && UrlAt(rows, IndexIn(indices, u)) == u
    ensures IndexIn(indices, u) < 0 ==> forall k :: 0 <= k < |rows| && k in indices.Values ==> rows[k].url != u
  {
  }

  /** When `loadTree(u)` selects at once, on a consistent model, the selected
      row is the item of `u` itself. */
  lemma LoadSelectsRowOfUrl(s: TreeState, u: Url)
    requires ModelConsistent(s.indices, s.rows)
    ensures var r := TreeAfterLoad(s, u);
      !r.pending ==> 0 <= r.currentItem < |r.rows| && r.rows[r.currentItem].url == u && r.selection == {r.currentItem}
  {
    FoundRowCarriesUrl(s.indices, s.rows, u);
  }

  /** When `slotLoadingCompleted()` selects the owed row of a URL the
      consistent model knows, that row is the item of the URL. */
  lemma CompletionSelectsRowOfUrl(s: TreeState, u: Url, opacityZero: bool)
    requires ModelConsistent(s.indices, s.rows) && s.pending && u in s.indices
    ensures var r := TreeAfterCompletion(s, u, opacityZero);
      0 <= r.currentItem < |r.rows| && r.rows[r.currentItem].url == u && r.selection == {r.currentItem}
  {
    FoundRowCarriesUrl(s.indices, s.rows, u);
  }

  /** Loading keeps the model's index consistent with its rows. */
  lemma LoadKeepsModelConsistent(s: TreeState, u: Url)
    requires ModelConsistent(s.indices, s.rows)
    ensures var r := TreeAfterLoad(s, u); ModelConsistent(r.indices, r.rows)
  {
  }

  // ---------------------------------------------------------------------
  // Rename guard

  /** An edit of `role` to `newName` on an item shown as `current` is passed
      on as a rename. */
  predicate RenameAllowed(role: string, newName: string, current: string)
  {
    role == "name" && newName != "" && newName != current && newName != "." && newName != ".."
  }

  /** Submitting the current name again never renames. */
  lemma RenameGuard(role: string, current: string)
    ensures !RenameAllowed(role, current, current)
  {
  }

  // ---------------------------------------------------------------------
  // The panel

  class FoldersPanel {
    /** The URL the panel is asked to follow. */
    var url: Url
    /** True while a selection of the current URL is owed until loading completes. */
    var updateCurrentItem: bool
    /** Whether the controller (with its view and model) exists, and how often it was created. */
    var hasController: bool
    var controllerCreations: nat
    /** The model: its directory, its URL index and its rows. */
    var directory: Url
    var indices: map<Url, nat>
    var rows: seq<FileItem>
    /** The selection manager. */
    var currentItem: int
    var selection: set<int>
    /** Whether the view's opacity is still 0. */
    var opacityZero: bool
    var effects: seq<Effect>

    function Tree(): TreeState
      reads this
    {
      TreeState(directory, indices, rows, currentItem, selection, updateCurrentItem, effects)
    }

    /** The controller is created at most once, no selection is owed before
        it exists, and the model's index names its own rows. */
    ghost predicate Valid()
      reads this
    {
      && controllerCreations == (if hasController then 1 else 0)
      && (!hasController ==> !updateCurrentItem)
      && ModelConsistent(indices, rows)
    }

    constructor ()
      ensures Valid()
      ensures url == EmptyUrl && !updateCurrentItem && !hasController && effects == []
    {
      url := EmptyUrl;
      updateCurrentItem := false;
      hasController := false;
      controllerCreations := 0;
      directory, indices, rows := EmptyUrl, map[], [];
      currentItem, selection := -1, {};
      opacityZero := true;
      effects := [];
    }

    /** Make `index` the current item and the only selected one, and scroll to it. */
    method UpdateCurrentItem(index: int)
      requires hasController
      modifies this`currentItem, this`selection, this`effects
      ensures currentItem == index && selection == {index}
      ensures effects == old(effects) + [ScrollToItem(index)]
    {
      currentItem := index;
      selection := {};
      selection := selection + {index};
      effects := effects + [ScrollToItem(index)];
    }

    /** The model reloads from `base`. */
    method RefreshModelDirectory(base: Url)
      modifies this`directory, this`indices, this`rows, this`effects
      ensures directory == base && indices == map[] && rows == []
      ensures effects == old(effects) + [RefreshDirectory(base)]
    {
      directory, indices, rows := base, map[], [];
      effects := effects + [RefreshDirectory(base)];
    }

    method LoadTree(u: Url)
      requires Valid() && hasController
      modifies this`updateCurrentItem, this`directory, this`indices, this`rows,
               this`currentItem, this`selection, this`effects
      ensures Valid()
      ensures Tree() == TreeAfterLoad(old(Tree()), u)
    {
      updateCurrentItem := false;
      var base := BaseUrl(u);
      if directory != base {
        updateCurrentItem := true;
        RefreshModelDirectory(base);
      }
      var index := IndexIn(indices, u);
      if index >= 0 {
        UpdateCurrentItem(index);
      } else {
        updateCurrentItem := true;
        effects := effects + [ExpandParentDirectories(u)];
      }
    }

    /** The URL changed. An ignored URL is refused and nothing changes;
        otherwise the URL is accepted, and the tree is loaded for it only
        if the controller exists. */
    method UrlChanged() returns (accepted: bool)
      requires Valid()
      modifies this`updateCurrentItem, this`directory, this`indices, this`rows,
               this`currentItem, this`selection, this`effects
      ensures Valid()
      ensures accepted == !Ignored(url)
      ensures Tree() == if accepted && hasController then TreeAfterLoad(old(Tree()), url) else old(Tree())
    {
      if !url.valid || Contains(url.protocol, "search") {
        return false;
      }
      if hasController {
        LoadTree(url);
      }
      return true;
    }

    /** A show event. A spontaneous one changes nothing here. Otherwise the
        controller is created if it does not exist yet, with an empty model
        and a transparent view, and the tree is loaded for the URL. */
    method ShowEvent(spontaneous: bool)
      requires Valid()
      modifies this
      ensures Valid() && url == old(url)
      ensures spontaneous ==>
        && Tree() == old(Tree()) && hasController == old(hasController)
        && controllerCreations == old(controllerCreations) && opacityZero == old(opacityZero)
      ensures !spontaneous ==>
        && hasController && controllerCreations == 1
        && opacityZero == (if old(hasController) then old(opacityZero) else true)
        && Tree() == TreeAfterLoad(if old(hasController) then old(Tree())
                                   else FreshTree(old(updateCurrentItem), old(effects)), url)
    {
      if spontaneous {
        return;
      }
      if !hasController {
        opacityZero := true;
        directory, indices, rows := EmptyUrl, map[], [];
        currentItem, selection := -1, {};
        hasController := true;
        controllerCreations := controllerCreations + 1;
      }
      LoadTree(url);
    }

    /** The model finished loading and now holds `newIndices` and `newRows`. */
    method DirectoryLoaded(newIndices: map<Url, nat>, newRows: seq<FileItem>)
      requires Valid() && hasController && ModelConsistent(newIndices, newRows)
      modifies this`indices, this`rows
      ensures Valid()
      ensures Tree() == TreeAfterLoading(old(Tree()), newIndices, newRows)
    {
      indices, rows := newIndices, newRows;
    }

    method SlotLoadingCompleted()
      requires Valid() && hasController
      modifies this`updateCurrentItem, this`currentItem, this`selection, this`effects
      ensures Valid()
      ensures Tree() == TreeAfterCompletion(old(Tree()), url, opacityZero)
    {
      if opacityZero {
        effects := effects + [ScheduleFadeIn];
      }
      if !updateCurrentItem {
        return;
      }
      var index := IndexIn(indices, url);
      UpdateCurrentItem(index);
      updateCurrentItem := false;
    }

    /** The delayed fade-in starts: the view is no longer transparent. */
    method StartFadeInAnimation()
      requires hasController
      modifies this`opacityZero
      ensures !opacityZero
    {
      opacityZero := false;
    }

    /** Activating a row asks the main view to open its URL; a null item is ignored. */
    method SlotItemActivated(index: int)
      requires hasController
      modifies this`effects
      ensures effects == old(effects) + (if 0 <= index < |rows| then [ChangeUrl(rows[index].url, LeftButton)] else [])
    {
      var item := ItemAt(rows, index);
      if item.Some? {
        effects := effects + [ChangeUrl(item.value.url, LeftButton)];
      }
    }

    /** Middle-clicking a row asks for its URL in a new view; a null item is ignored. */
    method SlotItemMiddleClicked(index: int)
      requires hasController
      modifies this`effects
      ensures effects == old(effects) + (if 0 <= index < |rows| then [ChangeUrl(rows[index].url, MiddleButton)] else [])
    {
      var item := ItemAt(rows, index);
      if item.Some? {
        effects := effects + [ChangeUrl(item.value.url, MiddleButton)];
      }
    }

    /** A drop onto a row hands the dropped URLs to that row's URL; a drop
        with a negative index or onto a null item is ignored. */
    method SlotItemDropEvent(index: int)
      requires hasController
      modifies this`effects
      ensures effects == old(effects) + (if 0 <= index < |rows| then [DropUrls(rows[index].url)] else [])
    {
      if index >= 0 {
        var destItem := ItemAt(rows, index);
        if destItem.None? {
          return;
        }
        effects := effects + [DropUrls(destItem.value.url)];
      }
    }

    /** An inline edit finished. Only an edit of the name to a new, non-empty
        name other than "." and ".." renames the item. */
    method SlotRoleEditingFinished(index: int, role: string, value: string)
      requires hasController
      modifies this`effects
      ensures effects == old(effects) +
        (if RenameAllowed(role, value, TextAt(rows, index)) then [RenameFile(UrlAt(rows, index), value)] else [])
    {
      if role == "name" {
        var item := ItemAt(rows, index);
        var newName := value;
        var text := if item.Some? then item.value.text else "";
        if newName != "" && newName != text && newName != "." && newName != ".." {
          var target := if item.Some? then item.value.url else EmptyUrl;
          effects := effects + [RenameFile(target, newName)];
        }
      }
    }

    /** Start editing the name of the row of `itemUrl`. */
    method Rename(itemUrl: Url)
      requires hasController
      modifies this`effects
      ensures effects == old(effects) + [EditRole(IndexIn(indices, itemUrl), "name")]
    {
      var index := IndexIn(indices, itemUrl);
      effects := effects + [EditRole(index, "name")];
    }
  }
}
