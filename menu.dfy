/**
 * The menu payloads of src/menu.cpp and inc/menu.hpp.
 *
 * A node's `void*` user data points at one of three records, each starting
 * with a 32-bit magic word; `Raw` stands for any other memory, of which only
 * the first word matters to `checkType`. The focus callbacks write to the
 * console: here they return the lines they would write, with the colour
 * escapes replaced by a `highlighted` flag on menu entries.
 */
module Menu {
  import opened Wrappers
  import opened TreeNode
  import GitHub

  const MENU_MAGIC: bv32 := 0x1234
  const DOWNLOADABLE_MAGIC: bv32 := 0xDEAD
  const EMPTY_MAGIC: bv32 := 0xBEEF

  /** `GhDownload`: what a downloadable entry would fetch. */
  datatype GhDownload = GhDownload(token: GitHub.Token, repository: string, tag: string)

  /** The record behind a node's user data. */
  datatype Payload =
    | MenuData(title: string, entries: seq<string>, selected: nat)
    | DownloadableData(title: string, download: GhDownload)
    | EmptyData(title: string, message: string)
    | Raw(word: bv32)

  /** The first 32-bit word of the record. */
  function Magic(p: Payload): bv32
  {
    match p
    case MenuData(_, _, _) => MENU_MAGIC
    case DownloadableData(_, _) => DOWNLOADABLE_MAGIC
    case EmptyData(_, _) => EMPTY_MAGIC
    case Raw(w) => w
  }

  datatype NodeType = UNKNOWN | MENU | DOWNLOADABLE | EMPTY

  /** `checkType`, applied to a node's user data: the magic word decides; a null payload or any other word is UNKNOWN. */
  function CheckType(data: Option<Payload>): (t: NodeType)
    ensures t == MENU <==> data.Some? && Magic(data.value) == MENU_MAGIC
    ensures t == DOWNLOADABLE <==> data.Some? && Magic(data.value) == DOWNLOADABLE_MAGIC
    ensures t == EMPTY <==> data.Some? && Magic(data.value) == EMPTY_MAGIC
    ensures t == UNKNOWN <==>
      data.None? || (Magic(data.value) != MENU_MAGIC && Magic(data.value) != DOWNLOADABLE_MAGIC && Magic(data.value) != EMPTY_MAGIC)
  {
    if data.None? then UNKNOWN
    else if Magic(data.value) == MENU_MAGIC then MENU
    else if Magic(data.value) == DOWNLOADABLE_MAGIC then DOWNLOADABLE
    else if Magic(data.value) == EMPTY_MAGIC then EMPTY
    else UNKNOWN
  }

  /**
   * Each record kind is recognised as its own type, and only by its magic
   * word: foreign memory that happens to start with a magic word is taken
   * for that record.
   */
  lemma CheckTypeRecognises(p: Payload)
    ensures p.MenuData? ==> CheckType(Some(p)) == MENU
    ensures p.DownloadableData? ==> CheckType(Some(p)) == DOWNLOADABLE
    ensures p.EmptyData? ==> CheckType(Some(p)) == EMPTY
    ensures forall q: Payload :: Magic(q) == Magic(p) ==> CheckType(Some(q)) == CheckType(Some(p))
  {
  }

  /** The callbacks `make*` install: three focus callbacks and three destroy callbacks. */
  datatype Callback =
    | OnMenuFocus | OnDownloadableFocus | OnEmptyFocus
    | DestroyMenu | DestroyDownloadable | DestroyEmpty

  type MenuNode = Node<Payload, Callback>
  type MenuForest = Forest<Payload, Callback>

  /** The node after `make*` installed a payload and its two callbacks; its place in the tree is kept. */
  function Made(n: MenuNode, data: Payload, focus: Callback, destroy: Callback): (r: MenuNode)
    ensures r.parent == n.parent && r.children == n.children
    ensures r.data == Some(data) && r.onFocus == Some(focus) && r.onDestroy == Some(destroy)
  {
    n.(data := Some(data), onFocus := Some(focus), onDestroy := Some(destroy))
  }

  /**
   * A node as the `make*` functions leave it: a payload with callbacks of the
   * matching kind, and a menu whose selection is an entry (or 0 when there
   * are none).
   */
  predicate WellMade(n: MenuNode)
  {
    n.data.Some? &&
    match n.data.value
    case MenuData(_, entries, selected) =>
      n.onFocus == Some(OnMenuFocus) && n.onDestroy == Some(DestroyMenu) && (selected < |entries| || selected == 0)
    case DownloadableData(_, _) =>
      n.onFocus == Some(OnDownloadableFocus) && n.onDestroy == Some(DestroyDownloadable)
    case EmptyData(_, _) =>
      n.onFocus == Some(OnEmptyFocus) && n.onDestroy == Some(DestroyEmpty)
    case Raw(_) => false
  }

  /** Installing a payload and its callbacks: the three setters, in the source's order. */
  method Install(f: MenuForest, h: Handle, data: Payload, focus: Callback, destroy: Callback)
    requires h in f.nodes
    modifies f
    ensures f.nodes == old(f.nodes)[h := Made(old(f.nodes)[h], data, focus, destroy)]
    ensures f.next == old(f.next) && f.trace == old(f.trace)
    ensures old(f.Valid()) ==> f.Valid()
    ensures old(LinkedArena(f.nodes)) ==> LinkedArena(f.nodes)
  {
    ghost var m := f.nodes;
    f.SetUserData(h, Some(data));
    f.SetOnFocus(h, Some(focus));
    f.SetDestroyUserData(h, Some(destroy));
    assert f.nodes == m[h := Made(m[h], data, focus, destroy)];
    SameShapeKeeps(m, f.nodes, f.next);
  }

  /** `makeMenu`: a menu with the given entries, the first one selected. */
  method MakeMenu(f: MenuForest, h: Handle, title: string, entries: seq<string>)
    requires h in f.nodes
    modifies f
    ensures f.nodes == old(f.nodes)[h := Made(old(f.nodes)[h], MenuData(title, entries, 0), OnMenuFocus, DestroyMenu)]
    ensures f.next == old(f.next) && f.trace == old(f.trace)
    ensures old(f.Valid()) ==> f.Valid()
    ensures old(LinkedArena(f.nodes)) ==> LinkedArena(f.nodes)
    ensures CheckType(f.nodes[h].data) == MENU && WellMade(f.nodes[h])
  {
    Install(f, h, MenuData(title, entries, 0), OnMenuFocus, DestroyMenu);
  }

  /** `makeDownloadable`. */
  method MakeDownloadable(f: MenuForest, h: Handle, title: string, download: GhDownload)
    requires h in f.nodes
    modifies f
    ensures f.nodes == old(f.nodes)[h := Made(old(f.nodes)[h], DownloadableData(title, download), OnDownloadableFocus, DestroyDownloadable)]
    ensures f.next == old(f.next) && f.trace == old(f.trace)
    ensures old(f.Valid()) ==> f.Valid()
    ensures old(LinkedArena(f.nodes)) ==> LinkedArena(f.nodes)
    ensures CheckType(f.nodes[h].data) == DOWNLOADABLE && WellMade(f.nodes[h])
  {
    Install(f, h, DownloadableData(title, download), OnDownloadableFocus, DestroyDownloadable);
  }

  /** `makeEmpty`: a placeholder showing a message. */
  method MakeEmpty(f: MenuForest, h: Handle, title: string, message: string)
    requires h in f.nodes
    modifies f
    ensures f.nodes == old(f.nodes)[h := Made(old(f.nodes)[h], EmptyData(title, message), OnEmptyFocus, DestroyEmpty)]
    ensures f.next == old(f.next) && f.trace == old(f.trace)
    ensures old(f.Valid()) ==> f.Valid()
    ensures old(LinkedArena(f.nodes)) ==> LinkedArena(f.nodes)
    ensures CheckType(f.nodes[h].data) == EMPTY && WellMade(f.nodes[h])
  {
    Install(f, h, EmptyData(title, message), OnEmptyFocus, DestroyEmpty);
  }

  /** A node whose user data is a menu record. */
  predicate IsMenu(n: MenuNode)
  {
    n.data.Some? && n.data.value.MenuData?
  }

  /**
   * The record after `menuSelect(node, n)`: the selection becomes `n` wrapped
   * into the entry range; title and entries are kept. One step past either
   * end lands on the other end.
   */
  function Select(p: Payload, n: nat): (r: Payload)
    requires p.MenuData? && |p.entries| > 0
    ensures r.MenuData? && r.title == p.title && r.entries == p.entries
    ensures r.selected < |p.entries|
    ensures n < |p.entries| ==> r.selected == n
    ensures |p.entries| <= n < 2 * |p.entries| ==> r.selected == n - |p.entries|
    ensures n == (n / |p.entries|) * |p.entries| + r.selected
  {
    p.(selected := n % |p.entries|)
  }

  /** `menuSelect`. The source divides by the entry count, so there must be an entry. */
  method MenuSelect(f: MenuForest, h: Handle, n: nat)
    requires h in f.nodes && IsMenu(f.nodes[h]) && |f.nodes[h].data.value.entries| > 0
    modifies f
    ensures f.nodes == old(f.nodes)[h := old(f.nodes)[h].(data := Some(Select(old(f.nodes)[h].data.value, n)))]
    ensures f.next == old(f.next) && f.trace == old(f.trace)
    ensures old(f.Valid()) ==> f.Valid()
    ensures old(LinkedArena(f.nodes)) ==> LinkedArena(f.nodes)
    ensures WellMade(old(f.nodes)[h]) ==> WellMade(f.nodes[h])
  {
    var menu := f.GetUserData(h).value;
    f.SetUserData(h, Some(menu.(selected := n % |menu.entries|)));
  }

  /** `menuGetSelected`: on a node as `make*` left it, an entry index, or 0 for a menu without entries. */
  function MenuGetSelected(f: MenuForest, h: Handle): (r: nat)
    reads f
    requires h in f.nodes && IsMenu(f.nodes[h])
    ensures WellMade(f.nodes[h]) ==> r < MenuGetEntryCount(f, h) || r == 0
  {
    f.nodes[h].data.value.selected
  }

  /** `menuGetEntryCount`. */
  function MenuGetEntryCount(f: MenuForest, h: Handle): nat
    reads f
    requires h in f.nodes && IsMenu(f.nodes[h])
  {
    |f.nodes[h].data.value.entries|
  }

  /* ---- What the focus callbacks write ---- */

  datatype Line =
    | Title(text: string)
    | Entry(text: string, highlighted: bool)
    | Text(text: string)

  /** The screen of a menu: its title, then one line per entry with the selected one highlighted. */
  function MenuScreen(p: Payload): (screen: seq<Line>)
    requires p.MenuData?
    ensures |screen| == |p.entries| + 1
  {
    [Title(p.title)] + seq(|p.entries|, i requires 0 <= i < |p.entries| => Entry(p.entries[i], i == p.selected))
  }

  /**
   * A menu's screen lists its entries in order after the title, and at most
   * one is highlighted: the selected one, exactly when it is an entry.
   */
  lemma MenuScreenHighlight(p: Payload)
    requires p.MenuData?
    ensures var screen := MenuScreen(p);
      && screen[0] == Title(p.title)
      && (forall j | 1 <= j < |screen| :: screen[j] == Entry(p.entries[j - 1], j - 1 == p.selected))
      && (p.selected < |p.entries| <==> exists j | 1 <= j < |screen| :: screen[j] == Entry(p.entries[j - 1], true))
  {
    var screen := MenuScreen(p);
    if p.selected < |p.entries| {
      assert screen[p.selected + 1].highlighted;
    }
  }

  /** `menuFocus`. */
  method MenuFocus(p: Payload) returns (screen: seq<Line>)
    requires p.MenuData?
    ensures screen == MenuScreen(p)
  {
    screen := [Title(p.title)];
    var childCount := |p.entries|;
    if childCount > 0 {
      var i := 0;
      while i < childCount
        invariant i <= childCount
        invariant |screen| == i + 1 && screen[0] == Title(p.title)
        invariant forall j | 0 <= j < i :: screen[j + 1] == Entry(p.entries[j], j == p.selected)
      {
        screen := screen + [Entry(p.entries[i], p.selected == i)];
        i := i + 1;
      }
    }
  }

  /** `downloadableFocus` writes nothing. */
  function DownloadableScreen(p: Payload): (screen: seq<Line>)
    requires p.DownloadableData?
    ensures screen == []
  {
    []
  }

  /** `emptyFocus`: the title, then the message. */
  function EmptyScreen(p: Payload): (screen: seq<Line>)
    requires p.EmptyData?
    ensures |screen| == 2 && screen[0].Title? && screen[1].Text?
    ensures screen[0].text == p.title && screen[1].text == p.message
  {
    [Title(p.title), Text(p.message)]
  }

  /** A focus callback applied to a payload of the kind it expects. */
  predicate Fits(cb: Callback, p: Payload)
  {
    match cb
    case OnMenuFocus => p.MenuData?
    case OnDownloadableFocus => p.DownloadableData?
    case OnEmptyFocus => p.EmptyData?
    case _ => false
  }

  /** What running focus callback `cb` on a node with payload `p` writes. */
  function FocusScreen(cb: Callback, p: Payload): (screen: seq<Line>)
    requires Fits(cb, p)
    ensures cb == OnMenuFocus ==> |screen| == |p.entries| + 1
  {
    match cb
    case OnMenuFocus => MenuScreen(p)
    case OnDownloadableFocus => DownloadableScreen(p)
    case OnEmptyFocus => EmptyScreen(p)
  }

  /** On a node as `make*` left it, the installed focus callback fits the payload, and the screen always starts with the payload's title unless it is a downloadable. */
  lemma WellMadeFits(n: MenuNode)
    requires WellMade(n)
    ensures n.onFocus.Some? && Fits(n.onFocus.value, n.data.value)
    ensures n.data.value.DownloadableData? <==> FocusScreen(n.onFocus.value, n.data.value) == []
    ensures !n.data.value.DownloadableData? ==>
      FocusScreen(n.onFocus.value, n.data.value)[0] == Title(n.data.value.title)
  {
  }

  /** `TreeNode::Focus` calling the installed callback on its node: the dispatch to the three focus functions. */
  method RunFocus(cb: Callback, p: Payload) returns (screen: seq<Line>)
    requires Fits(cb, p)
    ensures screen == FocusScreen(cb, p)
  {
    match cb
    case OnMenuFocus =>
      screen := MenuFocus(p);
    case OnDownloadableFocus =>
      screen := [];
    case OnEmptyFocus =>
      screen := [Title(p.title), Text(p.message)];
  }

  /**
   * `menuSelect` as written, for a menu that may have no entries: `None`
   * stands for the division by zero that `selected % entries.size()` then
   * performs.
   */
  function MenuSelectAsWritten(p: Payload, n: nat): (r: Option<Payload>)
    requires p.MenuData?
    ensures r.None? <==> |p.entries| == 0
    ensures r.Some? ==> r.value == Select(p, n)
  {
    if |p.entries| == 0 then None else Some(Select(p, n))
  }
}
