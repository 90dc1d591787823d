/**
 * The installer's start-up and main loop (src/main.cpp).
 *
 * Start-up asks GitHub which of the three build repositories the user may
 * read, gives the root menu one entry per granted category and one child
 * node per entry: a menu of release names, or a placeholder when the
 * category has no releases. One turn of the main loop reads the buttons
 * pressed, moves the viewer or the selection, and then either quits or
 * focuses the node under the viewer, which writes its screen.
 */
module Installer {
  import opened Wrappers
  import opened Keys
  import opened TreeNode
  import GitHub
  import opened Menu

  /* ---- Start-up ---- */

  /** The `user` record: the token and the three role answers. */
  datatype User = User(token: GitHub.Token, isEndUser: bool, isBetaTester: bool, isDeveloper: bool)

  /**
   * One block of the tree construction: the root menu's entry text, the
   * repository, and the title and message of the placeholder or the title
   * of the release menu.
   */
  datatype Category = Category(entry: string, repo: string, emptyTitle: string, emptyMessage: string, menuTitle: string)

  const RELEASE_BUILDS := Category("Install HDR", GitHub.RELEASE_REPO,
    "Install HDR", "No current release builds are avaialble.", "Install HDR")
  const BETA_BUILDS := Category("Install HDR-Beta", GitHub.BETA_REPO,
    "Install HDR-Beta", "No current beta builds are available.", "Install HDR-Beta")
  /** The developer release menu carries the beta title, as the source writes it. */
  const DEV_BUILDS := Category("Install HDR-Dev", GitHub.DEV_REPO,
    "Install HDR-Dev", "No current developer builds are available.", "Install HDR-Beta")
  const ROOT_TITLE := "This is a menu title"

  /** The lookups on one repository can be read (see `GitHub.PermissionsReadable`, `GitHub.ReleasesReadable`). */
  predicate RepoReadable(server: GitHub.Server, token: GitHub.Token, repo: string)
  {
    GitHub.PermissionsReadable(server, token, repo) &&
    GitHub.ReleasesReadable(server(GitHub.ReleasesRequest(repo, token)))
  }

  predicate Readable(server: GitHub.Server, token: GitHub.Token)
  {
    && RepoReadable(server, token, RELEASE_BUILDS.repo)
    && RepoReadable(server, token, BETA_BUILDS.repo)
    && RepoReadable(server, token, DEV_BUILDS.repo)
  }

  predicate Known(cat: Category)
  {
    cat == RELEASE_BUILDS || cat == BETA_BUILDS || cat == DEV_BUILDS
  }

  /** The three role lookups of start-up: read access to each build repository. */
  method LookUpUser(server: GitHub.Server, token: GitHub.Token) returns (user: User)
    requires Readable(server, token)
    ensures user.token == token
    ensures user.isEndUser == GitHub.Permitted(server, token, GitHub.RELEASE_REPO, GitHub.PULL)
    ensures user.isBetaTester == GitHub.Permitted(server, token, GitHub.BETA_REPO, GitHub.PULL)
    ensures user.isDeveloper == GitHub.Permitted(server, token, GitHub.DEV_REPO, GitHub.PULL)
  {
    var isEndUser := GitHub.HasRole(server, token, GitHub.RELEASE_REPO);
    var isBetaTester := GitHub.HasRole(server, token, GitHub.BETA_REPO);
    var isDeveloper := GitHub.HasRole(server, token, GitHub.DEV_REPO);
    user := User(token, isEndUser, isBetaTester, isDeveloper);
  }

  /** The position of a category's block in start-up: end-user, then beta, then developer. */
  function Rank(cat: Category): nat
  {
    if cat == RELEASE_BUILDS then 0 else if cat == BETA_BUILDS then 1 else 2
  }

  /** The categories the user is granted, in the order of the root menu. */
  function Categories(user: User): (cats: seq<Category>)
    ensures |cats| <= 3 && forall i | 0 <= i < |cats| :: Known(cats[i])
    ensures RELEASE_BUILDS in cats <==> user.isEndUser
    ensures BETA_BUILDS in cats <==> user.isBetaTester
    ensures DEV_BUILDS in cats <==> user.isDeveloper
    ensures forall i, j | 0 <= i < j < |cats| :: cats[i] != cats[j]
    ensures forall i, j | 0 <= i < j < |cats| :: Rank(cats[i]) < Rank(cats[j])
  {
    (if user.isEndUser then [RELEASE_BUILDS] else []) +
    (if user.isBetaTester then [BETA_BUILDS] else []) +
    (if user.isDeveloper then [DEV_BUILDS] else [])
  }

  function Labels(cats: seq<Category>): (labels: seq<string>)
    ensures |labels| == |cats| && forall i | 0 <= i < |cats| :: labels[i] == cats[i].entry
  {
    seq(|cats|, i requires 0 <= i < |cats| => cats[i].entry)
  }

  function CategoryReleases(server: GitHub.Server, token: GitHub.Token, cat: Category): seq<GitHub.Release>
    requires Readable(server, token) && Known(cat)
  {
    GitHub.Releases(server, token, cat.repo)
  }

  /** The names of the releases, in order: the entries of a release menu. */
  function Names(releases: seq<GitHub.Release>): seq<string>
  {
    seq(|releases|, i requires 0 <= i < |releases| => releases[i].name)
  }

  /** The `names` loop of start-up. */
  method ReleaseNames(releases: seq<GitHub.Release>) returns (names: seq<string>)
    ensures |names| == |releases|
    ensures forall i | 0 <= i < |releases| :: names[i] == releases[i].name
  {
    names := seq(|releases|, _ => "");
    var i := 0;
    while i < |releases|
      invariant i <= |releases| && |names| == |releases|
      invariant forall j | 0 <= j < i :: names[j] == releases[j].name
    {
      names := names[i := releases[i].name];
      i := i + 1;
    }
  }

  /** The child node start-up gives a category: a placeholder when there are no releases, otherwise a menu of their names. */
  function ChildNode(root: Handle, cat: Category, releases: seq<GitHub.Release>): MenuNode
  {
    var n := Fresh(Some(root), None);
    if |releases| == 0 then Made(n, EmptyData(cat.emptyTitle, cat.emptyMessage), OnEmptyFocus, DestroyEmpty)
    else Made(n, MenuData(cat.menuTitle, Names(releases), 0), OnMenuFocus, DestroyMenu)
  }

  function KidSet(kids: seq<Handle>): set<Handle>
  {
    set i | 0 <= i < |kids| :: kids[i]
  }

  /** The arena part-way through start-up: the bare root listing one child per category handled so far. */
  ghost predicate Built(m: Arena<Payload, Callback>, root: Handle, cats: seq<Category>, kids: seq<Handle>,
                        server: GitHub.Server, token: GitHub.Token)
  {
    && Readable(server, token)
    && |kids| == |cats|
    && (forall i | 0 <= i < |cats| :: Known(cats[i]))
    && m.Keys == {root} + KidSet(kids)
    && root in m && m[root] == Fresh<Payload, Callback>(None, None).(children := kids)
    && (forall i | 0 <= i < |kids| :: kids[i] != root && kids[i] in m &&
          m[kids[i]] == ChildNode(root, cats[i], CategoryReleases(server, token, cats[i])))
  }

  /** The arena after one block of start-up has given `root` the child `child` for `cat`. */
  function WithChild(m: Arena<Payload, Callback>, root: Handle, child: Handle, node: MenuNode): Arena<Payload, Callback>
    requires root in m
  {
    m[child := node][root := m[root].(children := m[root].children + [child])]
  }

  /** Making the fresh child of a category a placeholder or a menu of release names. */
  method MakeChild(f: MenuForest, root: Handle, child: Handle, cat: Category, releases: seq<GitHub.Release>)
    requires child in f.nodes && f.nodes[child] == Fresh(Some(root), None)
    modifies f
    ensures f.nodes == old(f.nodes)[child := ChildNode(root, cat, releases)]
    ensures f.next == old(f.next) && f.trace == old(f.trace)
    ensures old(f.Valid()) ==> f.Valid()
    ensures old(LinkedArena(f.nodes)) ==> LinkedArena(f.nodes)
  {
    if |releases| == 0 {
      MakeEmpty(f, child, cat.emptyTitle, cat.emptyMessage);
    } else {
      var names := ReleaseNames(releases);
      assert names == Names(releases);
      MakeMenu(f, child, cat.menuTitle, names);
    }
  }

  lemma UpdateSwap(m: Arena<Payload, Callback>, a: Handle, b: Handle, x: MenuNode, y: MenuNode, z: MenuNode)
    requires a != b
    ensures m[a := x][b := y][a := z] == m[a := z][b := y]
  {
  }

  /** A granted category's child: look up the releases, spawn a child of the root and make it. */
  method SpawnCategory(f: MenuForest, root: Handle, cat: Category, server: GitHub.Server, token: GitHub.Token)
    returns (child: Handle)
    requires f.Valid() && LinkedArena(f.nodes) && root in f.nodes && Readable(server, token) && Known(cat)
    modifies f
    ensures f.Valid() && LinkedArena(f.nodes) && f.trace == old(f.trace)
    ensures child !in old(f.nodes)
    ensures f.nodes == WithChild(old(f.nodes), root, child, ChildNode(root, cat, CategoryReleases(server, token, cat)))
  {
    var releases := GitHub.GetReleases(server, token, cat.repo);
    ghost var m := f.nodes;
    child := f.SpawnChild(root, None);
    MakeChild(f, root, child, cat, releases);
    UpdateSwap(m, child, root, Fresh(Some(root), None), m[root].(children := m[root].children + [child]),
               ChildNode(root, cat, releases));
  }

  /** One `if` block of start-up for a granted category: its entry and its child. */
  method AddCategory(f: MenuForest, root: Handle, cat: Category, server: GitHub.Server, token: GitHub.Token,
                     entries: seq<string>, kids: seq<Handle>, ghost cats: seq<Category>)
    returns (entries': seq<string>, kids': seq<Handle>)
    requires f.Valid() && LinkedArena(f.nodes) && Known(cat)
    requires Built(f.nodes, root, cats, kids, server, token) && entries == Labels(cats)
    modifies f
    ensures f.Valid() && LinkedArena(f.nodes) && f.trace == old(f.trace)
    ensures Built(f.nodes, root, cats + [cat], kids', server, token) && entries' == Labels(cats + [cat])
  {
    entries' := entries + [cat.entry];
    ghost var m := f.nodes;
    var child := SpawnCategory(f, root, cat, server, token);
    BuiltGrows(m, root, cats, kids, server, token, cat, child);
    kids' := kids + [child];
    LabelsSnoc(cats, cat);
  }

  lemma LabelsSnoc(cats: seq<Category>, cat: Category)
    ensures Labels(cats + [cat]) == Labels(cats) + [cat.entry]
  {
  }

  lemma KidSetSnoc(kids: seq<Handle>, child: Handle)
    ensures KidSet(kids + [child]) == KidSet(kids) + {child}
  {
    var kids' := kids + [child];
    assert forall i | 0 <= i < |kids| :: kids'[i] == kids[i];
    assert kids'[|kids|] == child;
  }

  /** Adding the child of one more category keeps the start-up shape. */
  lemma {:induction false} BuiltGrows(m: Arena<Payload, Callback>, root: Handle, cats: seq<Category>, kids: seq<Handle>,
                                      server: GitHub.Server, token: GitHub.Token, cat: Category, child: Handle)
    requires Built(m, root, cats, kids, server, token) && Known(cat) && child !in m
    ensures Built(WithChild(m, root, child, ChildNode(root, cat, CategoryReleases(server, token, cat))),
                  root, cats + [cat], kids + [child], server, token)
  {
    var node := ChildNode(root, cat, CategoryReleases(server, token, cat));
    var r := WithChild(m, root, child, node);
    var kids' := kids + [child];
    var cats' := cats + [cat];
    KidSetSnoc(kids, child);
    assert r[root] == Fresh<Payload, Callback>(None, None).(children := kids');
    forall i | 0 <= i < |kids'|
      ensures kids'[i] != root && kids'[i] in r
      ensures r[kids'[i]] == ChildNode(root, cats'[i], CategoryReleases(server, token, cats'[i]))
    {
      if i < |kids| {
        assert kids'[i] == kids[i] && cats'[i] == cats[i];
        assert kids[i] in m;
      }
    }
  }

  /** A node made by start-up is well made. */
  lemma ChildNodeWellMade(root: Handle, cat: Category, releases: seq<GitHub.Release>)
    ensures WellMade(ChildNode(root, cat, releases))
    ensures ChildNode(root, cat, releases).parent == Some(root) && ChildNode(root, cat, releases).children == []
  {
  }

  /**
   * A category without releases gets the placeholder with its title and
   * message; otherwise a menu with one entry per release, its name, at
   * selection 0.
   */
  lemma ChildNodeContents(root: Handle, cat: Category, releases: seq<GitHub.Release>)
    ensures var d := ChildNode(root, cat, releases).data;
      && d.Some?
      && (|releases| == 0 <==> d.value.EmptyData?)
      && (|releases| == 0 ==> d.value.title == cat.emptyTitle && d.value.message == cat.emptyMessage)
      && (|releases| > 0 ==>
            && d.value.MenuData? && d.value.title == cat.menuTitle && d.value.selected == 0
            && |d.value.entries| == |releases|
            && forall i | 0 <= i < |releases| :: d.value.entries[i] == releases[i].name)
  {
  }

  /** The arena after start-up. */
  ghost predicate Started(m: Arena<Payload, Callback>, root: Handle, kids: seq<Handle>, server: GitHub.Server, user: User)
  {
    var cats := Categories(user);
    && Readable(server, user.token)
    && |kids| == |cats|
    && m.Keys == {root} + KidSet(kids)
    && root in m
    && m[root] == Made(Fresh(None, None).(children := kids), MenuData(ROOT_TITLE, Labels(cats), 0), OnMenuFocus, DestroyMenu)
    && (forall i | 0 <= i < |kids| :: kids[i] != root && kids[i] in m &&
          m[kids[i]] == ChildNode(root, cats[i], CategoryReleases(server, user.token, cats[i])))
  }

  /** One `if` block of start-up: the category's entry and child when the user is granted it, nothing otherwise. */
  method MaybeAddCategory(f: MenuForest, root: Handle, granted: bool, cat: Category, server: GitHub.Server, token: GitHub.Token,
                          entries: seq<string>, kids: seq<Handle>, ghost cats: seq<Category>)
    returns (entries': seq<string>, kids': seq<Handle>)
    requires f.Valid() && LinkedArena(f.nodes) && Known(cat)
    requires Built(f.nodes, root, cats, kids, server, token) && entries == Labels(cats)
    modifies f
    ensures f.Valid() && LinkedArena(f.nodes) && f.trace == old(f.trace)
    ensures var cats' := cats + (if granted then [cat] else []);
      Built(f.nodes, root, cats', kids', server, token) && entries' == Labels(cats')
  {
    if granted {
      entries', kids' := AddCategory(f, root, cat, server, token, entries, kids, cats);
    } else {
      entries', kids' := entries, kids;
      assert cats + [] == cats;
    }
  }

  /**
   * The tree construction of start-up, on the bare root: one entry and one
   * child per granted category, then the root made a menu of the entries.
   */
  method BuildTree(f: MenuForest, root: Handle, server: GitHub.Server, user: User) returns (kids: seq<Handle>)
    requires f.Valid() && f.nodes == map[root := Fresh(None, None)]
    requires Readable(server, user.token)
    modifies f
    ensures f.Valid() && LinkedArena(f.nodes) && f.trace == old(f.trace)
    ensures Started(f.nodes, root, kids, server, user)
  {
    assert Built(f.nodes, root, [], [], server, user.token) by {
      assert KidSet([]) == {};
    }
    var entries: seq<string> := [];
    kids := [];
    ghost var cats1 := if user.isEndUser then [RELEASE_BUILDS] else [];
    ghost var cats2 := cats1 + (if user.isBetaTester then [BETA_BUILDS] else []);
    assert [] + cats1 == cats1;
    entries, kids := MaybeAddCategory(f, root, user.isEndUser, RELEASE_BUILDS, server, user.token, entries, kids, []);
    entries, kids := MaybeAddCategory(f, root, user.isBetaTester, BETA_BUILDS, server, user.token, entries, kids, cats1);
    entries, kids := MaybeAddCategory(f, root, user.isDeveloper, DEV_BUILDS, server, user.token, entries, kids, cats2);
    MakeRoot(f, root, kids, server, user, entries);
  }

  /** The last step of start-up: the root made a menu of the granted categories' entries. */
  method MakeRoot(f: MenuForest, root: Handle, kids: seq<Handle>, server: GitHub.Server, user: User, entries: seq<string>)
    requires f.Valid() && LinkedArena(f.nodes)
    requires Built(f.nodes, root, Categories(user), kids, server, user.token) && entries == Labels(Categories(user))
    modifies f
    ensures f.Valid() && LinkedArena(f.nodes) && f.trace == old(f.trace)
    ensures Started(f.nodes, root, kids, server, user)
  {
    BuiltStarted(f.nodes, root, kids, server, user);
    MakeMenu(f, root, ROOT_TITLE, entries);
  }

  /** Making the root a menu of the categories' entries completes start-up. */
  lemma BuiltStarted(m: Arena<Payload, Callback>, root: Handle, kids: seq<Handle>, server: GitHub.Server, user: User)
    requires Built(m, root, Categories(user), kids, server, user.token)
    ensures Started(m[root := Made(m[root], MenuData(ROOT_TITLE, Labels(Categories(user)), 0), OnMenuFocus, DestroyMenu)],
                    root, kids, server, user)
  {
  }

  /** Every node of the started tree is well made; the root's entries and children correspond one to one. */
  lemma {:induction false} StartedShape(m: Arena<Payload, Callback>, root: Handle, kids: seq<Handle>, server: GitHub.Server, user: User)
    requires Started(m, root, kids, server, user)
    ensures AllWellMade(m)
    ensures |m[root].data.value.entries| == |m[root].children| == |Categories(user)|
    ensures forall i | 0 <= i < |kids| :: m[root].data.value.entries[i] == Categories(user)[i].entry && m[root].children[i] == kids[i]
  {
    forall h | h in m
      ensures WellMade(m[h])
    {
      if h != root {
        var i :| 0 <= i < |kids| && kids[i] == h;
        var cat := Categories(user)[i];
        ChildNodeWellMade(root, cat, CategoryReleases(server, user.token, cat));
      }
    }
  }

  /** A user granted nothing gets a root menu without entries. */
  lemma NoRolesEmptyRoot(m: Arena<Payload, Callback>, root: Handle, kids: seq<Handle>, server: GitHub.Server, user: User)
    requires Started(m, root, kids, server, user)
    requires !user.isEndUser && !user.isBetaTester && !user.isDeveloper
    ensures m[root].data == Some(MenuData(ROOT_TITLE, [], 0)) && m[root].children == []
  {
  }

  /**
   * Start-up: the root node and the viewer on it, the role lookups, then the
   * tree construction. The token comes in already loaded.
   */
  method Startup(server: GitHub.Server, token: GitHub.Token)
    returns (f: MenuForest, viewer: NodeViewer<Payload, Callback>, user: User, root: Handle, kids: seq<Handle>)
    requires Readable(server, token)
    ensures fresh(f) && fresh(viewer) && viewer.tree == f && viewer.current == root
    ensures user.token == token
    ensures user.isEndUser == GitHub.Permitted(server, token, GitHub.RELEASE_REPO, GitHub.PULL)
    ensures user.isBetaTester == GitHub.Permitted(server, token, GitHub.BETA_REPO, GitHub.PULL)
    ensures user.isDeveloper == GitHub.Permitted(server, token, GitHub.DEV_REPO, GitHub.PULL)
    ensures Started(f.nodes, root, kids, server, user) && f.trace == []
    ensures viewer.Valid() && Good(f.nodes, f.next)
  {
    f := new Forest<Payload, Callback>();
    root := f.New(None, None);
    viewer := new NodeViewer(f, root);
    user := LookUpUser(server, token);
    kids := BuildTree(f, root, server, user);
    StartedShape(f.nodes, root, kids, server, user);
  }

  /* ---- One turn of the main loop ---- */

  ghost predicate AllWellMade(m: Arena<Payload, Callback>)
  {
    forall h | h in m :: WellMade(m[h])
  }

  /** What a turn ends with: leaving the loop, or the screen the focused node writes. */
  datatype Output = Quit | Show(screen: seq<Line>)

  /** The `size_t` to `int` conversion of `ShiftFocus(selected)`: the low 32 bits, as two's complement. */
  function Int32Of(n: nat): (k: int)
    ensures -0x8000_0000 <= k < 0x8000_0000
    ensures n < 0x8000_0000 ==> k == n
    ensures (k - n) % 0x1_0000_0000 == 0
  {
    var low := n % 0x1_0000_0000;
    if low < 0x8000_0000 then low else low - 0x1_0000_0000
  }

  /** The selection UP asks for: one before the current one, the last entry from the first. */
  function UpTarget(selected: nat, size: nat): (n: nat)
    requires size > 0
    ensures selected > 0 ==> n == selected - 1
    ensures selected == 0 ==> n == size - 1
  {
    (if selected == 0 then size else selected) - 1
  }

  /** The arena after `menuSelect(h, n)`. */
  function Reselect(m: Arena<Payload, Callback>, h: Handle, n: nat): (r: Arena<Payload, Callback>)
    requires h in m && IsMenu(m[h]) && |m[h].data.value.entries| > 0
  {
    m[h := m[h].(data := Some(Select(m[h].data.value, n)))]
  }

  /** What a turn keeps: a valid forest without orphans whose every node is well made. */
  ghost predicate Good(m: Arena<Payload, Callback>, next: Handle)
  {
    ValidArena(m, next) && LinkedArena(m) && AllWellMade(m)
  }

  /** Changing a menu's selection keeps the tree's shape and every node well made. */
  lemma {:induction false} ReselectKeeps(m: Arena<Payload, Callback>, next: Handle, h: Handle, n: nat)
    requires h in m && IsMenu(m[h]) && |m[h].data.value.entries| > 0 && Good(m, next)
    ensures SameShape(m, Reselect(m, h, n)) && Good(Reselect(m, h, n), next)
    ensures Reselect(m, h, n)[h].data.value.selected < |m[h].data.value.entries|
  {
    var r := Reselect(m, h, n);
    assert WellMade(m[h]);
    SameShapeKeeps(m, r, next);
    forall k | k in r
      ensures WellMade(r[k])
    {
      if k != h {
        assert r[k] == m[k];
      }
    }
  }

  /** The screen a well-made node writes when focused. */
  function Screen(n: MenuNode): seq<Line>
    requires WellMade(n)
  {
    WellMadeFits(n);
    FocusScreen(n.onFocus.value, n.data.value)
  }

  /** The selection UP or DOWN asks for on a menu with `size` entries; none without entries or without those keys. */
  function ArrowTarget(selected: nat, size: nat, keys: KeyMask): (t: Option<nat>)
    ensures t.Some? ==> size > 0
  {
    if size == 0 then None
    else if Pressed(keys, KEY_UP) then Some(UpTarget(selected, size))
    else if Pressed(keys, KEY_DOWN) then Some(selected + 1)
    else None
  }

  /** UP and DOWN on the menu node `cur`: the previous or the next entry, wrapping around; nothing on a menu without entries. */
  function Arrows(m: Arena<Payload, Callback>, next: Handle, cur: Handle, keys: KeyMask): (r: Arena<Payload, Callback>)
    requires Good(m, next) && cur in m && IsMenu(m[cur])
    ensures SameShape(m, r) && Good(r, next)
    ensures |m[cur].data.value.entries| == 0 ==> r == m
  {
    var t := ArrowTarget(m[cur].data.value.selected, |m[cur].data.value.entries|, keys);
    if t.Some? then
      ReselectKeeps(m, next, cur, t.value);
      Reselect(m, cur, t.value)
    else m
  }

  /**
   * The menu part of a turn: on a menu node `cur` (as it was before B moved
   * the viewer to `cur1`), A moves the viewer by the selected index and UP or
   * DOWN change the selection.
   */
  function MenuKeys(m: Arena<Payload, Callback>, next: Handle, cur: Handle, cur1: Handle, keys: KeyMask): (r: (Arena<Payload, Callback>, Handle))
    requires Good(m, next) && cur in m && cur1 in m
    ensures SameShape(m, r.0) && Good(r.0, next) && r.1 in m
    ensures CheckType(m[cur].data) != MENU ==> r == (m, cur1)
  {
    if CheckType(m[cur].data) != MENU then (m, cur1)
    else
      assert WellMade(m[cur]);
      if Pressed(keys, KEY_A) then
        var k := Int32Of(m[cur].data.value.selected);
        ShiftedIndexLive(m, next, cur1, k);
        (m, ShiftedIndex(m, cur1, k))
      else (Arrows(m, next, cur, keys), cur1)
  }

  /**
   * One turn of the main loop on the arena `m` with the viewer on `cur`:
   * B moves the viewer to the parent, the menu keys act, and PLUS quits;
   * otherwise the node under the viewer is focused. The tree's shape and
   * the well-formedness of every node are kept.
   */
  function Step(m: Arena<Payload, Callback>, next: Handle, cur: Handle, keys: KeyMask): (r: (Arena<Payload, Callback>, Handle, Output))
    requires Good(m, next) && cur in m
    ensures SameShape(m, r.0) && Good(r.0, next) && r.1 in r.0
    ensures r.2 == Quit <==> Pressed(keys, KEY_PLUS)
    ensures r.2.Show? ==> r.2.screen == Screen(r.0[r.1])
  {
    var cur1 := if Pressed(keys, KEY_B) then ShiftedIndex(m, cur, -1) else cur;
    var after := MenuKeys(m, next, cur, cur1, keys);
    if Pressed(keys, KEY_PLUS) then (after.0, after.1, Quit)
    else (after.0, after.1, Show(Screen(after.0[after.1])))
  }

  /* ---- What a turn does ---- */

  /** B without A moves the viewer to the parent, and stays put at the root. */
  lemma StepBack(m: Arena<Payload, Callback>, next: Handle, cur: Handle, keys: KeyMask)
    requires Good(m, next) && cur in m
    requires Pressed(keys, KEY_B) && !Pressed(keys, KEY_A)
    ensures Step(m, next, cur, keys).1 == (if m[cur].parent.Some? then m[cur].parent.value else cur)
  {
  }

  /**
   * A without B on a menu enters the child at the selected index and
   * changes nothing else; with no child there (a release menu has none) the
   * viewer stays.
   */
  lemma StepEnter(m: Arena<Payload, Callback>, next: Handle, cur: Handle, keys: KeyMask)
    requires Good(m, next) && cur in m && IsMenu(m[cur])
    requires Pressed(keys, KEY_A) && !Pressed(keys, KEY_B)
    ensures var sel := m[cur].data.value.selected;
      Step(m, next, cur, keys).0 == m &&
      (sel < 0x8000_0000 ==>
        Step(m, next, cur, keys).1 == (if sel < |m[cur].children| then m[cur].children[sel] else cur))
  {
  }

  /**
   * B and A together: the viewer first goes to the parent, then A moves it
   * by the selection of the menu it was on before, not that of the parent.
   */
  lemma StepBackThenEnter(m: Arena<Payload, Callback>, next: Handle, cur: Handle, keys: KeyMask)
    requires Good(m, next) && cur in m && IsMenu(m[cur]) && m[cur].parent.Some?
    requires Pressed(keys, KEY_A) && Pressed(keys, KEY_B)
    ensures var p := m[cur].parent.value; var sel := m[cur].data.value.selected;
      p in m &&
      (sel < 0x8000_0000 ==>
        Step(m, next, cur, keys).1 == (if sel < |m[p].children| then m[p].children[sel] else p))
  {
  }

  /** Without A or B, a turn on a menu moves the selection as `ArrowTarget` says and leaves the viewer where it is. */
  lemma StepArrows(m: Arena<Payload, Callback>, next: Handle, cur: Handle, keys: KeyMask)
    requires Good(m, next) && cur in m && IsMenu(m[cur])
    requires !Pressed(keys, KEY_A) && !Pressed(keys, KEY_B)
    ensures var p := m[cur].data.value; var t := ArrowTarget(p.selected, |p.entries|, keys);
      Step(m, next, cur, keys).1 == cur &&
      Step(m, next, cur, keys).0 == (if t.Some? then Reselect(m, cur, t.value) else m)
  {
  }

  /**
   * UP selects the previous entry and the last one from the first; DOWN
   * (without UP) the next entry and the first one from the last; other keys
   * select nothing.
   */
  lemma ArrowsWrap(p: Payload, keys: KeyMask)
    requires p.MenuData? && 0 <= p.selected < |p.entries|
    ensures var t := ArrowTarget(p.selected, |p.entries|, keys); var size := |p.entries|;
      && (Pressed(keys, KEY_UP) ==> t.Some? && Select(p, t.value).selected == (if p.selected == 0 then size - 1 else p.selected - 1))
      && (!Pressed(keys, KEY_UP) && Pressed(keys, KEY_DOWN) ==>
            t.Some? && Select(p, t.value).selected == (if p.selected + 1 == size then 0 else p.selected + 1))
      && (!Pressed(keys, KEY_UP) && !Pressed(keys, KEY_DOWN) ==> t.None?)
  {
    var size := |p.entries|;
    if Pressed(keys, KEY_UP) {
      assert UpTarget(p.selected, size) < size;
    } else if Pressed(keys, KEY_DOWN) {
      assert (p.selected + 1) % size == if p.selected + 1 == size then 0 else p.selected + 1;
    }
  }

  /** On a node that is not a menu only B moves the viewer, and nothing else changes. */
  lemma StepOffMenu(m: Arena<Payload, Callback>, next: Handle, cur: Handle, keys: KeyMask)
    requires Good(m, next) && cur in m && !IsMenu(m[cur]) && !Pressed(keys, KEY_B)
    ensures Step(m, next, cur, keys).0 == m && Step(m, next, cur, keys).1 == cur
  {
    assert WellMade(m[cur]);
  }

  /** On a menu without entries UP and DOWN change nothing (the source divides by zero here). */
  lemma EmptyMenuIgnoresArrows(m: Arena<Payload, Callback>, next: Handle, cur: Handle, keys: KeyMask)
    requires Good(m, next) && cur in m && IsMenu(m[cur]) && |m[cur].data.value.entries| == 0
    requires !Pressed(keys, KEY_A) && !Pressed(keys, KEY_B)
    ensures Step(m, next, cur, keys).0 == m && Step(m, next, cur, keys).1 == cur
  {
  }

  /** Right after start-up, A on the root enters the child of the first granted category. */
  lemma StartEntersFirstCategory(m: Arena<Payload, Callback>, next: Handle, root: Handle, kids: seq<Handle>,
                                 server: GitHub.Server, user: User, keys: KeyMask)
    requires Started(m, root, kids, server, user) && Good(m, next) && |kids| > 0
    requires Pressed(keys, KEY_A) && !Pressed(keys, KEY_B)
    ensures Step(m, next, root, keys).1 == kids[0]
    ensures m[kids[0]] == ChildNode(root, Categories(user)[0], CategoryReleases(server, user.token, Categories(user)[0]))
  {
    StepEnter(m, next, root, keys);
  }

  /**
   * A without B on a node without children leaves the viewer where it is,
   * as long as a menu's selection fits an `int` (a larger one converts to a
   * negative index, and -1 would move to the parent).
   */
  lemma LeafStays(m: Arena<Payload, Callback>, next: Handle, cur: Handle, keys: KeyMask)
    requires Good(m, next) && cur in m && m[cur].children == []
    requires IsMenu(m[cur]) ==> |m[cur].data.value.entries| <= 0x8000_0000
    requires Pressed(keys, KEY_A) && !Pressed(keys, KEY_B)
    ensures Step(m, next, cur, keys).1 == cur
  {
    if IsMenu(m[cur]) {
      assert WellMade(m[cur]);
      StepEnter(m, next, cur, keys);
    }
  }

  /** The category nodes start-up builds have no children, so A on one of them leaves the viewer where it is. */
  lemma CategoryIsLeaf(m: Arena<Payload, Callback>, next: Handle, root: Handle, kids: seq<Handle>,
                       server: GitHub.Server, user: User, i: nat, keys: KeyMask)
    requires Started(m, root, kids, server, user) && Good(m, next) && i < |kids|
    requires IsMenu(m[kids[i]]) ==> |m[kids[i]].data.value.entries| <= 0x8000_0000
    requires Pressed(keys, KEY_A) && !Pressed(keys, KEY_B)
    ensures m[kids[i]].children == []
    ensures Step(m, next, kids[i], keys).1 == kids[i]
  {
    var cat := Categories(user)[i];
    ChildNodeWellMade(root, cat, CategoryReleases(server, user.token, cat));
    LeafStays(m, next, kids[i], keys);
  }

  /** The UP branch of a turn as the source writes it; `None` where `menuSelect` divides by zero. */
  function UpAsWritten(p: Payload): (r: Option<Payload>)
    requires p.MenuData?
    ensures r.None? <==> |p.entries| == 0
  {
    var selected := if p.selected == 0 then |p.entries| else p.selected;
    var n := if selected == 0 then 0xFFFF_FFFF_FFFF_FFFF else selected - 1;
    MenuSelectAsWritten(p, n)
  }

  /** The DOWN branch of a turn as the source writes it. */
  function DownAsWritten(p: Payload): (r: Option<Payload>)
    requires p.MenuData?
    ensures r.None? <==> |p.entries| == 0
  {
    MenuSelectAsWritten(p, p.selected + 1)
  }

  /** For a user granted no category, UP or DOWN on the root menu divides by zero in the source. */
  lemma NoRolesArrowsDivideByZero(m: Arena<Payload, Callback>, root: Handle, kids: seq<Handle>, server: GitHub.Server, user: User)
    requires Started(m, root, kids, server, user)
    requires !user.isEndUser && !user.isBetaTester && !user.isDeveloper
    ensures UpAsWritten(m[root].data.value).None? && DownAsWritten(m[root].data.value).None?
  {
    NoRolesEmptyRoot(m, root, kids, server, user);
  }

  /** Wherever the source's UP and DOWN do not divide by zero, the model selects what they select. */
  lemma ArrowsAgreeAsWritten(p: Payload, keys: KeyMask)
    requires p.MenuData? && |p.entries| > 0 && (Pressed(keys, KEY_UP) || Pressed(keys, KEY_DOWN))
    ensures var t := ArrowTarget(p.selected, |p.entries|, keys);
      t.Some? && Some(Select(p, t.value)) == (if Pressed(keys, KEY_UP) then UpAsWritten(p) else DownAsWritten(p))
  {
  }

  /** `SameShape` chains. */
  lemma SameShapeTrans(a: Arena<Payload, Callback>, b: Arena<Payload, Callback>, c: Arena<Payload, Callback>)
    requires SameShape(a, b) && SameShape(b, c)
    ensures SameShape(a, c)
  {
  }

  /** The number of turns before the first one with PLUS, or all of them. */
  function FirstPlus(inputs: seq<KeyMask>): (k: nat)
    ensures k <= |inputs|
    ensures forall i | 0 <= i < k :: !Pressed(inputs[i], KEY_PLUS)
    ensures k < |inputs| ==> Pressed(inputs[k], KEY_PLUS)
  {
    if |inputs| == 0 || Pressed(inputs[0], KEY_PLUS) then 0
    else 1 + FirstPlus(inputs[1..])
  }

  /**
   * The main loop over the buttons of successive turns: it ends at the
   * first turn with PLUS, or when the input runs out. It yields the screen
   * of every turn before that.
   */
  function Loop(m: Arena<Payload, Callback>, next: Handle, cur: Handle, inputs: seq<KeyMask>)
    : (r: (Arena<Payload, Callback>, Handle, seq<seq<Line>>))
    requires Good(m, next) && cur in m
    ensures SameShape(m, r.0) && Good(r.0, next) && r.1 in r.0
    ensures |r.2| == FirstPlus(inputs)
    decreases |inputs|
  {
    if |inputs| == 0 then (m, cur, [])
    else
      var s := Step(m, next, cur, inputs[0]);
      if s.2.Quit? then (s.0, s.1, [])
      else
        var rest := Loop(s.0, next, s.1, inputs[1..]);
        SameShapeTrans(m, s.0, rest.0);
        (rest.0, rest.1, [s.2.screen] + rest.2)
  }

  /** The UP and DOWN branches of a turn. */
  method ArrowKeys(tree: MenuForest, current: Handle, keys: KeyMask)
    requires current in tree.nodes && IsMenu(tree.nodes[current]) && Good(tree.nodes, tree.next)
    modifies tree
    ensures tree.nodes == Arrows(old(tree.nodes), old(tree.next), current, keys)
    ensures tree.next == old(tree.next) && tree.trace == old(tree.trace)
  {
    ghost var m := tree.nodes;
    var size := MenuGetEntryCount(tree, current);
    var selected := MenuGetSelected(tree, current);
    ghost var t := ArrowTarget(selected, size, keys);
    if Pressed(keys, KEY_UP) {
      if size > 0 {
        if selected == 0 {
          selected := size;
        }
        MenuSelect(tree, current, selected - 1);
        assert tree.nodes == Reselect(m, current, t.value);
      }
    } else if Pressed(keys, KEY_DOWN) {
      if size > 0 {
        MenuSelect(tree, current, selected + 1);
        assert tree.nodes == Reselect(m, current, t.value);
      }
    }
  }

  /** The menu block of a turn, on the node `current` read before B was handled. */
  method MenuInput(viewer: NodeViewer<Payload, Callback>, current: Handle, keys: KeyMask)
    requires viewer.Valid() && Good(viewer.tree.nodes, viewer.tree.next) && current in viewer.tree.nodes
    modifies viewer, viewer.tree
    ensures (viewer.tree.nodes, viewer.current) ==
      MenuKeys(old(viewer.tree.nodes), old(viewer.tree.next), current, old(viewer.current), keys)
    ensures viewer.tree.next == old(viewer.tree.next) && viewer.tree.trace == old(viewer.tree.trace)
  {
    var tree := viewer.tree;
    if CheckType(tree.GetUserData(current)) == MENU {
      assert WellMade(tree.nodes[current]);
      if Pressed(keys, KEY_A) {
        var selected := MenuGetSelected(tree, current);
        var moved := viewer.ShiftFocusIndex(Int32Of(selected));
      } else {
        ArrowKeys(tree, current, keys);
      }
    }
  }

  /** One turn of the main loop, from reading the current node to focusing it. */
  method Frame(viewer: NodeViewer<Payload, Callback>, keys: KeyMask) returns (out: Output)
    requires viewer.Valid() && Good(viewer.tree.nodes, viewer.tree.next)
    modifies viewer, viewer.tree
    ensures var r := Step(old(viewer.tree.nodes), old(viewer.tree.next), old(viewer.current), keys);
      viewer.tree.nodes == r.0 && viewer.current == r.1 && out == r.2
    ensures viewer.tree.next == old(viewer.tree.next)
    ensures viewer.tree.trace == old(viewer.tree.trace) +
      (if out.Quit? then [] else [Focused(viewer.current, viewer.tree.nodes[viewer.current].onFocus.value)])
    ensures viewer.Valid() && Good(viewer.tree.nodes, viewer.tree.next)
  {
    var tree := viewer.tree;
    var current := viewer.current;
    if Pressed(keys, KEY_B) {
      var moved := viewer.ShiftFocusIndex(-1);
    }
    MenuInput(viewer, current, keys);
    if Pressed(keys, KEY_PLUS) {
      return Quit;
    }
    var callback := viewer.Focus();
    WellMadeFits(tree.nodes[viewer.current]);
    var screen := RunFocus(callback.value, tree.GetUserData(viewer.current).value);
    out := Show(screen);
  }
}
