# HDR-Installer core in Dafny

A verified model of the HDR-Installer homebrew application for the Nintendo Switch. The application authenticates against GitHub, finds which of the three HDR build repositories (release, beta, developer) the user may read, and builds a tree of console menus from their releases. The user moves through that tree with the controller. The model covers four parts:

- **`tree_node.dfy`, module `TreeNode`**: the navigation tree of `inc/tree_node.hpp`.
  - The tree is an arena class `Forest`. Nodes are integer handles, each with a parent, an ordered child list, a payload and two callbacks.
  - `NodeViewer` is the cursor over the tree.
  - The destructor is specified by the pure functions `Teardown` and `TeardownAll`. It is proved to free exactly the subtree and to keep the forest well formed. It runs the destroy callbacks post-order, once each.
- **`menu.dfy`, module `Menu`**: the payload records of `src/menu.cpp`.
  - A closed `Payload` datatype, plus a `Raw` word for foreign memory, covers what `checkType` reads.
  - `make*` install a payload and its callbacks; `menuSelect` wraps the selection.
  - The focus callbacks return the lines they write.
- **`github.dfy`, module `GitHub`**: the GitHub REST API v3 client of `src/utils.cpp`.
  - It covers the permission bit algebra, `userHasPermissions`, the header and URL strings, the filtering of `getReleases` and `getReleaseInfos`, and the asset loop of `downloadRelease`.
  - The HTTP server, `json::parse`, the zip extractor and the file system are parameters.
  - Each algorithm with a loop is a method, proved equal to a specification function whose properties are proved separately.
- **`installer.dfy`, module `Installer`**: start-up and the main loop of `src/main.cpp`.
  - Start-up: the role lookups, then the root menu and its category children, built in lockstep.
  - `Frame` is one turn of the main loop on the objects. It is proved equal to the pure step function `Step`.
  - `Loop` runs `Step` over a sequence of button masks.

`keys.dfy` holds the libnx button masks. `wrappers.dfy` holds `Option`.

Verify with `dafny verify --resource-limit 2000000 --verification-time-limit 0 *.dfy`.

## Model

| member | source | states |
|---|---|---|
| TreeNode.IndexOf | inc/tree_node.hpp:17-18 | the index the child loops stop at is the first occurrence of the child, or the list length when it is absent |
| TreeNode.RemoveFirst | inc/tree_node.hpp:16-24 | erasing the first match removes exactly one copy of the child (multiset difference); an absent child changes nothing; a duplicate-free list stays duplicate-free and loses the child |
| TreeNode.RemoveFirstKeepsOrder | inc/tree_node.hpp:51-59 | the other children keep their relative order: entries before the match stay in place, later ones move one step earlier |
| TreeNode.Unlink | inc/tree_node.hpp:16-24 | `HalfRemoveChild` touches only the parent's list and the child's parent pointer; it clears that pointer and erases the entry exactly when the parent lists the child |
| TreeNode.Detach | inc/tree_node.hpp:29-31 | the first step of the destructor keeps the set of live nodes |
| TreeNode.Teardown | inc/tree_node.hpp:29-39 | deleting a node frees it and frees nothing that was not live |
| TreeNode.TeardownAll | inc/tree_node.hpp:32-35 | the destructor's child loop only frees nodes |
| TreeNode.DestroyCall | inc/tree_node.hpp:36-37 | the destructor invokes the destroy callback at most once, exactly when one is set, on the node's own payload |
| TreeNode.TeardownFrame | inc/tree_node.hpp:29-39 | every node that survives a delete keeps its record as the detach step left it |
| TreeNode.TeardownAllFrame | inc/tree_node.hpp:32-35 | every node that survives the child loop keeps its record |
| TreeNode.DetachValid | inc/tree_node.hpp:29-31 | after the detach step and freeing the node, the forest is well formed and no live node lists any of its children |
| TreeNode.TeardownValid | inc/tree_node.hpp:29-39 | deleting any node of a well-formed forest leaves a well-formed forest |
| TreeNode.TeardownAllValid | inc/tree_node.hpp:32-35 | the child loop keeps the forest well formed when nobody lists the children |
| TreeNode.TeardownSubtree | inc/tree_node.hpp:29-39 | deleting `h` frees exactly `h`'s subtree: `h`, every child of a freed node, and only nodes with a freed parent |
| TreeNode.TeardownAllSubtree | inc/tree_node.hpp:32-35 | the child loop frees every listed child and a set closed under children |
| TreeNode.TeardownEvents | inc/tree_node.hpp:29-39 | deleting `h` runs the destroy callbacks of exactly the freed nodes that have one, once each, on their own payloads, each child's before its parent's |
| TreeNode.TeardownAllEvents | inc/tree_node.hpp:32-37 | the child loop runs the callbacks in that same post-order |
| TreeNode.TeardownLinked | inc/tree_node.hpp:29-39 | deleting a node of a forest without orphans leaves a forest without orphans |
| TreeNode.TeardownKeepsShape | inc/tree_node.hpp:29-39 | deleting keeps both well-formedness and the absence of orphans |
| TreeNode.RemoveChildIsDelete | inc/tree_node.hpp:51-59 | `RemoveChild(TreeNode*)` on a listed child has exactly the effect of deleting that child |
| TreeNode.RemoveChildValid | inc/tree_node.hpp:51-59 | `RemoveChild(TreeNode*)` keeps the forest well formed |
| TreeNode.SpawnValid | inc/tree_node.hpp:46-50 | appending a fresh child keeps the forest well formed |
| TreeNode.SpawnLinked | inc/tree_node.hpp:46-50 | appending a fresh child creates no orphan |
| TreeNode.EraseChild | inc/tree_node.hpp:60-64 | `RemoveChild(size_t)` frees nothing |
| TreeNode.EraseChildOrphans | inc/tree_node.hpp:60-64 | erasing by index keeps the forest well formed, but the erased child stays live, still names the parent, and is listed by nobody: an orphan |
| TreeNode.Shifted | inc/tree_node.hpp:84-95 | `ShiftFocus(TreeNode*)` moves only to the parent or to a child, always moves when the target is one of them, and otherwise stays |
| TreeNode.SizeT | inc/tree_node.hpp:100 | the `size_t` value of an `int`: non-negative values are kept, negative ones become at least 2^63 |
| TreeNode.ShiftedIndex | inc/tree_node.hpp:96-102 | `ShiftFocus(int)`: -1 goes to the parent (or stays at the root), an index below the child count goes to that child, and anything else stays |
| TreeNode.ShiftedLive | inc/tree_node.hpp:84-95 | the cursor never leaves the live nodes |
| TreeNode.ShiftedIndexLive | inc/tree_node.hpp:96-102 | the same for `ShiftFocus(int)` |
| TreeNode.Forest.New | inc/tree_node.hpp:27-28 | a constructor yields a fresh handle with the given parent and payload, no children and no callbacks; a root keeps the forest free of orphans |
| TreeNode.Forest.SpawnChild | inc/tree_node.hpp:46-50 | exactly one fresh node is appended at the end of the list; it names `p` as parent, has no children and holds the payload; nothing else changes |
| TreeNode.Forest.HalfRemoveChild | inc/tree_node.hpp:16-24 | the index loop computes `Unlink` |
| TreeNode.Forest.Delete | inc/tree_node.hpp:29-39 | the destructor leaves the arena `Teardown` gives and appends its callback events to the trace |
| TreeNode.Forest.DeleteChildren | inc/tree_node.hpp:32-35 | the child loop computes `TeardownAll` |
| TreeNode.Forest.RemoveChild | inc/tree_node.hpp:51-59 | a listed child is unlinked, then deleted with its subtree; a child that is not listed changes nothing; validity is kept |
| TreeNode.Forest.RemoveChildAt | inc/tree_node.hpp:60-64 | an out-of-range index changes nothing; otherwise only the list entry is erased |
| TreeNode.Forest.GetChild | inc/tree_node.hpp:67-71 | null exactly when the index is past the end; otherwise the entry at `index`, a live child that names `p` as parent |
| TreeNode.Forest.GetParent | inc/tree_node.hpp:72 | the parent has a smaller handle and, without orphans, is live and lists the node |
| TreeNode.Forest.SetUserData | inc/tree_node.hpp:41 | replaces the payload and nothing else |
| TreeNode.Forest.SetOnFocus | inc/tree_node.hpp:74 | replaces the focus callback and nothing else |
| TreeNode.Forest.SetDestroyUserData | inc/tree_node.hpp:44 | replaces the destroy callback and nothing else |
| TreeNode.Forest.Focus | inc/tree_node.hpp:75 | the focus callback runs on its own node only if one is set; no node changes |
| TreeNode.NodeViewer.constructor | inc/tree_node.hpp:83 | the cursor starts on the given node |
| TreeNode.NodeViewer.ShiftFocus | inc/tree_node.hpp:84-95 | the cursor ends where `Shifted` says; the result is true exactly when the cursor is on the target (so true on the current node itself, false on null) |
| TreeNode.NodeViewer.ShiftFocusIndex | inc/tree_node.hpp:96-102 | the cursor ends where `ShiftedIndex` says; the result is true exactly for -1 below a parent or an index below the child count |
| TreeNode.NodeViewer.Focus | inc/tree_node.hpp:104-106 | focuses the node under the cursor |
| Menu.CheckType | src/menu.cpp:3-22 | null is UNKNOWN; 0x1234, 0xDEAD and 0xBEEF are MENU, DOWNLOADABLE and EMPTY; every other word is UNKNOWN, each as an if-and-only-if |
| Menu.CheckTypeRecognises | src/menu.cpp:3-22 | each record kind is recognised as itself; foreign memory is classified by its first word alone |
| Menu.Install | src/menu.cpp:86-88 | the three setters leave the payload and both callbacks set, the node's place in the tree untouched, and validity and the absence of orphans kept |
| Menu.MakeMenu | src/menu.cpp:80-89 | a menu record with the given title and entries and selection 0, with `menuFocus` and `_destroyMenu`; `checkType` is MENU; children untouched |
| Menu.MakeDownloadable | src/menu.cpp:91-99 | a downloadable record with its own callbacks; `checkType` is DOWNLOADABLE |
| Menu.MakeEmpty | src/menu.cpp:101-109 | an empty record with title and message and its own callbacks; `checkType` is EMPTY |
| Menu.Select | src/menu.cpp:111-114 | with k > 0 entries the new selection is n mod k: below k, and n is a whole multiple of k plus it; title and entries are kept |
| Menu.MenuSelect | src/menu.cpp:111-114 | writes `Select`'s record into the node and changes nothing else; well-made nodes stay well made |
| Menu.MenuGetSelected | src/menu.cpp:116-119 | on a node `makeMenu` built, the selection is an entry index, or 0 when there are none |
| Menu.MenuScreen | src/menu.cpp:35-48 | a menu's screen has one line per entry plus the title |
| Menu.MenuScreenHighlight | src/menu.cpp:35-48 | the title, then every entry in order; only the selected entry is highlighted, and one is highlighted exactly when the selection is in range |
| Menu.MenuFocus | src/menu.cpp:35-48 | the output loop writes `MenuScreen` |
| Menu.DownloadableScreen | src/menu.cpp:60-62 | `downloadableFocus` writes nothing |
| Menu.EmptyScreen | src/menu.cpp:74-78 | `emptyFocus` writes the title, then the message |
| Menu.WellMadeFits | src/menu.cpp:80-109 | on a node `make*` built, the focus callback fits the payload, and its screen starts with the title except for a downloadable, which writes nothing |
| Menu.RunFocus | src/menu.cpp:35-78 | running the installed callback writes the screen of its kind |
| Menu.MenuSelectAsWritten | src/menu.cpp:111-114 | `menuSelect` as written fails (division by zero) exactly on a menu without entries |
| GitHub.Complement | src/utils.cpp:114-116 | `~` stays within the three bits and is the exact complement there |
| GitHub.ComplementOfPull | src/utils.cpp:114-116 | `~PULL == ADMIN \| PUSH` |
| GitHub.ComplementInvolutive | src/utils.cpp:114-116 | on three-bit values `~~a == a` |
| GitHub.AuthHeader | src/utils.cpp:37-41 | the header is the prefix "Authorization: token " then the token, which can be read back from it |
| GitHub.Headers | src/utils.cpp:140-141 | an API request carries the authorization header exactly when there is a token |
| GitHub.Endpoints | src/utils.cpp:144 | the repository, release-list and tag URLs extend each other, and a tag URL determines its tag |
| GitHub.Granted | src/utils.cpp:162-166 | the granted mask has one bit per true boolean and no other bit |
| GitHub.Permitted | src/utils.cpp:133-171 | without a token, a request for any bit but PULL fails before any request; a repository that is not found fails; without a token the answer is yes exactly when no bit but PULL is asked for and the repository is found |
| GitHub.UserHasPermissions | src/utils.cpp:133-171 | the `\|=` accumulation computes `Permitted` |
| GitHub.PermittedNothing | src/utils.cpp:156-167 | asking for NONE succeeds exactly when the repository is found |
| GitHub.PermittedMonotone | src/utils.cpp:167 | asking for fewer bits never turns a yes into a no |
| GitHub.PermittedIgnoresTransport | src/utils.cpp:147-157 | the transfer result code is never consulted: only the body decides |
| GitHub.PermittedWithToken | src/utils.cpp:162-167 | with a token and a found repository, the answer is that every required bit has a true boolean |
| GitHub.HasRole | src/utils.cpp:174-184 | `isEndUser`, `isBetaTester` and `isDeveloper` check PULL on their repository |
| GitHub.ReleasesOf | src/utils.cpp:215-220 | the loop keeps at most one release per array entry |
| GitHub.ReleasesOfAppend | src/utils.cpp:215-220 | the loop works entry by entry, in array order |
| GitHub.ReleasesOfComplete | src/utils.cpp:215-220 | when every entry is complete, there is one release per entry, in order |
| GitHub.ReleasesOfSkips | src/utils.cpp:217-218 | an entry missing `name`, `tag_name` or `body` contributes nothing |
| GitHub.Releases | src/utils.cpp:186-224 | empty on a failed PULL check, a failed transfer, an unparsable body or a body that is not an array; otherwise no longer than the array |
| GitHub.GetReleases | src/utils.cpp:186-224 | the `push_back` loop computes `Releases` |
| GitHub.ReleaseInfos | src/utils.cpp:227-285 | empty on a permission, transfer, parse or missing-`assets` failure; otherwise exactly one record per asset, in order |
| GitHub.PublicReleaseInfos | src/utils.cpp:237-243 | without a token the tag lookup of a found repository still goes ahead, without headers, and returns one record per asset |
| GitHub.GetReleaseInfos | src/utils.cpp:227-285 | the `push_back` loop computes `ReleaseInfos` |
| GitHub.DownloadProgress | src/utils.cpp:76-92 | the callback returns 1 (abort) exactly when B is pressed, and 0 otherwise |
| GitHub.CompletedIff | src/utils.cpp:314-325 | a transfer completes exactly when it connects and B is down at none of its progress callbacks |
| GitHub.NoAbortIff | src/utils.cpp:84-91 | no callback aborts exactly when B is down at none of them |
| GitHub.FileNameIsLastSegment | src/utils.cpp:308 | the staging name is the URL's last segment: a suffix without `/`, after a `/` unless it is the whole URL |
| GitHub.RenameMoves | src/utils.cpp:341-344 | `rename` moves the contents, removes the old name and leaves every other file alone |
| GitHub.PlaceEffect | src/utils.cpp:306-344 | the staging file is the root plus the URL's file name; a zip is unpacked and its staging file removed; any other asset ends up under its own name with the downloaded bytes, its staging file gone, other files kept |
| GitHub.InstallFrom | src/utils.cpp:304-346 | the asset loop ends in SUCCESS or DOWNLOAD_FAILED and never starts more transfers than there are assets |
| GitHub.InstallSucceedsIff | src/utils.cpp:304-346 | the loop succeeds exactly when every transfer completes, whatever extraction or renaming did, and then every asset was attempted |
| GitHub.InstallStopsAtFirstFailure | src/utils.cpp:325-330 | at the first failing transfer the loop returns DOWNLOAD_FAILED, has started no later transfer, and has removed that asset's staging file; there is no rollback: every earlier asset stays placed, and the file system is exactly what the earlier placements left, less that staging file |
| GitHub.DownloadHeaders | src/utils.cpp:300-302 | an asset request carries the optional authorization header, then the octet-stream accept header |
| GitHub.Download | src/utils.cpp:287-350 | never ACCESS_DENIED; CURL_ERROR with nothing touched when the PULL check fails; DOES_NOT_EXIST before any transfer when no asset resolves |
| GitHub.InstallAssets | src/utils.cpp:304-346 | the `for` loop computes `InstallFrom`, sending one request per asset attempted, in order |
| GitHub.DownloadRelease | src/utils.cpp:287-350 | computes `Download`; request `j` fetches asset `j`'s URL with the download headers |
| Installer.LookUpUser | src/main.cpp:26-29 | the three role flags are the PULL checks on the three repositories |
| Installer.Categories | src/main.cpp:31-69 | the granted categories, each exactly when its flag is set, with no repeats, in strictly increasing block order: end-user, then beta, then developer |
| Installer.Labels | src/main.cpp:30-58 | entry `i` of the root menu is category `i`'s label |
| Installer.ReleaseNames | src/main.cpp:37-40 | the names loop gives release `i`'s name at index `i` |
| Installer.MakeChild | src/main.cpp:34-41 | a category child is made a placeholder without releases and a menu of release names otherwise; nothing else changes |
| Installer.SpawnCategory | src/main.cpp:33-42 | one block adds exactly one fresh child at the end of the root's list, made as `ChildNode` says |
| Installer.AddCategory | src/main.cpp:31-43 | one block pushes one label and one child, in lockstep |
| Installer.BuiltGrows | src/main.cpp:31-69 | each block keeps the lockstep shape: root children and entries both grow by one, for the same category |
| Installer.ChildNodeWellMade | src/main.cpp:34-41 | every category child is well made, names the root as parent and has no children |
| Installer.ChildNodeContents | src/main.cpp:34-41 | a category without releases becomes a placeholder with its title and message; otherwise a menu at selection 0 whose entry `i` is release `i`'s name |
| Installer.MaybeAddCategory | src/main.cpp:31-69 | an `if` block adds its category exactly when the flag is set |
| Installer.BuildTree | src/main.cpp:30-70 | the construction leaves the started tree: the root menu of labels and one category child per label |
| Installer.MakeRoot | src/main.cpp:70 | the root becomes a menu of the labels |
| Installer.StartedShape | src/main.cpp:30-70 | after start-up every node is well made, and root entry `i` labels child `i` of the granted category `i` |
| Installer.NoRolesEmptyRoot | src/main.cpp:70 | a user granted nothing gets a root menu without entries and without children |
| Installer.Startup | src/main.cpp:22-70 | start-up yields a fresh forest and a viewer on the root, the role flags, the started tree and no callback run yet |
| Installer.Int32Of | src/main.cpp:82 | `size_t` to `int` keeps values below 2^31 and is congruent modulo 2^32 |
| Installer.UpTarget | src/main.cpp:84-86 | UP asks for the entry before the selection, and for the last entry from the first |
| Installer.ReselectKeeps | src/main.cpp:86-88 | changing a selection keeps the tree's shape and every node well made, and lands on an entry |
| Installer.ArrowTarget | src/main.cpp:83-88 | a new selection is asked for only on a menu with entries |
| Installer.Arrows | src/main.cpp:83-88 | UP and DOWN keep the shape and every node well made, and do nothing on a menu without entries |
| Installer.MenuKeys | src/main.cpp:78-89 | the menu block acts only on a menu, keeps the shape, and leaves the viewer on a live node |
| Installer.Step | src/main.cpp:72-91 | one turn keeps the tree's shape and every node well made, leaves the viewer on a live node, quits exactly when PLUS is pressed, and otherwise shows the screen of the node under the viewer |
| Installer.StepBack | src/main.cpp:76-77 | B without A moves to the parent, and stays put at the root |
| Installer.StepEnter | src/main.cpp:81-82 | A without B on a menu enters the child at the selected index, or stays when there is none; no node changes |
| Installer.StepBackThenEnter | src/main.cpp:74-82 | B with A first moves to the parent, then applies the old node's selection as an index into the parent's children |
| Installer.StepArrows | src/main.cpp:83-88 | without A or B, a turn on a menu keeps the viewer and changes only that menu's selection |
| Installer.ArrowsWrap | src/main.cpp:83-88 | UP selects `selected-1`, or `size-1` from 0; DOWN selects `selected+1`, or 0 from the last entry |
| Installer.StepOffMenu | src/main.cpp:78 | on a node that is not a menu, nothing but B moves the viewer, and no node changes |
| Installer.EmptyMenuIgnoresArrows | src/main.cpp:83-88 | on a menu without entries, UP and DOWN change nothing |
| Installer.StartEntersFirstCategory | src/main.cpp:31-82 | right after start-up, A on the root enters the child of the first granted category |
| Installer.LeafStays | src/main.cpp:81-82 | A on a node without children leaves the viewer where it is |
| Installer.CategoryIsLeaf | src/main.cpp:34-41 | category nodes have no children, so A on one leaves the viewer there |
| Installer.UpAsWritten | src/main.cpp:84-86 | the source's UP fails exactly on a menu without entries |
| Installer.DownAsWritten | src/main.cpp:88 | the source's DOWN fails exactly on a menu without entries |
| Installer.NoRolesArrowsDivideByZero | src/main.cpp:83-88 | for a user granted nothing, the source's UP and DOWN on the root divide by zero |
| Installer.ArrowsAgreeAsWritten | src/main.cpp:83-88 | on every menu with entries, the model selects what the source selects |
| Installer.FirstPlus | src/main.cpp:90 | the number of turns before the first PLUS: PLUS is pressed at none of them, and at the next if there is one |
| Installer.Loop | src/main.cpp:71-93 | any run of turns keeps the shape and every node well made, and shows one screen per turn before the first PLUS |
| Installer.ArrowKeys | src/main.cpp:83-88 | the UP and DOWN branches compute `Arrows` |
| Installer.MenuInput | src/main.cpp:78-89 | the menu block computes `MenuKeys` on the node read before B moved the viewer |
| Installer.Frame | src/main.cpp:72-91 | one turn computes `Step`; it runs the focus callback of the node under the viewer exactly when PLUS is not pressed, and keeps the viewer valid and the tree good |

## Left out

- Console and controller I/O are not modelled. This covers `consoleClear`, `consoleUpdate`, the colour macros, `pauseForText` and its messages, `hidScanInput` and `hidKeysDown`. Buttons are a `bv64` parameter. A focus callback returns the lines it would write, with the highlight colour as a flag.
- The button mask values come from libnx. That header is not part of this model, so `keys.dfy` carries libnx's values.
- CURL is not modelled: transport, `curl_easy_init` failure, the user agent, SSL, redirect and progress options. A `Server` function stands for the responses, so it answers the same request the same way every time. In particular, the PULL check that `getReleaseInfos` repeats (src/utils.cpp:229) always agrees with the one `downloadRelease` has just made (src/utils.cpp:289); the model reaches the same DOES_NOT_EXIST outcome through a failed tag lookup instead. A `Transfer` per asset stands for each download's outcome.
- `json::parse` is not modelled. A response holds the parsed `Json`, or `None` when parsing throws. Iterating `items()` over a value that is not an array is not modelled: the model reads `assets` as an array.
- The parts of `nlohmann::json` that throw are not modelled: `get<bool>` and `get<std::string>` on missing or mistyped fields (src/utils.cpp:164-166, 219, 273-275).
  - The callers' preconditions exclude these cases: `PermissionsReadable`, `ReleasesReadable`, `InfosReadable` and `DownloadReadable`. The source assumes the same.
  - `perms_list[...]` on a body without `permissions` is excluded the same way.
- `elz::extractZip` and `std::filesystem` are not modelled. Extraction is an `Extractor` parameter. The file system is a map from path to bytes.
- `fopen` failure is not modelled: opening a staging file just creates it, empty.
- The float percentage in `download_progress` is not modelled. It is only displayed. The model keeps only the abort decision.
- `loadOauthToken` and `destroyOauthToken` are file I/O. The token is a parameter of `Startup`.
- `prep` only creates directories, and `jsonWriteCallback` only copies a buffer. Neither is modelled.
- Commented-out code is not modelled: `print_progress`, `SaveJson`, `GetJson`, `UninstallRelease`.
- scripts/ftp_send.py is an FTP upload script and is not part of this model.
- The header files differ from the code in four places; the model follows the code:
  - `Release` in inc/utils.hpp has no `body`, but src/utils.cpp:219 fills one.
  - `makeDownloadable` takes four parameters in inc/menu.hpp:26 and three in src/menu.cpp:91.
  - `getAssetID` and `getAsset` are declared but never defined.
  - Neither inc/utils.hpp nor inc/menu.hpp declares `AssetInfos` or `SYSTEM_ROOT`, which src/utils.cpp:227 and 337 use.
- Memory is not modelled: `new` and `delete`, leaked payloads, dangling pointers. The payload belongs to its node. "Destroy callbacks run" is the events in the forest's trace.
- The destroy callback of a node is never initialised by either constructor (inc/tree_node.hpp:27-28), so a destructor that runs before `SetDestroyUserData` calls through an indeterminate pointer. The model starts it as `None`.
- A parent pointer left dangling by `RemoveChild(size_t)`, when the parent is deleted later, is treated as absent. In C++ that is undefined behaviour.
- The `Forest` class is the heap the nodes live in. Its constructor (an empty arena) has no counterpart in the source.
- `GetUserData`, `GetChildCount` and `MenuGetEntryCount` (src/menu.cpp:121-124) are plain field reads, and `NodeViewer::GetCurrent` reads `current`. They carry no contract of their own.
- Several definitions carry no `ensures` of their own and are specified by the lemma beside them:
  - `GitHub.FileName` by `FileNameIsLastSegment`; `Rename` by `RenameMoves`; `StagingPath` and `Place` by `PlaceEffect`; `PlacedUpTo` by `InstallStopsAtFirstFailure`.
  - `GitHub.NoAbort` and `Completed` by `NoAbortIff` and `CompletedIff`.
  - `GitHub.IsRelease` and `ReleaseOf` by `ReleasesOfComplete` and `ReleasesOfSkips`; `AssetInfoOf` by `ReleaseInfos`.
  - `Installer.ChildNode` by `ChildNodeWellMade` and `ChildNodeContents`.
- The `|`, `&` and `^` operators and their compound forms map to `bv32` operators directly. Only `~` (masked to three bits) has a member, `Complement`.
- `Menu.MenuSelect`: it requires at least one entry, as the source's division does. The case without entries is the finding below.
- `Installer.MakeChild`: the names loop runs after `SpawnChild` here, but before it in the source. Nothing observes the order.
- The main loop's own exit through `appletMainLoop` is modelled as the end of `Loop`'s input. The clean-up after the loop is I/O.
- `Installer.LeafStays`, `Installer.CategoryIsLeaf`, `Installer.StepEnter` and `Installer.StepBackThenEnter`: they state the move only for a selection below 2^31. From 2^31 on, the `int` conversion of `ShiftFocus(selected)` goes negative, and 2^32 - 1 becomes -1, the parent. `Installer.Int32Of` models that conversion, and `Installer.Step` follows it.

## Findings

| source | as written | input that shows it | evidently intended | confidence | as-written member | corrected member |
|---|---|---|---|---|---|---|
| src/main.cpp:83-88 with src/menu.cpp:111-114 | UP and DOWN call `menuSelect`, which computes `selected % menu->entries.size()` even for a menu without entries | a token granted none of the three repositories: the root is `makeMenu(&start, "This is a menu title", {})`, and pressing UP or DOWN at the root divides by zero | on a menu without entries, UP and DOWN do nothing | not executed | Installer.NoRolesArrowsDivideByZero | Installer.EmptyMenuIgnoresArrows |
