/**
 * The GitHub REST API v3 client and release installer of src/utils.cpp.
 *
 * The network, `json::parse`, the zip extractor and the file system are
 * parameters: a `Server` answers each request with whether the CURL transfer
 * reported `CURLE_OK` and the body as parsed (`None` when `json::parse`
 * throws); a download is described by a `Transfer`; the file system is a map
 * from paths to contents; extraction is a function on that map. What is left
 * is the decision logic: which requests are made, what is kept, when the
 * loops stop and what is returned.
 */
module GitHub {
  import opened Wrappers
  import opened Keys

  /* ---- Permission bits (`GithubPermissions`) ---- */

  type Perm = bv32

  const NONE: Perm := 0x0
  const ADMIN: Perm := 0x1
  const PUSH: Perm := 0x2
  const PULL: Perm := 0x4

  /** `operator~`: the complement taken within the three permission bits. */
  function Complement(a: Perm): (r: Perm)
    ensures r & !7 == 0
    ensures r & a == 0
    ensures (r | a) & 7 == 7
  {
    !a & 7
  }

  lemma ComplementOfPull()
    ensures Complement(PULL) == ADMIN | PUSH
  {
  }

  lemma ComplementInvolutive(a: Perm)
    requires a & !7 == 0
    ensures Complement(Complement(a)) == a
  {
  }

  /* ---- Requests and responses ---- */

  /** A JSON value as `nlohmann::json` holds it. */
  datatype Json =
    | JNull
    | JBool(b: bool)
    | JNumber(n: int)
    | JString(s: string)
    | JArray(items: seq<Json>)
    | JObject(fields: map<string, Json>)

  /** `contains(key)`: only an object has keys. */
  predicate Has(j: Json, key: string)
  {
    j.JObject? && key in j.fields
  }

  /** `gh::OauthToken`: a null pointer or the token text. */
  type Token = Option<string>

  datatype Request = Request(url: string, headers: seq<string>)

  /** What `Perform` and `json::parse` leave: whether the result was `CURLE_OK`, and the parsed body (`None` if parsing throws). */
  datatype Response = Response(ok: bool, body: Option<Json>)

  type Server = Request -> Response

  const AUTH_PREFIX := "Authorization: token "
  const API_REPOS := "https://api.github.com/repos/"
  const ACCEPT_OCTET_STREAM := "Accept: application/octet-stream"
  const ZIP_CONTENT_TYPE := "application/zip"

  /** `makeAuthHeader`: the token can be read back from the header that carries it. */
  function AuthHeader(token: string): (h: string)
    ensures |h| == |AUTH_PREFIX| + |token|
    ensures h[..|AUTH_PREFIX|] == AUTH_PREFIX && h[|AUTH_PREFIX|..] == token
  {
    AUTH_PREFIX + token
  }

  /** The headers of an API request: the authorization header only when there is a token. */
  function Headers(token: Token): (hs: seq<string>)
    ensures |hs| == if token.Some? then 1 else 0
    ensures token.Some? ==> hs[0] == AuthHeader(token.value)
  {
    if token.Some? then [AuthHeader(token.value)] else []
  }

  function RepoUrl(name: string): string
  {
    API_REPOS + name
  }

  function ReleasesUrl(name: string): string
  {
    RepoUrl(name) + "/releases"
  }

  function TagUrl(name: string, tag: string): string
  {
    RepoUrl(name) + "/releases/tags/" + tag
  }

  /**
   * The three endpoints all extend the repository URL, the release list URL is
   * a prefix of every tag URL, and a tag URL determines its tag.
   */
  lemma {:induction false} Endpoints(name: string, tag: string, tag': string)
    ensures RepoUrl(name) <= ReleasesUrl(name) <= TagUrl(name, tag)
    ensures RepoUrl(name) == API_REPOS + name
    ensures TagUrl(name, tag) == TagUrl(name, tag') ==> tag == tag'
  {
    var base := RepoUrl(name) + "/releases/tags/";
    assert TagUrl(name, tag) == base + tag;
    assert TagUrl(name, tag') == base + tag';
    if TagUrl(name, tag) == TagUrl(name, tag') {
      assert tag == (base + tag)[|base|..];
      assert tag' == (base + tag')[|base|..];
    }
    assert ReleasesUrl(name) <= TagUrl(name, tag) by {
      assert TagUrl(name, tag) == ReleasesUrl(name) + ("/tags/" + tag);
    }
  }

  /* ---- `userHasPermissions` ---- */

  function RepoRequest(name: string, token: Token): Request
  {
    Request(RepoUrl(name), Headers(token))
  }

  /** A bad response has no `full_name`: the parse succeeded, gave an object, and it has that key. */
  predicate RepoFound(body: Option<Json>)
  {
    body.Some? && Has(body.value, "full_name")
  }

  /** `perms_list[key].get<bool>()` does not throw. */
  predicate BoolField(j: Json, key: string)
  {
    Has(j, key) && j.fields[key].JBool?
  }

  /** The `permissions` object holds the three booleans. */
  predicate PermsReadable(body: Json)
  {
    Has(body, "permissions") &&
    var p := body.fields["permissions"];
    BoolField(p, "admin") && BoolField(p, "push") && BoolField(p, "pull")
  }

  /** The caller's side of `userHasPermissions`: whenever it reads the three booleans, they are there. */
  predicate PermissionsReadable(server: Server, token: Token, name: string)
  {
    var resp := server(RepoRequest(name, token));
    token.Some? && RepoFound(resp.body) ==> PermsReadable(resp.body.value)
  }

  /** The permissions the booleans grant: one bit per `true`. */
  function Granted(perms: Json): (g: Perm)
    requires BoolField(perms, "admin") && BoolField(perms, "push") && BoolField(perms, "pull")
    ensures g & !7 == 0
    ensures g & ADMIN != 0 <==> perms.fields["admin"].b
    ensures g & PUSH != 0 <==> perms.fields["push"].b
    ensures g & PULL != 0 <==> perms.fields["pull"].b
  {
    (if perms.fields["admin"].b then ADMIN else NONE) |
    (if perms.fields["push"].b then PUSH else NONE) |
    (if perms.fields["pull"].b then PULL else NONE)
  }

  /**
   * The decision of `userHasPermissions`: without a token only PULL can be
   * asked for; then the repository must be found; a public lookup (no token)
   * succeeds there, otherwise every required bit must be granted.
   */
  function Permitted(server: Server, token: Token, name: string, required: Perm): (ok: bool)
    requires PermissionsReadable(server, token, name)
    ensures token.None? && required & Complement(PULL) != 0 ==> !ok
    ensures !RepoFound(server(RepoRequest(name, token)).body) ==> !ok
    ensures token.None? ==> (ok <==> required & Complement(PULL) == 0 && RepoFound(server(RepoRequest(name, token)).body))
  {
    if token.None? && required & Complement(PULL) != 0 then false
    else
      var resp := server(RepoRequest(name, token));
      if !RepoFound(resp.body) then false
      else if token.None? then true
      else Granted(resp.body.value.fields["permissions"]) & required == required
  }

  /** `userHasPermissions`, accumulating the granted bits with `|=` as the source does. */
  method UserHasPermissions(server: Server, token: Token, name: string, required: Perm) returns (ret: bool)
    requires PermissionsReadable(server, token, name)
    ensures ret == Permitted(server, token, name, required)
  {
    ret := false;
    if token.None? && required & Complement(PULL) != 0 {
      return;
    }
    var resp := server(RepoRequest(name, token));
    if resp.body.None? {
      return;
    }
    var parsed := resp.body.value;
    if !parsed.JObject? || "full_name" !in parsed.fields {
      return;
    }
    if token.None? {
      ret := true;
      return;
    }
    var permsList := parsed.fields["permissions"];
    var repoPerms := NONE;
    if permsList.fields["admin"].b {
      repoPerms := repoPerms | ADMIN;
    }
    if permsList.fields["push"].b {
      repoPerms := repoPerms | PUSH;
    }
    if permsList.fields["pull"].b {
      repoPerms := repoPerms | PULL;
    }
    ret := repoPerms & required == required;
  }

  /** Asking for nothing succeeds exactly when the repository is found. */
  lemma PermittedNothing(server: Server, token: Token, name: string)
    requires PermissionsReadable(server, token, name)
    ensures Permitted(server, token, name, NONE) <==> RepoFound(server(RepoRequest(name, token)).body)
  {
  }

  /** Asking for fewer bits never turns a yes into a no. */
  lemma {:induction false} PermittedMonotone(server: Server, token: Token, name: string, fewer: Perm, more: Perm)
    requires PermissionsReadable(server, token, name)
    requires fewer & more == fewer
    requires Permitted(server, token, name, more)
    ensures Permitted(server, token, name, fewer)
  {
    assert fewer & Complement(PULL) == fewer & more & Complement(PULL);
    if token.Some? {
      var g := Granted(server(RepoRequest(name, token)).body.value.fields["permissions"]);
      assert g & fewer == g & more & fewer;
    }
  }

  /** The transport result is never consulted: servers that give the same bodies give the same answers. */
  lemma PermittedIgnoresTransport(server: Server, other: Server, token: Token, name: string, required: Perm)
    requires forall r: Request :: other(r).body == server(r).body
    requires PermissionsReadable(server, token, name)
    ensures PermissionsReadable(other, token, name)
    ensures Permitted(other, token, name, required) == Permitted(server, token, name, required)
  {
    assert other(RepoRequest(name, token)).body == server(RepoRequest(name, token)).body;
  }

  /** With a token and a found repository, the answer is: every required bit is granted. */
  lemma PermittedWithToken(server: Server, token: Token, name: string, required: Perm)
    requires PermissionsReadable(server, token, name) && token.Some?
    requires RepoFound(server(RepoRequest(name, token)).body)
    ensures var p := server(RepoRequest(name, token)).body.value.fields["permissions"];
      Permitted(server, token, name, required) <==>
        (required & ADMIN != 0 ==> p.fields["admin"].b) &&
        (required & PUSH != 0 ==> p.fields["push"].b) &&
        (required & PULL != 0 ==> p.fields["pull"].b) &&
        required & !7 == 0
  {
  }

  const RELEASE_REPO := "blu-dev/HDR-Release-Builds"
  const BETA_REPO := "blu-dev/HDR-Beta-Builds"
  const DEV_REPO := "blu-dev/HDR-Dev-Builds"

  /** `isEndUser`, `isBetaTester`, `isDeveloper`: read access to the matching build repository. */
  method HasRole(server: Server, token: Token, repo: string) returns (b: bool)
    requires PermissionsReadable(server, token, repo)
    ensures b == Permitted(server, token, repo, PULL)
  {
    b := UserHasPermissions(server, token, repo, PULL);
  }

  /* ---- `getReleases` ---- */

  datatype Release = Release(name: string, tag: string, body: string)

  /** An array entry the loop keeps: it has `name`, `tag_name` and `body`. */
  predicate IsRelease(j: Json)
  {
    Has(j, "name") && Has(j, "tag_name") && Has(j, "body")
  }

  /** The three `get<std::string>()` calls on a kept entry do not throw. */
  predicate ReleaseReadable(j: Json)
  {
    IsRelease(j) ==>
      j.fields["name"].JString? && j.fields["tag_name"].JString? && j.fields["body"].JString?
  }

  function ReleaseOf(j: Json): Release
    requires IsRelease(j) && ReleaseReadable(j)
  {
    Release(j.fields["name"].s, j.fields["tag_name"].s, j.fields["body"].s)
  }

  /** The releases the loop collects from `items`, in order. */
  function ReleasesOf(items: seq<Json>): (rs: seq<Release>)
    requires forall i | 0 <= i < |items| :: ReleaseReadable(items[i])
    ensures |rs| <= |items|
  {
    if items == [] then []
    else
      var last := items[|items| - 1];
      ReleasesOf(items[..|items| - 1]) + (if IsRelease(last) then [ReleaseOf(last)] else [])
  }

  /** Collecting from two stretches of the array is collecting from each, in order. */
  lemma {:induction false} ReleasesOfAppend(a: seq<Json>, b: seq<Json>)
    requires forall i | 0 <= i < |a| :: ReleaseReadable(a[i])
    requires forall i | 0 <= i < |b| :: ReleaseReadable(b[i])
    ensures forall i | 0 <= i < |a + b| :: ReleaseReadable((a + b)[i])
    ensures ReleasesOf(a + b) == ReleasesOf(a) + ReleasesOf(b)
    decreases |b|
  {
    assert forall i | 0 <= i < |a + b| :: (a + b)[i] == if i < |a| then a[i] else b[i - |a|];
    if b != [] {
      var b' := b[..|b| - 1];
      assert (a + b)[..|a + b| - 1] == a + b';
      ReleasesOfAppend(a, b');
    } else {
      assert a + b == a;
    }
  }

  /** When every entry is complete, one release per entry, in array order. */
  lemma {:induction false} ReleasesOfComplete(items: seq<Json>)
    requires forall i | 0 <= i < |items| :: ReleaseReadable(items[i]) && IsRelease(items[i])
    ensures |ReleasesOf(items)| == |items|
    ensures forall i | 0 <= i < |items| :: ReleasesOf(items)[i] == ReleaseOf(items[i])
  {
    if items != [] {
      ReleasesOfComplete(items[..|items| - 1]);
    }
  }

  /** An entry missing a key contributes nothing. */
  lemma {:induction false} ReleasesOfSkips(items: seq<Json>, j: Json)
    requires forall i | 0 <= i < |items| :: ReleaseReadable(items[i])
    requires !IsRelease(j)
    ensures ReleasesOf(items + [j]) == ReleasesOf(items)
  {
    assert (items + [j])[..|items + [j]| - 1] == items;
  }

  function ReleasesRequest(name: string, token: Token): Request
  {
    Request(ReleasesUrl(name), Headers(token))
  }

  /** The caller's side of `getReleases`: a kept entry holds three strings. */
  predicate ReleasesReadable(resp: Response)
  {
    resp.body.Some? && resp.body.value.JArray? ==>
      forall i | 0 <= i < |resp.body.value.items| :: ReleaseReadable(resp.body.value.items[i])
  }

  /**
   * What `getReleases` returns: nothing when the PULL check fails, the
   * transfer failed, the body did not parse or is not an array; otherwise the
   * complete entries, in order.
   */
  function Releases(server: Server, token: Token, name: string): (rs: seq<Release>)
    requires PermissionsReadable(server, token, name)
    requires ReleasesReadable(server(ReleasesRequest(name, token)))
    ensures !Permitted(server, token, name, PULL) ==> rs == []
    ensures var resp := server(ReleasesRequest(name, token));
      !resp.ok || resp.body.None? || !resp.body.value.JArray? ==> rs == []
    ensures var resp := server(ReleasesRequest(name, token));
      rs != [] ==> resp.body.Some? && resp.body.value.JArray? && |rs| <= |resp.body.value.items|
  {
    if !Permitted(server, token, name, PULL) then []
    else
      var resp := server(ReleasesRequest(name, token));
      if !resp.ok || resp.body.None? || !resp.body.value.JArray? then []
      else ReleasesOf(resp.body.value.items)
  }

  /** `getReleases`. */
  method GetReleases(server: Server, token: Token, name: string) returns (ret: seq<Release>)
    requires PermissionsReadable(server, token, name)
    requires ReleasesReadable(server(ReleasesRequest(name, token)))
    ensures ret == Releases(server, token, name)
  {
    ret := [];
    var permitted := UserHasPermissions(server, token, name, PULL);
    if !permitted {
      return;
    }
    var resp := server(ReleasesRequest(name, token));
    if !resp.ok || resp.body.None? || !resp.body.value.JArray? {
      return;
    }
    var items := resp.body.value.items;
    var i := 0;
    while i < |items|
      invariant i <= |items|
      invariant ret == ReleasesOf(items[..i])
    {
      var value := items[i];
      assert items[..i + 1][..i] == items[..i];
      if !Has(value, "name") || !Has(value, "tag_name") || !Has(value, "body") {
        i := i + 1;
        continue;
      }
      ret := ret + [ReleaseOf(value)];
      i := i + 1;
    }
    assert items[..|items|] == items;
  }

  /* ---- `getReleaseInfos` ---- */

  /** One asset of a release: the download URL, its content type and its file name. */
  datatype AssetInfo = AssetInfo(url: string, contentType: string, filename: string)

  function StringField(j: Json, key: string): string
    requires Has(j, key) && j.fields[key].JString?
  {
    j.fields[key].s
  }

  /** The three `get<std::string>()` calls on an asset do not throw. */
  predicate AssetReadable(j: Json)
  {
    && Has(j, "url") && j.fields["url"].JString?
    && Has(j, "content_type") && j.fields["content_type"].JString?
    && Has(j, "name") && j.fields["name"].JString?
  }

  function AssetInfoOf(j: Json): AssetInfo
    requires AssetReadable(j)
  {
    AssetInfo(StringField(j, "url"), StringField(j, "content_type"), StringField(j, "name"))
  }

  function TagRequest(name: string, tag: string, token: Token): Request
  {
    Request(TagUrl(name, tag), Headers(token))
  }

  /** The caller's side of `getReleaseInfos`: when a release object has `assets`, it is an array of readable assets. */
  predicate InfosReadable(resp: Response)
  {
    resp.body.Some? && Has(resp.body.value, "assets") ==>
      var assets := resp.body.value.fields["assets"];
      assets.JArray? && forall i | 0 <= i < |assets.items| :: AssetReadable(assets.items[i])
  }

  /**
   * What `getReleaseInfos` returns: nothing on a failed PULL check, a failed
   * transfer, a body that did not parse or has no `assets`; otherwise one
   * record per asset, in order, with no filtering.
   */
  function ReleaseInfos(server: Server, token: Token, name: string, tag: string): (infos: seq<AssetInfo>)
    requires PermissionsReadable(server, token, name)
    requires InfosReadable(server(TagRequest(name, tag, token)))
    ensures !Permitted(server, token, name, PULL) ==> infos == []
    ensures var resp := server(TagRequest(name, tag, token));
      !resp.ok || resp.body.None? || !Has(resp.body.value, "assets") ==> infos == []
    ensures var resp := server(TagRequest(name, tag, token));
      Permitted(server, token, name, PULL) && resp.ok && resp.body.Some? && Has(resp.body.value, "assets") ==>
        var assets := resp.body.value.fields["assets"].items;
        |infos| == |assets| && forall i | 0 <= i < |assets| :: infos[i] == AssetInfoOf(assets[i])
  {
    if !Permitted(server, token, name, PULL) then []
    else
      var resp := server(TagRequest(name, tag, token));
      if !resp.ok || resp.body.None? || !Has(resp.body.value, "assets") then []
      else
        var assets := resp.body.value.fields["assets"].items;
        seq(|assets|, i requires 0 <= i < |assets| => AssetInfoOf(assets[i]))
  }

  /** Without a token the lookup still goes ahead, unauthenticated: a public release's assets are all returned. */
  lemma PublicReleaseInfos(server: Server, name: string, tag: string)
    requires PermissionsReadable(server, None, name)
    requires InfosReadable(server(TagRequest(name, tag, None)))
    requires RepoFound(server(RepoRequest(name, None)).body)
    ensures TagRequest(name, tag, None).headers == []
    ensures var resp := server(TagRequest(name, tag, None));
      resp.ok && resp.body.Some? && Has(resp.body.value, "assets") ==>
        |ReleaseInfos(server, None, name, tag)| == |resp.body.value.fields["assets"].items|
  {
  }

  /** `getReleaseInfos`. */
  method GetReleaseInfos(server: Server, token: Token, name: string, tag: string) returns (ret: seq<AssetInfo>)
    requires PermissionsReadable(server, token, name)
    requires InfosReadable(server(TagRequest(name, tag, token)))
    ensures ret == ReleaseInfos(server, token, name, tag)
  {
    ret := [];
    var permitted := UserHasPermissions(server, token, name, PULL);
    if !permitted {
      return;
    }
    var resp := server(TagRequest(name, tag, token));
    if !resp.ok || resp.body.None? {
      return;
    }
    var parsed := resp.body.value;
    if !parsed.JObject? || "assets" !in parsed.fields {
      return;
    }
    var assets := parsed.fields["assets"].items;
    var i := 0;
    while i < |assets|
      invariant i <= |assets|
      invariant |ret| == i
      invariant forall j | 0 <= j < i :: ret[j] == AssetInfoOf(assets[j])
    {
      var value := assets[i];
      ret := ret + [AssetInfo(StringField(value, "url"), StringField(value, "content_type"), StringField(value, "name"))];
      i := i + 1;
    }
  }

  /* ---- `download_progress` and `downloadRelease` ---- */

  /** `download_progress`: 1, which makes CURL abort the transfer, exactly when B is pressed. */
  function DownloadProgress(kDown: KeyMask): (r: int)
    ensures r == 0 || r == 1
    ensures r == 1 <==> Pressed(kDown, KEY_B)
  {
    if kDown & KEY_B != 0 then 1 else 0
  }

  datatype DownloadResult = SUCCESS | CURL_ERROR | DOES_NOT_EXIST | DOWNLOAD_FAILED | ACCESS_DENIED

  type Bytes = seq<bv8>
  type FileSystem = map<string, Bytes>

  /**
   * One asset transfer as CURL runs it: the bytes the server sends, the keys
   * down at each progress callback, and whether the connection succeeds.
   */
  datatype Transfer = Transfer(data: Bytes, polls: seq<KeyMask>, connected: bool)

  /** No progress callback among `polls` asks CURL to abort. */
  predicate NoAbort(polls: seq<KeyMask>)
  {
    polls == [] || (DownloadProgress(polls[0]) == 0 && NoAbort(polls[1..]))
  }

  /** `Perform` returns `CURLE_OK`: the connection succeeds and no progress callback asks to abort. */
  predicate Completed(t: Transfer)
  {
    t.connected && NoAbort(t.polls)
  }

  /** A transfer completes exactly when it connects and B is down at none of its progress callbacks. */
  lemma {:induction false} CompletedIff(t: Transfer)
    ensures Completed(t) <==> t.connected && forall i | 0 <= i < |t.polls| :: !Pressed(t.polls[i], KEY_B)
  {
    NoAbortIff(t.polls);
  }

  lemma {:induction false} NoAbortIff(polls: seq<KeyMask>)
    ensures NoAbort(polls) <==> forall i | 0 <= i < |polls| :: !Pressed(polls[i], KEY_B)
  {
    if polls != [] {
      NoAbortIff(polls[1..]);
      assert forall i | 1 <= i < |polls| :: polls[i] == polls[1..][i - 1];
    }
  }

  /** `path::filename()` of a URL: what follows the last `/` (all of it when there is none). */
  function FileName(url: string): string
  {
    if url == [] then []
    else if url[|url| - 1] == '/' then []
    else FileName(url[..|url| - 1]) + [url[|url| - 1]]
  }

  /** The file name is a suffix of the URL, holds no `/`, and is preceded by one unless it is the whole URL. */
  lemma {:induction false} FileNameIsLastSegment(url: string)
    ensures var f := FileName(url);
      && |f| <= |url| && f == url[|url| - |f|..]
      && '/' !in f
      && (|f| < |url| ==> url[|url| - |f| - 1] == '/')
  {
    if url != [] && url[|url| - 1] != '/' {
      var u := url[..|url| - 1];
      FileNameIsLastSegment(u);
      var f := FileName(u);
      assert FileName(url) == f + [url[|url| - 1]];
      assert url[|url| - |f| - 1..] == url[|url| - |f| - 1..|url| - 1] + [url[|url| - 1]];
      assert url[|url| - |f| - 1..|url| - 1] == u[|u| - |f|..];
    }
  }

  /** `rename(from, to)`: the contents move, replacing whatever was at `to`. */
  function Rename(fs: FileSystem, from: string, to: string): FileSystem
    requires from in fs
  {
    if from == to then fs else (fs - {from})[to := fs[from]]
  }

  lemma RenameMoves(fs: FileSystem, from: string, to: string)
    requires from in fs
    ensures var r := Rename(fs, from, to);
      && to in r && r[to] == fs[from]
      && (from != to ==> from !in r)
      && (forall p | p in fs && p != from && p != to :: p in r && r[p] == fs[p])
      && r.Keys <= fs.Keys + {to}
  {
  }

  /** `elz::extractZip` into the system root: the file system after unpacking an archive with the given contents. */
  type Extractor = (FileSystem, Bytes) -> FileSystem

  /** The staging path of an asset: the root plus the last segment of its URL. */
  function StagingPath(root: string, a: AssetInfo): string
  {
    root + FileName(a.url)
  }

  /** The file system after asset `a` arrived completely with contents `data`. */
  function Place(fs: FileSystem, root: string, a: AssetInfo, data: Bytes, extract: Extractor): FileSystem
  {
    var path := StagingPath(root, a);
    var staged := fs[path := data];
    if a.contentType == ZIP_CONTENT_TYPE then extract(staged, data) - {path}
    else Rename(staged, path, root + a.filename)
  }

  /**
   * A completed zip is unpacked and its staging file removed; any other asset
   * ends up under its own file name with the downloaded contents, its staging
   * file gone, and every other file kept.
   */
  lemma PlaceEffect(fs: FileSystem, root: string, a: AssetInfo, data: Bytes, extract: Extractor)
    ensures var path := StagingPath(root, a); var r := Place(fs, root, a, data, extract);
      && path == root + FileName(a.url)
      && (a.contentType == ZIP_CONTENT_TYPE ==> r == extract(fs[path := data], data) - {path} && path !in r)
      && (a.contentType != ZIP_CONTENT_TYPE ==>
            var target := root + a.filename;
            && target in r && r[target] == data
            && (path != target ==> path !in r)
            && (forall q | q in fs && q != path && q != target :: q in r && r[q] == fs[q])
            && r.Keys <= fs.Keys + {path, target})
  {
    var path := StagingPath(root, a);
    if a.contentType != ZIP_CONTENT_TYPE {
      RenameMoves(fs[path := data], path, root + a.filename);
    }
  }

  /**
   * The asset loop of `downloadRelease` from asset `i` on: the result, the
   * file system, and how many transfers were started in all.
   */
  function InstallFrom(fs: FileSystem, root: string, assets: seq<AssetInfo>, transfers: seq<Transfer>,
                       extract: Extractor, i: nat): (r: (DownloadResult, FileSystem, nat))
    requires i <= |assets| <= |transfers|
    ensures r.0 == SUCCESS || r.0 == DOWNLOAD_FAILED
    ensures i <= r.2 <= |assets|
    decreases |assets| - i
  {
    if i == |assets| then (SUCCESS, fs, i)
    else if !Completed(transfers[i]) then (DOWNLOAD_FAILED, fs - {StagingPath(root, assets[i])}, i + 1)
    else InstallFrom(Place(fs, root, assets[i], transfers[i].data, extract), root, assets, transfers, extract, i + 1)
  }

  /** The file system after the assets `i` to `k - 1` were placed in turn, all of them completed. */
  function PlacedUpTo(fs: FileSystem, root: string, assets: seq<AssetInfo>, transfers: seq<Transfer>,
                      extract: Extractor, i: nat, k: nat): FileSystem
    requires i <= k <= |assets| <= |transfers|
    decreases k - i
  {
    if i == k then fs
    else PlacedUpTo(Place(fs, root, assets[i], transfers[i].data, extract), root, assets, transfers, extract, i + 1, k)
  }

  /** The loop succeeds exactly when every remaining transfer completes, whatever extraction or renaming did. */
  lemma {:induction false} InstallSucceedsIff(fs: FileSystem, root: string, assets: seq<AssetInfo>, transfers: seq<Transfer>,
                                              extract: Extractor, i: nat)
    requires i <= |assets| <= |transfers|
    ensures InstallFrom(fs, root, assets, transfers, extract, i).0 == SUCCESS <==>
      forall j | i <= j < |assets| :: Completed(transfers[j])
    ensures InstallFrom(fs, root, assets, transfers, extract, i).0 == SUCCESS ==>
      InstallFrom(fs, root, assets, transfers, extract, i).2 == |assets|
    decreases |assets| - i
  {
    if i < |assets| && Completed(transfers[i]) {
      InstallSucceedsIff(Place(fs, root, assets[i], transfers[i].data, extract), root, assets, transfers, extract, i + 1);
    }
  }

  /**
   * At the first transfer `k` that fails the loop stops: it has started
   * exactly `k + 1` transfers, fails, and leaves no file at `k`'s staging path.
   * Nothing is rolled back: the file system is the one the earlier placements
   * left, less that staging file.
   */
  lemma {:induction false} InstallStopsAtFirstFailure(fs: FileSystem, root: string, assets: seq<AssetInfo>, transfers: seq<Transfer>,
                                                      extract: Extractor, i: nat, k: nat)
    requires i <= k < |assets| <= |transfers|
    requires forall j | i <= j < k :: Completed(transfers[j])
    requires !Completed(transfers[k])
    ensures var r := InstallFrom(fs, root, assets, transfers, extract, i);
      r.0 == DOWNLOAD_FAILED && r.2 == k + 1 && StagingPath(root, assets[k]) !in r.1
    ensures InstallFrom(fs, root, assets, transfers, extract, i).1 ==
      PlacedUpTo(fs, root, assets, transfers, extract, i, k) - {StagingPath(root, assets[k])}
    decreases k - i
  {
    if i < k {
      InstallStopsAtFirstFailure(Place(fs, root, assets[i], transfers[i].data, extract), root, assets, transfers, extract, i + 1, k);
    }
  }

  /** The headers of every asset transfer. */
  function DownloadHeaders(token: Token): (hs: seq<string>)
    ensures |hs| == |Headers(token)| + 1
    ensures hs[|hs| - 1] == ACCEPT_OCTET_STREAM
    ensures hs[..|hs| - 1] == Headers(token)
  {
    Headers(token) + [ACCEPT_OCTET_STREAM]
  }

  /** The caller's side of `downloadRelease`: the lookups it makes can be read, and there is an outcome for every asset. */
  predicate DownloadReadable(server: Server, token: Token, name: string, tag: string, transfers: seq<Transfer>)
  {
    && PermissionsReadable(server, token, name)
    && InfosReadable(server(TagRequest(name, tag, token)))
    && |transfers| >= |ReleaseInfos(server, token, name, tag)|
  }

  /**
   * What `downloadRelease` does: CURL_ERROR (never ACCESS_DENIED) when the
   * PULL check fails, DOES_NOT_EXIST when no asset is listed, and otherwise
   * the asset loop. The third component counts the transfers started.
   */
  function Download(server: Server, token: Token, name: string, tag: string, root: string,
                    transfers: seq<Transfer>, extract: Extractor, fs: FileSystem): (r: (DownloadResult, FileSystem, nat))
    requires DownloadReadable(server, token, name, tag, transfers)
    ensures r.0 != ACCESS_DENIED
    ensures !Permitted(server, token, name, PULL) ==> r == (CURL_ERROR, fs, 0)
    ensures Permitted(server, token, name, PULL) && ReleaseInfos(server, token, name, tag) == [] ==> r == (DOES_NOT_EXIST, fs, 0)
    ensures r.2 <= |ReleaseInfos(server, token, name, tag)|
  {
    if !Permitted(server, token, name, PULL) then (CURL_ERROR, fs, 0)
    else
      var assets := ReleaseInfos(server, token, name, tag);
      if |assets| < 1 then (DOES_NOT_EXIST, fs, 0)
      else InstallFrom(fs, root, assets, transfers, extract, 0)
  }

  /**
   * The asset loop of `downloadRelease`: one transfer per asset, in order, with
   * the given headers, stopping at the first that fails.
   */
  method InstallAssets(root: string, assets: seq<AssetInfo>, transfers: seq<Transfer>, extract: Extractor,
                       headers: seq<string>, fs0: FileSystem)
    returns (ret: DownloadResult, fs: FileSystem, sent: seq<Request>)
    requires |assets| <= |transfers|
    ensures (ret, fs, |sent|) == InstallFrom(fs0, root, assets, transfers, extract, 0)
    ensures forall j | 0 <= j < |sent| :: sent[j] == Request(assets[j].url, headers)
  {
    fs := fs0;
    sent := [];
    var i := 0;
    while i < |assets|
      invariant i <= |assets|
      invariant InstallFrom(fs, root, assets, transfers, extract, i) == InstallFrom(fs0, root, assets, transfers, extract, 0)
      invariant |sent| == i
      invariant forall j | 0 <= j < i :: sent[j] == Request(assets[j].url, headers)
    {
      var url := assets[i].url;
      var path := root + FileName(url);
      ghost var before := fs;
      fs := fs[path := []];
      sent := sent + [Request(url, headers)];
      var transfer := transfers[i];
      if !Completed(transfer) {
        if path in fs {
          fs := fs - {path};
        }
        assert fs == before - {StagingPath(root, assets[i])};
        ret := DOWNLOAD_FAILED;
        return;
      }
      fs := fs[path := transfer.data];
      assert fs == before[path := transfer.data];
      if path in fs && assets[i].contentType == ZIP_CONTENT_TYPE {
        fs := extract(fs, transfer.data);
        fs := fs - {path};
      } else {
        var newPath := root + assets[i].filename;
        fs := Rename(fs, path, newPath);
      }
      assert fs == Place(before, root, assets[i], transfer.data, extract);
      i := i + 1;
    }
    ret := SUCCESS;
  }

  /**
   * `downloadRelease`. Besides the result and the new file system it returns
   * the asset requests it made, in order: one per transfer started.
   */
  method DownloadRelease(server: Server, token: Token, name: string, tag: string, root: string,
                         transfers: seq<Transfer>, extract: Extractor, fs0: FileSystem)
    returns (ret: DownloadResult, fs: FileSystem, sent: seq<Request>)
    requires DownloadReadable(server, token, name, tag, transfers)
    ensures (ret, fs, |sent|) == Download(server, token, name, tag, root, transfers, extract, fs0)
    ensures forall j | 0 <= j < |sent| ::
      sent[j] == Request(ReleaseInfos(server, token, name, tag)[j].url, DownloadHeaders(token))
  {
    ret := CURL_ERROR;
    fs := fs0;
    sent := [];
    var permitted := UserHasPermissions(server, token, name, PULL);
    if !permitted {
      return;
    }
    var assets := GetReleaseInfos(server, token, name, tag);
    if |assets| < 1 {
      ret := DOES_NOT_EXIST;
      return;
    }
    var headers: seq<string> := [];
    if token.Some? {
      headers := headers + [AuthHeader(token.value)];
    }
    headers := headers + [ACCEPT_OCTET_STREAM];
    assert headers == DownloadHeaders(token);
    ret, fs, sent := InstallAssets(root, assets, transfers, extract, headers, fs0);
  }
}
