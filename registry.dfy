/**
 * Registry entries and what one refresh pass does to a single entry.
 *
 * An entry is one element of `plugin_registry` or `theme_registry`: the `file`
 * and `repository` given at registration, the `name` derived from `file`, and
 * the `latest_*` fields filled from the first tag that Bitbucket's tag listing
 * returns. The tag listing itself is outside the model: `Fetch` stands for the
 * authenticated GET plus `json_decode`, and yields the first tag, if any.
 */
module Registry {
  import opened Wrappers
  import opened PhpStrings

  datatype Entry = Entry(
    file: string,
    repository: string,
    name: Option<string>,
    latestVersion: Option<string>,
    latestDate: Option<string>,
    latestMessage: Option<string>,
    latestPackage: Option<string>)

  /** `$response['values'][0]` of the tag listing, with each slot possibly unset. */
  datatype Tag = Tag(name: Option<string>, date: Option<string>, message: Option<string>)

  /** The request that `wp_remote_get` sends for the tag listing. */
  datatype TagRequest = TagRequest(url: string, authorization: string)

  /** The network call: `None` when the call fails or the body holds no first tag. */
  type Fetch = TagRequest -> Option<Tag>

  /** The array that `register_plugin`/`register_theme` push. */
  function NewEntry(file: string, repository: string): (e: Entry)
    ensures e.file == file && e.repository == repository
    ensures e.name.None? && e.latestVersion.None? && e.latestPackage.None?
  {
    Entry(file, repository, None, None, None, None, None)
  }

  /** The tag-listing endpoint of a repository, tags sorted by name, descending. */
  function TagsUrl(repository: string): string {
    "https://api.bitbucket.org/2.0/repositories/" + repository + "/refs/tags?sort=-name"
  }

  /** The download URL of a tagged archive. */
  function PackageUrl(repository: string, version: string): string {
    "https://bitbucket.org/" + repository + "/get/" + version + ".zip"
  }

  /** A plugin's name: the last two '/' segments of its file path, joined by '/'. */
  function PluginName(file: string): string {
    var parts := Explode(file, '/');
    if |parts| == 1 then parts[0] else parts[|parts| - 2] + "/" + parts[|parts| - 1]
  }

  /**
   * A theme's name: the first of the last two '/' segments, i.e. the directory
   * holding the file when the path has two or more segments, the file name itself otherwise.
   */
  function ThemeName(file: string): string {
    LastTwo(Explode(file, '/'))[0]
  }

  // ---- One refresh pass on one entry ----

  /** The name step: only for an entry whose `file` is not empty. */
  function Named(e: Entry, name: string): Entry {
    if IsEmpty(e.file) then e else e.(name := Some(name))
  }

  /** Each `latest_*` field is overwritten only by a non-empty field of the first tag. */
  function WithTag(e: Entry, tag: Option<Tag>): Entry {
    match tag
    case None => e
    case Some(t) =>
      e.(latestVersion := if Blank(t.name) then e.latestVersion else t.name,
         latestDate := if Blank(t.date) then e.latestDate else t.date,
         latestMessage := if Blank(t.message) then e.latestMessage else t.message)
  }

  /** The tag step: the listing is fetched only for an entry that has no version yet. */
  function LookedUp(e: Entry, authorization: string, fetch: Fetch): Entry {
    if Blank(e.latestVersion) then WithTag(e, fetch(TagRequest(TagsUrl(e.repository), authorization)))
    else e
  }

  /** The package step, from whichever `latest_version` the loop body reads. */
  function Packaged(e: Entry, version: Option<string>): Entry {
    if Blank(version) then e else e.(latestPackage := Some(PackageUrl(e.repository, version.value)))
  }

  /**
   * One iteration of the plugin loop. It iterates over a copy of the registry,
   * so the package step reads the version the entry had BEFORE this pass.
   */
  function RefreshedPlugin(e: Entry, authorization: string, fetch: Fetch): Entry {
    Packaged(LookedUp(Named(e, PluginName(e.file)), authorization, fetch), e.latestVersion)
  }

  /**
   * One iteration of the theme loop. It iterates by reference, so the package
   * step reads the version just written by the tag step.
   */
  function RefreshedTheme(e: Entry, authorization: string, fetch: Fetch): Entry {
    var looked := LookedUp(Named(e, ThemeName(e.file)), authorization, fetch);
    Packaged(looked, looked.latestVersion)
  }

  datatype Kind = Plugin | Theme

  function Refreshed(kind: Kind, e: Entry, authorization: string, fetch: Fetch): Entry {
    match kind
    case Plugin => RefreshedPlugin(e, authorization, fetch)
    case Theme => RefreshedTheme(e, authorization, fetch)
  }

  /** A whole pass over one registry, entry by entry. */
  function RefreshAll(kind: Kind, reg: seq<Entry>, authorization: string, fetch: Fetch): (r: seq<Entry>)
    ensures |r| == |reg|
    ensures forall i :: 0 <= i < |reg| ==> r[i] == Refreshed(kind, reg[i], authorization, fetch)
  {
    seq(|reg|, i requires 0 <= i < |reg| => Refreshed(kind, reg[i], authorization, fetch))
  }

  // ---- The package invariant ----

  /** A set `latest_package` always belongs to a set `latest_version` of the same entry. */
  predicate PackageConsistent(e: Entry) {
    e.latestPackage.Some? ==>
      !Blank(e.latestVersion) && e.latestPackage.value == PackageUrl(e.repository, e.latestVersion.value)
  }

  predicate AllConsistent(reg: seq<Entry>) {
    forall i :: 0 <= i < |reg| ==> PackageConsistent(reg[i])
  }

  // ---- Names ----

  /** The name is `implode('/', array_slice(explode('/', $file), -2))`. */
  lemma PluginNameImplodes(file: string)
    ensures PluginName(file) == Implode('/', LastTwo(Explode(file, '/')))
  {
    var parts := Explode(file, '/');
    if |parts| > 1 {
      var two := LastTwo(parts);
      assert two == [parts[|parts| - 2], parts[|parts| - 1]];
      assert Implode('/', two[1..]) == parts[|parts| - 1];
    }
  }

  /** A plugin name splits into exactly the last (at most two) segments of its file path. */
  lemma PluginNameSegments(file: string)
    ensures Explode(PluginName(file), '/') == LastTwo(Explode(file, '/'))
  {
    PluginNameImplodes(file);
    ExplodeImplode(LastTwo(Explode(file, '/')), '/');
  }

  /**
   * The slug of a plugin's name is the theme name of its file: the directory holding
   * the file when the path has two or more segments, the file name itself otherwise.
   */
  lemma SlugOfPluginName(file: string)
    ensures FirstSegment(PluginName(file)) == ThemeName(file)
    ensures '/' !in ThemeName(file)
  {
    PluginNameSegments(file);
  }

  /** Deriving the name again from a derived name changes nothing. */
  lemma PluginNameIdempotent(file: string)
    ensures PluginName(PluginName(file)) == PluginName(file)
  {
    var name, two := PluginName(file), LastTwo(Explode(file, '/'));
    PluginNameSegments(file);
    PluginNameImplodes(file);
    PluginNameImplodes(name);
    assert LastTwo(two) == two;
  }

  /** A plugin name is the tail of the file path: all of it when there are at most two segments. */
  lemma PluginNameIsTail(file: string)
    ensures var parts := Explode(file, '/');
      if |parts| <= 2 then PluginName(file) == file
      else file == Implode('/', parts[..|parts| - 2]) + "/" + PluginName(file)
  {
    var parts := Explode(file, '/');
    ImplodeExplode(file, '/');
    if |parts| > 2 {
      assert parts == parts[..|parts| - 2] + parts[|parts| - 2..];
      ImplodeAppend(parts[..|parts| - 2], parts[|parts| - 2..], '/');
    }
  }

  /** Every package URL points into bitbucket.org and names a zip archive. */
  lemma PackageUrlShape(repository: string, version: string)
    ensures var u := PackageUrl(repository, version);
      |u| >= 26 && u[..22] == "https://bitbucket.org/" && u[|u| - 4..] == ".zip"
  {
  }

  // ---- One entry, one pass ----

  /** A refresh never touches `file` or `repository`. */
  lemma RefreshKeepsIdentity(kind: Kind, e: Entry, authorization: string, fetch: Fetch)
    ensures Refreshed(kind, e, authorization, fetch).file == e.file
    ensures Refreshed(kind, e, authorization, fetch).repository == e.repository
  {
    var nm := if kind == Plugin then PluginName(e.file) else ThemeName(e.file);
    var looked := LookedUp(Named(e, nm), authorization, fetch);
    assert looked.file == e.file && looked.repository == e.repository;
  }

  /** A refresh names an entry with a non-empty `file` after it, and leaves any other name alone. */
  lemma RefreshNames(kind: Kind, e: Entry, authorization: string, fetch: Fetch)
    ensures Refreshed(kind, e, authorization, fetch).name ==
      if IsEmpty(e.file) then e.name
      else if kind == Plugin then Some(PluginName(e.file)) else Some(ThemeName(e.file))
  {
    if kind == Plugin {
      var named := Named(e, PluginName(e.file));
      var looked := LookedUp(named, authorization, fetch);
      assert looked.name == named.name;
      assert RefreshedPlugin(e, authorization, fetch) == Packaged(looked, e.latestVersion);
    } else {
      var named := Named(e, ThemeName(e.file));
      var looked := LookedUp(named, authorization, fetch);
      assert looked.name == named.name;
      assert RefreshedTheme(e, authorization, fetch) == Packaged(looked, looked.latestVersion);
    }
  }

  /**
   * An entry that already has a version is not looked up: its `latest_version`,
   * `latest_date` and `latest_message` stay, and the result does not depend on
   * what the network would answer.
   */
  lemma CachedVersionKept(kind: Kind, e: Entry, authorization: string, fetch: Fetch, other: Fetch)
    requires !Blank(e.latestVersion)
    ensures var r := Refreshed(kind, e, authorization, fetch);
      r.latestVersion == e.latestVersion && r.latestDate == e.latestDate && r.latestMessage == e.latestMessage
    ensures Refreshed(kind, e, authorization, fetch) == Refreshed(kind, e, authorization, other)
  {
  }

  /** A version-less entry takes exactly the non-empty fields of the first tag. */
  lemma LookupTakesNonEmptyFields(kind: Kind, e: Entry, authorization: string, fetch: Fetch)
    requires Blank(e.latestVersion)
    ensures var tag := fetch(TagRequest(TagsUrl(e.repository), authorization));
      var r := Refreshed(kind, e, authorization, fetch);
      && r.latestVersion == (if tag.Some? && !Blank(tag.value.name) then tag.value.name else e.latestVersion)
      && r.latestDate == (if tag.Some? && !Blank(tag.value.date) then tag.value.date else e.latestDate)
      && r.latestMessage == (if tag.Some? && !Blank(tag.value.message) then tag.value.message else e.latestMessage)
  {
  }

  /** A failed call or a body without usable fields leaves `latest_version`, `latest_date` and `latest_message` as they were. */
  lemma EmptyResponseKeepsLatest(kind: Kind, e: Entry, authorization: string, fetch: Fetch)
    requires var tag := fetch(TagRequest(TagsUrl(e.repository), authorization));
      tag.None? || (Blank(tag.value.name) && Blank(tag.value.date) && Blank(tag.value.message))
    ensures var r := Refreshed(kind, e, authorization, fetch);
      && r.latestVersion == e.latestVersion && r.latestDate == e.latestDate
      && r.latestMessage == e.latestMessage
  {
    var nm := if kind == Plugin then PluginName(e.file) else ThemeName(e.file);
    var named := Named(e, nm);
    var looked := LookedUp(named, authorization, fetch);
    assert looked.latestVersion == e.latestVersion && looked.latestDate == e.latestDate;
    assert looked.latestMessage == e.latestMessage;
  }

  /** A refresh keeps the package invariant. */
  lemma RefreshConsistent(kind: Kind, e: Entry, authorization: string, fetch: Fetch)
    requires PackageConsistent(e)
    ensures PackageConsistent(Refreshed(kind, e, authorization, fetch))
  {
  }

  /** A theme gets its package URL in the same pass that gives it a version. */
  lemma ThemePackageSamePass(e: Entry, authorization: string, fetch: Fetch)
    ensures var r := RefreshedTheme(e, authorization, fetch);
      !Blank(r.latestVersion) ==> r.latestPackage == Some(PackageUrl(r.repository, r.latestVersion.value))
  {
  }

  /**
   * A plugin's package URL only changes on a pass that starts with a version
   * already set; so a version fetched in this pass has no package yet, and the
   * next pass supplies it.
   */
  lemma PluginPackageLagsOnePass(e: Entry, authorization: string, fetch: Fetch, next: Fetch)
    ensures var r := RefreshedPlugin(e, authorization, fetch);
      r.latestPackage != e.latestPackage ==> !Blank(e.latestVersion)
    ensures var r := RefreshedPlugin(e, authorization, fetch);
      var r2 := RefreshedPlugin(r, authorization, next);
      !Blank(r.latestVersion) ==>
        r2.latestVersion == r.latestVersion && r2.latestPackage == Some(PackageUrl(e.repository, r.latestVersion.value))
  {
  }

  /** Once resolved and packaged, further passes change nothing. */
  lemma ResolvedIsStable(kind: Kind, e: Entry, authorization: string, fetch: Fetch)
    requires !Blank(e.latestVersion) && e.latestPackage == Some(PackageUrl(e.repository, e.latestVersion.value))
    requires !IsEmpty(e.file) ==> e.name == Some(if kind == Plugin then PluginName(e.file) else ThemeName(e.file))
    ensures Refreshed(kind, e, authorization, fetch) == e
  {
  }

  // ---- A whole registry, one pass ----

  /** A pass keeps every entry's `file` and `repository`, and the package invariant. */
  lemma RefreshAllKeeps(kind: Kind, reg: seq<Entry>, authorization: string, fetch: Fetch)
    ensures var r := RefreshAll(kind, reg, authorization, fetch);
      forall i :: 0 <= i < |reg| ==> r[i].file == reg[i].file && r[i].repository == reg[i].repository
    ensures AllConsistent(reg) ==> AllConsistent(RefreshAll(kind, reg, authorization, fetch))
  {
    var r := RefreshAll(kind, reg, authorization, fetch);
    forall i | 0 <= i < |reg|
      ensures r[i].file == reg[i].file && r[i].repository == reg[i].repository
      ensures PackageConsistent(reg[i]) ==> PackageConsistent(r[i])
    {
      RefreshKeepsIdentity(kind, reg[i], authorization, fetch);
      if PackageConsistent(reg[i]) {
        RefreshConsistent(kind, reg[i], authorization, fetch);
      }
    }
  }

  /**
   * Registering appends one entry, and the pass that follows keeps it last
   * with the given `file` and `repository`, beside the earlier entries' own.
   */
  lemma RegisterThenRefresh(kind: Kind, reg: seq<Entry>, file: string, repository: string,
                            authorization: string, fetch: Fetch)
    ensures var r := RefreshAll(kind, reg + [NewEntry(file, repository)], authorization, fetch);
      && |r| == |reg| + 1
      && r[|reg|].file == file && r[|reg|].repository == repository
      && (forall j :: 0 <= j < |reg| ==> r[j].file == reg[j].file && r[j].repository == reg[j].repository)
  {
    var appended := reg + [NewEntry(file, repository)];
    RefreshAllKeeps(kind, appended, authorization, fetch);
    assert forall j :: 0 <= j < |reg| ==> appended[j] == reg[j];
  }

  /** A freshly registered entry has no package, so appending it keeps the invariant. */
  lemma AppendUnresolved(reg: seq<Entry>, file: string, repository: string)
    requires AllConsistent(reg)
    ensures AllConsistent(reg + [NewEntry(file, repository)])
  {
    var appended := reg + [NewEntry(file, repository)];
    assert forall j :: 0 <= j < |reg| ==> appended[j] == reg[j];
  }
}
