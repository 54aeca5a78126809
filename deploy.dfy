/**
 * The `BitbucketDeploy` object: the stored Bitbucket credentials and the two
 * registries it updates in place, and the filter callbacks that read them.
 *
 * `get_option('BitbucketDeploy_Options')` is passed in as `Options` and the
 * tag listing as `Fetch`; the registry logic the callbacks run is modelled,
 * while the WordPress metadata they read (`get_file_data`, `get_plugin_data`,
 * `wp_get_theme`) is not.
 */
module Deploy {
  import opened Wrappers
  import opened PhpStrings
  import opened Encoding
  import opened Registry
  import opened Decisions

  /** The `username` and `password` slots of the stored option; `None` when unset. */
  datatype Options = Options(username: Option<string>, password: Option<string>)

  /** `refresh_credentials` for one field: a non-empty option replaces the stored value. */
  function Stored(current: Option<string>, option: Option<string>): Option<string> {
    if Blank(option) then current else option
  }

  /**
   * A stored credential is never cleared, a non-empty option always wins, and
   * reading the same option a second time changes nothing.
   */
  lemma StoredNeverClears(current: Option<string>, option: Option<string>)
    ensures !Blank(current) ==> !Blank(Stored(current, option))
    ensures !Blank(option) ==> Stored(current, option) == option
    ensures Blank(option) ==> Stored(current, option) == current
    ensures Stored(Stored(current, option), option) == Stored(current, option)
  {
  }

  class BitbucketDeploy {
    var username: Option<string>
    var password: Option<string>
    var pluginRegistry: seq<Entry>
    var themeRegistry: seq<Entry>

    /** Every set package URL in either registry belongs to that entry's version. */
    ghost predicate Valid()
      reads this
    {
      AllConsistent(pluginRegistry) && AllConsistent(themeRegistry)
    }

    /** Both credentials are non-empty, so a refresh goes ahead. */
    predicate HasCredentials()
      reads this
    {
      !Blank(username) && !Blank(password)
    }

    /** The `Authorization` header value built from the stored credentials. */
    function Authorization(): string
      reads this
      requires HasCredentials()
    {
      BasicAuthorization(username.value, password.value)
    }

    /** The registries start out empty and no credentials are stored. */
    constructor ()
      ensures Valid()
      ensures username.None? && password.None?
      ensures pluginRegistry == [] && themeRegistry == []
    {
      username := None;
      password := None;
      pluginRegistry := [];
      themeRegistry := [];
    }

    method RefreshCredentials(options: Options)
      modifies this
      ensures username == Stored(old(username), options.username)
      ensures password == Stored(old(password), options.password)
      ensures pluginRegistry == old(pluginRegistry) && themeRegistry == old(themeRegistry)
    {
      if !Blank(options.username) {
        username := options.username;
      }
      if !Blank(options.password) {
        password := options.password;
      }
    }

    /**
     * One iteration of the plugin loop: `plugin` is the loop's copy of entry
     * `i`, which decides every step; the writes go to the registry by index.
     */
    method RefreshPluginAt(i: nat, plugin: Entry, authorization: string, fetch: Fetch)
      requires i < |pluginRegistry| && pluginRegistry[i] == plugin
      modifies this
      ensures pluginRegistry == old(pluginRegistry)[i := RefreshedPlugin(plugin, authorization, fetch)]
      ensures username == old(username) && password == old(password) && themeRegistry == old(themeRegistry)
    {
      ghost var named := Named(plugin, PluginName(plugin.file));
      if !IsEmpty(plugin.file) {
        pluginRegistry := pluginRegistry[i := pluginRegistry[i].(name := Some(PluginName(plugin.file)))];
      }
      assert pluginRegistry == old(pluginRegistry)[i := named];
      ghost var looked := LookedUp(named, authorization, fetch);
      if Blank(plugin.latestVersion) {
        var response := fetch(TagRequest(TagsUrl(plugin.repository), authorization));
        if response.Some? && !Blank(response.value.name) {
          pluginRegistry := pluginRegistry[i := pluginRegistry[i].(latestVersion := response.value.name)];
        }
        if response.Some? && !Blank(response.value.date) {
          pluginRegistry := pluginRegistry[i := pluginRegistry[i].(latestDate := response.value.date)];
        }
        if response.Some? && !Blank(response.value.message) {
          pluginRegistry := pluginRegistry[i := pluginRegistry[i].(latestMessage := response.value.message)];
        }
      }
      assert pluginRegistry == old(pluginRegistry)[i := looked];
      if !Blank(plugin.latestVersion) {
        pluginRegistry := pluginRegistry[i := pluginRegistry[i].(
          latestPackage := Some(PackageUrl(plugin.repository, plugin.latestVersion.value)))];
      }
    }

    /** One iteration of the theme loop: entry `i` is updated through a reference, each step reading the last. */
    method RefreshThemeAt(i: nat, authorization: string, fetch: Fetch)
      requires i < |themeRegistry|
      modifies this
      ensures themeRegistry == old(themeRegistry)[i := RefreshedTheme(old(themeRegistry)[i], authorization, fetch)]
      ensures username == old(username) && password == old(password) && pluginRegistry == old(pluginRegistry)
    {
      var theme := themeRegistry[i];
      if !IsEmpty(theme.file) {
        theme := theme.(name := Some(ThemeName(theme.file)));
      }
      if Blank(theme.latestVersion) {
        var response := fetch(TagRequest(TagsUrl(theme.repository), authorization));
        if response.Some? && !Blank(response.value.name) {
          theme := theme.(latestVersion := response.value.name);
        }
        if response.Some? && !Blank(response.value.date) {
          theme := theme.(latestDate := response.value.date);
        }
        if response.Some? && !Blank(response.value.message) {
          theme := theme.(latestMessage := response.value.message);
        }
      }
      if !Blank(theme.latestVersion) {
        theme := theme.(latestPackage := Some(PackageUrl(theme.repository, theme.latestVersion.value)));
      }
      themeRegistry := themeRegistry[i := theme];
    }

    /**
     * Refreshes every plugin entry. The loop reads each entry from the copy
     * taken when it starts and writes the registry by index, so the package
     * step sees the version the entry had before this pass.
     */
    method RefreshPluginRegistry(options: Options, fetch: Fetch)
      modifies this
      ensures username == Stored(old(username), options.username)
      ensures password == Stored(old(password), options.password)
      ensures pluginRegistry ==
        if HasCredentials() then RefreshAll(Plugin, old(pluginRegistry), Authorization(), fetch)
        else old(pluginRegistry)
      ensures themeRegistry == old(themeRegistry)
      ensures old(Valid()) ==> Valid()
    {
      RefreshCredentials(options);
      if Blank(username) || Blank(password) {
        return;
      }
      if pluginRegistry == [] {
        return;
      }
      var authorization := BasicAuthorization(username.value, password.value);
      var copy := pluginRegistry;
      var i := 0;
      while i < |copy|
        invariant 0 <= i <= |copy| == |pluginRegistry|
        invariant forall j :: 0 <= j < i ==> pluginRegistry[j] == RefreshedPlugin(copy[j], authorization, fetch)
        invariant forall j :: i <= j < |copy| ==> pluginRegistry[j] == copy[j]
        invariant username == Stored(old(username), options.username) && password == Stored(old(password), options.password)
        invariant themeRegistry == old(themeRegistry)
      {
        RefreshPluginAt(i, copy[i], authorization, fetch);
        i := i + 1;
      }
      ghost var expected := RefreshAll(Plugin, copy, authorization, fetch);
      assert pluginRegistry == expected;
      RefreshAllKeeps(Plugin, copy, authorization, fetch);
    }

    /**
     * Refreshes every theme entry. The loop works on each entry by reference,
     * so the package step sees the version the tag step has just written.
     */
    method RefreshThemeRegistry(options: Options, fetch: Fetch)
      modifies this
      ensures username == Stored(old(username), options.username)
      ensures password == Stored(old(password), options.password)
      ensures themeRegistry ==
        if HasCredentials() then RefreshAll(Theme, old(themeRegistry), Authorization(), fetch)
        else old(themeRegistry)
      ensures pluginRegistry == old(pluginRegistry)
      ensures old(Valid()) ==> Valid()
    {
      RefreshCredentials(options);
      if Blank(username) || Blank(password) {
        return;
      }
      if themeRegistry != [] {
        var authorization := BasicAuthorization(username.value, password.value);
        ghost var before := themeRegistry;
        var i := 0;
        while i < |themeRegistry|
          invariant 0 <= i <= |themeRegistry| == |before|
          invariant forall j :: 0 <= j < i ==> themeRegistry[j] == RefreshedTheme(before[j], authorization, fetch)
          invariant forall j :: i <= j < |before| ==> themeRegistry[j] == before[j]
          invariant username == Stored(old(username), options.username) && password == Stored(old(password), options.password)
          invariant pluginRegistry == old(pluginRegistry)
        {
          RefreshThemeAt(i, authorization, fetch);
          i := i + 1;
        }
        ghost var expected := RefreshAll(Theme, before, authorization, fetch);
        assert themeRegistry == expected;
        RefreshAllKeeps(Theme, before, authorization, fetch);
      }
    }

    /** `refresh_registry`: the plugin pass, then the theme pass. */
    method RefreshRegistry(options: Options, fetch: Fetch)
      modifies this
      ensures username == Stored(old(username), options.username)
      ensures password == Stored(old(password), options.password)
      ensures HasCredentials() ==>
        && pluginRegistry == RefreshAll(Plugin, old(pluginRegistry), Authorization(), fetch)
        && themeRegistry == RefreshAll(Theme, old(themeRegistry), Authorization(), fetch)
      ensures !HasCredentials() ==> pluginRegistry == old(pluginRegistry) && themeRegistry == old(themeRegistry)
      ensures old(Valid()) ==> Valid()
    {
      RefreshPluginRegistry(options, fetch);
      RefreshThemeRegistry(options, fetch);
      StoredNeverClears(old(username), options.username);
      StoredNeverClears(old(password), options.password);
    }

    /** Appends an entry for `file` and `repository` (duplicates included), then refreshes the plugins. */
    method RegisterPlugin(file: string, repository: string, options: Options, fetch: Fetch)
      modifies this
      ensures username == Stored(old(username), options.username)
      ensures password == Stored(old(password), options.password)
      ensures var appended := old(pluginRegistry) + [NewEntry(file, repository)];
        pluginRegistry == if HasCredentials() then RefreshAll(Plugin, appended, Authorization(), fetch) else appended
      ensures |pluginRegistry| == |old(pluginRegistry)| + 1
      ensures pluginRegistry[|old(pluginRegistry)|].file == file
      ensures pluginRegistry[|old(pluginRegistry)|].repository == repository
      ensures forall j :: 0 <= j < |old(pluginRegistry)| ==>
        pluginRegistry[j].file == old(pluginRegistry)[j].file && pluginRegistry[j].repository == old(pluginRegistry)[j].repository
      ensures themeRegistry == old(themeRegistry)
      ensures old(Valid()) ==> Valid()
    {
      pluginRegistry := pluginRegistry + [NewEntry(file, repository)];
      assert old(Valid()) ==> Valid() by {
        if old(Valid()) {
          AppendUnresolved(old(pluginRegistry), file, repository);
        }
      }
      ghost var appended := pluginRegistry;
      RefreshPluginRegistry(options, fetch);
      if HasCredentials() {
        RegisterThenRefresh(Plugin, old(pluginRegistry), file, repository, Authorization(), fetch);
      } else {
        assert pluginRegistry == appended;
        assert forall j :: 0 <= j < |old(pluginRegistry)| ==> appended[j] == old(pluginRegistry)[j];
      }
    }

    /** Appends an entry for `file` and `repository` (duplicates included), then refreshes the themes. */
    method RegisterTheme(file: string, repository: string, options: Options, fetch: Fetch)
      modifies this
      ensures username == Stored(old(username), options.username)
      ensures password == Stored(old(password), options.password)
      ensures var appended := old(themeRegistry) + [NewEntry(file, repository)];
        themeRegistry == if HasCredentials() then RefreshAll(Theme, appended, Authorization(), fetch) else appended
      ensures |themeRegistry| == |old(themeRegistry)| + 1
      ensures themeRegistry[|old(themeRegistry)|].file == file
      ensures themeRegistry[|old(themeRegistry)|].repository == repository
      ensures forall j :: 0 <= j < |old(themeRegistry)| ==>
        themeRegistry[j].file == old(themeRegistry)[j].file && themeRegistry[j].repository == old(themeRegistry)[j].repository
      ensures pluginRegistry == old(pluginRegistry)
      ensures old(Valid()) ==> Valid()
    {
      themeRegistry := themeRegistry + [NewEntry(file, repository)];
      assert old(Valid()) ==> Valid() by {
        if old(Valid()) {
          AppendUnresolved(old(themeRegistry), file, repository);
        }
      }
      ghost var appended := themeRegistry;
      RefreshThemeRegistry(options, fetch);
      if HasCredentials() {
        RegisterThenRefresh(Theme, old(themeRegistry), file, repository, Authorization(), fetch);
      } else {
        assert themeRegistry == appended;
        assert forall j :: 0 <= j < |old(themeRegistry)| ==> appended[j] == old(themeRegistry)[j];
      }
    }

    /** The update loop shared by the two `pre_set_site_transient_update_*` filters. */
    method CollectOffers(kind: Kind, registry: seq<Entry>, checked: map<string, string>, newer: Newer,
                         response: map<string, Offer>) returns (result: map<string, Offer>)
      ensures result == Offers(kind, registry, checked, newer, response)
    {
      result := response;
      var i := 0;
      while i < |registry|
        invariant 0 <= i <= |registry|
        invariant Offers(kind, registry[i..], checked, newer, result) == Offers(kind, registry, checked, newer, response)
      {
        var entry := registry[i];
        assert registry[i..][1..] == registry[i + 1..];
        i := i + 1;
        if Blank(entry.name) {
          continue;
        }
        if Blank(entry.latestVersion) {
          continue;
        }
        if entry.name.value !in checked || IsEmpty(checked[entry.name.value]) {
          continue;
        }
        if !newer(entry.latestVersion.value, checked[entry.name.value]) {
          continue;
        }
        result := result[entry.name.value := OfferFor(kind, entry)];
      }
    }

    /** A transient without `checked` is returned as is; otherwise the plugin offers are written into its response. */
    method PreSetSiteTransientUpdatePlugins(transient: Transient, newer: Newer) returns (result: Transient)
      ensures transient.checked.None? ==> result == transient
      ensures transient.checked.Some? ==>
        result == transient.(response := Offers(Plugin, pluginRegistry, transient.checked.value, newer, transient.response))
    {
      if transient.checked.None? {
        return transient;
      }
      result := transient;
      if pluginRegistry != [] {
        var response := CollectOffers(Plugin, pluginRegistry, transient.checked.value, newer, transient.response);
        result := result.(response := response);
      }
    }

    /** A transient without `checked` is returned as is; otherwise the theme offers are written into its response. */
    method PreSetSiteTransientUpdateThemes(transient: Transient, newer: Newer) returns (result: Transient)
      ensures transient.checked.None? ==> result == transient
      ensures transient.checked.Some? ==>
        result == transient.(response := Offers(Theme, themeRegistry, transient.checked.value, newer, transient.response))
    {
      if transient.checked.None? {
        return transient;
      }
      result := transient;
      if themeRegistry != [] {
        var response := CollectOffers(Theme, themeRegistry, transient.checked.value, newer, transient.response);
        result := result.(response := response);
      }
    }

    /** The information for the first plugin entry whose slug is `slug`, if any. */
    method FindPluginInfo(slug: string) returns (info: Option<PluginInfo>)
      ensures info.None? <==> FirstBySlug(pluginRegistry, slug).None?
      ensures info.Some? ==> info.value == InfoFor(pluginRegistry[FirstBySlug(pluginRegistry, slug).value])
    {
      var i := 0;
      while i < |pluginRegistry|
        invariant 0 <= i <= |pluginRegistry|
        invariant forall j :: 0 <= j < i ==> SlugOf(pluginRegistry[j]) != slug
      {
        var plugin := pluginRegistry[i];
        if FirstSegment(OrEmpty(plugin.name)) == slug {
          FirstBySlugIsFirst(pluginRegistry, slug, i);
          return Some(InfoFor(plugin));
        }
        i := i + 1;
      }
      FirstBySlugIsFirst(pluginRegistry, slug, |pluginRegistry|);
      return None;
    }

    /**
     * `plugins_api`: anything but a `plugin_information` request with a slug
     * passes through untouched; otherwise the plugins are refreshed and the
     * first entry with that slug answers.
     */
    method PluginsApi(action: string, slug: Option<string>, options: Options, fetch: Fetch) returns (answer: ApiAnswer)
      modifies this
      ensures IsEmpty(action) || action != "plugin_information" || Blank(slug) ==>
        answer == PassThrough && unchanged(this)
      ensures !(IsEmpty(action) || action != "plugin_information" || Blank(slug)) ==>
        && username == Stored(old(username), options.username)
        && password == Stored(old(password), options.password)
        && pluginRegistry == (if HasCredentials() then RefreshAll(Plugin, old(pluginRegistry), Authorization(), fetch)
                              else old(pluginRegistry))
        && answer == match FirstBySlug(pluginRegistry, slug.value)
                     case None => PassThrough
                     case Some(i) => Information(InfoFor(pluginRegistry[i]))
      ensures themeRegistry == old(themeRegistry)
      ensures old(Valid()) ==> Valid()
    {
      if IsEmpty(action) || action != "plugin_information" {
        return PassThrough;
      }
      if Blank(slug) {
        return PassThrough;
      }
      RefreshPluginRegistry(options, fetch);
      answer := PassThrough;
      if pluginRegistry != [] {
        var info := FindPluginInfo(slug.value);
        if info.Some? {
          answer := Information(info.value);
        }
      }
    }

    /** Every non-empty package URL of the plugin registry, then of the theme registry. */
    method LatestPackages() returns (packages: seq<string>)
      ensures packages == Packages(pluginRegistry) + Packages(themeRegistry)
    {
      packages := [];
      var i := 0;
      while i < |pluginRegistry|
        invariant 0 <= i <= |pluginRegistry|
        invariant packages == Packages(pluginRegistry[..i])
      {
        assert pluginRegistry[..i + 1][..i] == pluginRegistry[..i];
        var plugin := pluginRegistry[i];
        i := i + 1;
        if Blank(plugin.latestPackage) {
          continue;
        }
        packages := packages + [plugin.latestPackage.value];
      }
      assert pluginRegistry[..i] == pluginRegistry;
      ghost var fromPlugins := packages;
      i := 0;
      while i < |themeRegistry|
        invariant 0 <= i <= |themeRegistry|
        invariant packages == fromPlugins + Packages(themeRegistry[..i])
      {
        assert themeRegistry[..i + 1][..i] == themeRegistry[..i];
        var theme := themeRegistry[i];
        i := i + 1;
        if Blank(theme.latestPackage) {
          continue;
        }
        packages := packages + [theme.latestPackage.value];
      }
      assert themeRegistry[..i] == themeRegistry;
    }

    /**
     * `http_request_args`: a request for one of the registered package URLs
     * gets the stored credentials as its only header; any other request is
     * returned unchanged.
     */
    method HttpRequestArgs(r: RequestArgs, url: string, options: Options) returns (r': RequestArgs)
      modifies this
      ensures var listed := url in Packages(old(pluginRegistry)) + Packages(old(themeRegistry));
        && (listed ==>
              && username == Stored(old(username), options.username)
              && password == Stored(old(password), options.password)
              && r' == WithAuthorization(r, BasicAuthorization(OrEmpty(username), OrEmpty(password))))
        && (!listed ==> r' == r && unchanged(this))
      ensures pluginRegistry == old(pluginRegistry) && themeRegistry == old(themeRegistry)
      ensures Valid() && r'.headers != r.headers ==> |url| >= 22 && url[..22] == "https://bitbucket.org/"
    {
      var latestPackages := LatestPackages();
      if url in latestPackages {
        RefreshCredentials(options);
        r' := WithAuthorization(r, BasicAuthorization(OrEmpty(username), OrEmpty(password)));
        if Valid() {
          if url in Packages(pluginRegistry) {
            PackagesAreBitbucket(pluginRegistry, url);
          } else {
            PackagesAreBitbucket(themeRegistry, url);
          }
        }
      } else {
        r' := r;
      }
    }
  }

  /** `FirstBySlug` finds position `i` when no earlier entry has the slug and entry `i` (if any) does. */
  lemma {:induction false} FirstBySlugIsFirst(reg: seq<Entry>, slug: string, i: int)
    requires 0 <= i <= |reg|
    requires forall j :: 0 <= j < i ==> SlugOf(reg[j]) != slug
    requires i < |reg| ==> SlugOf(reg[i]) == slug
    ensures i < |reg| ==> FirstBySlug(reg, slug) == Some(i)
    ensures i == |reg| ==> FirstBySlug(reg, slug).None?
  {
    var r := FirstBySlug(reg, slug);
    if r.Some? {
      assert !(r.value < i);
    }
  }
}
