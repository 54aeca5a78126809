/**
 * What the WordPress filters decide from the registries: which updates to
 * offer (`pre_set_site_transient_update_plugins` / `_themes`), which entry
 * answers a `plugins_api` request, and which download URLs get the Basic
 * credentials (`http_request_args`).
 */
module Decisions {
  import opened Wrappers
  import opened PhpStrings
  import opened Registry

  // ---- Update offers ----

  /** One value of `$transient->response`. */
  datatype Offer =
    | PluginOffer(id: string, slug: string, plugin: string, newVersion: string, url: string, package: Option<string>)
    | ThemeOffer(theme: string, newVersion: string, package: Option<string>)

  /** The update transient: `checked` is absent when the property does not exist. */
  datatype Transient = Transient(checked: Option<map<string, string>>, response: map<string, Offer>)

  /** `version_compare($a, $b, 'gt')`, supplied by the caller. */
  type Newer = (string, string) -> bool

  /** All four skip tests of the update loop pass for this entry. */
  predicate Qualifies(e: Entry, checked: map<string, string>, newer: Newer) {
    && !Blank(e.name)
    && !Blank(e.latestVersion)
    && e.name.value in checked && !IsEmpty(checked[e.name.value])
    && newer(e.latestVersion.value, checked[e.name.value])
  }

  /** The offer written for a qualifying entry; note the plugin offer's `url` lacks the colon after "https". */
  function OfferFor(kind: Kind, e: Entry): (o: Offer)
    requires e.name.Some? && e.latestVersion.Some?
    ensures o.newVersion == e.latestVersion.value && o.package == e.latestPackage
  {
    match kind
    case Plugin =>
      PluginOffer("bitbucket.org/" + e.repository, FirstSegment(e.name.value), e.name.value,
                  e.latestVersion.value, "https//bitbucket.org/" + e.repository, e.latestPackage)
    case Theme => ThemeOffer(e.name.value, e.latestVersion.value, e.latestPackage)
  }

  /** The update loop over `reg`, in order, starting from `response`. */
  function Offers(kind: Kind, reg: seq<Entry>, checked: map<string, string>, newer: Newer,
                  response: map<string, Offer>): map<string, Offer>
    decreases |reg|
  {
    if reg == [] then response
    else
      var next := if Qualifies(reg[0], checked, newer)
        then response[reg[0].name.value := OfferFor(kind, reg[0])] else response;
      Offers(kind, reg[1..], checked, newer, next)
  }

  /** Entry `j` of `reg` qualifies and is named `k`. */
  predicate OffersAt(reg: seq<Entry>, j: int, k: string, checked: map<string, string>, newer: Newer) {
    0 <= j < |reg| && Qualifies(reg[j], checked, newer) && reg[j].name.value == k
  }

  /** The loop adds exactly the names of qualifying entries to the response keys. */
  lemma {:induction false} OffersKeys(kind: Kind, reg: seq<Entry>, checked: map<string, string>, newer: Newer,
                                      response: map<string, Offer>, k: string)
    ensures k in Offers(kind, reg, checked, newer, response) <==>
      k in response || exists j :: OffersAt(reg, j, k, checked, newer)
    decreases |reg|
  {
    if reg != [] {
      var next := if Qualifies(reg[0], checked, newer)
        then response[reg[0].name.value := OfferFor(kind, reg[0])] else response;
      OffersKeys(kind, reg[1..], checked, newer, next, k);
      if Qualifies(reg[0], checked, newer) && reg[0].name.value == k {
        assert OffersAt(reg, 0, k, checked, newer);
      }
      if exists j :: OffersAt(reg[1..], j, k, checked, newer) {
        var j :| OffersAt(reg[1..], j, k, checked, newer);
        assert OffersAt(reg, j + 1, k, checked, newer);
      }
      if exists j :: OffersAt(reg, j, k, checked, newer) {
        var j :| OffersAt(reg, j, k, checked, newer);
        if j > 0 {
          assert OffersAt(reg[1..], j - 1, k, checked, newer);
        }
      }
    }
  }

  /** A key that no qualifying entry is named after keeps its old response value. */
  lemma {:induction false} OffersUntouched(kind: Kind, reg: seq<Entry>, checked: map<string, string>, newer: Newer,
                                           response: map<string, Offer>, k: string)
    requires k in response
    requires forall j :: !OffersAt(reg, j, k, checked, newer)
    ensures k in Offers(kind, reg, checked, newer, response)
    ensures Offers(kind, reg, checked, newer, response)[k] == response[k]
    decreases |reg|
  {
    if reg != [] {
      assert !OffersAt(reg, 0, k, checked, newer);
      var next := if Qualifies(reg[0], checked, newer)
        then response[reg[0].name.value := OfferFor(kind, reg[0])] else response;
      forall j | 0 <= j ensures !OffersAt(reg[1..], j, k, checked, newer) {
        assert !OffersAt(reg, j + 1, k, checked, newer);
      }
      OffersUntouched(kind, reg[1..], checked, newer, next, k);
    }
  }

  /** When several qualifying entries share a name, the last one's offer is the one left. */
  lemma {:induction false} OffersLastWins(kind: Kind, reg: seq<Entry>, checked: map<string, string>, newer: Newer,
                                          response: map<string, Offer>, k: string, j: int)
    requires OffersAt(reg, j, k, checked, newer)
    requires forall i :: j < i < |reg| ==> !OffersAt(reg, i, k, checked, newer)
    ensures k in Offers(kind, reg, checked, newer, response)
    ensures Offers(kind, reg, checked, newer, response)[k] == OfferFor(kind, reg[j])
    decreases |reg|
  {
    var next := if Qualifies(reg[0], checked, newer)
      then response[reg[0].name.value := OfferFor(kind, reg[0])] else response;
    if j == 0 {
      forall i | 0 <= i ensures !OffersAt(reg[1..], i, k, checked, newer) {
        assert !OffersAt(reg, i + 1, k, checked, newer);
      }
      OffersUntouched(kind, reg[1..], checked, newer, next, k);
    } else {
      assert OffersAt(reg[1..], j - 1, k, checked, newer);
      forall i | j - 1 < i < |reg| - 1 ensures !OffersAt(reg[1..], i, k, checked, newer) {
        assert !OffersAt(reg, i + 1, k, checked, newer);
      }
      OffersLastWins(kind, reg[1..], checked, newer, next, k, j - 1);
    }
  }

  /**
   * Every offer the loop writes is for a strictly newer, non-empty version than
   * the installed one, carries the entry's package, and for a plugin has as slug
   * the part of the name before its first '/'.
   */
  lemma OffersAreUpgrades(kind: Kind, reg: seq<Entry>, checked: map<string, string>, newer: Newer,
                          response: map<string, Offer>, j: int)
    requires 0 <= j < |reg| && reg[j].name.Some?
    requires OffersAt(reg, j, reg[j].name.value, checked, newer)
    requires forall i :: j < i < |reg| ==> !OffersAt(reg, i, reg[j].name.value, checked, newer)
    ensures reg[j].name.value in Offers(kind, reg, checked, newer, response)
    ensures var name := reg[j].name.value;
      var o := Offers(kind, reg, checked, newer, response)[name];
      && !IsEmpty(o.newVersion)
      && newer(o.newVersion, checked[name])
      && o.package == reg[j].latestPackage
    ensures var name := reg[j].name.value;
      var o := Offers(kind, reg, checked, newer, response)[name];
      kind == Plugin ==>
        && o.PluginOffer? && o.plugin == name
        && o.slug <= name && '/' !in o.slug && (|o.slug| < |name| ==> name[|o.slug|] == '/')
  {
    OffersLastWins(kind, reg, checked, newer, response, reg[j].name.value, j);
    FirstSegmentIsPrefix(reg[j].name.value);
  }

  // ---- plugins_api ----

  /** The slug of an entry; an entry with no name yet reads as the empty slug. */
  function SlugOf(e: Entry): string {
    FirstSegment(OrEmpty(e.name))
  }

  /** The answer of `plugins_api` built from the registry (plugin header fields are not modelled). */
  datatype PluginInfo = PluginInfo(
    slug: string,
    downloadLink: Option<string>,
    version: Option<string>,
    lastUpdated: Option<string>,
    updates: string)

  /** Either `$result` unchanged, or the information object. */
  datatype ApiAnswer = PassThrough | Information(info: PluginInfo)

  function InfoFor(e: Entry): PluginInfo {
    PluginInfo(SlugOf(e), e.latestPackage, e.latestVersion, e.latestDate,
               Nl2br(if Blank(e.latestMessage) then "" else e.latestMessage.value))
  }

  /** The position of the first entry whose slug is `slug`. */
  function FirstBySlug(reg: seq<Entry>, slug: string): (r: Option<nat>)
    ensures r.Some? ==> r.value < |reg| && SlugOf(reg[r.value]) == slug
    ensures r.Some? ==> forall i :: 0 <= i < r.value ==> SlugOf(reg[i]) != slug
    ensures r.None? ==> forall i :: 0 <= i < |reg| ==> SlugOf(reg[i]) != slug
  {
    if reg == [] then None
    else if SlugOf(reg[0]) == slug then Some(0)
    else match FirstBySlug(reg[1..], slug)
      case None => None
      case Some(i) => Some(i + 1)
  }

  // ---- http_request_args ----

  /** The non-empty `latest_package` values of a registry, in order. */
  function Packages(reg: seq<Entry>): seq<string>
  {
    if reg == [] then []
    else
      var last := reg[|reg| - 1];
      Packages(reg[..|reg| - 1]) + (if Blank(last.latestPackage) then [] else [last.latestPackage.value])
  }

  /** A URL is listed exactly when some entry has it as a non-empty package URL. */
  lemma {:induction false} PackagesMembership(reg: seq<Entry>, url: string)
    ensures url in Packages(reg) <==>
      exists j :: 0 <= j < |reg| && reg[j].latestPackage == Some(url) && !IsEmpty(url)
  {
    if reg != [] {
      var init := reg[..|reg| - 1];
      PackagesMembership(init, url);
      if exists j :: 0 <= j < |init| && init[j].latestPackage == Some(url) && !IsEmpty(url) {
        var j :| 0 <= j < |init| && init[j].latestPackage == Some(url) && !IsEmpty(url);
        assert reg[j] == init[j];
      }
      if exists j :: 0 <= j < |reg| && reg[j].latestPackage == Some(url) && !IsEmpty(url) {
        var j :| 0 <= j < |reg| && reg[j].latestPackage == Some(url) && !IsEmpty(url);
        if j < |init| {
          assert init[j] == reg[j];
        }
      }
    }
  }

  /** In a consistent registry, every listed URL is a bitbucket.org package URL of one of its entries. */
  lemma PackagesAreBitbucket(reg: seq<Entry>, url: string)
    requires AllConsistent(reg)
    requires url in Packages(reg)
    ensures exists j :: (0 <= j < |reg| && !Blank(reg[j].latestVersion)
                         && url == PackageUrl(reg[j].repository, reg[j].latestVersion.value))
    ensures |url| >= 22 && url[..22] == "https://bitbucket.org/"
  {
    PackagesMembership(reg, url);
    var j :| 0 <= j < |reg| && reg[j].latestPackage == Some(url) && !IsEmpty(url);
    assert PackageConsistent(reg[j]);
    PackageUrlShape(reg[j].repository, reg[j].latestVersion.value);
  }

  /** The arguments of an outgoing request; only `headers` matters here. */
  datatype RequestArgs = RequestArgs(headers: map<string, string>, others: map<string, string>)

  /** `$r['headers']` replaced by the single Basic `Authorization` header. */
  function WithAuthorization(r: RequestArgs, authorization: string): (r': RequestArgs)
    ensures r'.headers.Keys == {"Authorization"} && r'.headers["Authorization"] == authorization
    ensures r'.others == r.others
  {
    r.(headers := map["Authorization" := authorization])
  }
}
