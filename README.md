# Bitbucket Deploy: registry and update resolution

This project models the core of the `BitbucketDeploy` WordPress plugin class in
`bitbucket-deploy.php` and proves properties of that model. The class keeps two
in-memory registries of plugins and themes that are deployed from Bitbucket
repositories. Each registry entry holds:

- `file` and `repository`, given at registration;
- `name`, derived from `file`;
- `latest_version`, `latest_date`, `latest_message` and `latest_package`,
  filled in from the first tag that Bitbucket's tag listing returns.

WordPress calls four kinds of filter that read the registries:

- the update transients, which offer newer versions;
- `plugins_api`, which answers information requests by slug;
- `http_request_args`, which adds HTTP Basic credentials to package downloads;
- the upgrader hooks, which decide where an unpacked archive goes.

The model is organised in these modules:

- `Wrappers`: `Option`.
- `PhpStrings`: the PHP string built-ins the class relies on, with their edge
  cases. These are `empty()` on strings (`""` and `"0"` are empty), `explode`,
  `implode`, `array_slice(…, -2)`, `current()` and `nl2br`.
- `Versions`: a dotted-numeric version comparison. It is one instance of the
  `version_compare(…, 'gt')` parameter, and it is proved to be a strict order.
- `Encoding`: the Basic `Authorization` header of section 2 of RFC 7617. The
  model builds it from the UTF-8 bytes of `user:password`, base64-encoded as in
  section 4 of RFC 4648. A decoder is proved to invert the encoder.
- `Registry`: entries, how names, slugs and URLs are derived, and what one
  refresh pass does to one entry and to a whole registry. It also states the
  package invariant: a set `latest_package` is the archive URL of the entry's
  own `latest_version`.
- `Decisions`: the update-offer loop, the first-match slug lookup, the list of
  package URLs and the header replacement.
- `Upgrader`: the source and target directory names of the install hooks.
- `Deploy`: the `BitbucketDeploy` class itself. Its fields are the stored
  credentials and the two registries as `seq` fields. Its methods update those
  fields in place, proved against the functions above. `Valid()` is the package
  invariant over both registries, and every method keeps it.

Two behaviours are reproduced as the code has them, not corrected:

- The plugin loop iterates over a copy of the registry (line 71) but writes by
  index. So the package URL is built from the version the entry had *before*
  the pass, and it appears one refresh after the version is first fetched
  (`Registry.PluginPackageLagsOnePass`). The theme loop iterates by reference
  (line 117), so a theme gets its package in the same pass
  (`Registry.ThemePackageSamePass`).
- The plugin offer's `url` is `'https//bitbucket.org/' . repository`, without
  the colon (line 290).

Three consequences of the code are worth stating outright:

- A set `latest_package` implies a set `latest_version`, but not the
  converse. A plugin whose version was just fetched has no package until the
  next pass, and that pass adds it (lines 71, 101-103). The one-way form is the
  invariant `Registry.PackageConsistent`. So once a plugin has a version, one
  more refresh still changes its `latest_package`. After that, the entry is a
  fixed point (`Registry.ResolvedIsStable`).
- A plugin's name keeps only the last two segments of its file path. A plugin
  file `acme/plugin/acme.php` is named `plugin/acme.php` (line 75,
  `Registry.PluginNameIsTail`). That name is the key the update check looks up
  in the installed versions (line 279).
- An update offer carries the entry's `latest_package` as it stands
  (`Decisions.OffersAreUpgrades`). So a plugin whose version was fetched on
  its latest refresh is offered with `package` unset until the next refresh
  (`Registry.PluginPackageLagsOnePass`, line 291).

The tag listing is a parameter, `fetch: TagRequest -> Option<Tag>`. It stands
for the authenticated `wp_remote_get` plus `json_decode`, and yields the first
tag with each field possibly unset. The stored option is the parameter
`options: Options`, and `version_compare` is the parameter `newer`.

## Model

| member | source | states |
|---|---|---|
| PhpStrings.IsEmpty | bitbucket-deploy.php:51 | `empty()` of a string: `""` and `"0"` are empty, every other string is not |
| PhpStrings.Blank | bitbucket-deploy.php:84 | `empty()` of an array slot: an unset slot or an empty string |
| PhpStrings.OrEmpty | bitbucket-deploy.php:532 | PHP reading an unset value in string context as `""` (also the unset name at line 353) |
| PhpStrings.Explode | bitbucket-deploy.php:75 | `explode` yields at least one part, and no part contains the separator |
| PhpStrings.LastTwo | bitbucket-deploy.php:75 | `array_slice($parts, -2)` is the suffix of at most two parts, exactly two when there are two or more |
| PhpStrings.ImplodeExplode | bitbucket-deploy.php:75 | joining the parts of `explode` with the separator gives back the original string |
| PhpStrings.ExplodeImplode | bitbucket-deploy.php:75 | exploding a join of separator-free parts gives back those parts |
| PhpStrings.Implode | bitbucket-deploy.php:75 | `implode('/', …)`: the parts joined by the separator; its meaning is stated by `PhpStrings.ImplodeExplode` and `PhpStrings.ExplodeImplode` |
| PhpStrings.FirstSegment | bitbucket-deploy.php:287 | `current(explode('/', $name))`, the slug (also lines 353, 402, 462); stated by `PhpStrings.FirstSegmentIsPrefix` |
| PhpStrings.FirstSegmentIsPrefix | bitbucket-deploy.php:287 | `current(explode('/', $name))` is a prefix of the name without '/', and is followed by '/' when it is shorter |
| PhpStrings.Nl2br | bitbucket-deploy.php:371 | `nl2br`: `<br />` is inserted before each line break, `\r\n` and `\n\r` counting as one; its identity on break-free text is `PhpStrings.Nl2brWithoutBreaks` |
| PhpStrings.Nl2brWithoutBreaks | bitbucket-deploy.php:371 | `nl2br` leaves a message without line breaks unchanged |
| Versions.DottedGreater | bitbucket-deploy.php:282 | `version_compare($a, $b, 'gt')` on dotted-numeric versions: component-wise comparison as unbounded numbers, the longer one newer on a tie (the limits are under Left out); stated by `Versions.DottedGreaterIsStrictOrder`, `Versions.DottedGreaterTotal` and `Versions.NumericComponents` |
| Versions.DottedGreaterIsStrictOrder | bitbucket-deploy.php:282 | the dotted-numeric comparison used for `version_compare(…, 'gt')` is irreflexive, asymmetric and transitive |
| Versions.DottedGreaterTotal | bitbucket-deploy.php:282 | two well-formed versions whose numbers differ are always ordered one way or the other |
| Versions.ParseThreeDigits | bitbucket-deploy.php:282 | a version of three one-digit components parses to those three numbers |
| Versions.ParseNumbers | bitbucket-deploy.php:282 | a dotted join of decimal numbers parses to exactly those numbers, component by component, whatever their number of digits |
| Versions.NumericComponents | bitbucket-deploy.php:282 | components compare as numbers, not as text: `1.10.0` is newer than `1.9.0` |
| Encoding.Utf8 | bitbucket-deploy.php:87 | the bytes of `$this->username.':'.$this->password` as `base64_encode` reads them (also line 532): one to four bytes per character; stated by `Encoding.Utf8Append` and `Encoding.Utf8Ascii` |
| Encoding.Utf8Append | bitbucket-deploy.php:87 | the bytes of `username.':'.password` are the bytes of the parts, concatenated |
| Encoding.Utf8Ascii | bitbucket-deploy.php:87 | an ASCII string is its own byte string |
| Encoding.IndexAlphabet | bitbucket-deploy.php:87 | every base64 character maps back to its 6-bit value |
| Encoding.Base64Encode | bitbucket-deploy.php:87 | `base64_encode`: the RFC 4648 alphabet over the 6-bit groups of the bytes, padded with `=` to a multiple of four; pinned down by `Encoding.Base64RoundTrip` and `Encoding.EncodedLength` |
| Encoding.EncodedLength | bitbucket-deploy.php:87 | `base64_encode` output has length 4·⌈n/3⌉, a multiple of four |
| Encoding.RegroupSextets | bitbucket-deploy.php:87 | the 6-bit groups of a byte string regroup into exactly those bytes |
| Encoding.Base64RoundTrip | bitbucket-deploy.php:87 | decoding `base64_encode(bs)` gives back `bs` |
| Encoding.BasicAuthorization | bitbucket-deploy.php:532 | the header value `'Basic '.base64_encode($username.':'.$password)` over the UTF-8 bytes; its meaning is stated by `Encoding.BasicAuthorizationDecodes` |
| Encoding.BasicAuthorizationDecodes | bitbucket-deploy.php:532 | the header value is `Basic ` followed by a base64 text that decodes to the bytes of `username:password` |
| Registry.NewEntry | bitbucket-deploy.php:244-247 | a registered entry has the given `file` and `repository`, and no name, version or package |
| Registry.TagsUrl | bitbucket-deploy.php:86 | the tag-listing endpoint of a repository, tags sorted by name in descending text order (not by recency) |
| Registry.PackageUrl | bitbucket-deploy.php:102 | the archive URL of a repository at a version; its shape is `Registry.PackageUrlShape` |
| Registry.PluginName | bitbucket-deploy.php:75 | a plugin's name from its file path; its meaning is stated by `Registry.PluginNameImplodes`, `Registry.PluginNameSegments` and `Registry.PluginNameIsTail` |
| Registry.ThemeName | bitbucket-deploy.php:121 | a theme's name: the first of the last two path segments, i.e. the directory holding the file when the path has two or more segments, and the file name itself otherwise (`Registry.SlugOfPluginName`) |
| Registry.Named | bitbucket-deploy.php:74-75 | the name step: an entry with a non-empty `file` gets the derived name, any other keeps its own (also lines 120-121); stated by `Registry.RefreshNames` |
| Registry.WithTag | bitbucket-deploy.php:89-97 | the tag step's writes: each `latest_*` field taken only from a non-empty field of the first tag (also lines 135-143); stated by `Registry.LookupTakesNonEmptyFields` and `Registry.EmptyResponseKeepsLatest` |
| Registry.LookedUp | bitbucket-deploy.php:84-88 | the listing is fetched, with the Basic header, only for an entry with no version (also lines 130-134); stated by `Registry.CachedVersionKept` and `Registry.LookupTakesNonEmptyFields` |
| Registry.Packaged | bitbucket-deploy.php:101-103 | the package step: the archive URL of the version the loop reads, when that version is non-empty (also lines 147-149); stated by `Registry.RefreshConsistent`, `Registry.ThemePackageSamePass` and `Registry.PluginPackageLagsOnePass` |
| Registry.RefreshedPlugin | bitbucket-deploy.php:71-103 | one plugin loop body judged from the loop's copy: name step, lookup only without a version, package from the copy's version; stated by `Registry.RefreshNames`, `Registry.CachedVersionKept`, `Registry.LookupTakesNonEmptyFields` and `Registry.PluginPackageLagsOnePass` |
| Registry.RefreshedTheme | bitbucket-deploy.php:117-149 | one by-reference theme loop body: name step, lookup only without a version, package from the version just written; stated by `Registry.RefreshNames`, `Registry.CachedVersionKept` and `Registry.ThemePackageSamePass` |
| Registry.RefreshAll | bitbucket-deploy.php:71-105 | a pass keeps the registry's length and refreshes each entry on its own |
| Registry.PluginNameImplodes | bitbucket-deploy.php:75 | a plugin's name is the last two '/' segments of its file, joined by '/' |
| Registry.PluginNameSegments | bitbucket-deploy.php:75 | splitting a plugin's name on '/' gives exactly the last (at most two) segments of its file |
| Registry.SlugOfPluginName | bitbucket-deploy.php:75-121 | the slug of a plugin's name is its file's theme name (line 121): the directory holding the file when the path has two or more segments, the file name itself otherwise; it contains no '/' |
| Registry.PluginNameIdempotent | bitbucket-deploy.php:75 | deriving a name from a derived name changes nothing |
| Registry.PluginNameIsTail | bitbucket-deploy.php:75 | the name is the whole file path when it has at most two segments, and otherwise the path is the dropped prefix, '/', then the name |
| Registry.PackageUrlShape | bitbucket-deploy.php:102 | every package URL starts `https://bitbucket.org/` and ends `.zip` |
| Registry.RefreshKeepsIdentity | bitbucket-deploy.php:71-151 | a refresh never changes `file` or `repository` |
| Registry.RefreshNames | bitbucket-deploy.php:74-121 | an entry with a non-empty file gets the plugin or theme name of that file; any other entry keeps its name |
| Registry.CachedVersionKept | bitbucket-deploy.php:84-144 | an entry that already has a version keeps version, date and message, and its refresh does not depend on the network |
| Registry.LookupTakesNonEmptyFields | bitbucket-deploy.php:84-144 | a version-less entry takes each non-empty field of the first tag and keeps its own value for each empty one |
| Registry.EmptyResponseKeepsLatest | bitbucket-deploy.php:89-143 | a failed call or a tag with no non-empty field leaves version, date and message unchanged |
| Registry.RefreshConsistent | bitbucket-deploy.php:101-149 | a refresh keeps "a set package is the archive URL of the entry's own version" |
| Registry.ThemePackageSamePass | bitbucket-deploy.php:117-149 | a theme that has a version after a pass also has that version's package URL |
| Registry.PluginPackageLagsOnePass | bitbucket-deploy.php:71-103 | a plugin's package changes only on a pass that starts with a version, and the next pass supplies the package for the version just fetched |
| Registry.ResolvedIsStable | bitbucket-deploy.php:71-151 | a named entry that already has its version and package is a fixed point of refresh |
| Registry.RefreshAllKeeps | bitbucket-deploy.php:71-151 | a whole pass keeps every `file` and `repository`, and the package invariant |
| Registry.RegisterThenRefresh | bitbucket-deploy.php:239-263 | after appending and refreshing, the new entry is last with its `file` and `repository`, and the earlier entries keep theirs |
| Registry.AppendUnresolved | bitbucket-deploy.php:244-247 | appending a fresh entry keeps the package invariant |
| Decisions.Qualifies | bitbucket-deploy.php:275-282 | an entry gets an offer exactly when it has a name and a version, its installed version is non-empty, and the latest is newer |
| Decisions.Offers | bitbucket-deploy.php:272-292 | the update loop as a fold over the registry in order; stated by `Decisions.OffersKeys`, `Decisions.OffersUntouched`, `Decisions.OffersLastWins` and `Decisions.OffersAreUpgrades` |
| Decisions.OfferFor | bitbucket-deploy.php:285-330 | an offer carries the entry's latest version and its package |
| Decisions.OffersKeys | bitbucket-deploy.php:272-292 | a name is a response key afterwards exactly when it was one before or some qualifying entry has that name |
| Decisions.OffersUntouched | bitbucket-deploy.php:272-292 | a response key that no qualifying entry is named after keeps its value |
| Decisions.OffersLastWins | bitbucket-deploy.php:285 | when several qualifying entries share a name, the last one's offer remains |
| Decisions.OffersAreUpgrades | bitbucket-deploy.php:275-292 | each written offer has a non-empty version newer than the installed one and the entry's package; a plugin offer's slug is the first '/' segment of its name |
| Decisions.InfoFor | bitbucket-deploy.php:359-373 | the registry part of the `plugins_api` answer: slug, package as download link, version, date and the `nl2br` of the message (empty when unset) |
| Decisions.SlugOf | bitbucket-deploy.php:353 | an entry's slug, an unset name reading as `""`; used by `Decisions.FirstBySlug` |
| Decisions.FirstBySlug | bitbucket-deploy.php:350-354 | the position found has the slug and no earlier entry has it; no position means no entry has it |
| Decisions.Packages | bitbucket-deploy.php:514-526 | the non-empty `latest_package` values of a registry, in order; stated by `Decisions.PackagesMembership` |
| Decisions.PackagesMembership | bitbucket-deploy.php:514-526 | a URL is gathered exactly when some entry has it as a non-empty `latest_package` |
| Decisions.PackagesAreBitbucket | bitbucket-deploy.php:514-529 | under the package invariant, every gathered URL is the archive URL of some entry's version on bitbucket.org |
| Decisions.WithAuthorization | bitbucket-deploy.php:532 | the headers become the single `Authorization` header, and the other request arguments stay |
| Upgrader.PluginSourceDirectory | bitbucket-deploy.php:402 | the plugin's new source directory: the slug of its name under the unpacked archive |
| Upgrader.ThemeSourceDirectory | bitbucket-deploy.php:430 | the theme's new source directory: its name under the unpacked archive |
| Upgrader.PluginTargetDirectory | bitbucket-deploy.php:465 | the plugin's install directory: the slug of its name under `plugins/` |
| Upgrader.ThemeTargetDirectory | bitbucket-deploy.php:489 | the theme's install directory: its name under `themes/` |
| Upgrader.PluginDirectoriesFollowFile | bitbucket-deploy.php:402-465 | the source and target directories of a plugin are named by a single segment: the directory holding its file when the path has two or more segments, the file name itself otherwise |
| Upgrader.ThemeDirectoriesFollowFile | bitbucket-deploy.php:430-489 | a theme lands in the directory of its name, the same directory the plugin rule would give |
| Deploy.Stored | bitbucket-deploy.php:51-57 | one credential after `refresh_credentials`; stated by `Deploy.StoredNeverClears` |
| Deploy.StoredNeverClears | bitbucket-deploy.php:47-59 | a non-empty option replaces the stored credential, an empty one keeps it, so a set credential is never cleared; reading the same option twice changes nothing |
| Deploy.BitbucketDeploy.HasCredentials | bitbucket-deploy.php:65 | both stored credentials are non-empty, the negation of the early-return guard (also line 113): a refresh goes ahead exactly when it holds |
| Deploy.BitbucketDeploy.Authorization | bitbucket-deploy.php:87 | the `Authorization` header value from the stored credentials (also line 133); stated by `Encoding.BasicAuthorizationDecodes` |
| Deploy.BitbucketDeploy.constructor | bitbucket-deploy.php:21-25 | no credentials are stored and both registries are empty (the source's unset registry) |
| Deploy.BitbucketDeploy.RefreshCredentials | bitbucket-deploy.php:47-59 | each credential is replaced only by a non-empty option, and the registries are untouched |
| Deploy.BitbucketDeploy.RefreshPluginAt | bitbucket-deploy.php:73-103 | one loop body turns entry `i` into its refreshed form, judged from the loop's copy, and changes nothing else |
| Deploy.BitbucketDeploy.RefreshThemeAt | bitbucket-deploy.php:119-149 | one by-reference loop body turns entry `i` into its refreshed form and changes nothing else |
| Deploy.BitbucketDeploy.RefreshPluginRegistry | bitbucket-deploy.php:61-107 | with both credentials set, every plugin entry is refreshed; otherwise the registry is unchanged; the themes are untouched and the invariant is kept |
| Deploy.BitbucketDeploy.RefreshThemeRegistry | bitbucket-deploy.php:109-154 | with both credentials set, every theme entry is refreshed; otherwise the registry is unchanged; the plugins are untouched and the invariant is kept |
| Deploy.BitbucketDeploy.RefreshRegistry | bitbucket-deploy.php:156-161 | the credentials are those read from the option, and both registries are refreshed with them, or both are left unchanged when a credential is still missing |
| Deploy.BitbucketDeploy.RegisterPlugin | bitbucket-deploy.php:239-250 | the credentials are those read from the option; the plugin registry grows by one entry at the end with the given `file` and `repository`, duplicates allowed, and is then refreshed when both credentials are set |
| Deploy.BitbucketDeploy.RegisterTheme | bitbucket-deploy.php:252-263 | the credentials are those read from the option; the theme registry grows by one entry at the end with the given `file` and `repository`, duplicates allowed, and is then refreshed when both credentials are set |
| Deploy.BitbucketDeploy.CollectOffers | bitbucket-deploy.php:272-294 | the skip-and-write loop computes exactly the offer map specified by `Decisions.Offers` |
| Deploy.BitbucketDeploy.PreSetSiteTransientUpdatePlugins | bitbucket-deploy.php:265-299 | a transient without `checked` comes back as is; otherwise only its response changes, by the plugin offers |
| Deploy.BitbucketDeploy.PreSetSiteTransientUpdateThemes | bitbucket-deploy.php:301-337 | a transient without `checked` comes back as is; otherwise only its response changes, by the theme offers |
| Deploy.BitbucketDeploy.FindPluginInfo | bitbucket-deploy.php:350-373 | the information comes from the first entry whose slug matches, and there is none when no entry matches |
| Deploy.BitbucketDeploy.PluginsApi | bitbucket-deploy.php:339-380 | anything but a `plugin_information` request with a slug passes through with no state change; otherwise the plugins are refreshed and the first matching entry answers |
| Deploy.BitbucketDeploy.LatestPackages | bitbucket-deploy.php:513-526 | the gathered URLs are the non-empty plugin packages, then the non-empty theme packages, in registry order |
| Deploy.BitbucketDeploy.HttpRequestArgs | bitbucket-deploy.php:511-538 | a listed URL gets the Basic header as its only header, after a credentials refresh; any other request and the object are unchanged; a replaced header only ever goes to a bitbucket.org URL |
| Deploy.FirstBySlugIsFirst | bitbucket-deploy.php:350-354 | the loop's stopping point is exactly the position `FirstBySlug` specifies |

## Left out

- The HTTP call and JSON decoding of the tag listing (`wp_remote_get`, `wp_remote_retrieve_body`, `json_decode`) are the `fetch` parameter. The model records which URL and header each call is sent with, but not the transport.
- `get_option` is the `options` parameter. Storage, the md5-keyed option lookup, the REST endpoint, the admin settings page and `flush_transients` are UI or storage.
- The hook registration, the singleton and the shutdown output-buffer fix are framework plumbing.
- `get_commit_digest` is dead code: it reads properties the class never has and depends on the clock.
- The `metadata` field (`get_file_data`), the `get_plugin_data` fields of the `plugins_api` answer (name, author, homepage, description) and the theme offer's `url`/`requires`/`requires_php` (`wp_get_theme`) are calls into WordPress that the model cannot see.
- The upgrader hooks are modelled only as the directory names they compute. Their matching on plugin metadata, theme stylesheet and `hook_extra`, the filesystem moves and `rename`, `activate_plugin`, `switch_theme` and the `WP_Error` return are I/O or foreign data.
- PHP's full `version_compare` algorithm is a built-in and is taken as the parameter `newer`; the core does not depend on any particular instance.
- Versions.DottedGreater: it is not PHP's `version_compare` in two respects. PHP reads each numeric component with C `strtol` into a `long`, which saturates at the platform limit (2^63−1 on 64-bit Linux), so larger components compare equal in PHP but are ordered here. Suffixes such as `-beta` or `rc` and other non-numeric text are not modelled: such versions are never "greater" here.
- PHP's loose comparisons (`!=` in `plugins_api`, `in_array` in `http_request_args`, the `checked` lookup) are modelled as exact string equality. Numeric strings that PHP would compare as numbers are therefore not equated.
- Deploy.BitbucketDeploy.Valid: the registries are public properties in PHP, so outside code can break the package invariant. The model states the invariant as kept by every method, not as always true.
- Deploy.BitbucketDeploy.RegisterPlugin: the `is_array` reset of an unset registry is not modelled, because a registry is always a sequence here and the unset state is the empty one.
- Deploy.BitbucketDeploy.HttpRequestArgs: when a credential is unset, PHP concatenates `null` as the empty string. The model does the same through `OrEmpty`.
- PHP strings are byte strings. The model reads them as Unicode text and takes the UTF-8 bytes of the credentials wherever `base64_encode` needs bytes.
- Encoding.Base64Decode is not in the source (it only encodes). It exists only as the partner that proves the encoding loses nothing.
