# Designate session resolution, modelled in Dafny

The Mistral action packs `designate_actions` and `designatev2_actions` build an
authenticated keystoneauth1 session for the OpenStack DNS service (Designate)
before every zone or record-set action. This project models the two helper
modules that do it:

- `designatev2_actions/utils.py` `get_session`: reads
  `context.security.service_catalog['catalog']`, keeps the endpoints of every
  catalog entry whose `type` is `dns` (JMESPath `[?type == `dns`].endpoints[]`),
  takes the `url` of the public ones (`[?interface == `public`].url`), indexes
  `[0]`, appends `v2/` and wraps the result with the context's `auth_token` in a
  `Token` auth plugin and a `Session`.
- `designate_actions/utils.py` `get_endpoint` / `get_session`: asks
  keystoneclient's catalog for `url_for(service_type='dns', service_name='designate')`,
  returns `url + version + '/'` (version defaults to `v2`), and binds it with
  the context's token.

Modules:

- `Wrappers` (`wrappers.dfy`): `Option` and `Result`.
- `Projections` (`projections.dfy`): the JMESPath filter projection, field
  projection (dropping null results) and flatten, over `seq`.
- `Types` (`types.dfy`): endpoints, catalog entries, the catalog payload, the
  action context, the `Token`/`Session` records and the raised errors.
- `VersionedUrl` (`versioned_url.dfy`): the `url + version + '/'` assembly and
  its inverse.
- `DesignateV2Utils` (`designatev2_utils.dfy`): the JMESPath variant, a
  positional reference definition of "first public dns endpoint" and the
  lemmas linking the two.
- `DesignateUtils` (`designate_utils.dfy`): the keystoneclient variant, with
  the catalog lookup as a function parameter.
- `Variants` (`variants.dfy`): the two variants agree when they see the same url.

Python's `not context` is modelled as the context being `None` (an
`Option<Context>`). Each exception the helpers raise is a `Failure`: a missing
context, a `None` service catalog, a missing `catalog` key, a null `catalog`
value (whose queries give `None`, which `[0]` cannot index) and an empty
selection each have their own `Error` constructor; whatever keystoneclient
raises is one constructor, `KeystoneCatalogError`.

## Model

| member | source | states |
|---|---|---|
| Projections.Filter | designatev2_actions/utils.py:22-23 | a `[?cond]` projection is never longer than its input |
| Projections.Pluck | designatev2_actions/utils.py:22-23 | a `.field` projection is never longer than its input |
| Projections.Flatten | designatev2_actions/utils.py:22 | `[]` loses no inner list, and a single inner list comes out unchanged, in its own order; with `FlattenAppend` this fixes the result as the inner lists concatenated in outer order, and `FlattenMembers` gives its contents |
| Projections.FilterMembers | designatev2_actions/utils.py:22-23 | a `[?cond]` projection keeps exactly the input elements satisfying the condition |
| Projections.PluckMembers | designatev2_actions/utils.py:22-23 | a `.field` projection contains every present field value of the input and nothing that is not one; null results vanish |
| Projections.FlattenMembers | designatev2_actions/utils.py:22 | `[]` contains exactly the elements of the inner lists |
| Projections.FilterAppend | designatev2_actions/utils.py:22-23 | filtering keeps input order: it distributes over concatenation |
| Projections.PluckAppend | designatev2_actions/utils.py:22-23 | field projection keeps input order: it distributes over concatenation |
| Projections.FlattenAppend | designatev2_actions/utils.py:22 | flattening keeps outer order: it distributes over concatenation |
| DesignateV2Utils.DnsEndpoints | designatev2_actions/utils.py:22 | a catalog with no entry of type `dns` yields no endpoints; `DnsEndpointsMembers`, `DnsEndpointsAppend` and `DnsEndpointsSingle` give its exact contents and order |
| DesignateV2Utils.PublicUrls | designatev2_actions/utils.py:23 | the public-url projection is never longer than its input and is empty exactly when no endpoint is public with a url |
| DesignateV2Utils.PublicProjectionEmptyIff | designatev2_actions/utils.py:23 | both directions of "the `[?interface == public].url` projection is empty iff no endpoint is public with a url" |
| DesignateV2Utils.CandidateUrls | designatev2_actions/utils.py:22-23 | the list indexed by `[0]` is empty exactly when no dns entry has a public endpoint with a url |
| DesignateV2Utils.NoCandidateIffNoPublicDnsEndpoint | designatev2_actions/utils.py:22-23 | no dns endpoint is public with a url exactly when there is no candidate position in the catalog |
| DesignateV2Utils.SelectEndpoint | designatev2_actions/utils.py:22-25 | fails with the `[0]` IndexError exactly when there is no candidate; otherwise returns the first candidate's url in catalog order plus `v2/` |
| DesignateV2Utils.DnsEndpointsAppend | designatev2_actions/utils.py:22 | the dns endpoints of a catalog are those of its first entries followed by those of the later ones |
| DesignateV2Utils.DnsEndpointsSingle | designatev2_actions/utils.py:22 | one entry contributes its endpoints, in order, exactly when its type is `dns` and it has an endpoints list, otherwise nothing |
| DesignateV2Utils.DnsEndpointsMembers | designatev2_actions/utils.py:22 | an endpoint is a candidate exactly when it belongs to some entry of type `dns` |
| DesignateV2Utils.PublicUrlsAppend | designatev2_actions/utils.py:23 | public urls of concatenated endpoint lists are concatenated in order |
| DesignateV2Utils.PublicUrlsSingle | designatev2_actions/utils.py:23 | one endpoint contributes its url exactly when its interface is `public` and the url is present |
| DesignateV2Utils.CandidateUrlsAppend | designatev2_actions/utils.py:22-23 | the selection list of a concatenated catalog is the concatenation of the parts' selection lists |
| DesignateV2Utils.CandidateUrlsSingle | designatev2_actions/utils.py:22-23 | one catalog entry's contribution is the public urls of its dns endpoints |
| DesignateV2Utils.CandidateUrlsSplice | designatev2_actions/utils.py:22-23 | an entry placed between two catalog slices contributes between their contributions |
| DesignateV2Utils.FirstPublicFrom | designatev2_actions/utils.py:23 | reference: the position of the first public endpoint with a url, with none before it; none exactly when no such endpoint exists |
| DesignateV2Utils.FirstCandidateFrom | designatev2_actions/utils.py:22-23 | reference: the first (entry, endpoint) position in catalog order holding a public dns url, with no candidate before it; none exactly when there is no candidate |
| DesignateV2Utils.PublicUrlsMatchScan | designatev2_actions/utils.py:23 | the public-url projection is empty exactly when the scan finds nothing, and otherwise starts with the scanned endpoint's url |
| DesignateV2Utils.CandidateUrlsMatchScan | designatev2_actions/utils.py:22-23 | the two JMESPath queries over a catalog suffix are empty exactly when the positional scan finds nothing, and otherwise start with its url |
| DesignateV2Utils.CandidateUrlsMatchReference | designatev2_actions/utils.py:22-23 | the list indexed by `[0]` is empty exactly when no candidate exists, and otherwise its head is the first candidate's url |
| DesignateV2Utils.SuffixIsVersionTwo | designatev2_actions/utils.py:25 | appending `'v2/'` is appending version `v2` and one slash |
| DesignateV2Utils.LaterEntriesIgnored | designatev2_actions/utils.py:22-23 | first match wins: once leading entries yield a candidate, appended entries never change the result |
| DesignateV2Utils.EntriesWithoutCandidatesSkipped | designatev2_actions/utils.py:22-23 | leading entries without candidates do not affect the result |
| DesignateV2Utils.NonDnsEntryInsertionIrrelevant | designatev2_actions/utils.py:22 | inserting an entry whose type is not exactly `dns` anywhere never changes the result |
| DesignateV2Utils.NonDnsEntryChangeIrrelevant | designatev2_actions/utils.py:22 | replacing a non-dns entry by another non-dns entry never changes the result |
| DesignateV2Utils.PublicUrlsNonPublicInsertion | designatev2_actions/utils.py:23 | inserting a non-public or url-less endpoint leaves the public url list unchanged |
| DesignateV2Utils.NonPublicEndpointIrrelevant | designatev2_actions/utils.py:23 | adding an internal, admin or url-less endpoint to a dns entry never changes the result |
| DesignateV2Utils.EntryNameIrrelevant | designatev2_actions/utils.py:22 | changing an entry's `name` never changes the result: only `type` is consulted |
| DesignateV2Utils.PublicUrlsRegionIrrelevant | designatev2_actions/utils.py:23 | changing an endpoint's `region` leaves the public url list unchanged |
| DesignateV2Utils.EndpointRegionIrrelevant | designatev2_actions/utils.py:22-23 | changing any endpoint's `region` never changes the result: every region is a candidate |
| DesignateV2Utils.InternalThenTwoPublic | designatev2_actions/utils.py:23 | internal, public, public endpoints project to the two public urls in order |
| DesignateV2Utils.ExampleSelection | designatev2_actions/utils.py:22-25 | with an identity entry and a dns entry listing internal, public, public endpoints, the first public url plus `v2/` is chosen |
| DesignateV2Utils.ExampleNoPublicEndpoint | designatev2_actions/utils.py:23 | a dns entry with only internal and admin endpoints fails rather than returning a default |
| DesignateV2Utils.CatalogOf | designatev2_actions/utils.py:19 | a `None` service catalog fails with a TypeError and a missing `catalog` key with a KeyError; otherwise the value under the key, null or a list |
| DesignateV2Utils.SelectFromField | designatev2_actions/utils.py:22-25 | a null `catalog` value fails at the `[0]` of line 23 with a TypeError; a list goes through the selection |
| DesignateV2Utils.GetSession | designatev2_actions/utils.py:16-29 | a missing context fails first; a missing service catalog or key fails next; a null catalog fails at `[0]`; otherwise the session exists exactly when some dns entry has a public endpoint with a url, and then holds the first such url plus `v2/` and the context's token |
| VersionedUrl.WithVersion | designate_actions/utils.py:23 | the endpoint starts with the url, ends with the version and one slash, and is exactly that long |
| VersionedUrl.StripVersion | designate_actions/utils.py:23 | succeeds exactly when the endpoint ends with the version and a slash, and then returns everything before them |
| VersionedUrl.StripWithVersion | designate_actions/utils.py:23 | round trip: stripping the version from a versioned endpoint gives back the url |
| VersionedUrl.WithStripVersion | designate_actions/utils.py:23 | round trip: an endpoint the version can be stripped from is rebuilt exactly |
| VersionedUrl.WithVersionInjective | designate_actions/utils.py:23 | different urls never give the same endpoint for one version |
| VersionedUrl.NoSeparatorInserted | designate_actions/utils.py:23 | the character after the url is the version's first character: no separator is added |
| VersionedUrl.TrailingSlashNotCollapsed | designate_actions/utils.py:23 | a url ending in `/` and a version starting with `/` give a doubled slash: no de-duplication |
| VersionedUrl.ExampleWithoutSeparator | designate_actions/utils.py:23 | `http://dns.example:9001` with `v2` gives `http://dns.example:9001v2/` |
| DesignateUtils.GetEndpoint | designate_actions/utils.py:17-25 | succeeds exactly when the (dns, designate) lookup finds a url; then starts with that url, ends with the version and a slash, length url + version + 1; otherwise the lookup's error |
| DesignateUtils.EndpointDependsOnlyOnDesignateQuery | designate_actions/utils.py:20-21 | the lookup is consulted only with service type `dns` and service name `designate` |
| DesignateUtils.EndpointStripsToCatalogUrl | designate_actions/utils.py:23 | stripping the version from the endpoint gives back the lookup's url |
| DesignateUtils.DefaultVersionIsV2 | designate_actions/utils.py:17 | omitting the version is the same as asking for `v2` |
| DesignateUtils.ExampleEndpoint | designate_actions/utils.py:17-25 | a lookup answering `http://dns.example:9001` gives `http://dns.example:9001v2/` |
| DesignateUtils.GetSession | designate_actions/utils.py:28-35 | a missing context fails before the lookup; otherwise the session exists exactly when the `v2` endpoint does and holds it with the context's token |
| Variants.SameUrlSameSession | designatev2_actions/utils.py:20-29 | when keystoneclient's lookup returns the url the JMESPath query selects, both variants build the same session |

## Left out

- The designate action classes (`designate_actions/v2/recordsets.py`, `designate_actions/v2/zones.py`, `designatev2_actions/zone.py`): pass-through calls to designateclient plus logging.
- keystoneclient's `ServiceCatalog.factory` and `url_for` (`designate_actions/utils.py:11-14,20-21`): a foreign library; the pair is the `UrlFor` parameter. Its v2/v3 interface preference is not re-implemented.
- DesignateUtils.GetEndpoint: a failure of `ServiceCatalog.factory` (line 12) and a failure of `url_for` (lines 20-21) are not told apart; both are `KeystoneCatalogError`, because what keystoneclient raises is not part of this model.
- DesignateUtils.GetEndpoint: `UrlFor` receives the payload as modelled, a v3-style `catalog` list whose entries carry `type`, `name` and endpoints with `interface`, `url` and `region`. A keystone v2 payload (a `serviceCatalog` key, `publicURL` fields) and any other field keystoneclient might read are not representable.
- keystoneauth1 `Token` and `Session`: represented as plain records of (endpoint, token); no HTTP behaviour.
- JMESPath in general: only the two expressions used are modelled.
- JSON values of an unexpected kind: a `catalog` value that is neither null nor a list, an `endpoints` value that is not a list, or a `url` that is not a string are not representable in the typed catalog. A `type` or `interface` of another JSON kind behaves like a missing one, which `None` covers.
- `get_client` (`designate_actions/utils.py:38-39`): wraps the session in a designateclient client and adds nothing to resolve. `zones.py` calls it with two arguments while it accepts one, a `TypeError` at call time in wrapper code.
- Logging throughout.
- Trust scoping, admin credentials, region overrides and catalog fetching: none of it appears in these two helpers, so none of it is modelled.
