/**
 * `get_session` of the JMESPath variant: the DNS endpoint is the `url` of
 * the first `public` endpoint of any catalog entry of type `dns`, with
 * `v2/` appended, and the session carries the context's own token.
 */
module DesignateV2Utils {
  import opened Wrappers
  import opened Types
  import opened Projections
  import opened VersionedUrl

  /** The suffix appended to the chosen URL. */
  const ApiSuffix := "v2/"

  predicate IsDns(e: CatalogEntry) {
    e.serviceType == Some("dns")
  }

  predicate IsPublic(ep: Endpoint) {
    ep.interface == Some("public")
  }

  function EndpointsField(e: CatalogEntry): Option<seq<Endpoint>> {
    e.endpoints
  }

  function UrlField(ep: Endpoint): Option<string> {
    ep.url
  }

  /** `[?type == `dns`].endpoints[]`; `DnsEndpointsMembers` and
      `DnsEndpointsAppend` characterise it. */
  function DnsEndpoints(catalog: seq<CatalogEntry>): (r: seq<Endpoint>)
    ensures (forall e :: e in catalog ==> !IsDns(e)) ==> r == []
  {
    FilterMembers(catalog, IsDns);
    var dns := Filter(catalog, IsDns);
    assert dns != [] ==> exists e :: e in catalog && IsDns(e) by {
      if dns != [] {
        assert dns[0] in dns;
      }
    }
    Flatten(Pluck(dns, EndpointsField))
  }

  /** `[?interface == `public`].url`: empty exactly when no endpoint is
      public with a url. */
  function PublicUrls(endpoints: seq<Endpoint>): (r: seq<string>)
    ensures |r| <= |endpoints|
    ensures r == [] <==> forall k :: 0 <= k < |endpoints| ==> !HasPublicUrl(endpoints[k])
  {
    PublicProjectionEmptyIff(endpoints);
    Pluck(Filter(endpoints, IsPublic), UrlField)
  }

  lemma PublicProjectionEmptyIff(endpoints: seq<Endpoint>)
    ensures Pluck(Filter(endpoints, IsPublic), UrlField) == []
            <==> forall k :: 0 <= k < |endpoints| ==> !HasPublicUrl(endpoints[k])
  {
    var pub := Filter(endpoints, IsPublic);
    var urls := Pluck(pub, UrlField);
    FilterMembers(endpoints, IsPublic);
    PluckMembers(pub, UrlField);
    if urls != [] {
      assert urls[0] in urls;
      var i :| 0 <= i < |pub| && UrlField(pub[i]) == Some(urls[0]);
      assert pub[i] in pub;
      var k :| 0 <= k < |endpoints| && endpoints[k] == pub[i];
      assert HasPublicUrl(endpoints[k]);
    }
    forall k | 0 <= k < |endpoints| && HasPublicUrl(endpoints[k])
      ensures urls != []
    {
      assert endpoints[k] in pub;
      var i :| 0 <= i < |pub| && pub[i] == endpoints[k];
      assert UrlField(pub[i]).value in urls;
    }
  }

  /** The list the code indexes with `[0]`: empty exactly when no dns entry
      has a public endpoint with a url. */
  function CandidateUrls(catalog: seq<CatalogEntry>): (r: seq<string>)
    ensures r == [] <==> forall i, j :: !Candidate(catalog, i, j)
  {
    NoCandidateIffNoPublicDnsEndpoint(catalog);
    PublicUrls(DnsEndpoints(catalog))
  }

  lemma NoCandidateIffNoPublicDnsEndpoint(catalog: seq<CatalogEntry>)
    ensures (forall k :: 0 <= k < |DnsEndpoints(catalog)| ==> !HasPublicUrl(DnsEndpoints(catalog)[k]))
            <==> forall i, j :: !Candidate(catalog, i, j)
  {
    var eps := DnsEndpoints(catalog);
    DnsEndpointsMembers(catalog);
    if exists i, j :: Candidate(catalog, i, j) {
      var i, j :| Candidate(catalog, i, j);
      var ep := DnsEndpointsOf(catalog[i])[j];
      assert ep in DnsEndpointsOf(catalog[i]);
      assert ep in eps;
      var k :| 0 <= k < |eps| && eps[k] == ep;
      assert HasPublicUrl(eps[k]);
    }
    if exists k :: 0 <= k < |eps| && HasPublicUrl(eps[k]) {
      var k :| 0 <= k < |eps| && HasPublicUrl(eps[k]);
      assert eps[k] in eps;
      var i :| 0 <= i < |catalog| && eps[k] in DnsEndpointsOf(catalog[i]);
      var j :| 0 <= j < |DnsEndpointsOf(catalog[i])| && DnsEndpointsOf(catalog[i])[j] == eps[k];
      assert Candidate(catalog, i, j);
    }
  }

  /**
   * Lines 22-25: the first candidate's url with the version suffix, or the
   * IndexError when there is no candidate.
   */
  function SelectEndpoint(catalog: seq<CatalogEntry>): (r: Result<string, Error>)
    ensures r.Failure? <==> forall i, j :: !Candidate(catalog, i, j)
    ensures r.Failure? ==> r.error == NoPublicDnsEndpoint
    ensures r.Success? ==>
              FirstCandidate(catalog).Some?
              && var (i, j) := FirstCandidate(catalog).value;
                 r.value == WithVersion(UrlAt(catalog, i, j), "v2")
  {
    var urls := CandidateUrls(catalog);
    CandidateUrlsMatchReference(catalog);
    if |urls| == 0 then Failure(NoPublicDnsEndpoint)
    else
      SuffixIsVersionTwo(urls[0]);
      Success(urls[0] + ApiSuffix)
  }

  // ---------------------------------------------------------------------
  // A positional reference: catalog entries in order, and within an entry
  // its endpoints in order; the first public endpoint with a url wins.
  // ---------------------------------------------------------------------

  /** The endpoints an entry contributes as candidates. */
  function DnsEndpointsOf(e: CatalogEntry): seq<Endpoint> {
    if IsDns(e) && e.endpoints.Some? then e.endpoints.value else []
  }

  predicate HasPublicUrl(ep: Endpoint) {
    IsPublic(ep) && ep.url.Some?
  }

  /** Endpoint `j` of entry `i` is a candidate. */
  predicate Candidate(catalog: seq<CatalogEntry>, i: int, j: int) {
    0 <= i < |catalog| && 0 <= j < |DnsEndpointsOf(catalog[i])|
    && HasPublicUrl(DnsEndpointsOf(catalog[i])[j])
  }

  /** Position (i', j') comes before (i, j) in catalog order. */
  predicate Precedes(i': int, j': int, i: int, j: int) {
    i' < i || (i' == i && j' < j)
  }

  function UrlAt(catalog: seq<CatalogEntry>, i: int, j: int): string
    requires Candidate(catalog, i, j)
  {
    DnsEndpointsOf(catalog[i])[j].url.value
  }

  /** The first public endpoint with a url at or after position `j`. */
  function FirstPublicFrom(eps: seq<Endpoint>, j: nat): (r: Option<nat>)
    requires j <= |eps|
    ensures r.Some? ==> j <= r.value < |eps| && HasPublicUrl(eps[r.value])
    ensures r.Some? ==> forall k :: j <= k < r.value ==> !HasPublicUrl(eps[k])
    ensures r.None? <==> forall k :: j <= k < |eps| ==> !HasPublicUrl(eps[k])
    decreases |eps| - j
  {
    if j == |eps| then None
    else if HasPublicUrl(eps[j]) then Some(j)
    else FirstPublicFrom(eps, j + 1)
  }

  /** The first candidate position in entries `i` onwards. */
  function FirstCandidateFrom(catalog: seq<CatalogEntry>, i: nat): (r: Option<(nat, nat)>)
    requires i <= |catalog|
    ensures r.Some? ==> i <= r.value.0 && Candidate(catalog, r.value.0, r.value.1)
    ensures r.Some? ==> forall i', j' :: i <= i' && Precedes(i', j', r.value.0, r.value.1)
                          ==> !Candidate(catalog, i', j')
    ensures r.None? <==> forall i', j' :: i <= i' ==> !Candidate(catalog, i', j')
    decreases |catalog| - i
  {
    if i == |catalog| then None
    else match FirstPublicFrom(DnsEndpointsOf(catalog[i]), 0)
      case Some(j) => assert Candidate(catalog, i, j); Some((i, j))
      case None => FirstCandidateFrom(catalog, i + 1)
  }

  function FirstCandidate(catalog: seq<CatalogEntry>): Option<(nat, nat)> {
    FirstCandidateFrom(catalog, 0)
  }

  // ---------------------------------------------------------------------
  // The queries distribute over concatenation: entries contribute in
  // catalog order, each entry's endpoints in their own order.
  // ---------------------------------------------------------------------

  lemma DnsEndpointsAppend(a: seq<CatalogEntry>, b: seq<CatalogEntry>)
    ensures DnsEndpoints(a + b) == DnsEndpoints(a) + DnsEndpoints(b)
  {
    FilterAppend(a, b, IsDns);
    PluckAppend(Filter(a, IsDns), Filter(b, IsDns), EndpointsField);
    FlattenAppend(Pluck(Filter(a, IsDns), EndpointsField), Pluck(Filter(b, IsDns), EndpointsField));
  }

  lemma DnsEndpointsSingle(e: CatalogEntry)
    ensures DnsEndpoints([e]) == DnsEndpointsOf(e)
  {
    assert [e][1..] == [];
    if IsDns(e) && e.endpoints.Some? {
      assert Filter([e], IsDns) == [e];
      assert Pluck([e], EndpointsField) == [e.endpoints.value];
      assert Flatten([e.endpoints.value]) == e.endpoints.value + Flatten([]);
    }
  }

  /** Only endpoints of entries of type `dns` are ever candidates, and all
      of them are. */
  lemma {:induction false} DnsEndpointsMembers(catalog: seq<CatalogEntry>)
    ensures forall ep :: ep in DnsEndpoints(catalog) <==>
              exists i :: 0 <= i < |catalog| && ep in DnsEndpointsOf(catalog[i])
    decreases |catalog|
  {
    if |catalog| > 0 {
      assert catalog == [catalog[0]] + catalog[1..];
      DnsEndpointsAppend([catalog[0]], catalog[1..]);
      DnsEndpointsSingle(catalog[0]);
      DnsEndpointsMembers(catalog[1..]);
      forall ep | ep in DnsEndpoints(catalog)
        ensures exists i :: 0 <= i < |catalog| && ep in DnsEndpointsOf(catalog[i])
      {
        if ep !in DnsEndpointsOf(catalog[0]) {
          var i :| 0 <= i < |catalog[1..]| && ep in DnsEndpointsOf(catalog[1..][i]);
          assert ep in DnsEndpointsOf(catalog[i + 1]);
        }
      }
      forall ep, i | 0 <= i < |catalog| && ep in DnsEndpointsOf(catalog[i])
        ensures ep in DnsEndpoints(catalog)
      {
        if i > 0 {
          assert ep in DnsEndpointsOf(catalog[1..][i - 1]);
        }
      }
    }
  }

  lemma PublicUrlsAppend(a: seq<Endpoint>, b: seq<Endpoint>)
    ensures PublicUrls(a + b) == PublicUrls(a) + PublicUrls(b)
  {
    FilterAppend(a, b, IsPublic);
    PluckAppend(Filter(a, IsPublic), Filter(b, IsPublic), UrlField);
  }

  lemma PublicUrlsSingle(ep: Endpoint)
    ensures PublicUrls([ep]) == if HasPublicUrl(ep) then [ep.url.value] else []
  {
    assert [ep][1..] == [];
  }

  lemma CandidateUrlsAppend(a: seq<CatalogEntry>, b: seq<CatalogEntry>)
    ensures CandidateUrls(a + b) == CandidateUrls(a) + CandidateUrls(b)
  {
    DnsEndpointsAppend(a, b);
    PublicUrlsAppend(DnsEndpoints(a), DnsEndpoints(b));
  }

  lemma CandidateUrlsSingle(e: CatalogEntry)
    ensures CandidateUrls([e]) == PublicUrls(DnsEndpointsOf(e))
  {
    DnsEndpointsSingle(e);
  }

  // ---------------------------------------------------------------------
  // The JMESPath selection agrees with the positional reference.
  // ---------------------------------------------------------------------

  lemma {:induction false} PublicUrlsMatchScan(eps: seq<Endpoint>, j: nat)
    requires j <= |eps|
    ensures PublicUrls(eps[j..]) == [] <==> FirstPublicFrom(eps, j).None?
    ensures FirstPublicFrom(eps, j).Some? ==>
              PublicUrls(eps[j..])[0] == eps[FirstPublicFrom(eps, j).value].url.value
    decreases |eps| - j
  {
    if j < |eps| {
      assert eps[j..] == [eps[j]] + eps[j + 1..];
      PublicUrlsAppend([eps[j]], eps[j + 1..]);
      PublicUrlsSingle(eps[j]);
      PublicUrlsMatchScan(eps, j + 1);
    }
  }

  lemma {:induction false} CandidateUrlsMatchScan(catalog: seq<CatalogEntry>, i: nat)
    requires i <= |catalog|
    ensures CandidateUrls(catalog[i..]) == [] <==> FirstCandidateFrom(catalog, i).None?
    ensures FirstCandidateFrom(catalog, i).Some? ==>
              var (i', j') := FirstCandidateFrom(catalog, i).value;
              CandidateUrls(catalog[i..])[0] == UrlAt(catalog, i', j')
    decreases |catalog| - i
  {
    if i == |catalog| {
      assert catalog[i..] == [];
      assert CandidateUrls([]) == [];
    } else {
      var eps := DnsEndpointsOf(catalog[i]);
      assert catalog[i..] == [catalog[i]] + catalog[i + 1..];
      CandidateUrlsAppend([catalog[i]], catalog[i + 1..]);
      CandidateUrlsSingle(catalog[i]);
      PublicUrlsMatchScan(eps, 0);
      assert eps[0..] == eps;
      CandidateUrlsMatchScan(catalog, i + 1);
    }
  }

  /** The list indexed with `[0]` is empty exactly when there is no
      candidate, and otherwise starts with the first candidate's url. */
  lemma CandidateUrlsMatchReference(catalog: seq<CatalogEntry>)
    ensures CandidateUrls(catalog) == [] <==> FirstCandidate(catalog).None?
    ensures FirstCandidate(catalog).Some? ==>
              var (i, j) := FirstCandidate(catalog).value;
              CandidateUrls(catalog)[0] == UrlAt(catalog, i, j)
  {
    assert catalog[0..] == catalog;
    CandidateUrlsMatchScan(catalog, 0);
  }

  /** The literal `'v2/'` suffix is version `v2` followed by one slash. */
  lemma SuffixIsVersionTwo(url: string)
    ensures url + ApiSuffix == WithVersion(url, "v2")
  {
    assert ApiSuffix == "v2" + "/";
  }

  // ---------------------------------------------------------------------
  // Properties of the selection.
  // ---------------------------------------------------------------------

  /** Once some entry has yielded a candidate, later entries are ignored. */
  lemma LaterEntriesIgnored(first: seq<CatalogEntry>, later: seq<CatalogEntry>)
    requires CandidateUrls(first) != []
    ensures SelectEndpoint(first + later) == SelectEndpoint(first)
  {
    CandidateUrlsAppend(first, later);
  }

  /** Entries without candidates in front are skipped over. */
  lemma EntriesWithoutCandidatesSkipped(first: seq<CatalogEntry>, later: seq<CatalogEntry>)
    requires CandidateUrls(first) == []
    ensures SelectEndpoint(first + later) == SelectEndpoint(later)
  {
    CandidateUrlsAppend(first, later);
  }

  lemma CandidateUrlsSplice(before: seq<CatalogEntry>, e: CatalogEntry, after: seq<CatalogEntry>)
    ensures CandidateUrls(before + [e] + after)
            == CandidateUrls(before) + PublicUrls(DnsEndpointsOf(e)) + CandidateUrls(after)
  {
    CandidateUrlsAppend(before + [e], after);
    CandidateUrlsAppend(before, [e]);
    CandidateUrlsSingle(e);
  }

  /** Adding a catalog entry whose type is not `dns`, anywhere, never
      changes the outcome. */
  lemma NonDnsEntryInsertionIrrelevant(catalog: seq<CatalogEntry>, k: nat, extra: CatalogEntry)
    requires k <= |catalog|
    requires !IsDns(extra)
    ensures SelectEndpoint(catalog[..k] + [extra] + catalog[k..]) == SelectEndpoint(catalog)
  {
    var before, after := catalog[..k], catalog[k..];
    CandidateUrlsSplice(before, extra, after);
    assert PublicUrls(DnsEndpointsOf(extra)) == [];
    CandidateUrlsAppend(before, after);
    assert before + after == catalog;
  }

  /** Replacing a non-dns entry by any other non-dns entry never changes
      the outcome. */
  lemma NonDnsEntryChangeIrrelevant(catalog: seq<CatalogEntry>, k: nat, other: CatalogEntry)
    requires k < |catalog|
    requires !IsDns(catalog[k]) && !IsDns(other)
    ensures SelectEndpoint(catalog[k := other]) == SelectEndpoint(catalog)
  {
    var before, after := catalog[..k], catalog[k + 1..];
    assert catalog == before + [catalog[k]] + after;
    assert catalog[k := other] == before + [other] + after;
    CandidateUrlsSplice(before, catalog[k], after);
    CandidateUrlsSplice(before, other, after);
  }

  lemma PublicUrlsNonPublicInsertion(eps: seq<Endpoint>, m: nat, extra: Endpoint)
    requires m <= |eps|
    requires !HasPublicUrl(extra)
    ensures PublicUrls(eps[..m] + [extra] + eps[m..]) == PublicUrls(eps)
  {
    var before, after := eps[..m], eps[m..];
    PublicUrlsAppend(before + [extra], after);
    PublicUrlsAppend(before, [extra]);
    PublicUrlsSingle(extra);
    PublicUrlsAppend(before, after);
    assert before + after == eps;
  }

  /** Adding an endpoint that is not public (an `internal` or `admin` one,
      say), or a public one without a url, to a dns entry never changes the
      outcome. */
  lemma NonPublicEndpointIrrelevant(catalog: seq<CatalogEntry>, k: nat, m: nat, extra: Endpoint)
    requires k < |catalog| && IsDns(catalog[k]) && catalog[k].endpoints.Some?
    requires m <= |catalog[k].endpoints.value|
    requires !HasPublicUrl(extra)
    ensures var eps := catalog[k].endpoints.value;
            var grown := catalog[k].(endpoints := Some(eps[..m] + [extra] + eps[m..]));
            SelectEndpoint(catalog[k := grown]) == SelectEndpoint(catalog)
  {
    var eps := catalog[k].endpoints.value;
    var grown := catalog[k].(endpoints := Some(eps[..m] + [extra] + eps[m..]));
    PublicUrlsNonPublicInsertion(eps, m, extra);
    assert DnsEndpointsOf(grown) == eps[..m] + [extra] + eps[m..];
    var before, after := catalog[..k], catalog[k + 1..];
    assert catalog == before + [catalog[k]] + after;
    assert catalog[k := grown] == before + [grown] + after;
    CandidateUrlsSplice(before, catalog[k], after);
    CandidateUrlsSplice(before, grown, after);
  }

  /** Only the `type` of an entry is consulted, never its `name`. */
  lemma EntryNameIrrelevant(catalog: seq<CatalogEntry>, k: nat, name: Option<string>)
    requires k < |catalog|
    ensures SelectEndpoint(catalog[k := catalog[k].(name := name)]) == SelectEndpoint(catalog)
  {
    var renamed := catalog[k].(name := name);
    assert DnsEndpointsOf(renamed) == DnsEndpointsOf(catalog[k]);
    var before, after := catalog[..k], catalog[k + 1..];
    assert catalog == before + [catalog[k]] + after;
    assert catalog[k := renamed] == before + [renamed] + after;
    CandidateUrlsSplice(before, catalog[k], after);
    CandidateUrlsSplice(before, renamed, after);
  }

  lemma PublicUrlsRegionIrrelevant(eps: seq<Endpoint>, m: nat, region: Option<string>)
    requires m < |eps|
    ensures PublicUrls(eps[m := eps[m].(region := region)]) == PublicUrls(eps)
  {
    var moved := eps[m].(region := region);
    var before, after := eps[..m], eps[m + 1..];
    assert eps == before + [eps[m]] + after;
    assert eps[m := moved] == before + [moved] + after;
    PublicUrlsAppend(before + [eps[m]], after);
    PublicUrlsAppend(before, [eps[m]]);
    PublicUrlsAppend(before + [moved], after);
    PublicUrlsAppend(before, [moved]);
    PublicUrlsSingle(eps[m]);
    PublicUrlsSingle(moved);
  }

  /** The `region` of an endpoint is never consulted: every region is a
      candidate. */
  lemma EndpointRegionIrrelevant(catalog: seq<CatalogEntry>, k: nat, m: nat, region: Option<string>)
    requires k < |catalog| && catalog[k].endpoints.Some?
    requires m < |catalog[k].endpoints.value|
    ensures var eps := catalog[k].endpoints.value;
            var moved := catalog[k].(endpoints := Some(eps[m := eps[m].(region := region)]));
            SelectEndpoint(catalog[k := moved]) == SelectEndpoint(catalog)
  {
    var eps := catalog[k].endpoints.value;
    var moved := catalog[k].(endpoints := Some(eps[m := eps[m].(region := region)]));
    if IsDns(catalog[k]) {
      PublicUrlsRegionIrrelevant(eps, m, region);
    }
    assert PublicUrls(DnsEndpointsOf(moved)) == PublicUrls(DnsEndpointsOf(catalog[k]));
    var before, after := catalog[..k], catalog[k + 1..];
    assert catalog == before + [catalog[k]] + after;
    assert catalog[k := moved] == before + [moved] + after;
    CandidateUrlsSplice(before, catalog[k], after);
    CandidateUrlsSplice(before, moved, after);
  }

  lemma InternalThenTwoPublic(internalUrl: string, publicUrl: string, laterUrl: string)
    ensures PublicUrls([Endpoint(Some("internal"), Some(internalUrl), None),
                        Endpoint(Some("public"), Some(publicUrl), None),
                        Endpoint(Some("public"), Some(laterUrl), None)])
            == [publicUrl, laterUrl]
  {
    var internal := Endpoint(Some("internal"), Some(internalUrl), None);
    var public1 := Endpoint(Some("public"), Some(publicUrl), None);
    var public2 := Endpoint(Some("public"), Some(laterUrl), None);
    assert [internal, public1, public2] == [internal] + ([public1] + [public2]);
    PublicUrlsAppend([internal], [public1] + [public2]);
    PublicUrlsAppend([public1], [public2]);
    PublicUrlsSingle(internal);
    PublicUrlsSingle(public1);
    PublicUrlsSingle(public2);
  }

  /** A catalog with an identity entry and a dns entry listing an internal,
      then a public, then a second public endpoint: the first public url is
      chosen, whatever the urls are. */
  lemma ExampleSelection(identityUrl: string, internalUrl: string, publicUrl: string, laterUrl: string)
    ensures SelectEndpoint([
              CatalogEntry(Some("identity"), None, Some([Endpoint(Some("public"), Some(identityUrl), None)])),
              CatalogEntry(Some("dns"), None, Some([
                Endpoint(Some("internal"), Some(internalUrl), None),
                Endpoint(Some("public"), Some(publicUrl), None),
                Endpoint(Some("public"), Some(laterUrl), None)]))])
            == Success(WithVersion(publicUrl, "v2"))
  {
    var identity := CatalogEntry(Some("identity"), None, Some([Endpoint(Some("public"), Some(identityUrl), None)]));
    var dns := CatalogEntry(Some("dns"), None, Some([
                 Endpoint(Some("internal"), Some(internalUrl), None),
                 Endpoint(Some("public"), Some(publicUrl), None),
                 Endpoint(Some("public"), Some(laterUrl), None)]));
    assert [identity, dns] == [identity] + [dns];
    CandidateUrlsAppend([identity], [dns]);
    CandidateUrlsSingle(identity);
    assert DnsEndpointsOf(identity) == [];
    CandidateUrlsSingle(dns);
    InternalThenTwoPublic(internalUrl, publicUrl, laterUrl);
    SuffixIsVersionTwo(publicUrl);
  }

  /** A dns entry with only internal and admin endpoints selects nothing. */
  lemma ExampleNoPublicEndpoint(internalUrl: string, adminUrl: string)
    ensures SelectEndpoint([
              CatalogEntry(Some("dns"), None, Some([
                Endpoint(Some("internal"), Some(internalUrl), None),
                Endpoint(Some("admin"), Some(adminUrl), None)]))])
            == Failure(NoPublicDnsEndpoint)
  {
    var internal := Endpoint(Some("internal"), Some(internalUrl), None);
    var admin := Endpoint(Some("admin"), Some(adminUrl), None);
    var dns := CatalogEntry(Some("dns"), None, Some([internal, admin]));
    CandidateUrlsSingle(dns);
    assert [internal, admin] == [internal] + [admin];
    PublicUrlsAppend([internal], [admin]);
    PublicUrlsSingle(internal);
    PublicUrlsSingle(admin);
  }

  // ---------------------------------------------------------------------
  // The session.
  // ---------------------------------------------------------------------

  /** Line 19: the value under the `catalog` key of the context's own
      service catalog, or the error subscripting it raises. */
  function CatalogOf(ctx: Context): (r: Result<CatalogField, Error>)
    ensures ctx.security.serviceCatalog.None? ==> r == Failure(ServiceCatalogAbsent)
    ensures ctx.security.serviceCatalog.Some? && ctx.security.serviceCatalog.value.catalog.KeyMissing?
            ==> r == Failure(CatalogKeyMissing)
    ensures r.Success? <==> ctx.security.serviceCatalog.Some? && !ctx.security.serviceCatalog.value.catalog.KeyMissing?
    ensures r.Success? ==> r.value == ctx.security.serviceCatalog.value.catalog
  {
    match ctx.security.serviceCatalog
    case None => Failure(ServiceCatalogAbsent)
    case Some(payload) =>
      if payload.catalog.KeyMissing? then Failure(CatalogKeyMissing) else Success(payload.catalog)
  }

  /**
   * Lines 22-25 on the value of the `catalog` key: a null value queries to
   * `None`, which `[0]` cannot index; a list goes through the selection.
   */
  function SelectFromField(field: CatalogField): (r: Result<string, Error>)
    requires !field.KeyMissing?
    ensures field.Null? ==> r == Failure(SelectionIsNull)
    ensures field.Entries? ==> r == SelectEndpoint(field.entries)
  {
    match field
    case Null => Failure(SelectionIsNull)
    case Entries(catalog) => SelectEndpoint(catalog)
  }

  /**
   * `get_session`: a missing context fails first; then the catalog is read;
   * then the first public dns url is chosen; the session pairs the
   * versioned endpoint with the context's token and nothing else.
   */
  function GetSession(ctx: Option<Context>): (r: Result<Session, Error>)
    ensures ctx.None? ==> r == Failure(MissingContext)
    ensures ctx.Some? && CatalogOf(ctx.value).Failure? ==> r == Failure(CatalogOf(ctx.value).error)
    ensures ctx.Some? && CatalogOf(ctx.value).Success? && CatalogOf(ctx.value).value.Null?
            ==> r == Failure(SelectionIsNull)
    ensures ctx.Some? && CatalogOf(ctx.value).Success? && CatalogOf(ctx.value).value.Entries? ==>
              var catalog := CatalogOf(ctx.value).value.entries;
              && (r.Success? <==> exists i, j :: Candidate(catalog, i, j))
              && (r.Failure? ==> r.error == NoPublicDnsEndpoint)
              && (r.Success? ==>
                    FirstCandidate(catalog).Some?
                    && var (i, j) := FirstCandidate(catalog).value;
                       r.value == Session(TokenAuth(WithVersion(UrlAt(catalog, i, j), "v2"),
                                                    ctx.value.security.authToken)))
  {
    if ctx.None? then Failure(MissingContext)
    else
      var field :- CatalogOf(ctx.value);
      var authToken := ctx.value.security.authToken;
      var endpoint :- SelectFromField(field);
      Success(Session(TokenAuth(endpoint, authToken)))
  }
}
