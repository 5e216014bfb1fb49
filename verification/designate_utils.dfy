/**
 * `get_endpoint` / `get_session` of the keystoneclient variant. The catalog
 * lookup itself belongs to keystoneclient and is a parameter here; what
 * this code fixes is the query it asks, the default version and the way the
 * endpoint string is assembled.
 */
module DesignateUtils {
  import opened Wrappers
  import opened Types
  import opened VersionedUrl

  /** The arguments passed to `url_for`. */
  datatype ServiceQuery = ServiceQuery(serviceType: string, serviceName: string)

  /**
   * `ServiceCatalog.factory(payload).url_for(...)`: the url of the matching
   * endpoint, or `None` where keystoneclient raises `KeystoneCatalogError`.
   */
  type UrlFor = (Option<CatalogPayload>, ServiceQuery) -> Option<string>

  const DesignateQuery := ServiceQuery("dns", "designate")

  const DefaultVersion := "v2"

  /** `get_endpoint(context, version='v2')`. */
  function GetEndpoint(ctx: Context, urlFor: UrlFor, version: string := DefaultVersion): (r: Result<string, Error>)
    ensures r.Success? <==> urlFor(ctx.serviceCatalog, ServiceQuery("dns", "designate")).Some?
    ensures r.Failure? ==> r.error == KeystoneCatalogError
    ensures r.Success? ==>
              var url := urlFor(ctx.serviceCatalog, ServiceQuery("dns", "designate")).value;
              && |r.value| == |url| + |version| + 1
              && r.value[..|url|] == url
              && r.value[|url|..] == version + "/"
  {
    var url := urlFor(ctx.serviceCatalog, DesignateQuery);
    if url.None? then Failure(KeystoneCatalogError)
    else Success(WithVersion(url.value, version))
  }

  /** `get_session`: a missing context fails before the catalog is read;
      otherwise the session pairs the default-version endpoint with the
      context's token. */
  function GetSession(ctx: Option<Context>, urlFor: UrlFor): (r: Result<Session, Error>)
    ensures ctx.None? ==> r == Failure(MissingContext)
    ensures ctx.Some? ==>
              var endpoint := GetEndpoint(ctx.value, urlFor, "v2");
              && (r.Success? <==> endpoint.Success?)
              && (r.Failure? ==> r.error == endpoint.error)
              && (r.Success? ==> r.value == Session(TokenAuth(endpoint.value, ctx.value.security.authToken)))
  {
    if ctx.None? then Failure(MissingContext)
    else
      var endpoint :- GetEndpoint(ctx.value, urlFor);
      Success(Session(TokenAuth(endpoint, ctx.value.security.authToken)))
  }

  /** The lookup is asked only the fixed (dns, designate) question: two
      lookups that agree on it give the same endpoint, whatever else they
      would answer. */
  lemma EndpointDependsOnlyOnDesignateQuery(ctx: Context, f: UrlFor, g: UrlFor, version: string)
    requires f(ctx.serviceCatalog, ServiceQuery("dns", "designate"))
             == g(ctx.serviceCatalog, ServiceQuery("dns", "designate"))
    ensures GetEndpoint(ctx, f, version) == GetEndpoint(ctx, g, version)
  {
  }

  /** Stripping the version from the endpoint gives back the catalog url. */
  lemma EndpointStripsToCatalogUrl(ctx: Context, urlFor: UrlFor, version: string)
    requires GetEndpoint(ctx, urlFor, version).Success?
    ensures StripVersion(GetEndpoint(ctx, urlFor, version).value, version)
            == urlFor(ctx.serviceCatalog, ServiceQuery("dns", "designate"))
  {
    StripWithVersion(urlFor(ctx.serviceCatalog, DesignateQuery).value, version);
  }

  /** Omitting the version is asking for `v2`. */
  lemma DefaultVersionIsV2(ctx: Context, urlFor: UrlFor)
    ensures GetEndpoint(ctx, urlFor) == GetEndpoint(ctx, urlFor, "v2")
  {
  }

  /** The endpoint of the catalog example without a path. */
  lemma ExampleEndpoint(ctx: Context, urlFor: UrlFor)
    requires urlFor(ctx.serviceCatalog, ServiceQuery("dns", "designate")) == Some("http://dns.example:9001")
    ensures GetEndpoint(ctx, urlFor) == Success("http://dns.example:9001v2/")
  {
    ExampleWithoutSeparator();
  }
}
