/**
 * How the two variants of the session helper relate: they build the same
 * endpoint from the same catalog url and bind the same token.
 */
module Variants {
  import opened Wrappers
  import opened Types
  import V1 = DesignateUtils
  import V2 = DesignateV2Utils

  /** When keystoneclient's lookup answers with the url the JMESPath query
      selects, both variants return the same session. */
  lemma SameUrlSameSession(ctx: Context, urlFor: V1.UrlFor)
    requires V2.CatalogOf(ctx).Success? && V2.CatalogOf(ctx).value.Entries?
    requires V2.FirstCandidate(V2.CatalogOf(ctx).value.entries).Some?
    requires var catalog := V2.CatalogOf(ctx).value.entries;
             var (i, j) := V2.FirstCandidate(catalog).value;
             urlFor(ctx.serviceCatalog, V1.ServiceQuery("dns", "designate")) == Some(V2.UrlAt(catalog, i, j))
    ensures V1.GetSession(Some(ctx), urlFor) == V2.GetSession(Some(ctx))
  {
  }
}
