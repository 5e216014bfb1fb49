/**
 * The values the session helpers read and produce: the keystone service
 * catalog as it appears in an action context, the context itself, and the
 * token-authenticated session handed to the designate client.
 */
module Types {
  import opened Wrappers

  /**
   * One endpoint record of a v3 catalog entry. `interface` is `None` when
   * missing, null or not a string; `url` and `region` are `None` when
   * missing or null.
   */
  datatype Endpoint = Endpoint(interface: Option<string>, url: Option<string>, region: Option<string>)

  /** One service of the catalog: its `type`, its `name` and its `endpoints`. */
  datatype CatalogEntry = CatalogEntry(
    serviceType: Option<string>,
    name: Option<string>,
    endpoints: Option<seq<Endpoint>>)

  /** The value under the `catalog` key: the key may be missing, its value
      null, or a list of entries. */
  datatype CatalogField = KeyMissing | Null | Entries(entries: seq<CatalogEntry>)

  /** A service-catalog mapping. The JMESPath variant reads only its
      `catalog` key; the keystoneclient variant hands all of it to
      keystoneclient. */
  datatype CatalogPayload = CatalogPayload(catalog: CatalogField)

  /** `context.security`: the caller's bearer token and its own catalog. */
  datatype Security = Security(authToken: string, serviceCatalog: Option<CatalogPayload>)

  /**
   * An action context. `serviceCatalog` is the top-level attribute read by
   * the keystoneclient variant; the JMESPath variant reads the one under
   * `security`.
   */
  datatype Context = Context(serviceCatalog: Option<CatalogPayload>, security: Security)

  /** A keystoneauth1 `Token` plugin: a fixed endpoint and a fixed token. */
  datatype TokenAuth = TokenAuth(endpoint: string, token: string)

  /** A keystoneauth1 `Session` built from nothing but its auth plugin. */
  datatype Session = Session(auth: TokenAuth)

  /** The exceptions the helpers raise. */
  datatype Error =
    | MissingContext          // AssertionError('context is mandatory')
    | ServiceCatalogAbsent    // TypeError: subscripting a None service catalog
    | CatalogKeyMissing       // KeyError: 'catalog'
    | SelectionIsNull         // TypeError: [0] of the None a null catalog queries to
    | NoPublicDnsEndpoint     // IndexError: [0] of an empty selection
    | KeystoneCatalogError    // raised inside keystoneclient, by factory or url_for
}
