/**
 * The versioned base URL both helpers build: the catalog URL, then the API
 * version, then one slash. Nothing is inserted between the URL and the
 * version, and a trailing slash already on the URL is not collapsed.
 */
module VersionedUrl {
  import opened Wrappers

  /** `url + version + '/'`. */
  function WithVersion(url: string, version: string): (r: string)
    ensures |r| == |url| + |version| + 1
    ensures r[..|url|] == url
    ensures r[|url|..] == version + "/"
  {
    url + version + "/"
  }

  /** The inverse: the URL a versioned endpoint was built from, if it was. */
  function StripVersion(endpoint: string, version: string): (r: Option<string>)
    ensures r.Some? <==> |version| + 1 <= |endpoint|
                         && endpoint[|endpoint| - (|version| + 1)..] == version + "/"
    ensures r.Some? ==> r.value == endpoint[..|endpoint| - (|version| + 1)]
    ensures r.Some? ==> |r.value| + |version| + 1 == |endpoint|
  {
    var n := |version| + 1;
    if n <= |endpoint| && endpoint[|endpoint| - n..] == version + "/"
    then Some(endpoint[..|endpoint| - n])
    else None
  }

  lemma StripWithVersion(url: string, version: string)
    ensures StripVersion(WithVersion(url, version), version) == Some(url)
  {
    var e := WithVersion(url, version);
    assert e[|e| - (|version| + 1)..] == version + "/";
  }

  lemma WithStripVersion(endpoint: string, version: string)
    requires StripVersion(endpoint, version).Some?
    ensures WithVersion(StripVersion(endpoint, version).value, version) == endpoint
  {
    var n := |version| + 1;
    assert endpoint == endpoint[..|endpoint| - n] + endpoint[|endpoint| - n..];
  }

  /** Different catalog URLs never give the same versioned endpoint. */
  lemma WithVersionInjective(u1: string, u2: string, version: string)
    requires WithVersion(u1, version) == WithVersion(u2, version)
    ensures u1 == u2
  {
    StripWithVersion(u1, version);
    StripWithVersion(u2, version);
  }

  /**
   * No separator is inserted: the character right after the URL is the
   * first character of the version.
   */
  lemma NoSeparatorInserted(url: string, version: string)
    requires |version| > 0
    ensures WithVersion(url, version)[|url|] == version[0]
  {
  }

  /** A URL that already ends in '/' keeps that slash, so a leading '/' on
      the version yields a doubled slash. */
  lemma TrailingSlashNotCollapsed(url: string, version: string)
    requires |url| > 0 && url[|url| - 1] == '/'
    requires |version| > 0 && version[0] == '/'
    ensures WithVersion(url, version)[|url| - 1..|url| + 1] == "//"
  {
  }

  lemma ExampleWithoutSeparator()
    ensures WithVersion("http://dns.example:9001", "v2") == "http://dns.example:9001v2/"
  {
  }
}
