/**
 * The collaborators of the package-identity core, given only at their
 * interface: the semver library, the url library, and the plain records
 * that stand for PackageId, SourceId and Dependency.
 */
module External {
  import opened Wrappers

  /** A semantic version as the semver library stores it. */
  datatype Identifier = Numeric(n: nat) | AlphaNumeric(s: string)

  datatype Version = Version(major: nat, minor: nat, patch: nat, pre: seq<Identifier>, build: seq<Identifier>)

  /**
   * The two entry points of the semver library that the core uses:
   * `Version::parse` (None for malformed text) and its `Show` printer.
   */
  datatype Semver = Semver(parse: string -> Option<Version>, show: Version -> string)

  predicate IsDigit(c: char) { '0' <= c <= '9' }

  /** The characters of the semver grammar: alphanumerics, `.`, `-` and `+`. */
  predicate IsVersionChar(c: char) {
    IsDigit(c) || 'a' <= c <= 'z' || 'A' <= c <= 'Z' || c == '.' || c == '-' || c == '+'
  }

  /** `v` is a version the semver parser yields for some text. */
  ghost predicate Parsed(semver: Semver, v: Version) {
    exists s :: semver.parse(s) == Some(v)
  }

  /**
   * What the core relies on from the semver library: a parsed version,
   * printed and parsed again, gives the same version; its printed form
   * starts with its major number and uses only semver characters; and no
   * text holding `/` is a version.
   */
  ghost predicate SemverLawful(semver: Semver) {
    && (forall s :: semver.parse(s).Some? ==>
          var shown := semver.show(semver.parse(s).value);
          && semver.parse(shown) == semver.parse(s)
          && |shown| > 0 && IsDigit(shown[0])
          && forall i :: 0 <= i < |shown| ==> IsVersionChar(shown[i]))
    && (forall s :: '/' in s ==> semver.parse(s).None?)
  }

  /**
   * A parsed URL, reduced to the components the core reads. `path` is None
   * for a URL whose scheme is not hierarchical.
   */
  datatype Url = Url(
    scheme: string,
    host: Option<string>,
    path: Option<seq<string>>,
    query: Option<string>,
    fragment: Option<string>)

  /**
   * The url library: `parse` is `to_url`, the plain URL parser with the
   * default scheme classification, `parseWithCargoScheme` the parser whose scheme mapper
   * classifies `cargo` as a relative (hierarchical) scheme with default
   * port 1, and `show` the URL's printed form.
   */
  datatype UrlLib = UrlLib(
    parse: string -> Option<Url>,
    parseWithCargoScheme: string -> Option<Url>,
    show: Url -> string)

  /** Where a package comes from; only its URL is of interest here. */
  datatype SourceId = SourceId(url: Url)

  /** A concrete, fully populated package identity. */
  datatype PackageId = PackageId(name: string, version: Version, sourceId: SourceId)

  /** A dependency declaration, reduced to the three fields the validator reads. */
  datatype Dependency = Dependency(name: string, optional: bool, transitive: bool)
}
