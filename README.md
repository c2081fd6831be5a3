# Package identity in cargo: package-ID specs and summaries

This project models two parts of cargo's package-identity core:

- **Package-ID specs** (`src/cargo/core/package_id_spec.rs`). A package-ID spec is a partially specified package identifier, such as `foo`, `foo:1.2.3`, `crates.io/foo#bar:1.2.3` or `http://crates.io/foo#1.2.3`. The model covers:
  - the parser, which reads the URL form first (including the `cargo://` fallback for a scheme-less path) and the short form `name[:version]` otherwise;
  - `from_url`, which reads the name and version out of the URL's fragment;
  - `from_package_id`;
  - the matcher that selects concrete package identities;
  - the `fmt::Show` printer.
- **Summaries** (`src/cargo/core/summary.rs`). `Summary::new` validates a package identity, its dependency list and its feature map in two passes:
  - pass 1 checks every dependency, in list order;
  - pass 2 checks every feature entry, in map order.
  
  `SummaryVec::names` lists the names of a vector of summaries.

Files:
- `wrappers.dfy`: `Option` and `Result`.
- `external.dfy`: the values the core receives from other parts of cargo and from its libraries:
  - versions and the semver library;
  - URLs and the url library;
  - `SourceId`, `PackageId` and `Dependency`.
- `text.dfy`: `splitn(1, sep)` as `SplitFirst`, substring search and joining.
- `package_id_spec.dfy`: module `PackageIdSpecs`.
- `summary.dfy`: module `Summaries`.

The libraries are passed in as records of functions:
- `Semver(parse, show)`;
- `UrlLib(parse, parseWithCargoScheme, show)`. `parseWithCargoScheme` is the parser with the `cargo` scheme mapper of `url()`.

The properties the code relies on are hypotheses of the lemmas that need them:
- `SemverLawful`: the parser and the printer agree on the versions the parser yields. For each such version:
  - its printed form reads back as the same version;
  - its printed form starts with a digit;
  - its printed form uses only version characters (ASCII alphanumerics, `.`, `-`, `+`).
  
  In addition, no text holding `/` parses as a version. `SlashFallbackFails`, `BadParsingUrl` and `BadParsingUrlWithoutPath` rely on this last law.
- `Parsed(semver, v)`: `v` is a version the parser yields for some text. The round trips are stated for such versions.
- `StrictSemver`: the parser accepts only the printer's own text.

Parsing and printing are written twice:
- as the methods `Parse` and `Format`, which follow the source's early returns, its character loop and its `printed_name` flag;
- as the functions `ParseSpec` and `ToText`.

Each method is proved equal to its function, and the lemmas are about the functions. `Summary::new` is the method `NewSummary`. It is proved to succeed exactly when the declarative `SummaryInvariant` holds, and to return the first-pass error when there is one.

## Model

| member | source | states |
|---|---|---|
| Text.SplitFirst | src/cargo/core/package_id_spec.rs:29-34 | `splitn(1, ':')`: the head holds no separator; without a separator the head is the whole text; with one, text = head + sep + tail |
| Text.SplitFirstAt | src/cargo/core/package_id_spec.rs:29-31 | when the first separator is at index i, the split is `(s[..i], Some(s[i+1..]))` |
| Text.NoSchemeMarker | src/cargo/core/package_id_spec.rs:22 | text in which no `:` is followed by `/` does not contain `://` |
| PackageIdSpecs.FirstInvalid | src/cargo/core/package_id_spec.rs:35-40 | no character is reported iff every character of the name is alphanumeric, `_` or `-`; otherwise the reported one is the first bad character (everything before it is valid) |
| PackageIdSpecs.CheckedName | src/cargo/core/package_id_spec.rs:35-45 | the name check succeeds iff the name is valid, giving a spec without a URL; otherwise the error is `InvalidCharacter` of the first bad character of the name (everything before it is valid) |
| PackageIdSpecs.ShortForm | src/cargo/core/package_id_spec.rs:29-45 | a parsed short form has no URL and a valid name without `:`; with no version the name is the whole text; with a version, `:` follows the name and the rest parses to that version; colon-free text is exactly the name check of the whole text; the only errors are a bad character of the text or a bad version; a version in the result is one the semver parser yields |
| PackageIdSpecs.ShortFormFirstColon | src/cargo/core/package_id_spec.rs:29-45 | with the first colon at i: success iff `text[..i]` is a valid name and `text[i+1..]` parses as a version; the result is that name and version; a bad version gives `InvalidVersion(text[i+1..])`, so the version is checked before the name; a good version leaves the name check of `text[..i]`, so a bad name gives its first bad character |
| PackageIdSpecs.SplitFirstFirstColon | src/cargo/core/package_id_spec.rs:72-73 | a fragment splits at its first colon, or not at all when it has none |
| PackageIdSpecs.FromUrl | src/cargo/core/package_id_spec.rs:56-98 | a query string is refused; a missing path and an empty path are refused; the stored URL is the input without its fragment; no fragment gives the last path segment and no version; `name:version` splits at the first colon and the version must parse; a colon-free fragment starting with a letter is a name; any other colon-free fragment must be a version and the name is the last path segment; an empty fragment is an error; a version in the result is one the semver parser yields |
| PackageIdSpecs.FromUrlNameVersion | src/cargo/core/package_id_spec.rs:70-77 | a fragment `name:version` with a colon-free name gives that name and the parsed version |
| PackageIdSpecs.ParseBareName | src/cargo/core/package_id_spec.rs:29-45 | a valid name parses to a spec with that name, no version and no URL |
| PackageIdSpecs.ParseNameVersion | src/cargo/core/package_id_spec.rs:29-45 | `name:version` with a valid name and a parsable version parses to that name and version, without a URL |
| PackageIdSpecs.UrlOf | src/cargo/core/package_id_spec.rs:17-27 | only text holding `/` is read as a URL; the plain parser's URL is taken when it gives one; otherwise the URL comes from the `cargo://` retry, which is made only for text without `://`; no URL means both attempts failed or the retry was skipped |
| PackageIdSpecs.ParseSpec | src/cargo/core/package_id_spec.rs:16-46 | slash-free text is read in the short form; when a URL was read, the result is that of `from_url` on it, errors included; a parsed spec has a URL exactly when one was read; a parsed version is one the semver parser yields |
| PackageIdSpecs.Parse | src/cargo/core/package_id_spec.rs:16-46 | the method with its early returns and character loop computes `ParseSpec`: the plain URL parse, then the `cargo://` retry when the text has no `://`, then the short form; an error from `from_url` is final |
| PackageIdSpecs.SlashFallbackFails | src/cargo/core/package_id_spec.rs:17-40 | text holding `/` that neither URL parser accepts always fails: the short form sees `/` in the name or in the version |
| PackageIdSpecs.ReadBehindCargoScheme | src/cargo/core/package_id_spec.rs:17-27 | text with `/`, refused by the plain parser and free of `://`, is read by the `cargo`-scheme parser from `cargo://` + text; when that parser fails too, a successful parse has no URL (the short form) |
| PackageIdSpecs.ToText | src/cargo/core/package_id_spec.rs:132-157 | the text starts with the name when there is no URL, and with the URL's printed form otherwise; a version is printed last, behind `:` or `#`; a bare name prints as itself |
| PackageIdSpecs.Format | src/cargo/core/package_id_spec.rs:132-157 | the printer writes `host/path` for the `cargo` scheme and the URL otherwise; then `#name` when the name is not the last path segment; then the version behind `:` if the name was written and behind `#` if not; the result is `ToText` |
| PackageIdSpecs.ShownVersion | src/cargo/core/package_id_spec.rs:150-155 | under the semver laws, a parsed version printed again reads back, is non-empty, does not start with a letter and holds neither `:` nor `/` |
| PackageIdSpecs.ValidNameSeparators | src/cargo/core/package_id_spec.rs:35-40 | a valid name holds neither `:` nor `/` |
| PackageIdSpecs.ParseFormatShortForm | src/cargo/core/package_id_spec.rs:166-172 | every URL-less spec with a valid name, whose version is one the parser yields, parses back from its printed text |
| PackageIdSpecs.FormatParseShortForm | src/cargo/core/package_id_spec.rs:166-172 | every slash-free text that parses is printable and prints back as the same text, when the semver parser accepts only its own printed text |
| PackageIdSpecs.ParseFormatUrl | src/cargo/core/package_id_spec.rs:132-157 | a spec with a URL, given that its printed text reads back that URL with the printed fragment, parses back to itself, provided a name written after `#` is readable as a name and its version is one the parser yields |
| PackageIdSpecs.FromUrlRoundTrip | src/cargo/core/package_id_spec.rs:56-98 | every spec `from_url` produces parses back from its own printed text, given that the url library reads back the printed URL |
| PackageIdSpecs.Matches | src/cargo/core/package_id_spec.rs:104-116 | a spec matches a package iff the names are equal, and the version and the URL are absent from the spec or equal to the package's |
| PackageIdSpecs.FromPackageId | src/cargo/core/package_id_spec.rs:48-54 | the spec has a version and a URL, matches its own package, and matches exactly the packages with the same name, version and source URL |
| PackageIdSpecs.GoodParsingName | src/cargo/core/package_id_spec.rs:204-208 | `foo` parses to name `foo` with no version and no URL, and prints back |
| PackageIdSpecs.GoodParsingNameVersion | src/cargo/core/package_id_spec.rs:209-213 | `foo:1.2.3` parses to name `foo` and version 1.2.3 with no URL, and prints back |
| PackageIdSpecs.GoodParsingHttpVersion | src/cargo/core/package_id_spec.rs:174-178 | `http://crates.io/foo#1.2.3` parses to name `foo`, version 1.2.3 and the URL without its fragment |
| PackageIdSpecs.GoodPrintingHttpVersion | src/cargo/core/package_id_spec.rs:174-178 | that spec prints back as `http://crates.io/foo#1.2.3` |
| PackageIdSpecs.GoodParsingHttpNameVersion | src/cargo/core/package_id_spec.rs:179-183 | `http://crates.io/foo#bar:1.2.3` parses to name `bar`, version 1.2.3 and the URL without its fragment |
| PackageIdSpecs.GoodPrintingHttpNameVersion | src/cargo/core/package_id_spec.rs:179-183 | that spec prints back as `http://crates.io/foo#bar:1.2.3` |
| PackageIdSpecs.GoodParsingCargoPath | src/cargo/core/package_id_spec.rs:184-188 | `crates.io/foo` is read behind `cargo://` to name `foo` and prints back without the scheme |
| PackageIdSpecs.GoodParsingCargoVersion | src/cargo/core/package_id_spec.rs:189-193 | `crates.io/foo#1.2.3` parses to name `foo` and version 1.2.3 and prints back |
| PackageIdSpecs.GoodParsingCargoName | src/cargo/core/package_id_spec.rs:194-198 | `crates.io/foo#bar` parses to name `bar` and no version, and prints back |
| PackageIdSpecs.GoodParsingCargoNameVersion | src/cargo/core/package_id_spec.rs:199-203 | `crates.io/foo#bar:1.2.3` parses to name `bar` and version 1.2.3 |
| PackageIdSpecs.GoodPrintingCargoNameVersion | src/cargo/core/package_id_spec.rs:199-203 | that spec prints back as `crates.io/foo#bar:1.2.3` |
| PackageIdSpecs.BadParsingEmptyVersion | src/cargo/core/package_id_spec.rs:218 | `baz:` fails with the version error for the empty text after the colon |
| PackageIdSpecs.BadParsingPartialVersion | src/cargo/core/package_id_spec.rs:219 | `baz:1.0` fails with the version error for `1.0` |
| PackageIdSpecs.BadParsingUrl | src/cargo/core/package_id_spec.rs:220 | `http://baz:1.0` fails when the URL parser refuses it |
| PackageIdSpecs.BadParsingUrlWithoutPath | src/cargo/core/package_id_spec.rs:221 | `http://#baz:1.0` fails whether the URL parser refuses it or returns it without a path |
| PackageIdSpecs.Matching | src/cargo/core/package_id_spec.rs:224-234 | `foo` matches foo 1.2.3 and not bar 1.2.3; `foo:1.2.3` matches foo 1.2.3; `foo:1.2.2` does not |
| Summaries.DependencyCheck | src/cargo/core/summary.rs:20-30 | a dependency passes iff its name is not a feature and, if optional, it is transitive; a name collision is reported before the dev-dependency check; the error names the dependency |
| Summaries.DependencyError | src/cargo/core/summary.rs:20-30 | pass 1 finds no error iff every dependency passes; otherwise the error is that of the first failing dependency: a name that is also a feature, or an optional dependency that is not transitive |
| Summaries.FindDependency | src/cargo/core/summary.rs:34-36 | `iter().find`: nothing iff no dependency has the name; otherwise the first dependency with that name |
| Summaries.FirstMatchIsFound | src/cargo/core/summary.rs:34-36 | the dependency `find` returns is at the first index holding the name, and that index is the only first index |
| Summaries.EntryCheck | src/cargo/core/summary.rs:31-54 | an entry passes iff it is a feature or the first dependency of that name is optional; `UnknownFeatureTarget` iff it is neither a feature nor any dependency's name; `FeatureRequiresNonOptionalDependency` iff the first dependency of that name is not optional; nothing else is returned |
| Summaries.ChecksMeetInvariant | src/cargo/core/summary.rs:20-54 | both passes succeed iff no dependency shares a feature's name, every optional dependency is transitive, and every feature entry is a feature or names a dependency whose first occurrence is optional |
| Summaries.NewSummary | src/cargo/core/summary.rs:17-60 | `Summary::new` succeeds iff the summary invariant holds, and then stores its inputs unchanged; a pass-1 error is returned before any pass-2 check; any other error is that of some feature entry |
| Summaries.NameCollisionCase | src/cargo/core/summary.rs:21-24 | a feature named like a dependency gives `NameCollision` |
| Summaries.OptionalDevDependencyCase | src/cargo/core/summary.rs:25-29 | an optional dev-only dependency gives `OptionalDevDependency`, even when a feature entry is also unknown |
| Summaries.NonOptionalFirstMatchCase | src/cargo/core/summary.rs:34-45 | only the first dependency with the name is consulted: a non-optional first match is refused even when a later one is optional |
| Summaries.UnknownTargetCase | src/cargo/core/summary.rs:46-51 | an entry that is neither a feature nor a dependency gives `UnknownFeatureTarget` |
| Summaries.AcceptedCase | src/cargo/core/summary.rs:33-39 | entries naming an optional dependency, another feature or their own feature are accepted: there is no cycle check |
| Summaries.Names | src/cargo/core/summary.rs:91-95 | one name per summary, in order: the name of each summary's package |

## Left out

- The url library is not modelled. Its two parsers and its printer are function parameters, and a URL has five components: scheme, host, path segments, query and fragment. The scheme-type mapper behind `url()` is the separate parser `parseWithCargoScheme`.
- The semver library is not modelled. `Version::parse` and its printer are function parameters, and equality of versions is structural equality of the `Version` datatype.
- `is_alphanumeric` and `is_alphabetic` are modelled for ASCII characters only. Unicode letters and digits outside ASCII are not.
- Error messages are not modelled: each error is a constructor carrying the offending text, character or entry. `human(...)`, `CargoResult` and the message wording are not part of this model.
- FromUrl: `char_at(0)` on an empty fragment panics in the source. The model returns the error `EmptyFragment` instead.
- Format: the source's `unwrap` calls on the path, its last segment and the host of a `cargo` URL panic when those are missing. The model puts them in the precondition `Printable`. Formatter write errors are not modelled.
- ParseFormatUrl: the round trip through a URL depends on the url library printing and re-reading the URL. The model states that as a hypothesis (`UrlOf` of the printed text) and does not prove it.
- ParseFormatShortForm and ParseFormatUrl are stated only for specs whose version the semver parser yields (`Parsed`). The semver laws hold only for such versions; a hand-built `Version` value, such as one with a numeric-looking alphanumeric identifier, need not print back to itself.
- FormatParseShortForm: the text-to-spec-to-text direction is proved only for the short form, and only for a semver parser that accepts nothing but its own printed text.
- NewSummary: the source walks the feature map in hash-map order. The model chooses the next feature nondeterministically, so it states which error kinds can be returned after pass 1, not which entry's error wins.
- The getters `get_name`, `get_version` and `get_url`, and the summary accessors, are the fields of the datatypes. `Summary.Name`, `Summary.Version` and `Summary.SourceId` are plain projections and have no contract.
- Deriving `Clone`, `PartialEq` and `Show` for `Summary` is left out. These impls are Dafny's value semantics and equality.
- The empty name: the code accepts an empty short-form name (`""` and `":1.2.3"` parse), although a spec's name is meant to be non-empty. The model follows the code.
