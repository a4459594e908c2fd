# cpi-sync: verified model of package selection, credentials and write paths

cpi-sync downloads the integration packages of an SAP Cloud Platform
Integration tenant to a local directory. A JSON configuration names the
tenant, one credential (an S-user or OAuth client credentials) and an
ordered list of filter rules that choose packages from the tenant's
catalog. This project models the decision logic of `src/main.rs`:

- **Catalog indexing** (`Catalog`): the package list becomes the set of
  package ids and a map from display name to the comma-joined ids with
  that name. The loop `IndexCatalog` is proved equal to the functions
  `CatalogIds` and `NameIndex`.
- **Filter-rule fold** (`Selection`): rules are applied left to right to a
  working set that starts empty. A `regex` rule matches against the whole
  catalog and unions or subtracts the matches. A `single` rule aborts on an
  unknown id, carrying the name-map hint, or inserts or removes the id. The
  loop `ResolveRules` is proved equal to the fold `Resolve`. The fold is
  proved equal to an independent "last touching rule wins" definition
  `Verdict`. Further lemmas cover failure, catalog containment,
  idempotence and order sensitivity.
- **Credentials** (`Credentials`): the secret is chosen from the
  environment variable, then the prompt, then fails. The Authorization
  header is either Basic, per section 2 of RFC 7617, or Bearer, per
  section 2.1 of RFC 6750. The Basic header is built from Base64, per
  section 4 of RFC 4648 (`Base64`), over UTF-8, per section 3 of RFC 3629
  (`Utf8`). Both codecs carry round-trip proofs, and both decoders are
  proved to accept only encoder output, so the header is determined by its
  decoded payload. A server is proved to read back exactly the user and
  password when the user name contains no ':'.
- **Write paths** (`Paths`, `Layout`): `PathBuf::join` and the operating
  system's resolution of `.` and `..` are modelled on segment sequences.
  Raw mode writes `data_dir/package/artifact.zip`. Extract mode writes each
  enclosed archive entry under `canonical data_dir/package/artifact`.
  Containment in the artifact directory is proved for every entry name the
  zip reader's `enclosed_name` accepts.

The regular-expression engine is a parameter, `Selection.RegexEngine`. It
is a pair of functions that say which patterns compile and which ids a
pattern matches. The environment is a `map<string, string>`. The terminal
prompt's answer and the OAuth token endpoint's answer are `Option`
parameters. The archive's entry names are a sequence parameter, or None
when the archive cannot be opened.

A configured variable that is set to the empty string counts as found
(`src/main.rs:387-389`, `406-408`); `Credentials.SecretInEnvironment`
models this.

## Model

| member | source | states |
|---|---|---|
| Catalog.CatalogIds | src/main.rs:513-516 | Every id of the response is in the set, and every member of the set is the id of some entry. |
| Catalog.NameIndex | src/main.rs:517-524 | The name map's keys are exactly the display names of the response. |
| Catalog.IndexCatalog | src/main.rs:513-525 | The loop yields exactly the set of ids in the response, so a repeated id is one member. It also yields the map from each occurring display name to its ids in response order, joined by ",". |
| Catalog.NameIndexSnoc | src/main.rs:517-524 | One more entry either appends "," and its id to its name's value, or stores the bare id when the name is new. |
| Catalog.IdsNamedNonEmpty | src/main.rs:517-524 | A name's list of ids is non-empty exactly when some entry of the response carries that name. |
| Catalog.IdsNamedSound | src/main.rs:517-524 | Every id listed under a name comes from an entry with that id and that name. |
| Catalog.NameIndexHint | src/main.rs:517-524 | Splitting a name's stored value at "," gives back all ids with that name, in response order, when ids contain no ",". |
| Selection.ApplyRule | src/main.rs:531-586 | A rule fails exactly when its pattern does not compile or its single id is not in the catalog, with InvalidPattern or PackageIdNotFound carrying the name-map hint. Otherwise an id is in the new set iff the rule touches it and includes, or it does not touch it and the id was already in. |
| Selection.ResolveAppend | src/main.rs:529-587 | Resolving two rule lists one after the other is the same as resolving their concatenation, including abort on the first error. |
| Selection.ResolveIsLastRuleWins | src/main.rs:529-587 | A successful fold keeps exactly the ids for which the last touching rule is an include, or that were in the starting set and are touched by no rule. |
| Selection.ResolveFailsAtFirstBadRule | src/main.rs:529-575 | The fold fails iff some rule fails, and then with the error of the first failing rule. |
| Selection.Resolve | src/main.rs:527-587 | A successful fold of the rules yields a set within the starting set plus the catalog ids. |
| Selection.VerdictShape | src/main.rs:529-587 | A touched id gets the same verdict from any starting set, and an untouched id keeps its starting membership. |
| Selection.ResolveIdempotent | src/main.rs:529-587 | Folding the same rules again over the result changes nothing. |
| Selection.OrderMatters | src/main.rs:529-587 | Rule order matters: [single a exclude, regex include] keeps `a`, and the reverse order drops it. |
| Selection.PrefixThenExcludeScenario | src/main.rs:529-587 | Catalog {PKG1, PKG2, Other} with [regex "^PKG" include, single "PKG2" exclude] resolves to {PKG1}. |
| Selection.MatchPattern | src/main.rs:535-539 | The loop over the catalog set collects exactly the catalog ids the pattern matches. |
| Selection.ResolveRules | src/main.rs:527-587 | The rule loop, reassigning the working set per rule and returning early on the first error, computes the fold Resolve from the empty set. |
| Selection.SelectPackages | src/main.rs:513-589 | Indexing followed by the rule loop gives the fold over the indexed catalog, and a successful result is a subset of the catalog ids. |
| Credentials.ResolveSecret | src/main.rs:380-456 | A configured variable found in the environment gives its value, even if empty, and no prompt happens. Otherwise the prompt is used unless no_input is set, and a prompt I/O error fails the run. With neither source the run fails with MissingSecret. |
| Credentials.BasicAuth | src/main.rs:625-629 | The header starts with "Basic ", and the rest Base64-decodes, then UTF-8-decodes, to user ":" pass. |
| Credentials.BasicAuthDetermined | src/main.rs:625-629 | Any header with the "Basic " prefix whose payload Base64-decodes, then UTF-8-decodes, to user ":" pass is exactly BasicAuth(user, pass). |
| Credentials.BearerAuth | src/main.rs:480 | The header is "Bearer " followed by exactly the token. |
| Credentials.SplitAtColonCredentials | src/main.rs:626 | A colon-free user name is recovered by cutting the decoded text at its first ':'. |
| Credentials.BasicAuthRoundTrip | src/main.rs:625-629 | A server parsing the Basic header recovers exactly (user, pass) when the user name has no ':'. |
| Credentials.Principal | src/main.rs:423-426 | The principal is the user name for an S-user and the client id for OAuth client credentials. |
| Credentials.TokenRequestUrl | src/main.rs:466-469 | The token request URL is the configured endpoint followed by "?grant_type=client_credentials". |
| Credentials.TokenRequest | src/main.rs:466-476 | The token request goes to the endpoint URL with "?grant_type=client_credentials", under a Basic header whose payload decodes to client id ":" secret. |
| Credentials.Authorization | src/main.rs:464-483 | An S-user always gets BasicAuth of its user name and the secret. OAuth gets "Bearer " plus the access token exactly when the token exchange answered, and otherwise fails with TokenExchangeFailed. |
| Credentials.AuthorizationCarriesCredentials | src/main.rs:464-483 | The S-user header carries exactly the user name and the secret. The OAuth token request carries exactly the client id and the secret. |
| Base64.SextetValue | src/main.rs:626 | A recognised alphabet character maps to a 6-bit value whose character is that character. |
| Base64.SextetRoundTrip | src/main.rs:626 | Each 6-bit value is read back from its alphabet character. |
| Base64.DecodeOneByte | src/main.rs:626 | A one-byte input, padded "==", decodes back to itself. |
| Base64.DecodeTwoBytes | src/main.rs:626 | A two-byte input, padded "=", decodes back to itself. |
| Base64.DecodeFullGroup | src/main.rs:626 | A full 3-byte group followed by a decodable rest decodes back to the whole input. |
| Base64.Encode | src/main.rs:626 | The encoding of n bytes has 4 * ceil(n / 3) characters. |
| Base64.Decode | src/main.rs:626 | A decodable string has a length that is a multiple of 4, and it decodes to three bytes per four characters, less at most two for padding. Padding bits left unused must be zero. |
| Base64.EncodeDecodeOneByte | src/main.rs:626 | A decodable group padded "==" is the encoding of the byte it decodes to. |
| Base64.EncodeDecodeTwoBytes | src/main.rs:626 | A decodable group padded "=" is the encoding of the two bytes it decodes to. |
| Base64.EncodeDecodeFullGroup | src/main.rs:626 | A decodable full group followed by the encoding of the rest's bytes is the encoding of all it decodes to. |
| Base64.EncodeDecode | src/main.rs:626 | Every decodable string is the encoding of the bytes it decodes to, so the decoder accepts exactly the encoder's output. |
| Base64.KnownAnswers | src/main.rs:626 | "f", "fo" and "foo" encode to "Zg==", "Zm8=" and "Zm9v", the test vectors of section 10 of RFC 4648. |
| Base64.NonZeroPadBitsRejected | src/main.rs:626 | "Oh==" and "Zm9=", whose padding leaves non-zero bits, do not decode. |
| Base64.DecodeEncode | src/main.rs:626 | Decoding the Base64 encoding of any byte string gives that byte string. |
| Utf8.EncodeChar | src/main.rs:626 | A character encodes to 1 to 4 bytes, to one byte exactly for ASCII, and to bytes of 0x80 and above otherwise. |
| Utf8.DecodeCharEncodeChar | src/main.rs:626 | A byte string starting with a character's encoding decodes that character and consumes exactly its length. |
| Utf8.Encode | src/main.rs:626 | A string encodes to between one and four bytes per character. |
| Utf8.Decode | src/main.rs:626 | A decoded string has at most one character per byte, and its first character is the one the leading bytes decode to. |
| Utf8.DecodeEncode | src/main.rs:626 | Decoding the UTF-8 encoding of any string gives that string. |
| Utf8.EncodeCharDecodeChar | src/main.rs:626 | The bytes a scalar value is decoded from are exactly that value's encoding. |
| Utf8.EncodeDecode | src/main.rs:626 | Every well-formed byte string is the encoding of the string it decodes to, so the decoder accepts exactly the encoder's output. |
| Paths.Join | src/main.rs:248-250 | Joining a relative string appends its segments, and joining an absolute one replaces the path. |
| Paths.Walk | src/main.rs:255 | Following segments from a directory yields a location no longer than the directory plus the segments. |
| Paths.Location | src/main.rs:282 | The location an absolute path names is no longer than the path and holds no "." or ".." segment. |
| Paths.Canonicalize | src/main.rs:503-507 | The canonical path is absolute, consists of exactly the segments of the location the path names, so it has no "." or ".." segment, and names the same location. |
| Paths.WalkPlain | src/main.rs:271-276 | Following segments without "." or ".." only descends by those segments. |
| Paths.WalkAppend | src/main.rs:271-276 | Following two segment lists in turn is following their concatenation. |
| Layout.DataDir | src/main.rs:502-509 | The data directory is absolute, and it is missing exactly when the configuration path has no directory part, whose canonicalization fails. |
| Layout.DataDirLocation | src/main.rs:502-509 | A relative local_dir is followed from the configuration file's directory, and an absolute one is the data directory itself. |
| Layout.DataDirPlain | src/main.rs:502-509 | A plain local_dir names a child of the configuration file's directory. |
| Layout.BareConfigNameFails | src/main.rs:502-507 | A configuration path without a directory part gives no data directory. |
| Layout.IntendedDataDir | src/main.rs:502-509 | The data directory always exists; it agrees with DataDir when the configuration path has a directory part, and otherwise follows a relative local_dir from the working directory. |
| Layout.DataDirDefault | src/main.rs:28-30 | With the default configuration path "./cpi-sync.json" and the default local_dir ".", the data directory is the working directory. |
| Layout.RawTarget | src/main.rs:248-250 | For relative ids the raw target is the data directory's segments followed by the package id's and "artifact.zip"'s segments, and an absolute artifact id replaces the whole path. |
| Layout.ArtifactDir | src/main.rs:271-275 | For relative ids the artifact directory is the canonical data directory followed by the package id's and artifact id's segments. |
| Layout.ExtractTarget | src/main.rs:271-276 | For a relative entry name the target is the artifact directory followed by the name's segments. |
| Layout.Enclosed | src/main.rs:264 | An enclosed name has no NUL, is relative, and does not start with "..". |
| Layout.PlainIdsLayout | src/main.rs:246-276 | With plain ids, raw mode writes data_dir/package/artifact.zip and extract mode uses data_dir/package/artifact. |
| Layout.PlainExtractLayout | src/main.rs:271-276 | With plain ids and a name of plain segments, an entry lands at data_dir/package/artifact followed by the name's segments. |
| Layout.ExtractTargetContained | src/main.rs:264-276 | Every enclosed entry name is written inside the artifact's directory, whatever the ids are. |
| Layout.RawScenario | src/main.rs:248-250 | Artifact "Art1" of package "PKG1" is stored at data_dir/PKG1/Art1.zip. |
| Layout.ExtractFlatScenario | src/main.rs:271-276 | Entry "a.txt" of artifact "Art1" in "PKG1" is written at data_dir/PKG1/Art1/a.txt. |
| Layout.ExtractNestedScenario | src/main.rs:271-276 | Entry "dir/b.txt" is written at data_dir/PKG1/Art1/dir/b.txt. |
| Layout.ExtractEntries | src/main.rs:261-284 | The entry loop writes, in archive order, the target of each enclosed entry, and each target lies inside the artifact directory. It stops at the first entry without an enclosed name, with UnsafeEntryName, after writing the entries before it. |
| Layout.StoreArtifact | src/main.rs:246-286 | Raw mode writes one zip target. Extract mode fails with ArchiveCorrupt on an unreadable archive, and otherwise writes only paths inside the artifact directory. It succeeds exactly when every entry name is enclosed, and then writes every entry. A failure is UnsafeEntryName of the first entry not enclosed. |

## Left out

- HTTP through reqwest is not modelled, as it is network I/O. This covers the connectivity probe, the package and artifact lists, the artifact download and the token POST (`src/main.rs:178-241`, `300-333`, `472-478`, `485-500`). The token exchange's outcome is the `tokenResponse` parameter, and the catalog is the `entries` parameter.
- JSON parsing with serde, JSON-schema validation and reading the configuration file are foreign libraries and file I/O (`src/main.rs:345-371`). The configuration appears as already-parsed datatypes in `Config`.
- Command-line parsing with clap, the `pause` key loop and the rpassword prompt are terminal I/O. The prompt's answer is a parameter, and None stands for its I/O error.
- `env::var` failing on a value that is not valid Unicode is folded into "not in the map". Strings in this model are sequences of Unicode scalar values.
- The regex engine's internals are out of scope. `RegexEngine` is an arbitrary pair of functions, so every result holds for every engine.
- Zip decompression and the file writes are not modelled. Only the target paths are. Failures of `create_dir_all`, `File::create` and `io::copy` are panics through `unwrap()` and are not modelled. This includes a directory entry such as "dir/", which `File::create` refuses.
- The errors ArchiveCorrupt and UnsafeEntryName stand for the `unwrap()` panics at `src/main.rs:259` (an unreadable archive) and `src/main.rs:264` (an entry without an enclosed name); the source aborts the whole run there rather than returning an error. The panic of `archive.by_index(i).unwrap()` at `src/main.rs:262`, on a corrupt entry met after earlier entries were written, is not modelled at all: entry names are given as a list that is readable throughout.
- Layout.Enclosed states the contract of the zip reader's `enclosed_name`, which is not part of this model. That contract is: no NUL, not rooted, and no prefix climbs above the archive root. The zip crate itself is not modelled.
- Layout.DataDir takes the directory part of the configuration path as a string; `Path::parent` itself is not modelled, nor its `unwrap()` panic on a path with no parent such as "/" (`src/main.rs:502-505`). The working directory is the parameter `cwd`.
- Paths.Canonicalize does not follow symbolic links. It also assumes the directory exists, where the source panics through `unwrap()` (`src/main.rs:506-507`, `272-273`).
- Windows path prefixes and `\` separators are not modelled. Paths are POSIX-style segment sequences.
- The ids returned by the server are not validated by the source. Layout.ExtractTargetContained therefore proves containment only inside `canonical data_dir/package/artifact`. Containment inside `data_dir` itself needs plain ids, as in Layout.PlainIdsLayout.
- `HashSet` iteration order when the selected set becomes `package_list` (`src/main.rs:589`) is unspecified, so the model keeps the result as a set.
- The per-package loop over `package_list` and the per-artifact loop in `process_package` (`src/main.rs:215-245`, `595-597`) are driven by network responses and are not modelled. StoreArtifact models one artifact's write step.
- `println!` diagnostics, tokio and async plumbing are not modelled.

## Findings

| source | as written | input that shows it | evidently intended | confidence | as-written member | corrected member |
|---|---|---|---|---|---|---|
| src/main.rs:502-507 | The data directory canonicalizes `Path::parent` of the configuration path; for a bare file name the parent is the empty path, whose canonicalization fails, and `unwrap()` panics. | `--config cpi-sync.json` (no "./" in front) | A bare file name is read from the working directory, as the default "./cpi-sync.json" is. | medium, not executed | Layout.BareConfigNameFails | Layout.IntendedDataDir |
