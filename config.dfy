/**
  The configuration document and the catalog response, after the external
  JSON loader and schema validator have produced them, and the run's errors.
*/
module Config {
  import opened Wrappers

  /** What a filter rule does with the identifiers it selects. */
  datatype Operation = Include | Exclude

  /** One filter rule: a pattern over the catalog ids, or one id. */
  datatype FilterRule =
    | Regex(pattern: string, op: Operation)
    | Single(id: string, op: Operation)

  /** Whether artifacts are stored as zip files or extracted. */
  datatype ZipExtraction = Disabled | Enabled

  /** The two credential variants of the tenant. */
  datatype Credential =
    | OauthClientCredentials(clientId: string, tokenEndpointUrl: string, clientSecretEnvVar: Option<string>)
    | SUser(username: string, passwordEnvVar: Option<string>)

  /** One entry of the package catalog response: its `Id` and `Name`. */
  datatype CatalogEntry = CatalogEntry(id: string, name: string)

  /** Every way a run can abort. */
  datatype SyncError =
    | MissingSecret                                   // "Could not use any password/secret"
    | PromptFailed                                    // the terminal prompt returned an I/O error
    | TokenExchangeFailed                             // the OAuth token request or its body failed
    | InvalidPattern(pattern: string)                 // Regex::new rejected the pattern
    | PackageIdNotFound(id: string, hint: Option<string>)  // "Package ID not found!", with the name-map hint
    | ArchiveCorrupt                                  // the payload is not a zip archive
    | UnsafeEntryName(name: string)                   // the entry has no enclosed name
}
