/** What the stores keep under a slug. */
module StorageKeys {

  datatype Blob = Version(slug: string, n: nat) | Draft(slug: string)

  datatype Asset = Asset(slug: string, sha: string)
}
