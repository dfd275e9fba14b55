/** `SCOPE_TYPE_MAP`: the export's 'Scope Type' values and the owner type the
    waiver DELETE endpoint expects in its path. */
module Scopes {

  import opened Wrappers
  import opened Records

  /** The table as the program writes it; the root organization has no path of its
      own and is addressed as an organization. */
  const ScopeTypeMap: map<string, string> := map[
    "root_organization" := "organization",
    "organization" := "organization",
    "application" := "application",
    "repository" := "repository",
    "repository_container" := "repository_container"
  ]

  /** The scope types the export may carry that the program knows how to delete. */
  const KnownScopeTypes: set<string> :=
    {"root_organization", "organization", "application", "repository", "repository_container"}

  /** The owner types the endpoint accepts. */
  const OwnerTypes: set<string> := {"organization", "application", "repository", "repository_container"}

  /** `SCOPE_TYPE_MAP.get(cell)`: only a string key can match; NaN and other
      scalars, like unknown strings, give None. A found token is one of the
      endpoint's owner types and is never empty. */
  function ScopeToken(scopeType: Cell): (r: Option<string>)
    ensures r.Some? <==> scopeType.Text? && scopeType.s in KnownScopeTypes
    ensures r.Some? ==> r.value in OwnerTypes && r.value != ""
  {
    if scopeType.Text? && scopeType.s in ScopeTypeMap then Some(ScopeTypeMap[scopeType.s]) else None
  }

  /** The collapse and the identities of the table, and nothing for anything else. */
  lemma ScopeTokenTable(kind: string)
    ensures kind == "root_organization" || kind == "organization"
            ==> ScopeToken(Text(kind)) == Some("organization")
    ensures kind == "application" || kind == "repository" || kind == "repository_container"
            ==> ScopeToken(Text(kind)) == Some(kind)
    ensures kind !in KnownScopeTypes ==> ScopeToken(Text(kind)) == None
  {
  }
}
