/** Where the value of an `_env(NAME)` token in a build file comes from.
    The textual rewrite of the file is not modelled; only the choice of
    source is, with both lookups given as functions. */
module EnvTokens {

  /** The value for `name`: from the process environment when the
      configured variable table is empty, and from the table alone
      otherwise, so a name missing from a non-empty table gets whatever the
      table's lookup gives for it, never the process environment's value.
      The table's lookup is a parameter here and is not constrained. */
  function TokenValue(tableSize: nat, getenv: string -> string, find: string -> string, name: string): string
  {
    if tableSize == 0 then getenv(name) else find(name)
  }

  /** With a non-empty table the process environment is never consulted. */
  lemma TableShadowsProcessEnv(tableSize: nat, getenv1: string -> string, getenv2: string -> string,
                               find: string -> string, name: string)
    requires tableSize > 0
    ensures TokenValue(tableSize, getenv1, find, name) == find(name)
    ensures TokenValue(tableSize, getenv1, find, name) == TokenValue(tableSize, getenv2, find, name)
  {
  }

  /** With an empty table the table's lookup is never consulted. */
  lemma EmptyTableUsesProcessEnv(getenv: string -> string, find1: string -> string,
                                 find2: string -> string, name: string)
    ensures TokenValue(0, getenv, find1, name) == getenv(name)
    ensures TokenValue(0, getenv, find1, name) == TokenValue(0, getenv, find2, name)
  {
  }
}
