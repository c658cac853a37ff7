/**
 * The scheme shim `get_engine` applies to the `DATABASE_URL` setting before
 * handing it to the database driver: a `postgres://` prefix becomes
 * `postgresql://`.
 */
module DbUrl {
  import opened Strings
  import opened Wrappers

  const OldScheme: string := "postgres://"
  const NewScheme: string := "postgresql://"

  /**
   * The URL `get_engine` passes on, given the value of `DATABASE_URL` (`None`
   * when the variable is not set).  The empty string is falsy in Python, so it
   * is passed on as it is.  A URL that starts with `postgres://` gets
   * `postgresql://` in its place and keeps the rest; any other value, set or
   * not, passes through unchanged.
   */
  function EngineUrl(databaseUrl: Option<string>): (r: Option<string>)
    ensures databaseUrl.Some? && OldScheme <= databaseUrl.value ==>
              r == Some(NewScheme + databaseUrl.value[|OldScheme|..])
    ensures !(databaseUrl.Some? && OldScheme <= databaseUrl.value) ==> r == databaseUrl
  {
    match databaseUrl
    case None => None
    case Some(url) =>
      if url != "" && OldScheme <= url then Some(ReplaceFirst(url, OldScheme, NewScheme))
      else databaseUrl
  }

  /** A URL already in the `postgresql://` scheme is left alone. */
  lemma NewSchemeUntouched(url: string)
    requires NewScheme <= url
    ensures EngineUrl(Some(url)) == Some(url)
  {
    assert url[8] == 'q' != OldScheme[8];
  }

  /** Applying the shim twice is the same as applying it once. */
  lemma EngineUrlIdempotent(databaseUrl: Option<string>)
    ensures EngineUrl(EngineUrl(databaseUrl)) == EngineUrl(databaseUrl)
  {
    var once := EngineUrl(databaseUrl);
    if databaseUrl.Some? && OldScheme <= databaseUrl.value {
      NewSchemeUntouched(once.value);
    }
  }
}
