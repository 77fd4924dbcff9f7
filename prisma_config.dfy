/**
 * The database connection string the migration tool uses: the direct
 * (non-pooled) URL when defined, else the pooled URL, else the empty string.
 * Like the nullish-coalescing operator it models, the fallback skips only
 * undefined variables, never empty ones. It reads the raw environment,
 * independently of the server's validation.
 */
module PrismaConfig {
  import opened Wrappers
  import opened EnvSchema
  import opened AppConfig

  /** `DATABASE_URL_DIRECT ?? DATABASE_URL ?? ''`. */
  function DatasourceUrl(env: Env): (url: string)
    ensures "DATABASE_URL_DIRECT" in env ==> url == env["DATABASE_URL_DIRECT"]
    ensures "DATABASE_URL_DIRECT" !in env && "DATABASE_URL" in env ==> url == env["DATABASE_URL"]
    ensures "DATABASE_URL_DIRECT" !in env && "DATABASE_URL" !in env ==> url == ""
    ensures url == "" ==> "DATABASE_URL_DIRECT" !in env || env["DATABASE_URL_DIRECT"] == ""
  {
    Get(env, "DATABASE_URL_DIRECT").GetOr(Get(env, "DATABASE_URL").GetOr(""))
  }

  /** A defined but empty direct URL is used as it is; the pooled URL is not consulted. */
  lemma EmptyDirectUrlKept(env: Env)
    requires "DATABASE_URL_DIRECT" in env && env["DATABASE_URL_DIRECT"] == ""
    requires "DATABASE_URL" in env && env["DATABASE_URL"] != ""
    ensures DatasourceUrl(env) == "" && DatasourceUrl(env) != env["DATABASE_URL"]
  {
  }

  /**
   * In an environment the server accepts, migrations always connect through
   * the direct URL, which passed the URL check, and it is the one the
   * server's `database` namespace carries as `directUrl`.
   */
  lemma ValidatedDatasource(env: Env, formats: Formats)
    requires ValidateEnv(env, formats).Success?
    ensures "DATABASE_URL_DIRECT" in env && DatasourceUrl(env) == env["DATABASE_URL_DIRECT"]
    ensures formats.isUrl(DatasourceUrl(env))
    ensures DatabaseNamespace(env).directUrl == Some(DatasourceUrl(env))
  {
    ValidatedDatabase(env, formats);
  }
}
