/** The values the `Config` class body computes from the environment when the
    application starts: the database URI and the upload folder. An unset
    environment variable and an empty one are both falsy in Python and are
    both modelled by "". */
module AppConfig {
  import opened PyStr

  /** The scheme Heroku-style providers put in DATABASE_URL, and the one the
      database driver requires instead. */
  const LegacyScheme: string := "postgres://"
  const PostgresScheme: string := "postgresql://"

  /** Where a serverless deployment keeps its (ephemeral) files. */
  const VercelSqliteUri: string := "sqlite:////tmp/database.db"
  const VercelUploads: string := "/tmp/uploads"

  datatype Config = Config(databaseUri: string, uploadFolder: string)

  /** The upload folder: under /tmp on Vercel, beside the application otherwise. */
  function UploadFolder(vercel: string, basedir: string): (r: string) {
    if vercel != "" then VercelUploads else PathJoin(basedir, "uploads")
  }

  /** The database URI before the scheme fix: DATABASE_URL when it is set,
      otherwise an SQLite file under /tmp on Vercel or beside the application. */
  function RawDatabaseUri(databaseUrl: string, vercel: string, basedir: string): (r: string) {
    if databaseUrl == "" then
      if vercel != "" then VercelSqliteUri else "sqlite:///" + PathJoin(basedir, "database.db")
    else
      databaseUrl
  }

  /** The `postgres://` to `postgresql://` fix: a URI with the legacy scheme
      has that first occurrence replaced; any other URI is used unchanged. */
  function FixScheme(uri: string): (r: string)
    ensures !StartsWith(uri, LegacyScheme) ==> r == uri
    ensures StartsWith(uri, LegacyScheme) ==> r == PostgresScheme + uri[|LegacyScheme|..]
    ensures !StartsWith(r, LegacyScheme)
  {
    if uri != "" && StartsWith(uri, LegacyScheme) then
      var r := ReplaceFirst(uri, LegacyScheme, PostgresScheme);
      assert r[..|LegacyScheme|][8] == 'q';
      r
    else
      uri
  }

  /** The whole class body: DATABASE_URL, VERCEL and the application
      directory determine the database URI and the upload folder. */
  function Resolve(databaseUrl: string, vercel: string, basedir: string): (c: Config)
    ensures databaseUrl == "" && vercel == "" ==>
      c == Config("sqlite:///" + PathJoin(basedir, "database.db"), PathJoin(basedir, "uploads"))
    ensures databaseUrl == "" && vercel != "" ==>
      c == Config("sqlite:////tmp/database.db", "/tmp/uploads")
    ensures databaseUrl != "" && !StartsWith(databaseUrl, "postgres://") ==> c.databaseUri == databaseUrl
    ensures StartsWith(databaseUrl, "postgres://") ==> c.databaseUri == "postgresql://" + databaseUrl[11..]
    ensures c.uploadFolder == (if vercel != "" then "/tmp/uploads" else PathJoin(basedir, "uploads"))
  {
    var uri := RawDatabaseUri(databaseUrl, vercel, basedir);
    assert VercelSqliteUri[..|LegacyScheme|][0] == 's';
    assert databaseUrl == "" && vercel == "" ==> uri[..|LegacyScheme|][0] == 's';
    Config(FixScheme(uri), UploadFolder(vercel, basedir))
  }

  /** The upload folder does not depend on whether DATABASE_URL is set. */
  lemma UploadFolderIgnoresDatabaseUrl(url1: string, url2: string, vercel: string, basedir: string)
    ensures Resolve(url1, vercel, basedir).uploadFolder == Resolve(url2, vercel, basedir).uploadFolder
  {
  }

  /** Applying the scheme fix a second time changes nothing. */
  lemma FixSchemeIdempotent(uri: string)
    ensures FixScheme(FixScheme(uri)) == FixScheme(uri)
  {
  }

  /** A URI that already names the driver's scheme is left as it is, so a
      correctly configured deployment is unaffected by the fix. */
  lemma FixSchemeKeepsPostgresql(uri: string)
    requires StartsWith(uri, PostgresScheme)
    ensures FixScheme(uri) == uri
  {
    assert uri[..|LegacyScheme|][8] == 'q';
  }
}
