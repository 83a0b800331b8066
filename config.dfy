/**
 * The program's configuration (config.go): filling in defaults for the
 * fields left at their zero value, and the check of the required ones.
 */
module Config {
  import opened Wrappers

  type uint16 = x: int | 0 <= x < 0x1_0000

  /** The `[Main]` section. */
  datatype MainConfig = MainConfig(siteDir: string, proxyAddr: string, updateThreadCount: int)

  /** The `[Database]` section. */
  datatype DatabaseConfig = DatabaseConfig(user: string, password: string, host: string, port: uint16, dbName: string)

  const DefaultHost := "localhost"
  const DefaultPort: uint16 := 5432

  /**
   * The `[Main]` defaults: an empty site directory becomes `defaultSitePath`
   * and a thread count of zero or less becomes 1. Nothing else changes.
   */
  function MainDefaults(m: MainConfig, defaultSitePath: string): (r: MainConfig)
    ensures r.siteDir == if m.siteDir == "" then defaultSitePath else m.siteDir
    ensures r.updateThreadCount >= 1
    ensures m.updateThreadCount <= 0 ==> r.updateThreadCount == 1
    ensures m.updateThreadCount > 0 ==> r.updateThreadCount == m.updateThreadCount
    ensures r.proxyAddr == m.proxyAddr
  {
    MainConfig(
      if m.siteDir == "" then defaultSitePath else m.siteDir,
      m.proxyAddr,
      if m.updateThreadCount <= 0 then 1 else m.updateThreadCount)
  }

  /**
   * The `[Database]` defaults: an empty host becomes "localhost" and port 0
   * becomes 5432. User, password and database name are never touched.
   */
  function DatabaseDefaults(d: DatabaseConfig): (r: DatabaseConfig)
    ensures r.host != "" && r.port != 0
    ensures d.host != "" ==> r.host == d.host
    ensures d.host == "" ==> r.host == DefaultHost
    ensures d.port != 0 ==> r.port == d.port
    ensures d.port == 0 ==> r.port == DefaultPort
    ensures r.user == d.user && r.password == d.password && r.dbName == d.dbName
  {
    DatabaseConfig(
      d.user,
      d.password,
      if d.host == "" then DefaultHost else d.host,
      if d.port == 0 then DefaultPort else d.port,
      d.dbName)
  }

  /** Applying the defaults a second time changes nothing, if the default site path is not empty. */
  lemma DefaultsIdempotent(m: MainConfig, d: DatabaseConfig, defaultSitePath: string)
    requires defaultSitePath != ""
    ensures MainDefaults(MainDefaults(m, defaultSitePath), defaultSitePath) == MainDefaults(m, defaultSitePath)
    ensures DatabaseDefaults(DatabaseDefaults(d)) == DatabaseDefaults(d)
  {
  }

  /** The two errors of `Validate`. */
  datatype ConfigError = EmptyUser | EmptyDbName

  /** `Config`, updated in place by `ApplyDefaults`. */
  class Config {
    var main: MainConfig
    var database: DatabaseConfig

    constructor (main: MainConfig, database: DatabaseConfig)
      ensures this.main == main && this.database == database
    {
      this.main := main;
      this.database := database;
    }

    /** `ApplyDefaults`: both sections get their defaults, in place. */
    method ApplyDefaults(defaultSitePath: string)
      modifies this
      ensures main == MainDefaults(old(main), defaultSitePath)
      ensures database == DatabaseDefaults(old(database))
      ensures Validate() == old(Validate())
    {
      if main.siteDir == "" {
        main := main.(siteDir := defaultSitePath);
      }
      if main.updateThreadCount <= 0 {
        main := main.(updateThreadCount := 1);
      }
      if database.host == "" {
        database := database.(host := DefaultHost);
      }
      if database.port == 0 {
        database := database.(port := DefaultPort);
      }
    }

    /**
     * `Validate`: an empty user is reported first, then an empty database
     * name; with both present the configuration is accepted.
     */
    function Validate(): (r: Option<ConfigError>)
      reads this
      ensures database.user == "" ==> r == Some(EmptyUser)
      ensures database.user != "" && database.dbName == "" ==> r == Some(EmptyDbName)
      ensures r.None? <==> database.user != "" && database.dbName != ""
    {
      if database.user == "" then Some(EmptyUser)
      else if database.dbName == "" then Some(EmptyDbName)
      else None
    }
  }
}
