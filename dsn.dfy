// Building the PostgreSQL connection string from the service configuration
// (internal/storage/db.go, internal/config/config.go).
module Dsn {

  /** The service configuration (config.Config), one field per environment variable. */
  datatype Config = Config(
    serverAddress: string,
    postgresConn: string,
    postgresJdbcUrl: string,
    postgresUser: string,
    postgresPass: string,
    postgresHost: string,
    postgresPort: string,
    postgresDb: string)

  const JdbcPrefix := "jdbc:postgresql://"
  const FirstSslMode := "?sslmode=disable"
  const NextSslMode := "&sslmode=disable"

  /** strings.HasPrefix */
  predicate HasPrefix(s: string, prefix: string)
  {
    |prefix| <= |s| && s[..|prefix|] == prefix
  }

  /** `sub` occurs in `s` starting at index `i`. */
  predicate OccursAt(s: string, sub: string, i: int)
  {
    0 <= i && i + |sub| <= |s| && s[i..i + |sub|] == sub
  }

  /** strings.Contains: `sub` occurs somewhere in `s`. */
  predicate Contains(s: string, sub: string)
  {
    exists i :: 0 <= i <= |s| && OccursAt(s, sub, i)
  }

  /** The outcome of jdbcToGoConnectionString: the DSN, or the error it reports. */
  datatype Conversion = Converted(dsn: string) | Invalid(message: string)

  /** The string fmt.Sprintf("postgres://%s:%s@%s", ...) assembles before any suffix. */
  function Assembled(jdbcBody: string, username: string, password: string): (s: string)
    ensures HasPrefix(s, "postgres://")
    ensures |s| == |"postgres://"| + |username| + 1 + |password| + 1 + |jdbcBody|
    ensures s[|s| - |jdbcBody|..] == jdbcBody
    ensures s[|"postgres://"|..|"postgres://"| + |username|] == username
  {
    "postgres://" + username + ":" + password + "@" + jdbcBody
  }

  /** The suffix the conversion appends, judged on the whole assembled string. */
  function SslSuffix(assembled: string): (suffix: string)
    ensures !Contains(assembled, "?") ==> suffix == FirstSslMode
    ensures Contains(assembled, "?") && !Contains(assembled, "sslmode=") ==> suffix == NextSslMode
    ensures Contains(assembled, "?") && Contains(assembled, "sslmode=") ==> suffix == ""
  {
    if !Contains(assembled, "?") then FirstSslMode
    else if !Contains(assembled, "sslmode=") then NextSslMode
    else ""
  }

  /**
   * jdbcToGoConnectionString: strip the JDBC scheme, put the credentials in
   * front and make sure an sslmode parameter is present.
   */
  function JdbcToGoConnectionString(jdbc: string, username: string, password: string): (r: Conversion)
    ensures r.Invalid? <==> !HasPrefix(jdbc, JdbcPrefix)
    ensures r.Converted? ==>
      r.dsn == Assembled(jdbc[|JdbcPrefix|..], username, password) + SslSuffix(Assembled(jdbc[|JdbcPrefix|..], username, password))
  {
    if !HasPrefix(jdbc, JdbcPrefix) then
      Invalid("invalid JDBC string: must start with jdbc:postgresql://")
    else
      var assembled := Assembled(jdbc[|JdbcPrefix|..], username, password);
      Converted(assembled + SslSuffix(assembled))
  }

  /** Appending to a string keeps every occurrence it already had. */
  lemma ContainsAppend(s: string, t: string, sub: string)
    requires Contains(s, sub)
    ensures Contains(s + t, sub)
  {
    var i :| 0 <= i <= |s| && OccursAt(s, sub, i);
    assert (s + t)[i..i + |sub|] == s[i..i + |sub|];
    assert OccursAt(s + t, sub, i);
  }

  /** `sub` occurs in `s + sub`, at the end. */
  lemma ContainsAtEnd(s: string, sub: string)
    ensures Contains(s + sub, sub)
  {
    assert (s + sub)[|s|..|s| + |sub|] == sub;
    assert OccursAt(s + sub, sub, |s|);
  }

  /**
   * Every successful conversion carries an sslmode parameter behind a `?`,
   * and the assembled string is kept as a prefix of it.
   */
  lemma ConversionHasSslMode(jdbc: string, username: string, password: string)
    requires HasPrefix(jdbc, JdbcPrefix)
    ensures var r := JdbcToGoConnectionString(jdbc, username, password);
      && r.Converted?
      && HasPrefix(r.dsn, "postgres://" + username + ":" + password + "@" + jdbc[|JdbcPrefix|..])
      && Contains(r.dsn, "sslmode=")
      && Contains(r.dsn, "?")
  {
    var a := Assembled(jdbc[|JdbcPrefix|..], username, password);
    var dsn := a + SslSuffix(a);
    assert dsn[..|a|] == a;
    assert FirstSslMode == "?" + "sslmode=" + "disable";
    assert NextSslMode == "&" + "sslmode=" + "disable";
    if !Contains(a, "?") {
      assert dsn == ((a + "?") + "sslmode=") + "disable";
      ContainsAtEnd(a, "?");
      ContainsAppend(a + "?", "sslmode=" + "disable", "?");
      assert dsn == (a + "?") + ("sslmode=" + "disable");
      ContainsAtEnd(a + "?", "sslmode=");
      ContainsAppend((a + "?") + "sslmode=", "disable", "sslmode=");
    } else if !Contains(a, "sslmode=") {
      ContainsAppend(a, NextSslMode, "?");
      assert dsn == ((a + "&") + "sslmode=") + "disable";
      ContainsAtEnd(a + "&", "sslmode=");
      ContainsAppend((a + "&") + "sslmode=", "disable", "sslmode=");
    } else {
      assert dsn == a;
    }
    assert HasPrefix(dsn, a);
  }

  /**
   * The `?` test reads the credentials too: with a `?` in the password and
   * none in the JDBC URL, the parameter is joined with `&` although the
   * result then has no query string of its own.
   */
  lemma QuestionMarkInPassword(jdbc: string, username: string, password: string)
    requires HasPrefix(jdbc, JdbcPrefix)
    requires Contains(password, "?")
    requires !Contains(Assembled(jdbc[|JdbcPrefix|..], username, password), "sslmode=")
    ensures JdbcToGoConnectionString(jdbc, username, password)
         == Converted(Assembled(jdbc[|JdbcPrefix|..], username, password) + NextSslMode)
  {
    var i :| 0 <= i <= |password| && OccursAt(password, "?", i);
    var head := "postgres://" + username + ":";
    var a := Assembled(jdbc[|JdbcPrefix|..], username, password);
    assert a == head + password + "@" + jdbc[|JdbcPrefix|..];
    assert a[|head| + i..|head| + i + 1] == password[i..i + 1];
    assert OccursAt(a, "?", |head| + i);
  }

  /** GetDatabaseDSN: the explicit connection string, else the JDBC URL, else the discrete fields. */
  function GetDatabaseDsn(config: Config): (dsn: string)
    ensures config.postgresConn != "" ==> dsn == config.postgresConn
    ensures config.postgresConn == "" && config.postgresJdbcUrl != "" ==>
      dsn == match JdbcToGoConnectionString(config.postgresJdbcUrl, config.postgresUser, config.postgresPass)
             case Converted(s) => s
             case Invalid(_) => ""
    ensures config.postgresConn == "" && config.postgresJdbcUrl == "" ==>
      dsn == "postgres://" + config.postgresUser + ":" + config.postgresPass + "@" + config.postgresHost
             + ":" + config.postgresPort + "/" + config.postgresDb + FirstSslMode
  {
    if config.postgresConn != "" then config.postgresConn
    else if config.postgresJdbcUrl != "" then
      match JdbcToGoConnectionString(config.postgresJdbcUrl, config.postgresUser, config.postgresPass)
      case Converted(s) => s
      case Invalid(_) => ""
    else
      "postgres://" + config.postgresUser + ":" + config.postgresPass + "@" + config.postgresHost
      + ":" + config.postgresPort + "/" + config.postgresDb + FirstSslMode
  }

  /**
   * Whatever the configuration, the DSN is the explicit connection string,
   * the empty string of a rejected JDBC URL, or a string with an sslmode
   * parameter.
   */
  lemma DsnHasSslModeOrIsExplicit(config: Config)
    ensures var dsn := GetDatabaseDsn(config);
      || (config.postgresConn != "" && dsn == config.postgresConn)
      || (config.postgresConn == "" && config.postgresJdbcUrl != "" && !HasPrefix(config.postgresJdbcUrl, JdbcPrefix) && dsn == "")
      || (config.postgresConn == "" && HasPrefix(dsn, "postgres://") && Contains(dsn, "sslmode="))
  {
    var dsn := GetDatabaseDsn(config);
    if config.postgresConn == "" {
      if config.postgresJdbcUrl != "" {
        if HasPrefix(config.postgresJdbcUrl, JdbcPrefix) {
          ConversionHasSslMode(config.postgresJdbcUrl, config.postgresUser, config.postgresPass);
        }
      } else {
        var front := "postgres://" + config.postgresUser + ":" + config.postgresPass + "@" + config.postgresHost
                     + ":" + config.postgresPort + "/" + config.postgresDb;
        assert FirstSslMode == "?" + "sslmode=" + "disable";
        assert dsn == ((front + "?") + "sslmode=") + "disable";
        ContainsAtEnd(front + "?", "sslmode=");
        ContainsAppend((front + "?") + "sslmode=", "disable", "sslmode=");
        assert dsn[..|"postgres://"|] == "postgres://";
      }
    }
  }
}
