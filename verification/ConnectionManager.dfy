/**
 The databases of the configuration: the connection string that is built for them, and what a
 session does with it when it is opened.
 */
module ConnectionManager {
  import opened ConnectionString
  import opened Strings
  import opened Wrappers

  // ---------------------------------------------------------------- ports

  function Digit(n: nat): char
    requires n < 10
  {
    '0' + n as char
  }

  function Decimal(n: nat): string {
    if n < 10 then [Digit(n)] else Decimal(n / 10) + [Digit(n % 10)]
  }

  function Printed(i: int): string {
    if i < 0 then "-" + Decimal(-i) else Decimal(i)
  }

  predicate IsDigit(c: char) {
    '0' <= c <= '9'
  }

  predicate AllDigits(s: string) {
    forall k | 0 <= k < |s| :: IsDigit(s[k])
  }

  function Value(s: string): nat
    requires AllDigits(s)
  {
    if s == "" then 0 else 10 * Value(s[..|s| - 1]) + (s[|s| - 1] as int - '0' as int)
  }

  function TryParseUnsigned(s: string): Option<nat> {
    if s != "" && AllDigits(s) then Some(Value(s)) else None
  }

  lemma {:induction false} DecimalValue(n: nat)
    ensures var s := Decimal(n); s != "" && AllDigits(s) && Value(s) == n
  {
    if n >= 10 {
      DecimalValue(n / 10);
      var s := Decimal(n);
      assert s[..|s| - 1] == Decimal(n / 10);
    }
  }

  /** A printed number is clean, and only the non-negative ones are read back. */
  lemma PrintedParses(i: int)
    ensures Clean(Printed(i)) && Without(Printed(i), ';') && Without(Printed(i), NUL)
    ensures TryParseUnsigned(Printed(i)) == if i < 0 then None else Some(i)
  {
    DecimalValue(if i < 0 then -i else i);
    assert i < 0 ==> !IsDigit(Printed(i)[0]);
  }

  // ---------------------------------------------------------------- building the string

  datatype ConnectionType = LoginServer | PhpServer | InvalidType

  function GetString(strings: map<string, string>, key: string, default: string): string {
    if key in strings then strings[key] else default
  }

  function GetInt(ints: map<string, int>, key: string, default: int): int {
    if key in ints then ints[key] else default
  }

  datatype Database = Database(host: string, port: int, name: string, user: string, password: string)

  /** The database that the configuration describes under a prefix. */
  function Described(strings: map<string, string>, ints: map<string, int>, prefix: string): Database {
    Database(
      GetString(strings, prefix + ".db.host", "localhost"),
      GetInt(ints, prefix + ".db.port", 3306),
      GetString(strings, prefix + ".db.name", ""),
      GetString(strings, prefix + ".db.user", "root"),
      GetString(strings, prefix + ".db.password", ""))
  }

  function Prefix(t: ConnectionType): string {
    if t.LoginServer? then "loginServer" else "phpServer"
  }

  function Field(key: string, value: string): string {
    key + "=" + value
  }

  ghost function Pairs(d: Database): seq<(string, string)> {
    [ ("host", d.host), ("port", Printed(d.port)), ("db", d.name),
      ("user", d.user), ("password", d.password), ("auto-reconnect", "true") ]
  }

  ghost function Fields(d: Database): (f: seq<string>)
    ensures |f| == |Pairs(d)|
  {
    seq(|Pairs(d)|, i requires 0 <= i < |Pairs(d)| => Field(Pairs(d)[i].0, Pairs(d)[i].1))
  }

  ghost function Built(d: Database): string {
    Joined(Fields(d), false)
  }

  lemma {:induction false} JoinedMore(pieces: seq<string>, p: string, closed: bool)
    requires pieces != []
    ensures Joined(pieces + [p], closed) == Joined(pieces, true) + (p + if closed then ";" else "")
  {
    assert (pieces + [p])[1..] == pieces[1..] + [p];
    if |pieces| > 1 {
      JoinedMore(pieces[1..], p, closed);
    } else {
      assert Joined([p], closed) == p + if closed then ";" else "";
    }
  }

  /** The database of the login server, key by key as an administrator writes them. */
  function LoginDatabase(strings: map<string, string>, ints: map<string, int>): Database {
    Database(
      if "loginServer.db.host" in strings then strings["loginServer.db.host"] else "localhost",
      if "loginServer.db.port" in ints then ints["loginServer.db.port"] else 3306,
      if "loginServer.db.name" in strings then strings["loginServer.db.name"] else "",
      if "loginServer.db.user" in strings then strings["loginServer.db.user"] else "root",
      if "loginServer.db.password" in strings then strings["loginServer.db.password"] else "")
  }

  lemma DescribesLogin(strings: map<string, string>, ints: map<string, int>)
    ensures Described(strings, ints, Prefix(LoginServer)) == LoginDatabase(strings, ints)
  {
    assert "loginServer" + ".db.host" == "loginServer.db.host" && "loginServer" + ".db.port" == "loginServer.db.port";
    assert "loginServer" + ".db.name" == "loginServer.db.name" && "loginServer" + ".db.user" == "loginServer.db.user";
    assert "loginServer" + ".db.password" == "loginServer.db.password";
  }

  lemma DescribesPhp(strings: map<string, string>, ints: map<string, int>)
    ensures Described(strings, ints, Prefix(PhpServer)).name != "" <==>
            "phpServer.db.name" in strings && strings["phpServer.db.name"] != ""
  {
    assert "phpServer" + ".db.name" == "phpServer.db.name";
  }

  class Manager {
    var connections: map<ConnectionType, string>

    constructor ()
      ensures connections == map[]
    {
      connections := map[];
    }

    method SetConnectionsFromConfig(strings: map<string, string>, ints: map<string, int>, t: ConnectionType)
      returns (ok: bool)
      modifies this
      ensures ok <==> !t.InvalidType? && Described(strings, ints, Prefix(t)).name != ""
      ensures connections ==
              if ok && t.LoginServer? then old(connections)[t := Built(Described(strings, ints, Prefix(t)))]
              else old(connections)
    {
      var firstKeyPart;
      match t {
        case LoginServer => firstKeyPart := "loginServer";
        case PhpServer => firstKeyPart := "phpServer";
        case InvalidType => return false;
      }
      var host := GetString(strings, firstKeyPart + ".db.host", "localhost");
      var dbConfig := Field("host", host) + ";";
      var port := GetInt(ints, firstKeyPart + ".db.port", 3306);
      dbConfig := dbConfig + (Field("port", Printed(port)) + ";");
      var dbName := GetString(strings, firstKeyPart + ".db.name", "");
      if dbName == "" {
        return false;
      }
      dbConfig := dbConfig + (Field("db", dbName) + ";");
      var user := GetString(strings, firstKeyPart + ".db.user", "root");
      dbConfig := dbConfig + (Field("user", user) + ";");
      var password := GetString(strings, firstKeyPart + ".db.password", "");
      dbConfig := dbConfig + (Field("password", password) + ";");
      dbConfig := dbConfig + Field("auto-reconnect", "true");
      IsBuilt(Database(host, port, dbName, user, password), dbConfig);
      SetConnection(dbConfig, t);
      return true;
    }

    method SetConnection(connectionString: string, t: ConnectionType)
      modifies this
      ensures connections == if t.LoginServer? then old(connections)[t := connectionString] else old(connections)
    {
      if t.LoginServer? {
        connections := connections[t := connectionString];
      }
    }
  }

  lemma IsBuilt(d: Database, s: string)
    requires var f := Fields(d);
             |f| == 6 && s == f[0] + ";" + (f[1] + ";") + (f[2] + ";") + (f[3] + ";") + (f[4] + ";") + f[5]
    ensures s == Built(d)
  {
    var f := Fields(d);
    JoinedMore([f[0]], f[1], true);
    JoinedMore([f[0], f[1]], f[2], true);
    JoinedMore([f[0], f[1], f[2]], f[3], true);
    JoinedMore([f[0], f[1], f[2], f[3]], f[4], true);
    JoinedMore([f[0], f[1], f[2], f[3], f[4]], f[5], false);
    assert f[5] + "" == f[5];
    assert [f[0], f[1]] == [f[0]] + [f[1]];
    assert [f[0], f[1], f[2]] == [f[0], f[1]] + [f[2]];
    assert [f[0], f[1], f[2], f[3]] == [f[0], f[1], f[2]] + [f[3]];
    assert [f[0], f[1], f[2], f[3], f[4]] == [f[0], f[1], f[2], f[3]] + [f[4]];
    assert f == [f[0], f[1], f[2], f[3], f[4]] + [f[5]];
  }

  // ---------------------------------------------------------------- opening a session

  const DEFAULTS: Options := map[
    "host" := "localhost", "port" := "3306", "user" := "", "password" := "", "db" := "",
    "compress" := "", "auto-reconnect" := "", "secure-auth" := "", "character-set" := "utf8" ]

  datatype Opened =
    | BadFormat | NoUser | BadPort | BadCompress | BadReconnect | BadSecureAuth
    | Connect(host: string, user: string, password: string, db: Option<string>, port: int,
              compress: bool, reconnect: Option<bool>, secureAuth: Option<bool>, charset: Option<string>)

  /** A flag that is true, false or left out. */
  function Flag(value: string): Option<Option<bool>> {
    if value == "true" then Some(Some(true))
    else if value == "false" then Some(Some(false))
    else if value == "" then Some(None)
    else None
  }

  ghost predicate Complete(options: Options) {
    DEFAULTS.Keys <= options.Keys
  }

  /** The value of a key, or the empty string. */
  function At(options: Options, key: string): string {
    if key in options then options[key] else ""
  }

  function Connection(options: Options): Opened {
    var port := TryParseUnsigned(At(options, "port"));
    if At(options, "user") == "" then NoUser
    else if port.None? || port.value == 0 || port.value > 65535 then BadPort
    else if Flag(At(options, "compress")).None? then BadCompress
    else if Flag(At(options, "auto-reconnect")).None? then BadReconnect
    else if Flag(At(options, "secure-auth")).None? then BadSecureAuth
    else
      // the values are passed on as C strings
      Connect(CString(At(options, "host")), CString(At(options, "user")), CString(At(options, "password")),
        if At(options, "db") == "" then None else Some(CString(At(options, "db"))), port.value,
        Flag(At(options, "compress")).value == Some(true), Flag(At(options, "auto-reconnect")).value,
        Flag(At(options, "secure-auth")).value,
        if At(options, "character-set") == "" then None else Some(CString(At(options, "character-set"))))
  }

  method Open(connectionString: string) returns (r: Opened)
    ensures var o := Parsed(connectionString, 0, DEFAULTS, ReadPiece);
            r == if o.None? then BadFormat else Connection(o.value)
  {
    var options := ParseOptions(connectionString, DEFAULTS);
    if options.None? {
      return BadFormat;
    }
    return Connection(options.value);
  }

  // ---------------------------------------------------------------- round trip

  ghost function SetAll(pairs: seq<(string, string)>, options: Options): Options {
    if pairs == [] then options else SetAll(pairs[1..], options[pairs[0].0 := pairs[0].1])
  }

  ghost predicate Printable(pair: (string, string)) {
    Clean(pair.0) && Without(pair.0, '=') && Without(pair.0, ';') && Fit(pair.1)
  }

  lemma {:induction false} AssignedFields(pairs: seq<(string, string)>, fields: seq<string>, options: Options)
    requires |fields| == |pairs|
    requires forall i | 0 <= i < |pairs| :: Printable(pairs[i]) && fields[i] == Field(pairs[i].0, pairs[i].1)
    ensures Assigned(fields, options, ReadPiece) == Some(SetAll(pairs, options))
  {
    if pairs != [] {
      ReadField(pairs[0].0, pairs[0].1);
      AssignedFields(pairs[1..], fields[1..], options[pairs[0].0 := pairs[0].1]);
    }
  }

  lemma {:induction false} SetAllAt(pairs: seq<(string, string)>, options: Options, i: nat)
    requires i < |pairs| && forall j | i < j < |pairs| :: pairs[j].0 != pairs[i].0
    ensures var o := SetAll(pairs, options); pairs[i].0 in o && o[pairs[i].0] == pairs[i].1
  {
    if i > 0 {
      SetAllAt(pairs[1..], options[pairs[0].0 := pairs[0].1], i - 1);
    } else {
      SetAllElsewhere(pairs[1..], options[pairs[0].0 := pairs[0].1], pairs[0].0);
    }
  }

  lemma {:induction false} SetAllElsewhere(pairs: seq<(string, string)>, options: Options, k: string)
    requires k in options && forall j | 0 <= j < |pairs| :: pairs[j].0 != k
    ensures var o := SetAll(pairs, options); k in o && o[k] == options[k]
  {
    if pairs != [] {
      SetAllElsewhere(pairs[1..], options[pairs[0].0 := pairs[0].1], k);
    }
  }

  ghost predicate FitDatabase(d: Database) {
    Fit(d.host) && Fit(d.name) && Fit(d.user) && Fit(d.password)
  }

  /** The options hold the values that were printed, and the defaults of the others. */
  ghost predicate Recovered(o: Options, d: Database) {
    && Complete(o)
    && o["host"] == d.host && o["port"] == Printed(d.port) && o["db"] == d.name
    && o["user"] == d.user && o["password"] == d.password && o["auto-reconnect"] == "true"
    && o["compress"] == "" && o["secure-auth"] == "" && o["character-set"] == "utf8"
  }

  ghost function ParsedBack(d: Database): Option<Options> {
    Parsed(Built(d), 0, DEFAULTS, ReadPiece)
  }

  predicate PrintableKey(key: string) {
    Clean(key) && Without(key, '=') && Without(key, ';')
  }

  lemma KeysPrintable()
    ensures PrintableKey("host") && PrintableKey("port") && PrintableKey("db")
    ensures PrintableKey("user") && PrintableKey("password") && PrintableKey("auto-reconnect")
    ensures Fit("true")
  {
  }

  lemma FieldPrintable(key: string, value: string)
    requires PrintableKey(key) && Fit(value)
    ensures Printable((key, value)) && Without(Field(key, value), ';')
  {
  }

  lemma FieldsPrintable(d: Database)
    requires FitDatabase(d)
    ensures forall i | 0 <= i < |Pairs(d)| :: Printable(Pairs(d)[i])
    ensures forall p | p in Fields(d) :: Without(p, ';')
  {
    PrintedParses(d.port);
    KeysPrintable();
    FieldPrintable("host", d.host);
    FieldPrintable("port", Printed(d.port));
    FieldPrintable("db", d.name);
    FieldPrintable("user", d.user);
    FieldPrintable("password", d.password);
    FieldPrintable("auto-reconnect", "true");
  }

  lemma FitRecovered(d: Database)
    requires FitDatabase(d)
    ensures ParsedBack(d).Some? && Recovered(ParsedBack(d).value, d)
  {
    FieldsPrintable(d);
    assert Built(d)[0..] == Built(d);
    PiecesParsed(Built(d), 0, Fields(d), false, DEFAULTS, ReadPiece);
    AssignedFields(Pairs(d), Fields(d), DEFAULTS);
    PairsSet(d);
  }

  lemma PairsApart(d: Database)
    ensures forall i, j | 0 <= i < j < |Pairs(d)| :: Pairs(d)[i].0 != Pairs(d)[j].0
  {
  }

  lemma PairsSet(d: Database)
    ensures Recovered(SetAll(Pairs(d), DEFAULTS), d)
  {
    PairsApart(d);
    SetAllAt(Pairs(d), DEFAULTS, 0);
    SetAllAt(Pairs(d), DEFAULTS, 1);
    SetAllAt(Pairs(d), DEFAULTS, 2);
    SetAllAt(Pairs(d), DEFAULTS, 3);
    SetAllAt(Pairs(d), DEFAULTS, 4);
    SetAllAt(Pairs(d), DEFAULTS, 5);
    SetAllElsewhere(Pairs(d), DEFAULTS, "compress");
    SetAllElsewhere(Pairs(d), DEFAULTS, "secure-auth");
    SetAllElsewhere(Pairs(d), DEFAULTS, "character-set");
  }

  lemma RecoveredFit(o: Options, d: Database)
    requires Recovered(o, d) && AllFit(o)
    ensures FitDatabase(d)
  {
  }

  /** The values come back from the string exactly if they have no semicolon and no white space at an end. */
  lemma RoundTripExactly(d: Database)
    ensures ParsedBack(d).Some? && Recovered(ParsedBack(d).value, d) <==> FitDatabase(d)
  {
    if FitDatabase(d) {
      FitRecovered(d);
    } else {
      DefaultsFit();
      ParsedFit(Built(d), DEFAULTS);
      if ParsedBack(d).Some? && Recovered(ParsedBack(d).value, d) {
        RecoveredFit(ParsedBack(d).value, d);
      }
    }
  }

  lemma DefaultsFit()
    ensures AllFit(DEFAULTS) && AllHold(DEFAULTS, (v: string) => Without(v, NUL))
  {
    forall k | k in DEFAULTS ensures Fit(DEFAULTS[k]) && Without(DEFAULTS[k], NUL) {
      assert DEFAULTS[k] in ["localhost", "3306", "", "utf8"];
      DefaultFit(DEFAULTS[k]);
    }
  }

  lemma DefaultFit(v: string)
    requires v in ["localhost", "3306", "", "utf8"]
    ensures Fit(v) && Without(v, NUL)
  {
  }

  ghost predicate Usable(d: Database) {
    d.user != "" && 1 <= d.port <= 65535
  }

  ghost predicate NulFree(d: Database) {
    Without(d.host, NUL) && Without(d.name, NUL) && Without(d.user, NUL) && Without(d.password, NUL)
  }

  function Connected(d: Database): Opened {
    Connect(d.host, d.user, d.password, Some(d.name), d.port, false, Some(true), None, Some("utf8"))
  }

  /** The database as C functions see it. */
  function CDatabase(d: Database): Database {
    Database(CString(d.host), d.port, CString(d.name), CString(d.user), CString(d.password))
  }

  lemma CDatabaseExactly(d: Database)
    ensures CDatabase(d) == d <==> NulFree(d)
  {
    CStringExactly(d.host);
    CStringExactly(d.name);
    CStringExactly(d.user);
    CStringExactly(d.password);
  }

  lemma RecoveredOpens(o: Options, d: Database)
    requires Recovered(o, d) && d.name != ""
    ensures Connection(o) ==
            if d.user == "" then NoUser else if 1 <= d.port <= 65535 then Connected(CDatabase(d)) else BadPort
  {
    PrintedParses(d.port);
    CStringExactly("utf8");
    assert Flag("") == Some(None) && Flag("true") == Some(Some(true));
  }

  lemma BuiltNulFree(d: Database)
    requires NulFree(d)
    ensures Without(Built(d), NUL)
  {
    PrintedParses(d.port);
    var pairs := Pairs(d);
    forall i | 0 <= i < |pairs| ensures Without(Fields(d)[i], NUL) {
      assert Without(pairs[i].0, NUL) && Without(pairs[i].1, NUL);
      ConcatWithout(pairs[i].0 + "=", pairs[i].1, NUL);
    }
    JoinedWithout(Fields(d), false, NUL);
  }

  ghost predicate Opens(d: Database) {
    ParsedBack(d).Some? && Connection(ParsedBack(d).value) == Connected(d)
  }

  lemma OpenedNulFree(o: Options, d: Database)
    requires d.name != "" && Connection(o) == Connected(d)
    ensures NulFree(d)
  {
    CStringExactly(CString(At(o, "host")));
    CStringExactly(CString(At(o, "db")));
    CStringExactly(CString(At(o, "user")));
    CStringExactly(CString(At(o, "password")));
    CStringTwice(At(o, "host"));
    CStringTwice(At(o, "db"));
    CStringTwice(At(o, "user"));
    CStringTwice(At(o, "password"));
  }

  lemma OpenedFit(o: Options, d: Database)
    requires AllFit(o) && AllHold(o, (v: string) => Without(v, NUL))
    requires d.name != "" && Connection(o) == Connected(d)
    ensures FitDatabase(d) && Usable(d)
  {
    CStringExactly(At(o, "host"));
    CStringExactly(At(o, "db"));
    CStringExactly(At(o, "user"));
    CStringExactly(At(o, "password"));
  }

  lemma OpensFit(d: Database)
    requires d.name != "" && Opens(d)
    ensures FitDatabase(d) && Usable(d) && NulFree(d)
  {
    var o := ParsedBack(d).value;
    OpenedNulFree(o, d);
    BuiltNulFree(d);
    DefaultsFit();
    ParsedFit(Built(d), DEFAULTS);
    ParsedNulFree(Built(d), DEFAULTS);
    OpenedFit(o, d);
  }

  /** The two words that a flag may have are read as what they say. */
  lemma FlagsRead(value: string)
    ensures Flag(value) == Some(Some(true)) <==> value == "true"
    ensures Flag(value) == Some(Some(false)) <==> value == "false"
    ensures Flag(value) == Some(None) <==> value == ""
  {
    assert "true"[0] != "false"[0];
  }

  /**
   A session connects to the database of the configuration exactly if its values survive, are usable
   and have no NUL.
   */
  lemma OpensExactly(d: Database)
    requires d.name != ""
    ensures Opens(d) <==> FitDatabase(d) && Usable(d) && NulFree(d)
  {
    if Opens(d) {
      OpensFit(d);
    } else if FitDatabase(d) {
      FitRecovered(d);
      RecoveredOpens(ParsedBack(d).value, d);
      CDatabaseExactly(d);
    }
  }

  // ---------------------------------------------------------------- all options

  function FlagText(flag: Option<bool>): string {
    if flag.None? then "" else if flag.value then "true" else "false"
  }

  ghost function TextOr(value: Option<string>): string {
    if value.None? then "" else value.value
  }

  /** A connection that can be asked for: usable, and with values that a string can carry. */
  ghost predicate Askable(c: Opened) {
    && c.Connect? && c.user != "" && 1 <= c.port <= 65535
    && c.db != Some("") && c.charset != Some("")
    && (forall v | v in [c.host, c.user, c.password, TextOr(c.db), TextOr(c.charset)] :: Fit(v) && Without(v, NUL))
  }

  /** All nine options. */
  ghost function AllPairs(c: Opened): seq<(string, string)>
    requires c.Connect?
  {
    [ ("host", c.host), ("port", Printed(c.port)), ("user", c.user), ("password", c.password), ("db", TextOr(c.db)),
      ("compress", FlagText(Some(c.compress))), ("auto-reconnect", FlagText(c.reconnect)),
      ("secure-auth", FlagText(c.secureAuth)), ("character-set", TextOr(c.charset)) ]
  }

  ghost function FieldsOf(pairs: seq<(string, string)>): (f: seq<string>)
    ensures |f| == |pairs|
  {
    seq(|pairs|, i requires 0 <= i < |pairs| => Field(pairs[i].0, pairs[i].1))
  }

  lemma AllKeysPrintable()
    ensures PrintableKey("compress") && PrintableKey("secure-auth") && PrintableKey("character-set")
    ensures forall b :: Fit(FlagText(b))
  {
  }

  lemma AllPrintable(c: Opened)
    requires Askable(c)
    ensures forall i | 0 <= i < |AllPairs(c)| :: Printable(AllPairs(c)[i])
    ensures forall p | p in FieldsOf(AllPairs(c)) :: Without(p, ';')
  {
    KeysPrintable();
    AllKeysPrintable();
    PrintedParses(c.port);
    FieldPrintable("host", c.host);
    FieldPrintable("port", Printed(c.port));
    FieldPrintable("user", c.user);
    FieldPrintable("password", c.password);
    FieldPrintable("db", TextOr(c.db));
    FieldPrintable("compress", FlagText(Some(c.compress)));
    FieldPrintable("auto-reconnect", FlagText(c.reconnect));
    FieldPrintable("secure-auth", FlagText(c.secureAuth));
    FieldPrintable("character-set", TextOr(c.charset));
  }

  ghost predicate Holding(o: Options, c: Opened)
    requires c.Connect?
  {
    && Complete(o)
    && o["host"] == c.host && o["port"] == Printed(c.port) && o["user"] == c.user && o["password"] == c.password
    && o["db"] == TextOr(c.db)
    && (o["compress"] == FlagText(Some(c.compress)) || (o["compress"] == "" && !c.compress))
    && o["auto-reconnect"] == FlagText(c.reconnect) && o["secure-auth"] == FlagText(c.secureAuth)
    && o["character-set"] == TextOr(c.charset)
  }

  lemma AllPairsSet(c: Opened)
    requires c.Connect?
    ensures Holding(SetAll(AllPairs(c), DEFAULTS), c)
  {
    var p := AllPairs(c);
    assert forall i, j | 0 <= i < j < |p| :: p[i].0 != p[j].0;
    SetAllAt(p, DEFAULTS, 0);
    SetAllAt(p, DEFAULTS, 1);
    SetAllAt(p, DEFAULTS, 2);
    SetAllAt(p, DEFAULTS, 3);
    SetAllAt(p, DEFAULTS, 4);
    SetAllAt(p, DEFAULTS, 5);
    SetAllAt(p, DEFAULTS, 6);
    SetAllAt(p, DEFAULTS, 7);
    SetAllAt(p, DEFAULTS, 8);
  }

  lemma FlagBack(flag: Option<bool>)
    ensures Flag(FlagText(flag)) == Some(flag)
  {
    FlagsRead(FlagText(flag));
  }

  lemma HoldingOpens(o: Options, c: Opened)
    requires Askable(c) && Holding(o, c)
    ensures Connection(o) == c
  {
    PrintedParses(c.port);
    FlagsRead("");
    FlagBack(Some(c.compress));
    FlagBack(c.reconnect);
    FlagBack(c.secureAuth);
    CStringExactly(c.host);
    CStringExactly(c.user);
    CStringExactly(c.password);
    CStringExactly(TextOr(c.db));
    CStringExactly(TextOr(c.charset));
  }

  /** Every connection that can be asked for is opened by the string that gives all its options. */
  lemma EveryOptionCounts(c: Opened, closed: bool)
    requires Askable(c)
    ensures var o := Parsed(Joined(FieldsOf(AllPairs(c)), closed), 0, DEFAULTS, ReadPiece);
            o.Some? && Connection(o.value) == c
  {
    var fields := FieldsOf(AllPairs(c));
    var s := Joined(fields, closed);
    assert s[0..] == s;
    AllPrintable(c);
    assert fields[|fields| - 1] == Field(AllPairs(c)[8].0, AllPairs(c)[8].1);
    PiecesParsed(s, 0, fields, closed, DEFAULTS, ReadPiece);
    AssignedFields(AllPairs(c), fields, DEFAULTS);
    AllPairsSet(c);
    HoldingOpens(SetAll(AllPairs(c), DEFAULTS), c);
  }

  /** With a user alone, the others are the local server, no password, no database and UTF-8. */
  lemma OthersAreDefault(user: string)
    requires user != "" && Fit(user) && Without(user, NUL)
    ensures var o := Parsed(Joined([Field("user", user)], false), 0, DEFAULTS, ReadPiece);
            o.Some? && Connection(o.value) == Connect("localhost", user, "", None, 3306, false, None, None, Some("utf8"))
  {
    UserAloneParsed(user);
    UserAloneOpens(DEFAULTS["user" := user], user);
  }

  lemma UserAloneParsed(user: string)
    requires Fit(user)
    ensures Parsed(Joined([Field("user", user)], false), 0, DEFAULTS, ReadPiece) == Some(DEFAULTS["user" := user])
  {
    var fields := [Field("user", user)];
    var s := Joined(fields, false);
    assert s[0..] == s;
    KeysPrintable();
    FieldPrintable("user", user);
    PiecesParsed(s, 0, fields, false, DEFAULTS, ReadPiece);
    ReadField("user", user);
  }

  lemma UserAloneOpens(o: Options, user: string)
    requires o == DEFAULTS["user" := user] && user != "" && Fit(user) && Without(user, NUL)
    ensures Connection(o) == Connect("localhost", user, "", None, 3306, false, None, None, Some("utf8"))
  {
    var c := Connect("localhost", user, "", None, 3306, false, None, None, Some("utf8"));
    PortText();
    AskableDefaults(c, user);
    HoldingOpens(o, c);
  }

  lemma AskableDefaults(c: Opened, user: string)
    requires c == Connect("localhost", user, "", None, 3306, false, None, None, Some("utf8"))
    requires user != "" && Fit(user) && Without(user, NUL)
    ensures Askable(c)
  {
    assert Fit("localhost") && Fit("utf8") && Fit("") && Without("localhost", NUL) && Without("utf8", NUL);
  }

  lemma PortText()
    ensures Printed(3306) == "3306"
  {
    assert Decimal(33) == "33" && Decimal(330) == "330";
  }

  /** The login server's database, from the configuration to the connection. */
  method OpenLoginServer(m: Manager, strings: map<string, string>, ints: map<string, int>) returns (r: Option<Opened>)
    modifies m
    ensures var d := LoginDatabase(strings, ints);
            && (r.None? <==> d.name == "")
            && (d.name != "" ==> (r == Some(Connected(d)) <==> FitDatabase(d) && Usable(d) && NulFree(d)))
  {
    DescribesLogin(strings, ints);
    var ok := m.SetConnectionsFromConfig(strings, ints, LoginServer);
    if !ok {
      return None;
    }
    OpensExactly(LoginDatabase(strings, ints));
    var session := Open(m.connections[LoginServer]);
    return Some(session);
  }
}
