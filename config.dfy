/**
 Loading of the account settings (`Config.load`). The process environment wins over a `.env`
 file; host names and ports have defaults; ports always go through `int(...)`; a JSON file is
 merged over the result only when the address or the password is missing; a load that still
 lacks either fails.

 The environment, the `.env` file and the JSON file come in as values: a missing file is
 `None`.
 */
module Config {
  import opened Wrappers
  import opened Text
  import opened Values

  datatype LoadError =
    | BadPort(variable: string)  // `int(...)` rejected the text of a port variable
    | MissingCredentials         // no usable address or password after the fallback

  const DefaultSmtpHost: string := "smtp.gmail.com"
  const DefaultSmtpPort: int := 465
  const DefaultImapHost: string := "imap.gmail.com"
  const DefaultImapPort: int := 993

  /** The six keys that the environment step always fills. */
  const SettingKeys: set<string> := {"email", "password", "smtp_host", "smtp_port", "imap_host", "imap_port"}

  /** The variables visible after `load_dotenv`: the `.env` file never overrides the environment. */
  function Variables(env: map<string, string>, dotenv: Option<map<string, string>>): (vars: map<string, string>)
    ensures forall k :: k in env ==> k in vars && vars[k] == env[k]
    ensures dotenv.Some? ==> forall k :: k in dotenv.value && k !in env ==> k in vars && vars[k] == dotenv.value[k]
    ensures forall k :: k in vars ==> k in env || (dotenv.Some? && k in dotenv.value)
  {
    if dotenv.Some? then dotenv.value + env else env
  }

  /** `os.getenv(name)`: the text of the variable, or `None`; it is truthy exactly when the variable is set and not empty. */
  function Getenv(vars: map<string, string>, name: string): (v: Value)
    ensures v == Null <==> name !in vars
    ensures name in vars ==> v == Str(vars[name])
    ensures Truthy(v) <==> name in vars && vars[name] != ""
  {
    if name in vars then Str(vars[name]) else Null
  }

  /** `os.getenv(name, default)` for a text default. */
  function GetenvOr(vars: map<string, string>, name: string, default: string): string {
    if name in vars then vars[name] else default
  }

  /**
   `int(os.getenv(name, default))`: the default when the variable is not set; otherwise the
   value of the integer literal the variable holds, with whitespace around it allowed, and
   `None` (where `int` raises) when it holds none.
   */
  function Port(vars: map<string, string>, name: string, default: int): (port: Option<int>)
    ensures name !in vars ==> port == Some(default)
    ensures name in vars ==> port == ParseInt(vars[name])
  {
    if name in vars then ParseInt(vars[name]) else Some(default)
  }

  predicate PortsParse(vars: map<string, string>) {
    Port(vars, "SMTP_PORT", DefaultSmtpPort).Some? && Port(vars, "IMAP_PORT", DefaultImapPort).Some?
  }

  /** Both credentials present and truthy (`config.get(key)` is `None` for a missing key). */
  predicate CredentialsSet(c: map<string, Value>) {
    "email" in c && "password" in c && Truthy(c["email"]) && Truthy(c["password"])
  }

  predicate EnvCredentials(vars: map<string, string>) {
    Truthy(Getenv(vars, "EMAIL_ADDRESS")) && Truthy(Getenv(vars, "EMAIL_PASSWORD"))
  }

  /** The settings as the environment step leaves them, before any JSON fallback. */
  function EnvSettings(vars: map<string, string>): (c: map<string, Value>)
    requires PortsParse(vars)
    ensures "email" in c && "password" in c && "smtp_host" in c && "smtp_port" in c && "imap_host" in c && "imap_port" in c
    ensures c.Keys == SettingKeys
    ensures c["email"] == Getenv(vars, "EMAIL_ADDRESS") && c["password"] == Getenv(vars, "EMAIL_PASSWORD")
    ensures c["smtp_host"] == Str(if "SMTP_HOST" in vars then vars["SMTP_HOST"] else DefaultSmtpHost)
    ensures c["imap_host"] == Str(if "IMAP_HOST" in vars then vars["IMAP_HOST"] else DefaultImapHost)
    ensures c["smtp_port"].Int? && c["imap_port"].Int?
    ensures "SMTP_PORT" !in vars ==> c["smtp_port"] == Int(DefaultSmtpPort)
    ensures "IMAP_PORT" !in vars ==> c["imap_port"] == Int(DefaultImapPort)
    ensures "SMTP_PORT" in vars ==> ParseInt(vars["SMTP_PORT"]) == Some(c["smtp_port"].i)
    ensures "IMAP_PORT" in vars ==> ParseInt(vars["IMAP_PORT"]) == Some(c["imap_port"].i)
    ensures CredentialsSet(c) <==> EnvCredentials(vars)
  {
    map[
      "email" := Getenv(vars, "EMAIL_ADDRESS"),
      "password" := Getenv(vars, "EMAIL_PASSWORD"),
      "smtp_host" := Str(GetenvOr(vars, "SMTP_HOST", DefaultSmtpHost)),
      "smtp_port" := Int(Port(vars, "SMTP_PORT", DefaultSmtpPort).value),
      "imap_host" := Str(GetenvOr(vars, "IMAP_HOST", DefaultImapHost)),
      "imap_port" := Int(Port(vars, "IMAP_PORT", DefaultImapPort).value)
    ]
  }

  /**
   `Config.load`. A port variable that `int` rejects fails the load before the fallback is
   looked at. The JSON file is merged (its keys winning) only when the environment lacks the
   address or the password. A successful load always holds both.
   */
  method Load(env: map<string, string>, dotenv: Option<map<string, string>>, json: Option<map<string, Value>>)
    returns (r: Result<map<string, Value>, LoadError>)
    ensures var vars := Variables(env, dotenv);
      Port(vars, "SMTP_PORT", DefaultSmtpPort).None? ==> r == Err(BadPort("SMTP_PORT"))
    ensures var vars := Variables(env, dotenv);
      Port(vars, "SMTP_PORT", DefaultSmtpPort).Some? && Port(vars, "IMAP_PORT", DefaultImapPort).None? ==>
        r == Err(BadPort("IMAP_PORT"))
    ensures var vars := Variables(env, dotenv);
      PortsParse(vars) && EnvCredentials(vars) ==> r == Ok(EnvSettings(vars))
    ensures var vars := Variables(env, dotenv);
      PortsParse(vars) && !EnvCredentials(vars) ==>
        var merged := if json.Some? then EnvSettings(vars) + json.value else EnvSettings(vars);
        r == if CredentialsSet(merged) then Ok(merged) else Err(MissingCredentials)
    ensures r.Ok? ==> CredentialsSet(r.value)
  {
    var vars := Variables(env, dotenv);
    var config: map<string, Value> := map[];
    config := config["email" := Getenv(vars, "EMAIL_ADDRESS")];
    config := config["password" := Getenv(vars, "EMAIL_PASSWORD")];
    config := config["smtp_host" := Str(GetenvOr(vars, "SMTP_HOST", DefaultSmtpHost))];
    var smtpPort := Port(vars, "SMTP_PORT", DefaultSmtpPort);
    if smtpPort.None? {
      return Err(BadPort("SMTP_PORT"));
    }
    config := config["smtp_port" := Int(smtpPort.value)];
    config := config["imap_host" := Str(GetenvOr(vars, "IMAP_HOST", DefaultImapHost))];
    var imapPort := Port(vars, "IMAP_PORT", DefaultImapPort);
    if imapPort.None? {
      return Err(BadPort("IMAP_PORT"));
    }
    config := config["imap_port" := Int(imapPort.value)];
    assert config == EnvSettings(vars);

    if !Truthy(config["email"]) || !Truthy(config["password"]) {
      if json.Some? {
        config := config + json.value;
      }
    }

    if !CredentialsSet(config) {
      return Err(MissingCredentials);
    }
    return Ok(config);
  }
}
