/**
 * `validateEnv` (the schema parse turned into one operator-facing error
 * message) and the seven configuration namespaces. The namespace factories
 * read the raw environment, not the validated configuration; a TypeScript
 * non-null assertion checks nothing, so an absent variable stays absent.
 */
module AppConfig {
  import opened Wrappers
  import opened Strings
  import opened JsNumbers
  import opened EnvSchema

  const Header := "Environment validation failed:"
  const Footer := "Check your .env file against .env.example"

  /**
   * One report line: two spaces, a dash, the dotted path, a colon and the
   * message. It opens with the bullet, ends with the message, and is a
   * single line when the issue's path and message are.
   */
  function FormatIssue(issue: Issue): (line: string)
    ensures |line| >= 4 && line[..4] == "  - "
    ensures |line| >= |issue.message| && line[|line| - |issue.message|..] == issue.message
    ensures NewlineFree(issue) ==> '\n' !in line
  {
    var line := "  - " + Join(issue.path, ".") + ": " + issue.message;
    assert line == ("  - " + Join(issue.path, ".") + ": ") + issue.message;
    if NewlineFree(issue) then
      JoinAvoids(issue.path, ".", '\n');
      line
    else line
  }

  /** One line per issue, in issue order. */
  function FormatIssues(issues: seq<Issue>): (lines: seq<string>)
    ensures |lines| == |issues|
    ensures forall k :: 0 <= k < |issues| ==> lines[k] == FormatIssue(issues[k])
  {
    if issues == [] then [] else [FormatIssue(issues[0])] + FormatIssues(issues[1..])
  }

  /**
   * The message of the error `validateEnv` throws. When the issues are
   * single lines, its lines are the header, one line per issue in issue
   * order, an empty line and the footer.
   */
  function FormatReport(issues: seq<Issue>): (report: string)
    ensures issues != [] && (forall k :: 0 <= k < |issues| ==> NewlineFree(issues[k])) ==>
              Split(report, '\n') == [Header] + FormatIssues(issues) + ["", Footer]
  {
    ReportLines(issues);
    Framed(Header, FormatIssues(issues), Footer)
  }

  /** Single-line issues put between the header and the footer split back into place. */
  lemma ReportLines(issues: seq<Issue>)
    ensures issues != [] && (forall k :: 0 <= k < |issues| ==> NewlineFree(issues[k])) ==>
              Split(Framed(Header, FormatIssues(issues), Footer), '\n') == [Header] + FormatIssues(issues) + ["", Footer]
  {
    if issues != [] && (forall k :: 0 <= k < |issues| ==> NewlineFree(issues[k])) {
      LinesNewlineFree(issues);
      SplitReportFrame(FormatIssues(issues));
    }
  }

  /** A first line, the newline-joined lines, an empty line and a last line. */
  function Framed(first: string, lines: seq<string>, last: string): string {
    first + "\n" + Join(lines, "\n") + "\n\n" + last
  }

  predicate NewlineFree(issue: Issue) {
    '\n' !in issue.message && forall k :: 0 <= k < |issue.path| ==> '\n' !in issue.path[k]
  }

  /** Framing a non-empty run of lines by a first line, an empty line and a last line. */
  lemma JoinBlankThenLast(lines: seq<string>, last: string)
    requires |lines| > 0
    ensures Join(lines + ["", last], "\n") == Join(lines, "\n") + "\n\n" + last
  {
    JoinAppend(lines, ["", last], "\n");
    JoinBlankLast(last);
    NewlinePair(Join(lines, "\n"), last);
  }

  lemma JoinBlankLast(last: string)
    ensures Join(["", last], "\n") == "\n" + last
  {
    assert ["", last][1..] == [last];
  }

  lemma NewlinePair(a: string, b: string)
    ensures a + "\n" + ("\n" + b) == a + "\n\n" + b
  {
    assert "\n" + "\n" == "\n\n";
    Regroup(a + "\n", "\n", b);
    Regroup(a, "\n", "\n");
  }

  lemma JoinFramed(first: string, lines: seq<string>, last: string)
    requires |lines| > 0
    ensures Join([first] + lines + ["", last], "\n") == Framed(first, lines, last)
  {
    var rest := lines + ["", last];
    JoinBlankThenLast(lines, last);
    JoinFirst(first, rest);
    assert [first] + lines + ["", last] == [first] + rest;
    FirstThenRest(first, Join(lines, "\n"), last);
  }

  lemma FirstThenRest(first: string, middle: string, last: string)
    ensures first + "\n" + (middle + "\n\n" + last) == first + "\n" + middle + "\n\n" + last
  {
    Regroup(first + "\n", middle + "\n\n", last);
    Regroup(first + "\n", middle, "\n\n");
  }

  lemma JoinFirst(first: string, rest: seq<string>)
    requires |rest| > 0
    ensures Join([first] + rest, "\n") == first + "\n" + Join(rest, "\n")
  {
    assert ([first] + rest)[1..] == rest;
  }

  lemma LinesNewlineFree(issues: seq<Issue>)
    requires forall k :: 0 <= k < |issues| ==> NewlineFree(issues[k])
    ensures forall k :: 0 <= k < |FormatIssues(issues)| ==> '\n' !in FormatIssues(issues)[k]
  {
    forall k | 0 <= k < |issues| ensures '\n' !in FormatIssues(issues)[k] {
      assert NewlineFree(issues[k]);
    }
  }

  lemma FramedPartsNewlineFree(first: string, lines: seq<string>, last: string)
    requires '\n' !in first && '\n' !in last
    requires forall k :: 0 <= k < |lines| ==> '\n' !in lines[k]
    ensures forall k :: 0 <= k < |[first] + lines + ["", last]| ==> '\n' !in ([first] + lines + ["", last])[k]
  {
    var all := [first] + lines + ["", last];
    forall k | 0 <= k < |all| ensures '\n' !in all[k] {
      if k == 0 {
        assert all[k] == first;
      } else if k <= |lines| {
        assert all[k] == lines[k - 1];
      } else if k == |lines| + 1 {
        assert all[k] == "";
      } else {
        assert all[k] == last;
      }
    }
  }

  /** Single-line parts, framed and newline-joined, split back into themselves. */
  lemma SplitFramed(first: string, lines: seq<string>, last: string)
    requires |lines| > 0
    requires '\n' !in first && '\n' !in last
    requires forall k :: 0 <= k < |lines| ==> '\n' !in lines[k]
    ensures Split(Framed(first, lines, last), '\n') == [first] + lines + ["", last]
  {
    FramedPartsNewlineFree(first, lines, last);
    JoinFramed(first, lines, last);
    SplitJoin([first] + lines + ["", last], '\n');
  }

  lemma HeaderNewlineFree()
    ensures '\n' !in Header
  {
  }

  lemma FooterNewlineFree()
    ensures '\n' !in Footer
  {
  }

  /** Single-line issue lines between the header and the footer split back into place. */
  lemma SplitReportFrame(lines: seq<string>)
    requires |lines| > 0
    requires forall k :: 0 <= k < |lines| ==> '\n' !in lines[k]
    ensures Split(Framed(Header, lines, Footer), '\n') == [Header] + lines + ["", Footer]
  {
    HeaderNewlineFree();
    FooterNewlineFree();
    SplitFramed(Header, lines, Footer);
  }

  lemma ShowNatNewlineFree(n: nat)
    ensures '\n' !in ShowNat(n)
  {
    var s := ShowNat(n);
    assert forall i :: 0 <= i < |s| ==> IsDigit(s[i]);
  }

  lemma InvalidTypeNewlineFree(expected: string, received: string)
    requires '\n' !in expected && '\n' !in received
    ensures '\n' !in InvalidType(expected, received)
  {
  }

  lemma TooSmallNewlineFree(origin: string, bound: string)
    requires '\n' !in origin && '\n' !in bound
    ensures '\n' !in TooSmall(origin, bound)
  {
  }

  lemma TooBigNewlineFree(origin: string, bound: string)
    requires '\n' !in origin && '\n' !in bound
    ensures '\n' !in TooBig(origin, bound)
  {
  }

  lemma ConstantMessagesNewlineFree()
    ensures '\n' !in MissingString && '\n' !in NotANumber && '\n' !in NotAnInteger
    ensures '\n' !in AboveSafeRange && '\n' !in BelowSafeRange
    ensures '\n' !in NotPositive && '\n' !in InvalidUrl && '\n' !in InvalidEmail
  {
    InvalidTypeNewlineFree("string", "undefined");
    InvalidTypeNewlineFree("number", "NaN");
    InvalidTypeNewlineFree("int", "number");
    TooBigNewlineFree("int", "to be <=9007199254740991");
    TooSmallNewlineFree("int", "to be >=-9007199254740991");
    TooSmallNewlineFree("number", "to be >0");
  }

  lemma EnumMessageNewlineFree(members: seq<string>)
    requires forall i :: 0 <= i < |members| ==> '\n' !in members[i]
    ensures '\n' !in EnumMessage(members)
  {
    if |members| != 1 {
      var quoted := seq(|members|, i requires 0 <= i < |members| => Quoted(members[i]));
      JoinAvoids(quoted, "|", '\n');
    }
  }

  lemma TooShortMessageNewlineFree(min: nat)
    ensures '\n' !in TooShortMessage(min)
  {
    ShowNatNewlineFree(min);
    TooSmallNewlineFree("string", "to have >=" + ShowNat(min) + " characters");
  }

  /** Every message a field check fails with is a single line. */
  lemma CheckFieldNewlineFree(kind: Kind, raw: Option<string>, formats: Formats)
    requires kind.Enum? ==> forall i :: 0 <= i < |kind.members| ==> '\n' !in kind.members[i]
    requires CheckField(kind, raw, formats).Failure?
    ensures forall k :: 0 <= k < |CheckField(kind, raw, formats).error| ==> '\n' !in CheckField(kind, raw, formats).error[k]
  {
    ConstantMessagesNewlineFree();
    match kind
    case Enum(members, _) => EnumMessageNewlineFree(members);
    case MinLength(min) => TooShortMessageNewlineFree(min);
    case _ =>
  }

  // The variable names hold no newline. Each of the nine lemmas below checks
  // two names of the literal schema, which keeps every proof small; a single
  // lemma over all seventeen names is beyond the solver's budget.
  lemma NamesNewlineFreeA()
    ensures '\n' !in EnvFields[0].name && '\n' !in EnvFields[1].name
  {
  }

  lemma NamesNewlineFreeB()
    ensures '\n' !in EnvFields[2].name && '\n' !in EnvFields[3].name
  {
  }

  lemma NamesNewlineFreeC()
    ensures '\n' !in EnvFields[4].name && '\n' !in EnvFields[5].name
  {
  }

  lemma NamesNewlineFreeD()
    ensures '\n' !in EnvFields[6].name && '\n' !in EnvFields[7].name
  {
  }

  lemma NamesNewlineFreeE()
    ensures '\n' !in EnvFields[8].name && '\n' !in EnvFields[9].name
  {
  }

  lemma NamesNewlineFreeF()
    ensures '\n' !in EnvFields[10].name && '\n' !in EnvFields[11].name
  {
  }

  lemma NamesNewlineFreeG()
    ensures '\n' !in EnvFields[12].name && '\n' !in EnvFields[13].name
  {
  }

  lemma NamesNewlineFreeH()
    ensures '\n' !in EnvFields[14].name && '\n' !in EnvFields[15].name
  {
  }

  lemma NamesNewlineFreeI()
    ensures '\n' !in EnvFields[16].name
  {
  }

  lemma EnvNamesNewlineFree()
    ensures forall i :: 0 <= i < |EnvFields| ==> '\n' !in EnvFields[i].name
    ensures forall i :: 0 <= i < |NodeEnvs| ==> '\n' !in NodeEnvs[i]
  {
    NamesNewlineFreeA();
    NamesNewlineFreeB();
    NamesNewlineFreeC();
    NamesNewlineFreeD();
    NamesNewlineFreeE();
    NamesNewlineFreeF();
    NamesNewlineFreeG();
    NamesNewlineFreeH();
    NamesNewlineFreeI();
  }

  /** A field whose name and enumeration members hold no newline. */
  predicate SingleLineField(f: Field) {
    && '\n' !in f.name
    && (f.kind.Enum? ==> forall i :: 0 <= i < |f.kind.members| ==> '\n' !in f.kind.members[i])
  }

  /** Fields whose names and members are single lines report single-line issues. */
  lemma {:induction false} IssuesNewlineFree(fields: seq<Field>, env: Env, formats: Formats)
    requires forall j :: 0 <= j < |fields| ==> SingleLineField(fields[j])
    ensures forall k :: 0 <= k < |Issues(fields, env, formats)| ==> NewlineFree(Issues(fields, env, formats)[k])
  {
    if fields != [] {
      IssuesNewlineFree(fields[1..], env, formats);
      var f := fields[0];
      if Check(f, env, formats).Failure? {
        assert SingleLineField(f);
        CheckFieldNewlineFree(f.kind, Get(env, f.name), formats);
        var head := FieldIssues(f, env, formats);
        forall k | 0 <= k < |head| ensures NewlineFree(head[k]) {
          assert head[k] == Issue([f.name], Check(f, env, formats).error[k]);
        }
      }
    }
  }

  lemma EnvFieldsSingleLine()
    ensures forall j :: 0 <= j < |EnvFields| ==> SingleLineField(EnvFields[j])
  {
    EnvNamesNewlineFree();
    forall j | 0 <= j < |EnvFields| ensures SingleLineField(EnvFields[j]) {
      if j == 0 {
        assert EnvFields[0].kind.members == NodeEnvs;
      }
    }
  }

  /**
   * `validateEnv`: on success the parsed configuration; on failure a thrown
   * message whose lines are the header, one line per issue in issue order,
   * an empty line and the footer.
   */
  function ValidateEnv(env: Env, formats: Formats): (r: Result<Config, string>)
    ensures r.Success? <==> SafeParse(env, formats).Success?
    ensures r.Success? ==> r.value == SafeParse(env, formats).value
    ensures r.Failure? ==>
              Split(r.error, '\n') == [Header] + FormatIssues(SafeParse(env, formats).error) + ["", Footer]
  {
    var parsed := SafeParse(env, formats);
    if parsed.Success? then Success(parsed.value)
    else
      EnvFieldsSingleLine();
      IssuesNewlineFree(EnvFields, env, formats);
      Failure(FormatReport(parsed.error))
  }

  // ---------------------------------------------------------------------------
  // Namespaces
  // ---------------------------------------------------------------------------

  /** The records the seven factories build. */
  datatype Namespace =
    | Database(url: Option<string>, directUrl: Option<string>)
    | Redis(url: Option<string>)
    | Firebase(projectId: Option<string>, privateKey: string, clientEmail: Option<string>)
    | Jwt(secret: Option<string>, expiresIn: string)
    | Cloudinary(cloudName: Option<string>, apiKey: Option<string>, apiSecret: Option<string>)
    | Goong(apiKey: Option<string>)
    | Throttle(ttl: Option<int>, limit: Option<int>)   // None is NaN

  /** What V8 throws when `.replace` is called on `undefined`. */
  const ReplaceOnUndefined := "TypeError: Cannot read properties of undefined (reading 'replace')"

  /** `database`: both connection strings copied through unchanged; an absent one stays absent. */
  function DatabaseNamespace(env: Env): (r: Namespace)
    ensures r.Database?
    ensures "DATABASE_URL" in env ==> r.url == Some(env["DATABASE_URL"])
    ensures "DATABASE_URL" !in env ==> r.url.None?
    ensures "DATABASE_URL_DIRECT" in env ==> r.directUrl == Some(env["DATABASE_URL_DIRECT"])
    ensures "DATABASE_URL_DIRECT" !in env ==> r.directUrl.None?
  {
    Database(Get(env, "DATABASE_URL"), Get(env, "DATABASE_URL_DIRECT"))
  }

  /** `redis`: the optional URL copied through unchanged; absent stays absent. */
  function RedisNamespace(env: Env): (r: Namespace)
    ensures r.Redis?
    ensures "REDIS_URL" in env ==> r.url == Some(env["REDIS_URL"])
    ensures "REDIS_URL" !in env ==> r.url.None?
  {
    Redis(Get(env, "REDIS_URL"))
  }

  /**
   * `firebase`: the project id and client e-mail copied through, and the
   * private key with every backslash-n pair turned into a newline; it throws
   * when the key is absent.
   */
  function FirebaseNamespace(env: Env): (r: Result<Namespace, string>)
    ensures r.Success? <==> "FIREBASE_PRIVATE_KEY" in env
    ensures r.Failure? ==> r.error == ReplaceOnUndefined
    ensures r.Success? ==>
              r.value == Firebase(Get(env, "FIREBASE_PROJECT_ID"), UnescapeNewlines(env["FIREBASE_PRIVATE_KEY"]),
                                  Get(env, "FIREBASE_CLIENT_EMAIL"))
  {
    if "FIREBASE_PRIVATE_KEY" in env then
      Success(Firebase(Get(env, "FIREBASE_PROJECT_ID"), UnescapeNewlines(env["FIREBASE_PRIVATE_KEY"]),
                       Get(env, "FIREBASE_CLIENT_EMAIL")))
    else
      Failure(ReplaceOnUndefined)
  }

  /**
   * The loaded private key is one character shorter and holds one more
   * newline per backslash-n pair of the raw key; a key without pairs is kept
   * as is, and a key without newlines is recovered by escaping them again.
   */
  lemma FirebaseKeyUnescaped(env: Env)
    requires "FIREBASE_PRIVATE_KEY" in env
    ensures var raw := env["FIREBASE_PRIVATE_KEY"];
            var key := FirebaseNamespace(env).value.privateKey;
            && |key| == |raw| - EscapeCount(raw)
            && Count(key, '\n') == Count(raw, '\n') + EscapeCount(raw)
            && (EscapeCount(raw) == 0 ==> key == raw)
            && ('\n' !in raw ==> EscapeNewlines(key) == raw)
  {
    var raw := env["FIREBASE_PRIVATE_KEY"];
    UnescapeCountsNewlines(raw);
    if '\n' !in raw {
      EscapeUnescape(raw);
    }
  }

  /** `jwt`: the secret copied through (absent stays absent); the expiry is the raw variable when defined, else "15m". */
  function JwtNamespace(env: Env): (r: Namespace)
    ensures r.Jwt?
    ensures "JWT_SECRET" in env ==> r.secret == Some(env["JWT_SECRET"])
    ensures "JWT_SECRET" !in env ==> r.secret.None?
    ensures "JWT_EXPIRES_IN" in env ==> r.expiresIn == env["JWT_EXPIRES_IN"]
    ensures "JWT_EXPIRES_IN" !in env ==> r.expiresIn == "15m"
  {
    Jwt(Get(env, "JWT_SECRET"), Get(env, "JWT_EXPIRES_IN").GetOr("15m"))
  }

  /** `cloudinary`: the three settings copied through unchanged; absent ones stay absent. */
  function CloudinaryNamespace(env: Env): (r: Namespace)
    ensures r.Cloudinary?
    ensures "CLOUDINARY_CLOUD_NAME" in env ==> r.cloudName == Some(env["CLOUDINARY_CLOUD_NAME"])
    ensures "CLOUDINARY_CLOUD_NAME" !in env ==> r.cloudName.None?
    ensures "CLOUDINARY_API_KEY" in env ==> r.apiKey == Some(env["CLOUDINARY_API_KEY"])
    ensures "CLOUDINARY_API_KEY" !in env ==> r.apiKey.None?
    ensures "CLOUDINARY_API_SECRET" in env ==> r.apiSecret == Some(env["CLOUDINARY_API_SECRET"])
    ensures "CLOUDINARY_API_SECRET" !in env ==> r.apiSecret.None?
  {
    Cloudinary(Get(env, "CLOUDINARY_CLOUD_NAME"), Get(env, "CLOUDINARY_API_KEY"), Get(env, "CLOUDINARY_API_SECRET"))
  }

  /** `goong`: the API key copied through unchanged; absent stays absent. */
  function GoongNamespace(env: Env): (r: Namespace)
    ensures r.Goong?
    ensures "GOONG_API_KEY" in env ==> r.apiKey == Some(env["GOONG_API_KEY"])
    ensures "GOONG_API_KEY" !in env ==> r.apiKey.None?
  {
    Goong(Get(env, "GOONG_API_KEY"))
  }

  /** `throttle`: `parseInt` of the raw variables, or of "60000" and "100" when undefined. */
  function ThrottleNamespace(env: Env): (r: Namespace)
    ensures r.Throttle?
    ensures "THROTTLE_TTL" !in env ==> r.ttl == Some(60000)
    ensures "THROTTLE_LIMIT" !in env ==> r.limit == Some(100)
    ensures "THROTTLE_TTL" in env ==> r.ttl == ParseInt(env["THROTTLE_TTL"])
    ensures "THROTTLE_LIMIT" in env ==> r.limit == ParseInt(env["THROTTLE_LIMIT"])
  {
    ParseIntOfDefaults();
    Throttle(ParseInt(Get(env, "THROTTLE_TTL").GetOr("60000")), ParseInt(Get(env, "THROTTLE_LIMIT").GetOr("100")))
  }

  lemma DigitsOfDefaultTtl()
    ensures AllDigits("60000") && DigitsValue("60000") == 60000
  {
    assert "6"[..0] == [];
    assert "60"[..1] == "6";
    assert "600"[..2] == "60";
    assert "6000"[..3] == "600";
    assert "60000"[..4] == "6000";
  }

  lemma DigitsOfDefaultLimit()
    ensures AllDigits("100") && DigitsValue("100") == 100
  {
    assert "1"[..0] == [];
    assert "10"[..1] == "1";
    assert "100"[..2] == "10";
  }

  /** The throttle defaults read back through `parseInt` as the numbers they spell. */
  lemma ParseIntOfDefaults()
    ensures ParseInt("60000") == Some(60000)
    ensures ParseInt("100") == Some(100)
  {
    DigitsOfDefaultTtl();
    DigitsOfDefaultLimit();
    assert "60000" + [] == "60000";
    assert "100" + [] == "100";
    ParseIntStopsAtNonDigit("60000", []);
    ParseIntStopsAtNonDigit("100", []);
  }

  /** A namespace factory registered with the configuration module, and its token. */
  datatype Factory = DatabaseConfig | RedisConfig | FirebaseConfig | JwtConfig | CloudinaryConfig | GoongConfig | ThrottleConfig {

    function Token(): string {
      match this
      case DatabaseConfig => "database"
      case RedisConfig => "redis"
      case FirebaseConfig => "firebase"
      case JwtConfig => "jwt"
      case CloudinaryConfig => "cloudinary"
      case GoongConfig => "goong"
      case ThrottleConfig => "throttle"
    }

    /** Running the factory against the raw environment; only `firebase` can throw. */
    function Load(env: Env): (r: Result<Namespace, string>)
      ensures r.Failure? ==> this == FirebaseConfig && "FIREBASE_PRIVATE_KEY" !in env
    {
      match this
      case DatabaseConfig => Success(DatabaseNamespace(env))
      case RedisConfig => Success(RedisNamespace(env))
      case FirebaseConfig => FirebaseNamespace(env)
      case JwtConfig => Success(JwtNamespace(env))
      case CloudinaryConfig => Success(CloudinaryNamespace(env))
      case GoongConfig => Success(GoongNamespace(env))
      case ThrottleConfig => Success(ThrottleNamespace(env))
    }
  }

  /** `configNamespaces`, in registration order. */
  const ConfigNamespaces: seq<Factory> :=
    [DatabaseConfig, RedisConfig, FirebaseConfig, JwtConfig, CloudinaryConfig, GoongConfig, ThrottleConfig]

  /** Seven namespaces, registered in this order under these tokens. */
  lemma ConfigNamespacesOrder()
    ensures |ConfigNamespaces| == 7
    ensures seq(|ConfigNamespaces|, i requires 0 <= i < |ConfigNamespaces| => ConfigNamespaces[i].Token())
         == ["database", "redis", "firebase", "jwt", "cloudinary", "goong", "throttle"]
  {
  }

  /**
   * After a successful validation a required variable is present and is the
   * validated value, unchanged; it passed its URL or length check.
   */
  lemma ValidatedRequired(env: Env, formats: Formats, i: nat, name: string)
    requires i < |EnvFields| && EnvFields[i].name == name && EnvFields[i].kind.IsRequired()
    requires ValidateEnv(env, formats).Success?
    ensures name in env
    ensures ValueOf(ValidateEnv(env, formats).value, name) == Some(Str(env[name]))
    ensures EnvFields[i].kind.Url? ==> formats.isUrl(env[name])
    ensures EnvFields[i].kind.MinLength? ==> Utf16Length(env[name]) >= EnvFields[i].kind.min
  {
    RequiredParsed(env, formats, i, name);
  }

  /**
   * After a successful validation a string variable with a default holds the
   * raw value, or the default when the variable is absent.
   */
  lemma ValidatedDefaulted(env: Env, formats: Formats, i: nat, name: string)
    requires i < |EnvFields| && EnvFields[i].name == name && EnvFields[i].kind.StringOr?
    requires ValidateEnv(env, formats).Success?
    ensures ValueOf(ValidateEnv(env, formats).value, name) == Some(Str(Get(env, name).GetOr(EnvFields[i].kind.stringDefault)))
  {
    DefaultedStringRules(env, formats, i);
  }

  /**
   * After a successful validation a coerced integer variable holds a positive
   * safe integer: the default when absent, otherwise what `parseInt` reads
   * from the raw value (in decimal notation, where both readings agree).
   */
  lemma ValidatedPositiveInt(env: Env, formats: Formats, i: nat, name: string)
    requires i < |EnvFields| && EnvFields[i].name == name && EnvFields[i].kind.PositiveInt?
    requires ValidateEnv(env, formats).Success?
    ensures var v := ValueOf(ValidateEnv(env, formats).value, name);
            && v.Some? && v.value.Num? && 0 < v.value.n <= MaxSafeInteger
            && (name in env ==> ParseInt(env[name]) == Some(v.value.n))
            && (name !in env ==> v.value.n == EnvFields[i].kind.intDefault)
  {
    PositiveIntParsed(env, formats, i);
  }

  /** After a successful validation every registered factory loads without throwing. */
  lemma ValidatedNamespacesLoad(env: Env, formats: Formats)
    requires ValidateEnv(env, formats).Success?
    ensures forall i :: 0 <= i < |ConfigNamespaces| ==> ConfigNamespaces[i].Load(env).Success?
  {
    ValidatedRequired(env, formats, 7, "FIREBASE_PRIVATE_KEY");
  }

  /** After a successful validation `database` holds exactly the two validated URLs. */
  lemma ValidatedDatabase(env: Env, formats: Formats)
    requires ValidateEnv(env, formats).Success?
    ensures "DATABASE_URL" in env && "DATABASE_URL_DIRECT" in env
    ensures DatabaseNamespace(env) == Database(Some(env["DATABASE_URL"]), Some(env["DATABASE_URL_DIRECT"]))
    ensures formats.isUrl(env["DATABASE_URL"]) && formats.isUrl(env["DATABASE_URL_DIRECT"])
    ensures ValueOf(ValidateEnv(env, formats).value, "DATABASE_URL") == Some(Str(env["DATABASE_URL"]))
    ensures ValueOf(ValidateEnv(env, formats).value, "DATABASE_URL_DIRECT") == Some(Str(env["DATABASE_URL_DIRECT"]))
  {
    var url, direct := "DATABASE_URL", "DATABASE_URL_DIRECT";
    ValidatedRequired(env, formats, 3, url);
    ValidatedRequired(env, formats, 4, direct);
  }


  /**
   * After a successful validation the `jwt` secret is the raw JWT_SECRET, which
   * is also the validated value and has at least 32 UTF-16 code units; its
   * expiry agrees with the validated JWT_EXPIRES_IN.
   */
  lemma ValidatedJwt(env: Env, formats: Formats)
    requires ValidateEnv(env, formats).Success?
    ensures "JWT_SECRET" in env && JwtNamespace(env).secret == Some(env["JWT_SECRET"])
    ensures ValueOf(ValidateEnv(env, formats).value, "JWT_SECRET") == Some(Str(env["JWT_SECRET"]))
    ensures Utf16Length(env["JWT_SECRET"]) >= 32
    ensures ValueOf(ValidateEnv(env, formats).value, "JWT_EXPIRES_IN") == Some(Str(JwtNamespace(env).expiresIn))
  {
    ValidatedRequired(env, formats, 9, "JWT_SECRET");
    ValidatedDefaulted(env, formats, 10, "JWT_EXPIRES_IN");
  }

  /**
   * After a successful validation `throttle` holds the validated numbers: the
   * raw reading through `parseInt` agrees with the schema's coercion.
   */
  lemma ValidatedThrottle(env: Env, formats: Formats)
    requires ValidateEnv(env, formats).Success?
    ensures ValueOf(ValidateEnv(env, formats).value, "THROTTLE_TTL").Some?
    ensures ValueOf(ValidateEnv(env, formats).value, "THROTTLE_LIMIT").Some?
    ensures var cfg := ValidateEnv(env, formats).value;
            && cfg["THROTTLE_TTL"].Num? && cfg["THROTTLE_LIMIT"].Num?
            && ThrottleNamespace(env) == Throttle(Some(cfg["THROTTLE_TTL"].n), Some(cfg["THROTTLE_LIMIT"].n))
            && 0 < cfg["THROTTLE_TTL"].n <= MaxSafeInteger && 0 < cfg["THROTTLE_LIMIT"].n <= MaxSafeInteger
  {
    ValidatedPositiveInt(env, formats, 15, "THROTTLE_TTL");
    ValidatedPositiveInt(env, formats, 16, "THROTTLE_LIMIT");
  }

  /** After a successful validation the `firebase` key is the validated key, unescaped. */
  lemma ValidatedFirebase(env: Env, formats: Formats)
    requires ValidateEnv(env, formats).Success?
    ensures "FIREBASE_PRIVATE_KEY" in env && FirebaseNamespace(env).Success?
    ensures ValueOf(ValidateEnv(env, formats).value, "FIREBASE_PRIVATE_KEY") == Some(Str(env["FIREBASE_PRIVATE_KEY"]))
    ensures FirebaseNamespace(env).value.privateKey == UnescapeNewlines(env["FIREBASE_PRIVATE_KEY"])
  {
    ValidatedRequired(env, formats, 7, "FIREBASE_PRIVATE_KEY");
  }

  /** The example key "a\\nb\\nc" becomes "a", newline, "b", newline, "c". */
  lemma FirebaseKeyExample()
    ensures UnescapeNewlines("a\\nb\\nc") == "a\nb\nc"
  {
    assert UnescapeNewlines("c") == "c" by {
      assert "c"[1..] == [];
    }
    assert UnescapeNewlines("\\nc") == "\nc" by {
      assert "\\nc"[2..] == "c";
    }
    assert UnescapeNewlines("b\\nc") == "b\nc" by {
      assert "b\\nc"[1..] == "\\nc";
    }
    assert UnescapeNewlines("\\nb\\nc") == "\nb\nc" by {
      assert "\\nb\\nc"[2..] == "b\\nc";
    }
    assert "a\\nb\\nc"[1..] == "\\nb\\nc";
  }

}
