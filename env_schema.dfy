/**
 * The environment schema: one descriptor per recognised variable, and the
 * generic validation that zod's `safeParse` performs over them. Every field is
 * checked (no short-circuit); the issues are collected in field order; on no
 * issue the result maps each field to its typed value, defaults included.
 *
 * Behaviour follows zod 4: a default replaces only an absent value; a failed
 * type check or integer check stops the remaining checks of that field, while
 * the safe-integer range check lets the positivity check run after it, so a
 * field yields one issue, or two for a coerced integer below the safe range.
 * String lengths are counted in UTF-16 code units, and the messages are
 * zod 4's English ones. Well-formedness of URLs and e-mail addresses is the
 * library's business and comes in as the two predicates of `Formats`.
 */
module EnvSchema {
  import opened Wrappers
  import opened Strings
  import opened JsNumbers

  /** The raw process environment: variable name to string value. */
  type Env = map<string, string>

  /** Reading `process.env[name]`: None stands for `undefined`. */
  function Get(env: Env, name: string): Option<string> {
    if name in env then Some(env[name]) else None
  }

  /** `Number.MAX_SAFE_INTEGER`, the bound of zod 4's integer check. */
  const MaxSafeInteger := 9007199254740991

  /** The shapes of field the schema uses. */
  datatype Kind =
    | Enum(members: seq<string>, enumDefault: string)   // z.enum([...]).default(d)
    | PositiveInt(intDefault: nat)                     // z.coerce.number().int().positive().default(d)
    | StringOr(stringDefault: string)                  // z.string().default(d)
    | MinLength(min: nat)                              // z.string().min(n)
    | Url                                              // z.string().url()
    | Email                                            // z.string().email()
    | OptionalString                                   // z.string().optional()
  {
    /** Kinds that fail when the variable is absent. */
    predicate IsRequired() {
      MinLength? || Url? || Email?
    }

    /** A default is itself a value the field accepts. */
    predicate WellFormed() {
      (Enum? ==> enumDefault in members) && (PositiveInt? ==> 0 < intDefault <= MaxSafeInteger)
    }
  }

  datatype Field = Field(name: string, kind: Kind)

  /** A validated value: a string, or the number a coerced field produced. */
  datatype Value = Str(s: string) | Num(n: int)

  /** One validation failure: the path of the field and zod's message. */
  datatype Issue = Issue(path: seq<string>, message: string)

  /** The library's URL and e-mail checks. */
  datatype Formats = Formats(isUrl: string -> bool, isEmail: string -> bool)

  /** The validated configuration: field name to typed value. */
  type Config = map<string, Value>

  // The library's English messages, assembled from its templates.

  /** A value of the wrong type: what was expected and what arrived. */
  function InvalidType(expected: string, received: string): string {
    "Invalid input: " + "expected " + expected + ", received " + received
  }

  /** A value under its lower bound: the kind of value and the bound it missed. */
  function TooSmall(origin: string, bound: string): string {
    "Too small: " + "expected " + origin + " " + bound
  }

  /** A value over its upper bound: the kind of value and the bound it passed. */
  function TooBig(origin: string, bound: string): string {
    "Too big: " + "expected " + origin + " " + bound
  }

  const MissingString := InvalidType("string", "undefined")
  const NotANumber := InvalidType("number", "NaN")
  const NotAnInteger := InvalidType("int", "number")
  const AboveSafeRange := TooBig("int", "to be <=9007199254740991")
  const BelowSafeRange := TooSmall("int", "to be >=-9007199254740991")
  const NotPositive := TooSmall("number", "to be >0")
  const InvalidUrl := "Invalid URL"
  const InvalidEmail := "Invalid email address"

  function Quoted(s: string): string {
    "\"" + s + "\""
  }

  /** A value outside the enumeration: the one member expected, or all of them. */
  function EnumMessage(members: seq<string>): string {
    if |members| == 1 then "Invalid input: " + "expected " + Quoted(members[0])
    else "Invalid option: " + "expected one of " + Join(seq(|members|, i requires 0 <= i < |members| => Quoted(members[i])), "|")
  }

  function TooShortMessage(min: nat): string {
    TooSmall("string", "to have >=" + ShowNat(min) + " characters")
  }

  /**
   * `z.coerce.number().int().positive()` on a present value: `Number(s)`, then
   * the integer check (not a number, not whole, outside the safe range), then
   * the positivity check. Only the range check lets the next check run, so a
   * number below the safe range is reported twice. An accepted number is
   * `Number(s)` itself, a positive safe integer, and in decimal notation
   * `parseInt(s, 10)` reads the same number.
   */
  function CoercePositiveInt(s: string): (r: Result<int, seq<string>>)
    ensures r.Success? ==> 0 < r.value <= MaxSafeInteger && ParseInt(s) == Some(r.value)
    ensures r.Success? <==> ToNumber(s).IsInteger() && 0 < ToNumber(s).Truncated() <= MaxSafeInteger
    ensures r.Success? ==> ToNumber(s).Finite? && r.value == ToNumber(s).Truncated()
    ensures r.Failure? ==> 1 <= |r.error| <= 2
    ensures r.Failure? && |r.error| == 2 <==> ToNumber(s).IsInteger() && ToNumber(s).Truncated() < -MaxSafeInteger
  {
    var x := ToNumber(s);
    if x.NaN? then Failure([NotANumber])
    else if !x.IsInteger() then Failure([NotAnInteger])
    else if x.Truncated() > MaxSafeInteger then Failure([AboveSafeRange])
    else if x.Truncated() < -MaxSafeInteger then Failure([BelowSafeRange, NotPositive])
    else if x.Truncated() <= 0 then Failure([NotPositive])
    else
      ParseIntTruncatesNumber(s);
      Success(x.Truncated())
  }

  /**
   * One field against its raw value. Absent values take the default, fail
   * when the kind is required, and stay absent only for an optional string;
   * a present string that passes is kept unchanged. A rejection carries one
   * message, or up to two for a coerced integer.
   */
  function CheckField(kind: Kind, raw: Option<string>, formats: Formats): (r: Result<Option<Value>, seq<string>>)
    ensures raw.None? ==> (r.Failure? <==> kind.IsRequired())
    ensures raw.None? && kind.IsRequired() ==> r == Failure([MissingString])
    ensures r.Success? && r.value.None? <==> kind.OptionalString? && raw.None?
    ensures r.Success? && raw.Some? && !kind.PositiveInt? ==> r.value == Some(Str(raw.value))
    ensures kind.WellFormed() && r.Success? && r.value.Some? && r.value.value.Num? ==>
              0 < r.value.value.n <= MaxSafeInteger
    ensures r.Failure? ==> r.error != [] && (|r.error| == 1 || kind.PositiveInt?)
  {
    match kind
    case Enum(members, d) =>
      if raw.None? then Success(Some(Str(d)))
      else if raw.value in members then Success(Some(Str(raw.value)))
      else Failure([EnumMessage(members)])
    case PositiveInt(d) =>
      if raw.None? then Success(Some(Num(d)))
      else
        var n := CoercePositiveInt(raw.value);
        if n.Success? then Success(Some(Num(n.value))) else Failure(n.error)
    case StringOr(d) =>
      Success(Some(Str(raw.GetOr(d))))
    case MinLength(min) =>
      if raw.None? then Failure([MissingString])
      else if Utf16Length(raw.value) >= min then Success(Some(Str(raw.value)))
      else Failure([TooShortMessage(min)])
    case Url =>
      if raw.None? then Failure([MissingString])
      else if formats.isUrl(raw.value) then Success(Some(Str(raw.value)))
      else Failure([InvalidUrl])
    case Email =>
      if raw.None? then Failure([MissingString])
      else if formats.isEmail(raw.value) then Success(Some(Str(raw.value)))
      else Failure([InvalidEmail])
    case OptionalString =>
      if raw.None? then Success(None) else Success(Some(Str(raw.value)))
  }

  /** A field read from the environment. */
  function Check(f: Field, env: Env, formats: Formats): Result<Option<Value>, seq<string>> {
    CheckField(f.kind, Get(env, f.name), formats)
  }

  /** Each message as an issue on the path of the field `name`, in message order. */
  function Tagged(name: string, messages: seq<string>): (issues: seq<Issue>)
    ensures |issues| == |messages|
    ensures forall k :: 0 <= k < |messages| ==> issues[k] == Issue([name], messages[k])
  {
    if messages == [] then [] else [Issue([name], messages[0])] + Tagged(name, messages[1..])
  }

  /** The issues one field contributes: one per message when rejected, none otherwise. */
  function FieldIssues(f: Field, env: Env, formats: Formats): seq<Issue> {
    var c := Check(f, env, formats);
    if c.Success? then [] else Tagged(f.name, c.error)
  }

  /** Every field's issues, in field order. */
  function Issues(fields: seq<Field>, env: Env, formats: Formats): seq<Issue> {
    if fields == [] then []
    else FieldIssues(fields[0], env, formats) + Issues(fields[1..], env, formats)
  }

  /** There are no issues exactly when every field is accepted. */
  lemma {:induction false} NoIssuesIff(fields: seq<Field>, env: Env, formats: Formats)
    ensures Issues(fields, env, formats) == [] <==> forall i :: 0 <= i < |fields| ==> Check(fields[i], env, formats).Success?
  {
    if fields != [] {
      NoIssuesIff(fields[1..], env, formats);
      assert forall i :: 1 <= i < |fields| ==> fields[1..][i - 1] == fields[i];
    }
  }

  /** The field names, in field order. */
  function Names(fields: seq<Field>): seq<string> {
    seq(|fields|, i requires 0 <= i < |fields| => fields[i].name)
  }

  /**
   * Every accepted field's value; fields that yield no value are left out,
   * and nothing but a field name is a key (unknown variables are stripped).
   */
  function Values(fields: seq<Field>, env: Env, formats: Formats): (cfg: Config)
    ensures forall name :: name in cfg ==> name in Names(fields)
  {
    if fields == [] then map[]
    else
      var rest := Values(fields[1..], env, formats);
      assert Names(fields) == [fields[0].name] + Names(fields[1..]);
      match Check(fields[0], env, formats)
      case Success(Some(v)) => rest[fields[0].name := v]
      case _ => rest
  }

  /**
   * `schema.safeParse(env)`: the typed configuration when every field is
   * accepted, and otherwise a non-empty list of issues.
   */
  function Validate(fields: seq<Field>, env: Env, formats: Formats): (r: Result<Config, seq<Issue>>)
    ensures r.Success? <==> forall i :: 0 <= i < |fields| ==> Check(fields[i], env, formats).Success?
    ensures r.Failure? ==> r.error != []
    ensures r.Success? ==> forall name :: name in r.value ==> name in Names(fields)
  {
    var issues := Issues(fields, env, formats);
    NoIssuesIff(fields, env, formats);
    if issues == [] then Success(Values(fields, env, formats)) else Failure(issues)
  }

  predicate DistinctNames(fields: seq<Field>) {
    forall i, j :: 0 <= i < j < |fields| ==> fields[i].name != fields[j].name
  }

  /** Names of the required fields whose variable is absent, in field order. */
  function MissingRequired(fields: seq<Field>, env: Env): seq<string> {
    if fields == [] then []
    else
      (if fields[0].kind.IsRequired() && fields[0].name !in env then [fields[0].name] else [])
      + MissingRequired(fields[1..], env)
  }

  /** Number of issues whose path is the single field `name`. */
  function IssueCount(issues: seq<Issue>, name: string): nat {
    if issues == [] then 0
    else (if issues[0].path == [name] then 1 else 0) + IssueCount(issues[1..], name)
  }

  /** `issue` carries one of the messages of some rejected field of `fields`, on that field's path. */
  ghost predicate RejectionIssue(fields: seq<Field>, env: Env, formats: Formats, issue: Issue) {
    exists i :: 0 <= i < |fields| && Check(fields[i], env, formats).Failure?
      && issue.path == [fields[i].name] && issue.message in Check(fields[i], env, formats).error
  }

  /**
   * No short-circuit: every message of every rejected field is in the list
   * on that field's path, and every issue in the list is such a message.
   */
  lemma {:induction false} IssuesAreRejections(fields: seq<Field>, env: Env, formats: Formats)
    ensures forall i, m ::
              0 <= i < |fields| && Check(fields[i], env, formats).Failure? && m in Check(fields[i], env, formats).error
              ==> Issue([fields[i].name], m) in Issues(fields, env, formats)
    ensures forall issue :: issue in Issues(fields, env, formats) ==> RejectionIssue(fields, env, formats, issue)
  {
    if fields != [] {
      IssuesAreRejections(fields[1..], env, formats);
      var f := fields[0];
      var head := FieldIssues(f, env, formats);
      var rest := Issues(fields[1..], env, formats);
      assert Issues(fields, env, formats) == head + rest;
      forall i | 1 <= i < |fields| ensures fields[1..][i - 1] == fields[i] { }
      forall m | Check(f, env, formats).Failure? && m in Check(f, env, formats).error
        ensures Issue([f.name], m) in head
      {
        var k :| 0 <= k < |Check(f, env, formats).error| && Check(f, env, formats).error[k] == m;
        assert head[k] == Issue([f.name], m);
      }
      forall issue | issue in rest ensures RejectionIssue(fields, env, formats, issue) {
        var i :| 0 <= i < |fields[1..]| && Check(fields[1..][i], env, formats).Failure?
          && issue.path == [fields[1..][i].name] && issue.message in Check(fields[1..][i], env, formats).error;
        assert fields[1..][i] == fields[i + 1];
      }
      forall issue | issue in head ensures RejectionIssue(fields, env, formats, issue) {
        var k :| 0 <= k < |head| && head[k] == issue;
        assert Check(f, env, formats).error[k] == issue.message;
      }
    }
  }

  lemma IssueCountAppend(a: seq<Issue>, b: seq<Issue>, name: string)
    ensures IssueCount(a + b, name) == IssueCount(a, name) + IssueCount(b, name)
  {
    if a != [] {
      assert (a + b)[1..] == a[1..] + b;
      IssueCountAppend(a[1..], b, name);
    } else {
      assert a + b == b;
    }
  }

  /** Issues that all sit on the path of `p` count for `p` and for no other name. */
  lemma {:induction false} IssueCountOnePath(issues: seq<Issue>, p: string, name: string)
    requires forall k :: 0 <= k < |issues| ==> issues[k].path == [p]
    ensures IssueCount(issues, name) == if p == name then |issues| else 0
  {
    if issues != [] {
      assert [p][0] == p;
      assert forall k :: 0 <= k < |issues[1..]| ==> issues[1..][k] == issues[k + 1];
      IssueCountOnePath(issues[1..], p, name);
    }
  }

  /**
   * With distinct field names, a rejected field is named by as many issues as
   * it has messages, and an accepted field by none.
   */
  lemma {:induction false} IssuesPerField(fields: seq<Field>, env: Env, formats: Formats, i: nat)
    requires DistinctNames(fields) && i < |fields|
    ensures IssueCount(Issues(fields, env, formats), fields[i].name)
         == if Check(fields[i], env, formats).Failure? then |Check(fields[i], env, formats).error| else 0
  {
    var head := FieldIssues(fields[0], env, formats);
    var rest := Issues(fields[1..], env, formats);
    IssueCountAppend(head, rest, fields[i].name);
    IssueCountOnePath(head, fields[0].name, fields[i].name);
    if i == 0 {
      NameNotReported(fields[1..], env, formats, fields[0].name);
    } else {
      IssuesPerField(fields[1..], env, formats, i - 1);
      assert fields[1..][i - 1] == fields[i];
    }
  }

  /** A name that no field carries never appears as an issue path. */
  lemma {:induction false} NameNotReported(fields: seq<Field>, env: Env, formats: Formats, name: string)
    requires forall j :: 0 <= j < |fields| ==> fields[j].name != name
    ensures IssueCount(Issues(fields, env, formats), name) == 0
  {
    if fields != [] {
      var head := FieldIssues(fields[0], env, formats);
      IssueCountAppend(head, Issues(fields[1..], env, formats), name);
      IssueCountOnePath(head, fields[0].name, name);
      assert forall j :: 0 <= j < |fields[1..]| ==> fields[1..][j] == fields[j + 1];
      NameNotReported(fields[1..], env, formats, name);
    }
  }

  /** Validating two runs of fields one after the other lists the first run's issues first. */
  lemma {:induction false} IssuesAppend(a: seq<Field>, b: seq<Field>, env: Env, formats: Formats)
    ensures Issues(a + b, env, formats) == Issues(a, env, formats) + Issues(b, env, formats)
  {
    if a == [] {
      assert a + b == b;
    } else {
      assert (a + b)[0] == a[0];
      assert (a + b)[1..] == a[1..] + b;
      IssuesAppend(a[1..], b, env, formats);
    }
  }

  /** The issues of field i sit in the list right after those of the fields before it. */
  lemma IssuesAt(fields: seq<Field>, env: Env, formats: Formats, i: nat)
    requires i < |fields|
    ensures var p := |Issues(fields[..i], env, formats)|;
            var n := |FieldIssues(fields[i], env, formats)|;
            p + n <= |Issues(fields, env, formats)|
            && Issues(fields, env, formats)[p..p + n] == FieldIssues(fields[i], env, formats)
  {
    var tail := [fields[i]] + fields[i + 1..];
    assert fields == fields[..i] + tail;
    IssuesAppend(fields[..i], tail, env, formats);
    assert tail[0] == fields[i] && tail[1..] == fields[i + 1..];
    assert Issues(tail, env, formats) == FieldIssues(fields[i], env, formats) + Issues(fields[i + 1..], env, formats);
  }

  /**
   * Issues come in field order: for fields i < j, the issues of i occupy a
   * run of the list that ends before the run of the issues of j begins.
   */
  lemma IssuesInFieldOrder(fields: seq<Field>, env: Env, formats: Formats, i: nat, j: nat)
    requires i < j < |fields|
    ensures var issues := Issues(fields, env, formats);
            var p := |Issues(fields[..i], env, formats)|;
            var q := |Issues(fields[..j], env, formats)|;
            && p + |FieldIssues(fields[i], env, formats)| <= q
            && q + |FieldIssues(fields[j], env, formats)| <= |issues|
            && issues[p..p + |FieldIssues(fields[i], env, formats)|] == FieldIssues(fields[i], env, formats)
            && issues[q..q + |FieldIssues(fields[j], env, formats)|] == FieldIssues(fields[j], env, formats)
    ensures Check(fields[i], env, formats).Failure? ==>
              |Issues(fields[..i], env, formats)| < |Issues(fields[..j], env, formats)|
  {
    IssuesAt(fields, env, formats, i);
    IssuesAt(fields, env, formats, j);
    var prefix := fields[..j];
    IssuesAt(prefix, env, formats, i);
    assert prefix[..i] == fields[..i] && prefix[i] == fields[i];
  }

  /**
   * Every missing required variable is reported as missing, so the issue list
   * is at least as long as the list of missing required variables.
   */
  lemma {:induction false} MissingRequiredReported(fields: seq<Field>, env: Env, formats: Formats)
    ensures |Issues(fields, env, formats)| >= |MissingRequired(fields, env)|
    ensures forall n :: n in MissingRequired(fields, env) ==> Issue([n], MissingString) in Issues(fields, env, formats)
  {
    if fields != [] {
      MissingRequiredReported(fields[1..], env, formats);
      var head := FieldIssues(fields[0], env, formats);
      assert Issues(fields, env, formats) == head + Issues(fields[1..], env, formats);
      if fields[0].kind.IsRequired() && fields[0].name !in env {
        assert head == [Issue([fields[0].name], MissingString)];
      }
    }
  }

  /**
   * With distinct names, each accepted field's value is stored under its
   * name, and a field that yields no value (an absent optional string) is
   * absent.
   */
  lemma {:induction false} ValuesStored(fields: seq<Field>, env: Env, formats: Formats)
    requires DistinctNames(fields)
    ensures forall i :: 0 <= i < |fields| && Check(fields[i], env, formats).Success? ==>
              && (Check(fields[i], env, formats).value.Some? ==>
                    && fields[i].name in Values(fields, env, formats)
                    && Values(fields, env, formats)[fields[i].name] == Check(fields[i], env, formats).value.value)
              && (Check(fields[i], env, formats).value.None? ==> fields[i].name !in Values(fields, env, formats))
  {
    if fields != [] {
      ValuesStored(fields[1..], env, formats);
      forall i | 1 <= i < |fields| ensures fields[1..][i - 1] == fields[i] && fields[i].name != fields[0].name { }
      assert forall k :: 0 <= k < |fields[1..]| ==> Names(fields[1..])[k] != fields[0].name;
    }
  }

  /** Two environments on which every field gets the same verdict validate alike. */
  lemma {:induction false} SameVerdictsSameResult(fields: seq<Field>, env1: Env, env2: Env, formats: Formats)
    requires forall i :: 0 <= i < |fields| ==> Check(fields[i], env1, formats) == Check(fields[i], env2, formats)
    ensures Issues(fields, env1, formats) == Issues(fields, env2, formats)
    ensures Values(fields, env1, formats) == Values(fields, env2, formats)
  {
    if fields != [] {
      assert forall i :: 0 <= i < |fields[1..]| ==> fields[1..][i] == fields[i + 1];
      SameVerdictsSameResult(fields[1..], env1, env2, formats);
    }
  }

  /** The text of a validated value, as it would be written back into an environment. */
  function Show(v: Value): string {
    match v
    case Str(s) => s
    case Num(n) => if n >= 0 then ShowNat(n) else "-" + ShowNat(-n)
  }

  /** A validated configuration written back as an environment. */
  function Render(cfg: Config): Env {
    map name | name in cfg :: Show(cfg[name])
  }

  /** A value a well-formed field accepted is accepted again, unchanged, from its own text. */
  lemma RecheckShown(kind: Kind, raw: Option<string>, formats: Formats, v: Value)
    requires kind.WellFormed()
    requires CheckField(kind, raw, formats) == Success(Some(v))
    ensures CheckField(kind, Some(Show(v)), formats) == Success(Some(v))
  {
    if kind.PositiveInt? {
      var n := v.n;
      ToNumberShowNat(n);
      assert Show(v) == ShowNat(n);
    }
  }

  /**
   * Validation is idempotent: writing a validated configuration back as an
   * environment and validating again gives the same configuration.
   */
  lemma ValidateRendered(fields: seq<Field>, env: Env, formats: Formats)
    requires DistinctNames(fields)
    requires forall i :: 0 <= i < |fields| ==> fields[i].kind.WellFormed()
    requires Validate(fields, env, formats).Success?
    ensures Validate(fields, Render(Validate(fields, env, formats).value), formats) == Validate(fields, env, formats)
  {
    var cfg := Validate(fields, env, formats).value;
    var env2 := Render(cfg);
    ValuesStored(fields, env, formats);
    forall i | 0 <= i < |fields| ensures Check(fields[i], env2, formats) == Check(fields[i], env, formats) {
      var f := fields[i];
      var c := Check(f, env, formats);
      assert c.Success?;
      if c.value.Some? {
        assert Get(env2, f.name) == Some(Show(c.value.value));
        RecheckShown(f.kind, Get(env, f.name), formats, c.value.value);
      } else {
        assert f.name !in env2;
      }
    }
    SameVerdictsSameResult(fields, env, env2, formats);
  }

  // ---------------------------------------------------------------------------
  // The schema of this server
  // ---------------------------------------------------------------------------

  const NodeEnvs: seq<string> := ["development", "production", "test"]
  /** The default origin list: the web client's and the mobile bundler's local hosts. */
  const WebOrigin := "http://localhost:3001"
  const MobileOrigin := "http://localhost:8081"
  const DefaultCorsOrigins := WebOrigin + "," + MobileOrigin

  /** `envSchema`, field by field and in declaration order. */
  const EnvFields: seq<Field> := [
    Field("NODE_ENV", Enum(NodeEnvs, "development")),
    Field("PORT", PositiveInt(3000)),
    Field("CORS_ORIGINS", StringOr(DefaultCorsOrigins)),
    Field("DATABASE_URL", Url),
    Field("DATABASE_URL_DIRECT", Url),
    Field("REDIS_URL", OptionalString),
    Field("FIREBASE_PROJECT_ID", MinLength(1)),
    Field("FIREBASE_PRIVATE_KEY", MinLength(1)),
    Field("FIREBASE_CLIENT_EMAIL", Email),
    Field("JWT_SECRET", MinLength(32)),
    Field("JWT_EXPIRES_IN", StringOr("15m")),
    Field("CLOUDINARY_CLOUD_NAME", MinLength(1)),
    Field("CLOUDINARY_API_KEY", MinLength(1)),
    Field("CLOUDINARY_API_SECRET", MinLength(1)),
    Field("GOONG_API_KEY", MinLength(1)),
    Field("THROTTLE_TTL", PositiveInt(60000)),
    Field("THROTTLE_LIMIT", PositiveInt(100))
  ]

  /**
   * `envSchema.safeParse(env)`: it succeeds exactly when every variable is
   * accepted, and a failure lists at least one issue per missing required
   * variable.
   */
  function SafeParse(env: Env, formats: Formats): (r: Result<Config, seq<Issue>>)
    ensures r.Success? <==> forall i :: 0 <= i < |EnvFields| ==> Check(EnvFields[i], env, formats).Success?
    ensures r.Failure? ==> r.error != [] && |r.error| >= |MissingRequired(EnvFields, env)|
  {
    MissingRequiredReported(EnvFields, env, formats);
    Validate(EnvFields, env, formats)
  }

  /** Number of issues `envSchema.safeParse(env)` reports for the variable `name`. */
  function Reports(env: Env, formats: Formats, name: string): nat {
    IssueCount(Issues(EnvFields, env, formats), name)
  }

  /** A variable of the validated configuration, None when it is absent. */
  function ValueOf(cfg: Config, name: string): Option<Value> {
    if name in cfg then Some(cfg[name]) else None
  }

  lemma EnvFieldNamesDistinct()
    ensures DistinctNames(EnvFields)
  {
  }

  lemma EnvFieldKindsWellFormed()
    ensures forall i :: 0 <= i < |EnvFields| ==> EnvFields[i].kind.WellFormed()
  {
  }

  /** No variable is declared twice, and every default satisfies its own field. */
  lemma EnvFieldsWellFormed()
    ensures DistinctNames(EnvFields)
    ensures forall i :: 0 <= i < |EnvFields| ==> EnvFields[i].kind.WellFormed()
  {
    EnvFieldNamesDistinct();
    EnvFieldKindsWellFormed();
  }

  /**
   * One of the schema's variables is named by one issue per message of its
   * rejection, and by none when it is accepted.
   */
  lemma EnvFieldReports(env: Env, formats: Formats, i: nat)
    requires i < |EnvFields|
    ensures Reports(env, formats, EnvFields[i].name)
         == if Check(EnvFields[i], env, formats).Failure? then |Check(EnvFields[i], env, formats).error| else 0
  {
    EnvFieldNamesDistinct();
    IssuesPerField(EnvFields, env, formats, i);
  }

  /**
   * After a successful parse each variable was accepted, and its value (or
   * its absence) in the configuration is what its field check produced.
   */
  lemma EnvFieldParsed(env: Env, formats: Formats, i: nat)
    requires i < |EnvFields|
    requires SafeParse(env, formats).Success?
    ensures Check(EnvFields[i], env, formats).Success?
    ensures ValueOf(SafeParse(env, formats).value, EnvFields[i].name) == Check(EnvFields[i], env, formats).value
  {
    EnvFieldNamesDistinct();
    ValuesStored(EnvFields, env, formats);
  }

  /**
   * After a successful parse a required variable is present and its value is
   * the raw string, which passed its field's length or URL check.
   */
  lemma RequiredParsed(env: Env, formats: Formats, i: nat, name: string)
    requires i < |EnvFields| && EnvFields[i].name == name && EnvFields[i].kind.IsRequired()
    requires SafeParse(env, formats).Success?
    ensures name in env
    ensures ValueOf(SafeParse(env, formats).value, name) == Some(Str(env[name]))
    ensures EnvFields[i].kind.Url? ==> formats.isUrl(env[name])
    ensures EnvFields[i].kind.MinLength? ==> Utf16Length(env[name]) >= EnvFields[i].kind.min
  {
    EnvFieldParsed(env, formats, i);
  }

  /**
   * After a successful parse a coerced integer variable holds a positive safe
   * integer: the one `parseInt` reads from the raw value, or the default.
   */
  lemma PositiveIntParsed(env: Env, formats: Formats, i: nat)
    requires i < |EnvFields| && EnvFields[i].kind.PositiveInt?
    requires SafeParse(env, formats).Success?
    ensures var v := ValueOf(SafeParse(env, formats).value, EnvFields[i].name);
            && v.Some? && v.value.Num? && 0 < v.value.n <= MaxSafeInteger
            && (EnvFields[i].name in env ==> ParseInt(env[EnvFields[i].name]) == Some(v.value.n))
            && (EnvFields[i].name !in env ==> v.value.n == EnvFields[i].kind.intDefault)
  {
    EnvFieldKindsWellFormed();
    EnvFieldParsed(env, formats, i);
  }

  /** NODE_ENV: absent means "development"; a present value is reported once when outside the three names, else never. */
  lemma NodeEnvRules(env: Env, formats: Formats)
    ensures "NODE_ENV" !in env ==> Reports(env, formats, "NODE_ENV") == 0
    ensures "NODE_ENV" !in env && SafeParse(env, formats).Success? ==>
              ValueOf(SafeParse(env, formats).value, "NODE_ENV") == Some(Str("development"))
    ensures "NODE_ENV" in env ==> Reports(env, formats, "NODE_ENV") == if env["NODE_ENV"] in NodeEnvs then 0 else 1
  {
    EnvFieldReports(env, formats, 0);
    if SafeParse(env, formats).Success? {
      EnvFieldParsed(env, formats, 0);
    }
  }

  /** "staging" is not an environment name. */
  lemma StagingRejected(env: Env, formats: Formats)
    requires "NODE_ENV" in env && env["NODE_ENV"] == "staging"
    ensures SafeParse(env, formats).Failure? && Reports(env, formats, "NODE_ENV") == 1
  {
    EnvFieldReports(env, formats, 0);
  }

  /**
   * A coerced positive-integer variable: absent means its default; present,
   * it is reported once per message of the coercion's failure (so exactly
   * when `Number(raw)` is not a positive safe integer), and on success it
   * holds that integer.
   */
  lemma PositiveIntRules(env: Env, formats: Formats, i: nat)
    requires i in {1, 15, 16}
    ensures EnvFields[i].kind.PositiveInt?
    ensures EnvFields[i].name !in env ==> Reports(env, formats, EnvFields[i].name) == 0
    ensures EnvFields[i].name !in env && SafeParse(env, formats).Success? ==>
              ValueOf(SafeParse(env, formats).value, EnvFields[i].name) == Some(Num(EnvFields[i].kind.intDefault))
    ensures EnvFields[i].name in env ==>
              Reports(env, formats, EnvFields[i].name)
              == if CoercePositiveInt(env[EnvFields[i].name]).Failure?
                 then |CoercePositiveInt(env[EnvFields[i].name]).error| else 0
    ensures EnvFields[i].name in env && SafeParse(env, formats).Success? ==>
              && CoercePositiveInt(env[EnvFields[i].name]).Success?
              && ValueOf(SafeParse(env, formats).value, EnvFields[i].name)
                 == Some(Num(CoercePositiveInt(env[EnvFields[i].name]).value))
  {
    EnvFieldReports(env, formats, i);
    if SafeParse(env, formats).Success? {
      EnvFieldParsed(env, formats, i);
    }
  }

  /** PORT defaults to 3000; THROTTLE_TTL to 60000; THROTTLE_LIMIT to 100. */
  lemma NumericDefaults(env: Env, formats: Formats)
    requires SafeParse(env, formats).Success?
    ensures "PORT" !in env ==> ValueOf(SafeParse(env, formats).value, "PORT") == Some(Num(3000))
    ensures "THROTTLE_TTL" !in env ==> ValueOf(SafeParse(env, formats).value, "THROTTLE_TTL") == Some(Num(60000))
    ensures "THROTTLE_LIMIT" !in env ==> ValueOf(SafeParse(env, formats).value, "THROTTLE_LIMIT") == Some(Num(100))
  {
    EnvFieldParsed(env, formats, 1);
    EnvFieldParsed(env, formats, 15);
    EnvFieldParsed(env, formats, 16);
  }

  /** `Number("0")` is zero, an integer that is not positive. */
  lemma ZeroRejected()
    ensures CoercePositiveInt("0") == Failure([NotPositive])
  {
    ToNumberShowNat(0);
    assert ShowNat(0) == "0";
  }

  /** A minus sign before digits within the safe range (such as "-1") gives an integer that is not positive. */
  lemma NegativeRejected(n: nat)
    requires n <= MaxSafeInteger
    ensures CoercePositiveInt("-" + ShowNat(n)) == Failure([NotPositive])
  {
    ToNumberNegatedShowNat(n);
  }

  /** Digits beyond `Number.MAX_SAFE_INTEGER` fail the integer check's range. */
  lemma AboveSafeRangeRejected(n: nat)
    requires n > MaxSafeInteger
    ensures CoercePositiveInt(ShowNat(n)) == Failure([AboveSafeRange])
  {
    ToNumberShowNat(n);
  }

  /**
   * A negative number below the safe range fails the range check, which lets
   * the positivity check run and fail too: two messages.
   */
  lemma BelowSafeRangeTwoIssues(n: nat)
    requires n > MaxSafeInteger
    ensures CoercePositiveInt("-" + ShowNat(n)) == Failure([BelowSafeRange, NotPositive])
  {
    ToNumberNegatedShowNat(n);
  }

  /** Such a PORT is the one variable the schema reports twice. */
  lemma PortBelowSafeRange(env: Env, formats: Formats, n: nat)
    requires n > MaxSafeInteger
    requires "PORT" in env && env["PORT"] == "-" + ShowNat(n)
    ensures Reports(env, formats, "PORT") == 2
    ensures SafeParse(env, formats).Failure?
  {
    BelowSafeRangeTwoIssues(n);
    EnvFieldReports(env, formats, 1);
  }

  /** Digits, a point and a fraction with a non-zero first digit (such as "3.5") are not an integer. */
  lemma FractionNotInteger(w: nat, f: string)
    requires f != [] && AllDigits(f) && f[0] != '0'
    ensures CoercePositiveInt(ShowNat(w) + "." + f) == Failure([NotAnInteger])
  {
    ToNumberDecimal(w, f);
  }

  /** Text that does not start like a number and has no point (such as "abc") is not a number. */
  lemma LettersNotANumber(t: string)
    requires t != [] && EdgeTrimmed(t) && '.' !in t
    requires t[0] != '-' && t[0] != '+' && !IsDigit(t[0])
    ensures CoercePositiveInt(t) == Failure([NotANumber])
  {
    ToNumberNotNumeral(t);
  }

  /**
   * JWT_SECRET is reported once when absent or shorter than 32 UTF-16 code
   * units, and never otherwise.
   */
  lemma JwtSecretRules(env: Env, formats: Formats)
    ensures "JWT_SECRET" !in env ==> Reports(env, formats, "JWT_SECRET") == 1
    ensures "JWT_SECRET" in env ==>
              Reports(env, formats, "JWT_SECRET") == if Utf16Length(env["JWT_SECRET"]) < 32 then 1 else 0
  {
    EnvFieldReports(env, formats, 9);
  }

  /** Sixteen characters outside the Basic Multilingual Plane are 32 code units: long enough. */
  lemma AstralSecretAccepted(env: Env, formats: Formats)
    requires "JWT_SECRET" in env && |env["JWT_SECRET"]| == 16
    requires forall k :: 0 <= k < 16 ==> env["JWT_SECRET"][k] as int >= 0x10000
    ensures Reports(env, formats, "JWT_SECRET") == 0
  {
    Utf16LengthOfAstral(env["JWT_SECRET"]);
    JwtSecretRules(env, formats);
  }

  /** Thirty-one characters inside the Basic Multilingual Plane are too short. */
  lemma ShortBmpSecretRejected(env: Env, formats: Formats)
    requires "JWT_SECRET" in env && |env["JWT_SECRET"]| == 31
    requires forall k :: 0 <= k < 31 ==> env["JWT_SECRET"][k] as int < 0x10000
    ensures Reports(env, formats, "JWT_SECRET") == 1
  {
    Utf16LengthOfBmp(env["JWT_SECRET"]);
    JwtSecretRules(env, formats);
  }

  /**
   * Each `min(1)` variable (the two Firebase identifiers, the three Cloudinary
   * settings and the Goong key), absent or empty, is reported exactly once.
   */
  lemma NonEmptyRules(env: Env, formats: Formats, i: nat)
    requires i in {6, 7, 11, 12, 13, 14}
    ensures EnvFields[i].kind == MinLength(1)
    ensures EnvFields[i].name !in env || env[EnvFields[i].name] == "" ==> Reports(env, formats, EnvFields[i].name) == 1
    ensures EnvFields[i].name in env ==> (Reports(env, formats, EnvFields[i].name) == 1 <==> env[EnvFields[i].name] == "")
    ensures EnvFields[i].name in env && env[EnvFields[i].name] != "" ==> Reports(env, formats, EnvFields[i].name) == 0
  {
    var f := EnvFields[i];
    assert f.kind == MinLength(1);
    EnvFieldReports(env, formats, i);
    if f.name in env {
      assert Utf16Length(env[f.name]) >= 1 <==> env[f.name] != "";
    }
  }

  /** DATABASE_URL and DATABASE_URL_DIRECT are reported exactly when absent or rejected by the URL check. */
  lemma UrlRules(env: Env, formats: Formats, i: nat)
    requires i in {3, 4}
    ensures EnvFields[i].kind == Url
    ensures Reports(env, formats, EnvFields[i].name) == 1
        <==> EnvFields[i].name !in env || !formats.isUrl(env[EnvFields[i].name])
  {
    EnvFieldReports(env, formats, i);
  }

  /** FIREBASE_CLIENT_EMAIL is reported exactly when absent or rejected by the e-mail check. */
  lemma EmailRules(env: Env, formats: Formats)
    ensures Reports(env, formats, "FIREBASE_CLIENT_EMAIL") == 1
        <==> "FIREBASE_CLIENT_EMAIL" !in env || !formats.isEmail(env["FIREBASE_CLIENT_EMAIL"])
  {
    EnvFieldReports(env, formats, 8);
  }

  /** REDIS_URL is never reported; when absent it stays absent from the configuration. */
  lemma RedisOptional(env: Env, formats: Formats)
    ensures Reports(env, formats, "REDIS_URL") == 0
    ensures SafeParse(env, formats).Success? ==>
              ValueOf(SafeParse(env, formats).value, "REDIS_URL")
              == if "REDIS_URL" in env then Some(Str(env["REDIS_URL"])) else None
  {
    assert EnvFields[5] == Field("REDIS_URL", OptionalString);
    EnvFieldReports(env, formats, 5);
    if SafeParse(env, formats).Success? {
      EnvFieldParsed(env, formats, 5);
    }
  }

  /** A string field with a default is never reported and takes its default when absent. */
  lemma DefaultedStringRules(env: Env, formats: Formats, i: nat)
    requires i < |EnvFields| && EnvFields[i].kind.StringOr?
    ensures Reports(env, formats, EnvFields[i].name) == 0
    ensures SafeParse(env, formats).Success? ==>
              ValueOf(SafeParse(env, formats).value, EnvFields[i].name)
              == Some(Str(Get(env, EnvFields[i].name).GetOr(EnvFields[i].kind.stringDefault)))
  {
    EnvFieldReports(env, formats, i);
    if SafeParse(env, formats).Success? {
      EnvFieldParsed(env, formats, i);
    }
  }

  /** CORS_ORIGINS and JWT_EXPIRES_IN are never reported and take their defaults when absent. */
  lemma StringDefaults(env: Env, formats: Formats)
    ensures Reports(env, formats, "CORS_ORIGINS") == 0 && Reports(env, formats, "JWT_EXPIRES_IN") == 0
    ensures SafeParse(env, formats).Success? ==>
              ValueOf(SafeParse(env, formats).value, "CORS_ORIGINS")
              == Some(Str(if "CORS_ORIGINS" in env then env["CORS_ORIGINS"] else DefaultCorsOrigins))
    ensures SafeParse(env, formats).Success? ==>
              ValueOf(SafeParse(env, formats).value, "JWT_EXPIRES_IN")
              == Some(Str(if "JWT_EXPIRES_IN" in env then env["JWT_EXPIRES_IN"] else "15m"))
  {
    DefaultedStringRules(env, formats, 2);
    DefaultedStringRules(env, formats, 10);
  }

  /**
   * No short-circuit: with n required variables missing the parse fails with
   * at least n issues, each missing variable reported as missing.
   */
  lemma MissingVariablesAllReported(env: Env, formats: Formats)
    requires MissingRequired(EnvFields, env) != []
    ensures SafeParse(env, formats).Failure?
    ensures |SafeParse(env, formats).error| >= |MissingRequired(EnvFields, env)|
    ensures forall n :: n in MissingRequired(EnvFields, env) ==> Issue([n], MissingString) in SafeParse(env, formats).error
  {
    MissingRequiredReported(EnvFields, env, formats);
  }

  /** The schema's parse is idempotent on its own output. */
  lemma SafeParseRendered(env: Env, formats: Formats)
    requires SafeParse(env, formats).Success?
    ensures SafeParse(Render(SafeParse(env, formats).value), formats) == SafeParse(env, formats)
  {
    EnvFieldsWellFormed();
    ValidateRendered(EnvFields, env, formats);
  }
}
