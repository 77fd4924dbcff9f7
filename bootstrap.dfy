/**
 * The two values the server's bootstrap reads from the configuration service:
 * the CORS origin list (the configured string split on commas, each piece
 * trimmed) and the listening port. The service answers from the validated
 * configuration and falls back to the caller's default only when the key is
 * absent there.
 */
module Bootstrap {
  import opened Wrappers
  import opened Strings
  import opened JsNumbers
  import opened EnvSchema
  import opened AppConfig

  /** The default written at the call site, not the schema's default. */
  const CorsFallback := "http://localhost:3001"
  const PortFallback := 3000

  /** What V8 throws when `.split` is called on a number. */
  const SplitOnNumber := "TypeError: configService.get(...).split is not a function"

  /**
   * `configService.get(key, fallback)` over the validated configuration: the
   * stored value whenever the key is present, the fallback only when it is
   * absent.
   */
  function ConfigGet(cfg: Config, key: string, fallback: Value): (v: Value)
    ensures key in cfg ==> v == cfg[key]
    ensures key !in cfg ==> v == fallback
  {
    if key in cfg then cfg[key] else fallback
  }

  /** `.map((origin) => origin.trim())`. */
  function TrimAll(pieces: seq<string>): (r: seq<string>)
    ensures |r| == |pieces|
    ensures forall i :: 0 <= i < |r| ==> r[i] == Trim(pieces[i])
  {
    if pieces == [] then [] else [Trim(pieces[0])] + TrimAll(pieces[1..])
  }

  /** Trimming keeps a character-free piece character-free. */
  lemma TrimAvoids(s: string, c: char)
    requires c !in s
    ensures c !in Trim(s)
  {
    var r := Trim(s);
    forall i | 0 <= i < |r| ensures r[i] != c {
      TrimAt(s, i);
    }
  }

  /** `list.split(',').map((origin) => origin.trim())`. */
  function ParseOrigins(list: string): (origins: seq<string>)
    ensures |origins| == Count(list, ',') + 1
    ensures forall i :: 0 <= i < |origins| ==> origins[i] == Trim(Split(list, ',')[i])
    ensures forall i :: 0 <= i < |origins| ==> EdgeTrimmed(origins[i]) && ',' !in origins[i]
  {
    var pieces := Split(list, ',');
    var origins := TrimAll(pieces);
    assert forall i :: 0 <= i < |origins| ==> ',' !in origins[i] by {
      forall i | 0 <= i < |origins| ensures ',' !in origins[i] {
        TrimAvoids(pieces[i], ',');
      }
    }
    origins
  }

  /**
   * Origins written comma-separated come back trimmed, one per piece and in
   * order.
   */
  lemma ParseJoinedOrigins(pieces: seq<string>)
    requires |pieces| > 0
    requires forall i :: 0 <= i < |pieces| ==> ',' !in pieces[i]
    ensures ParseOrigins(Join(pieces, ",")) == TrimAll(pieces)
  {
    SplitJoin(pieces, ',');
  }

  lemma TrimAllTrimmed(origins: seq<string>)
    requires forall i :: 0 <= i < |origins| ==> EdgeTrimmed(origins[i])
    ensures TrimAll(origins) == origins
  {
    var r := TrimAll(origins);
    forall i | 0 <= i < |origins| ensures r[i] == origins[i] {
      TrimmedIsFixed(origins[i]);
    }
  }

  /** Origins that are already trimmed and comma-free survive a join and a parse. */
  lemma ParseJoinedTrimmedOrigins(origins: seq<string>)
    requires |origins| > 0
    requires forall i :: 0 <= i < |origins| ==> ',' !in origins[i] && EdgeTrimmed(origins[i])
    ensures ParseOrigins(Join(origins, ",")) == origins
  {
    ParseJoinedOrigins(origins);
    TrimAllTrimmed(origins);
  }

  /** An unset-but-empty list is one empty origin, not an empty list. */
  lemma EmptyListIsOneEmptyOrigin()
    ensures ParseOrigins("") == [""]
  {
  }

  /** Trimming removes one space of padding on either side of a trimmed string. */
  lemma TrimPadded(t: string)
    requires EdgeTrimmed(t)
    ensures Trim(" " + t + " ") == t
  {
    assert AllWhitespace(" ");
    TrimUnique(" ", t, " ");
  }

  /**
   * Two origins written with spaces around the comma and at the ends, as in
   * `" http://a.com , http://b.com "`, come back without the spaces.
   */
  lemma SpacedOrigins(a: string, b: string)
    requires ',' !in a && EdgeTrimmed(a)
    requires ',' !in b && EdgeTrimmed(b)
    ensures ParseOrigins(" " + a + " , " + b + " ") == [a, b]
  {
    var pieces := [" " + a + " ", " " + b + " "];
    SpacedJoin(a, b);
    PaddedCommaFree(a, b);
    ParseJoinedOrigins(pieces);
    PaddedTrimAll(a, b);
  }

  lemma SpacedJoin(a: string, b: string)
    ensures Join([" " + a + " ", " " + b + " "], ",") == " " + a + " , " + b + " "
  {
    var pa := " " + a + " ";
    var pb := " " + b + " ";
    assert [pa, pb][1..] == [pb];
    assert pa + "," + pb == " " + a + (" " + "," + " ") + b + " ";
    assert " " + "," + " " == " , ";
  }

  lemma PaddedCommaFree(a: string, b: string)
    requires ',' !in a && ',' !in b
    ensures forall i :: 0 <= i < 2 ==> ',' !in [" " + a + " ", " " + b + " "][i]
  {
    assert ',' !in " " + a + " " && ',' !in " " + b + " ";
  }

  lemma PaddedTrimAll(a: string, b: string)
    requires EdgeTrimmed(a) && EdgeTrimmed(b)
    ensures TrimAll([" " + a + " ", " " + b + " "]) == [a, b]
  {
    var pieces := [" " + a + " ", " " + b + " "];
    assert TrimAll(pieces) == [Trim(pieces[0]), Trim(pieces[1])];
    TrimPadded(a);
    TrimPadded(b);
  }

  /** The origin list handed to CORS; a numeric value cannot be split. */
  function CorsOrigins(cfg: Config): (r: Result<seq<string>, string>)
    ensures "CORS_ORIGINS" !in cfg ==> r == Success([CorsFallback])
    ensures "CORS_ORIGINS" in cfg && cfg["CORS_ORIGINS"].Str? ==> r == Success(ParseOrigins(cfg["CORS_ORIGINS"].s))
    ensures r.Failure? <==> "CORS_ORIGINS" in cfg && cfg["CORS_ORIGINS"].Num?
  {
    FallbackIsOneOrigin();
    OriginsOf(ConfigGet(cfg, "CORS_ORIGINS", Str(CorsFallback)))
  }

  /** `.split(',')` and trimming on whatever the service returned. */
  function OriginsOf(v: Value): (r: Result<seq<string>, string>)
    ensures v.Str? ==> r == Success(ParseOrigins(v.s))
    ensures v.Num? ==> r == Failure(SplitOnNumber)
  {
    match v
    case Str(list) => Success(ParseOrigins(list))
    case Num(_) => Failure(SplitOnNumber)
  }

  lemma FallbackIsOneOrigin()
    ensures ParseOrigins(CorsFallback) == [CorsFallback]
  {
    FallbackShape();
    ParseJoinedTrimmedOrigins([CorsFallback]);
  }

  lemma FallbackShape()
    ensures ',' !in CorsFallback && EdgeTrimmed(CorsFallback)
  {
  }

  /** Two trimmed, comma-free origins joined by a comma split back into themselves. */
  lemma TwoOrigins(a: string, b: string)
    requires ',' !in a && EdgeTrimmed(a)
    requires ',' !in b && EdgeTrimmed(b)
    ensures ParseOrigins(a + "," + b) == [a, b]
  {
    assert [a, b][1..] == [b];
    ParseJoinedTrimmedOrigins([a, b]);
  }

  lemma DefaultHostsShape()
    ensures ',' !in WebOrigin && EdgeTrimmed(WebOrigin)
    ensures ',' !in MobileOrigin && EdgeTrimmed(MobileOrigin)
  {
  }

  /** The schema default, read back as origins: two local hosts. */
  lemma DefaultOriginsParsed()
    ensures ParseOrigins(DefaultCorsOrigins) == [WebOrigin, MobileOrigin]
  {
    DefaultHostsShape();
    TwoOrigins(WebOrigin, MobileOrigin);
  }

  /** A validated CORS_ORIGINS variable is split and trimmed as written. */
  lemma ValidatedCorsOriginsSet(env: Env, formats: Formats)
    requires ValidateEnv(env, formats).Success?
    requires "CORS_ORIGINS" in env
    ensures CorsOrigins(ValidateEnv(env, formats).value) == Success(ParseOrigins(env["CORS_ORIGINS"]))
  {
    StringDefaults(env, formats);
  }

  /**
   * After a successful validation CORS_ORIGINS is always present, so the
   * call-site fallback is never used: an unset variable yields the schema's
   * two default origins.
   */
  lemma ValidatedCorsOriginsUnset(env: Env, formats: Formats)
    requires ValidateEnv(env, formats).Success?
    requires "CORS_ORIGINS" !in env
    ensures CorsOrigins(ValidateEnv(env, formats).value) == Success([WebOrigin, MobileOrigin])
    ensures CorsOrigins(ValidateEnv(env, formats).value) != Success([CorsFallback])
  {
    StringDefaults(env, formats);
    DefaultOriginsParsed();
  }

  /** `configService.get<number>('PORT', 3000)`. */
  function ListenPort(cfg: Config): (port: Value)
    ensures "PORT" !in cfg ==> port == Num(PortFallback)
    ensures "PORT" in cfg ==> port == cfg["PORT"]
  {
    ConfigGet(cfg, "PORT", Num(PortFallback))
  }

  /**
   * After a successful validation the port is a positive number: 3000 when
   * PORT is unset, otherwise what `parseInt` reads from the variable.
   */
  lemma ValidatedPort(env: Env, formats: Formats)
    requires ValidateEnv(env, formats).Success?
    ensures ListenPort(ValidateEnv(env, formats).value).Num?
    ensures ListenPort(ValidateEnv(env, formats).value).n > 0
    ensures "PORT" !in env ==> ListenPort(ValidateEnv(env, formats).value) == Num(3000)
    ensures "PORT" in env ==> ParseInt(env["PORT"]) == Some(ListenPort(ValidateEnv(env, formats).value).n)
  {
    ValidatedPositiveInt(env, formats, 1, "PORT");
  }
}
