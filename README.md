# API startup configuration, modelled in Dafny

This project models the startup configuration layer of the API server. It is a
fail-fast check of the process environment followed by a few pure projections
of it.

- **`envSchema`** (`apps/api/src/config/env.schema.ts`) declares seventeen
  variables. Each one is an enumeration with a default, a coerced positive
  integer with a default, a string with a default, a string with a minimum
  length, a URL, an e-mail address, or an optional string. Module `EnvSchema`
  holds this list as a table of field descriptors (`EnvFields`). A generic
  `Validate` reads the table and returns either the typed configuration or
  every issue found, in field order.
- **`validateEnv`** (`apps/api/src/config/app.config.ts`) turns a failed parse
  into one multi-line error: a header line, one `  - path: message` line per
  issue, an empty line and a footer line. On success it returns the parsed
  data. This is module `AppConfig`. A thrown error is a `Failure`.
- **The seven `registerAs` factories** (`database`, `redis`, `firebase`,
  `jwt`, `cloudinary`, `goong`, `throttle`) and the `configNamespaces` order.
  They are also in module `AppConfig`. The factories read the *raw*
  environment, not the validated configuration. A TypeScript non-null
  assertion checks nothing, so an absent variable stays absent (`None`). The
  `firebase` factory throws when its private key is absent.
- **The bootstrap** (`apps/api/src/main.ts`): the CORS origin list (the
  configured string split on commas, each piece trimmed) and the listening
  port with its fallback of 3000. This is module `Bootstrap`.
- **The migration tool's datasource URL** (`apps/api/prisma.config.ts`):
  `DATABASE_URL_DIRECT ?? DATABASE_URL ?? ''`. This is module `PrismaConfig`.

Supporting modules:

- `Wrappers` holds `Option` and `Result`.
- `Strings` models the JavaScript string operations used: `trim`, `split` on
  one character, `join`, and the global `\n` replacement.
- `JsNumbers` models `Number(s)` (behind `z.coerce.number()`) and
  `parseInt(s, 10)`.

Everything is pure: datatypes, functions and lemmas. No source file keeps
mutable state in the modelled parts.

Validation follows zod 4:

- A default applies only when the variable is undefined.
- A failed type, number, integer or URL check stops that field's later
  checks. The one exception is a coerced integer below the safe range: zod 4
  reports it as too small and then also as not positive. So a field contributes
  one issue, or two in that case.
- `.int()` is zod 4's safe-integer check: integers beyond
  ±9007199254740991 (`Number.MAX_SAFE_INTEGER`) are rejected.
- `min(n)` counts UTF-16 code units, as JavaScript's `length` does. A character
  beyond U+FFFF counts twice (`Strings.Utf16Length`).
- Messages are zod 4's English texts, for example
  `Invalid input: expected string, received undefined` and
  `Too small: expected string to have >=32 characters`.

The library's URL and e-mail checks are not written out. Every lemma takes them
as a parameter (`Formats`) and holds whatever they are.

## Model

| member | source | states |
|---|---|---|
| EnvSchema.CoercePositiveInt | apps/api/src/config/env.schema.ts:8-39 | `z.coerce.number().int().positive()` accepts a present value exactly when `Number(s)` is an integer with 0 < n <= 9007199254740991. An accepted value is `Number(s)` itself, the whole part of a finite reading. For decimal notation, `parseInt(s, 10)` reads the same number. A rejection carries one message, or two exactly when `Number(s)` is an integer below -9007199254740991. |
| EnvSchema.CheckField | apps/api/src/config/env.schema.ts:3-40 | An absent value fails exactly for the required kinds (min-length, URL, e-mail), and it fails with the missing-string message. A value stays absent exactly for an absent optional string. An accepted present string is kept unchanged. A number produced by a well-formed field is a positive safe integer. A rejection has at least one message, and more than one only for a coerced integer. |
| EnvSchema.Tagged | apps/api/src/config/env.schema.ts:3-40 | A rejected field yields one issue per message, in message order, each with the path `[name]`. |
| EnvSchema.NoIssuesIff | apps/api/src/config/env.schema.ts:3-40 | The issue list of `safeParse` (`Issues`) is empty if and only if every field is accepted. |
| EnvSchema.Values | apps/api/src/config/env.schema.ts:3-40 | Only field names are keys of the parsed data, so unknown variables are stripped. |
| EnvSchema.Validate | apps/api/src/config/env.schema.ts:3-40 | `safeParse` succeeds if and only if every field is accepted. A failure carries at least one issue. On success every key is a field name. |
| EnvSchema.IssuesAreRejections | apps/api/src/config/env.schema.ts:3-40 | There is no short-circuit. Every rejected field has its issue in the list, and every issue in the list belongs to a rejected field. |
| EnvSchema.IssueCountAppend | apps/api/src/config/env.schema.ts:3-40 | The issues naming a field in a concatenated list are the sum of the issues naming it in each part. |
| EnvSchema.IssuesPerField | apps/api/src/config/env.schema.ts:3-40 | With distinct names, a rejected field is named by one issue per message of its rejection, and an accepted field by none. |
| EnvSchema.IssuesAppend | apps/api/src/config/env.schema.ts:3-40 | There is no short-circuit: the issues of two field lists in a row are the issues of the first followed by those of the second. |
| EnvSchema.IssuesAt | apps/api/src/config/env.schema.ts:3-40 | The issues of field i form one block, placed right after the issues of the fields before it. |
| EnvSchema.IssuesInFieldOrder | apps/api/src/config/env.schema.ts:3-40 | Issues come in field order. For fields i < j, the block of field i ends before the block of field j starts, and it is non-empty when field i is rejected. |
| EnvSchema.NameNotReported | apps/api/src/config/env.schema.ts:3-40 | A name that no field carries never appears as an issue path. |
| EnvSchema.MissingRequiredReported | apps/api/src/config/env.schema.ts:3-40 | Every absent required variable is reported as missing. There are at least as many issues as missing required variables. |
| EnvSchema.ValuesStored | apps/api/src/config/env.schema.ts:3-40 | On success, each accepted field's value is stored under its name, and an absent optional string is left out. |
| EnvSchema.SameVerdictsSameResult | apps/api/src/config/env.schema.ts:3-40 | Two environments on which every field gets the same verdict give the same issues and the same values. |
| EnvSchema.RecheckShown | apps/api/src/config/env.schema.ts:5-39 | A value that a well-formed field accepted is accepted again, unchanged, when its text is checked again. |
| EnvSchema.ValidateRendered | apps/api/src/config/env.schema.ts:3-40 | Parsing is idempotent. Writing a parsed configuration back as an environment and parsing it again gives the same result. |
| EnvSchema.EnvFieldNamesDistinct | apps/api/src/config/env.schema.ts:3-40 | No variable is declared twice. |
| EnvSchema.EnvFieldKindsWellFormed | apps/api/src/config/env.schema.ts:5-39 | Every default is a value its own field accepts. |
| EnvSchema.EnvFieldsWellFormed | apps/api/src/config/env.schema.ts:3-40 | The schema has distinct names, and every default is accepted by its field. |
| EnvSchema.SafeParse | apps/api/src/config/env.schema.ts:3-40 | `envSchema.safeParse` succeeds if and only if each of the seventeen variables is accepted. A failure carries at least one issue, and at least one per missing required variable. |
| EnvSchema.EnvFieldReports | apps/api/src/config/env.schema.ts:3-40 | Each variable of the schema is named by one issue per message of its rejection, and by none when it is accepted. |
| EnvSchema.EnvFieldParsed | apps/api/src/config/env.schema.ts:3-40 | After a successful parse every variable was accepted, and the parsed data holds exactly what its check produced. |
| EnvSchema.RequiredParsed | apps/api/src/config/env.schema.ts:14-35 | After a successful parse a required variable is present and stored verbatim. A URL variable passed the URL check, and a `min(n)` variable has at least n UTF-16 code units. |
| EnvSchema.PositiveIntParsed | apps/api/src/config/env.schema.ts:8-39 | After a successful parse PORT, THROTTLE_TTL and THROTTLE_LIMIT hold positive safe integers: the default when the variable is absent, and otherwise, for decimal notation, what `parseInt` reads from the raw value. |
| EnvSchema.NodeEnvRules | apps/api/src/config/env.schema.ts:5-7 | An absent NODE_ENV is not reported and becomes "development". A present NODE_ENV gets no report when it is development, production or test, and exactly one report otherwise. |
| EnvSchema.StagingRejected | apps/api/src/config/env.schema.ts:5-7 | NODE_ENV="staging" fails the parse with one NODE_ENV issue. |
| EnvSchema.PositiveIntRules | apps/api/src/config/env.schema.ts:8-39 | For PORT, THROTTLE_TTL and THROTTLE_LIMIT: an absent variable is not reported and takes its default. A present one is named by exactly the issues of `CoercePositiveInt`, and none when it is accepted. On success the variable holds that integer. |
| EnvSchema.NumericDefaults | apps/api/src/config/env.schema.ts:8-39 | Absent PORT, THROTTLE_TTL and THROTTLE_LIMIT become 3000, 60000 and 100. |
| EnvSchema.ZeroRejected | apps/api/src/config/env.schema.ts:8 | "0" is rejected as not positive. |
| EnvSchema.NegativeRejected | apps/api/src/config/env.schema.ts:8 | A minus sign before a number in the safe range, such as "-1", is rejected with the single not-positive issue. |
| EnvSchema.AboveSafeRangeRejected | apps/api/src/config/env.schema.ts:8 | Digits for a number above 9007199254740991 are rejected with the single too-big issue of the safe-integer check. |
| EnvSchema.BelowSafeRangeTwoIssues | apps/api/src/config/env.schema.ts:8 | A minus sign before such digits gives two issues: too small for the safe range, then not positive. |
| EnvSchema.PortBelowSafeRange | apps/api/src/config/env.schema.ts:8 | Such a PORT is named by two issues, and the parse fails. |
| EnvSchema.FractionNotInteger | apps/api/src/config/env.schema.ts:8 | Digits with a fraction that starts with a non-zero digit, such as "3.5", are rejected as not an integer. |
| EnvSchema.LettersNotANumber | apps/api/src/config/env.schema.ts:8 | Text that does not start like a number and has no point, such as "abc", is rejected as NaN. |
| EnvSchema.JwtSecretRules | apps/api/src/config/env.schema.ts:26 | JWT_SECRET is reported once when absent or shorter than 32 UTF-16 code units, and not at all otherwise. |
| EnvSchema.AstralSecretAccepted | apps/api/src/config/env.schema.ts:26 | Sixteen characters beyond U+FFFF are 32 UTF-16 code units, so such a JWT_SECRET is accepted. |
| EnvSchema.ShortBmpSecretRejected | apps/api/src/config/env.schema.ts:26 | Thirty-one characters from the basic plane are too short. |
| EnvSchema.NonEmptyRules | apps/api/src/config/env.schema.ts:21-35 | Each `min(1)` variable (FIREBASE_PROJECT_ID, FIREBASE_PRIVATE_KEY, the three CLOUDINARY_* settings and GOONG_API_KEY) is reported exactly once when absent or empty, and not at all otherwise. |
| EnvSchema.UrlRules | apps/api/src/config/env.schema.ts:14-15 | DATABASE_URL and DATABASE_URL_DIRECT are reported if and only if they are absent or fail the URL check. |
| EnvSchema.EmailRules | apps/api/src/config/env.schema.ts:23 | FIREBASE_CLIENT_EMAIL is reported if and only if it is absent or fails the e-mail check. |
| EnvSchema.RedisOptional | apps/api/src/config/env.schema.ts:18 | REDIS_URL is never reported. When absent, it stays absent from the parsed configuration. |
| EnvSchema.DefaultedStringRules | apps/api/src/config/env.schema.ts:9-27 | A `z.string().default(d)` variable is never reported. On success it holds the raw value, or d when the variable is absent. |
| EnvSchema.StringDefaults | apps/api/src/config/env.schema.ts:9-11 | CORS_ORIGINS and JWT_EXPIRES_IN are never reported. When absent they become "http://localhost:3001,http://localhost:8081" and "15m". |
| EnvSchema.MissingVariablesAllReported | apps/api/src/config/env.schema.ts:3-40 | With n required variables missing, the parse fails with at least n issues, each missing variable reported as missing. |
| EnvSchema.SafeParseRendered | apps/api/src/config/env.schema.ts:3-40 | The schema's parse is idempotent on its own output. |
| AppConfig.FormatIssues | apps/api/src/config/app.config.ts:16-18 | There is one line per issue, in issue order, and line k is `"  - " + path joined by "." + ": " + message` of issue k. |
| AppConfig.FormatIssue | apps/api/src/config/app.config.ts:17 | An issue line starts with "  - " and ends with the issue's message. It is a single line when the path and message are. |
| AppConfig.FormatReport | apps/api/src/config/app.config.ts:18-22 | For a non-empty list of single-line issues, the message splits on newlines into the header, one formatted line per issue, an empty line and the footer. |
| AppConfig.ReportLines | apps/api/src/config/app.config.ts:18-22 | The framed report of non-empty, single-line issues splits back into the header, the issue lines, an empty line and the footer. |
| AppConfig.SplitFramed | apps/api/src/config/app.config.ts:18-21 | Single-line parts, framed and joined by newlines, split back into the header, the lines, an empty line and the footer. |
| AppConfig.SplitReportFrame | apps/api/src/config/app.config.ts:20-22 | Single-line issue lines between "Environment validation failed:" and "Check your .env file against .env.example" split back into place. |
| AppConfig.CheckFieldNewlineFree | apps/api/src/config/env.schema.ts:3-40 | Every message a field check fails with is a single line. |
| AppConfig.IssuesNewlineFree | apps/api/src/config/env.schema.ts:3-40 | Fields whose names and enumeration members are single lines report single-line issues. |
| AppConfig.EnvFieldsSingleLine | apps/api/src/config/env.schema.ts:3-40 | Every variable name and NODE_ENV member of the schema is a single line. |
| AppConfig.ValidateEnv | apps/api/src/config/app.config.ts:12-27 | `validateEnv` succeeds if and only if `safeParse` succeeds, and then returns the parsed data. On failure, the thrown message splits on newlines into the header, one formatted line per issue in issue order, an empty line and the footer. |
| AppConfig.DatabaseNamespace | apps/api/src/config/app.config.ts:38-41 | `url` and `directUrl` are the raw DATABASE_URL and DATABASE_URL_DIRECT, unchanged, and absent when undefined. |
| AppConfig.RedisNamespace | apps/api/src/config/app.config.ts:43-45 | `url` is the raw REDIS_URL, unchanged, and absent when undefined. |
| AppConfig.FirebaseNamespace | apps/api/src/config/app.config.ts:47-51 | The factory throws if and only if FIREBASE_PRIVATE_KEY is absent, with the `TypeError` of `.replace` on undefined. Otherwise the record holds the raw project id and client e-mail, and the raw key with every backslash-n pair replaced by a newline. |
| AppConfig.FirebaseKeyUnescaped | apps/api/src/config/app.config.ts:49 | The unescaped key is shorter by one per backslash-n pair and gains one newline per pair. It is unchanged when there is no pair, and re-escaping gives back a raw key that had no newline. |
| AppConfig.JwtNamespace | apps/api/src/config/app.config.ts:53-56 | `secret` is the raw JWT_SECRET, unchanged, and absent when undefined. `expiresIn` is the raw JWT_EXPIRES_IN when defined, and "15m" otherwise. |
| AppConfig.CloudinaryNamespace | apps/api/src/config/app.config.ts:58-62 | `cloudName`, `apiKey` and `apiSecret` are the three raw CLOUDINARY_* variables, unchanged, and absent when undefined. |
| AppConfig.GoongNamespace | apps/api/src/config/app.config.ts:64-66 | `apiKey` is the raw GOONG_API_KEY, unchanged, and absent when undefined. |
| AppConfig.ThrottleNamespace | apps/api/src/config/app.config.ts:68-71 | `ttl` and `limit` are the base-10 `parseInt` of the raw variables. When undefined they are 60000 and 100, which are what `parseInt("60000")` and `parseInt("100")` read. |
| AppConfig.ParseIntOfDefaults | apps/api/src/config/app.config.ts:69-70 | `parseInt` reads "60000" and "100" as the numbers they spell. |
| AppConfig.Factory.Load | apps/api/src/config/app.config.ts:38-71 | Of the seven factories, only `firebase` can throw, and only when its private key is absent. |
| AppConfig.ConfigNamespacesOrder | apps/api/src/config/app.config.ts:74-82 | `ConfigNamespaces` holds exactly seven namespaces, in the order database, redis, firebase, jwt, cloudinary, goong, throttle. |
| AppConfig.ValidatedNamespacesLoad | apps/api/src/config/app.config.ts:38-82 | Once `validateEnv` has succeeded, every registered factory loads without throwing. |
| AppConfig.ValidatedRequired | apps/api/src/config/env.schema.ts:14-35 | Once `validateEnv` has succeeded, a required variable is present and is the validated value, unchanged. A URL variable passed the URL check, and a `min(n)` variable has at least n UTF-16 code units. |
| AppConfig.ValidatedDefaulted | apps/api/src/config/env.schema.ts:9-27 | Once `validateEnv` has succeeded, a `z.string().default(d)` variable holds the raw value, or d when it is unset. |
| AppConfig.ValidatedPositiveInt | apps/api/src/config/env.schema.ts:8-39 | Once `validateEnv` has succeeded, PORT, THROTTLE_TTL and THROTTLE_LIMIT hold positive safe integers. An unset one holds its default. For decimal notation, a set one holds what `parseInt` reads from it. |
| AppConfig.ValidatedDatabase | apps/api/src/config/app.config.ts:38-41 | Once `validateEnv` has succeeded, `database` holds exactly the two raw URLs, copied unchanged. Both passed the URL check, and they are the validated values. |
| AppConfig.ValidatedJwt | apps/api/src/config/app.config.ts:53-56 | Once `validateEnv` has succeeded, JWT_SECRET is present, and the `jwt` secret is that raw value. It is also the validated value, and it has at least 32 UTF-16 code units. Also, `expiresIn` equals the validated JWT_EXPIRES_IN. Both the factory's fallback and the schema default are "15m". |
| AppConfig.ValidatedThrottle | apps/api/src/config/app.config.ts:68-71 | Once `validateEnv` has succeeded, `throttle` holds the validated positive numbers. For decimal notation, the raw reading through `parseInt` agrees with the schema's coercion. |
| AppConfig.ValidatedFirebase | apps/api/src/config/app.config.ts:47-51 | Once `validateEnv` has succeeded, FIREBASE_PRIVATE_KEY is present and is the validated value, unchanged. `firebase` loads, and its key is that value unescaped. |
| AppConfig.FirebaseKeyExample | apps/api/src/config/app.config.ts:49 | The raw key `a\nb\nc` (with literal backslashes) becomes three lines. |
| Strings.TrimStart | apps/api/src/main.ts:19 | The result is no longer than the input and does not start with whitespace. |
| Strings.TrimStartAt | apps/api/src/main.ts:19 | The kept characters are the rest of the string, in order. |
| Strings.TrimStartPadding | apps/api/src/main.ts:19 | The dropped characters are whitespace. |
| Strings.TrimEnd | apps/api/src/main.ts:19 | The result is no longer than the input, does not end with whitespace, and starts where the input starts. |
| Strings.TrimEndAt | apps/api/src/main.ts:19 | The kept characters are the start of the string, in order. |
| Strings.TrimEndPadding | apps/api/src/main.ts:19 | The dropped characters are whitespace. |
| Strings.TrimEndSplits | apps/api/src/main.ts:19 | A string is its `trimEnd` followed by a whitespace tail. |
| Strings.Trim | apps/api/src/main.ts:19 | Neither end of the result is whitespace, and it fits after the leading whitespace. |
| Strings.TrimAt | apps/api/src/main.ts:19 | The trimmed string is the part of the input that starts after its leading whitespace. |
| Strings.TrimPadding | apps/api/src/main.ts:19 | Everything before and after the trimmed string is whitespace. |
| Strings.TrimStartSkips | apps/api/src/main.ts:19 | `trimStart` of whitespace followed by a non-blank start gives that start. |
| Strings.TrimEndSkips | apps/api/src/main.ts:19 | `trimEnd` of a non-blank end followed by whitespace gives that end. |
| Strings.TrimUnique | apps/api/src/main.ts:19 | An edge-trimmed string framed by whitespace is the trim of the whole, so the contract of `trim` determines it. |
| Strings.TrimmedIsFixed | apps/api/src/main.ts:19 | Trimming leaves an already trimmed string alone. |
| Strings.Count | apps/api/src/main.ts:18 | The count is at most the length, and it is zero if and only if the character is absent. |
| Strings.Join | apps/api/src/config/app.config.ts:16-18 | The first piece starts the join, and no piece is longer than the join. `JoinSplit`, `SplitJoin` and `JoinAppend` pin it exactly. |
| Strings.Split | apps/api/src/main.ts:18 | There is one piece per separator plus one, so "" gives `[""]`. No piece holds the separator. |
| Strings.JoinSplit | apps/api/src/main.ts:18 | Joining the pieces of a split with the separator gives back the string. |
| Strings.SplitAfterPlainPrefix | apps/api/src/main.ts:18 | A separator-free prefix joins the first piece of the split. |
| Strings.SplitCons | apps/api/src/main.ts:18 | A leading character other than the separator joins the first piece. |
| Strings.SplitJoin | apps/api/src/main.ts:18 | Splitting a join of separator-free pieces gives back the pieces. |
| Strings.JoinAppend | apps/api/src/config/app.config.ts:16-18 | Joining two non-empty lists puts one separator between their joins. |
| Strings.JoinAvoids | apps/api/src/config/app.config.ts:16-18 | A character in neither the pieces nor the separator is not in the join. |
| Strings.UnescapeNewlines | apps/api/src/config/app.config.ts:49 | Each backslash-n pair shortens the string by one. A string without a pair is returned unchanged. |
| Strings.UnescapeAroundPair | apps/api/src/config/app.config.ts:49 | Unescaping a string built around one backslash-n pair unescapes each side and puts a newline between. This pins `.replace(/\\n/g, '\n')` on every string, including one that already holds real newlines. |
| Strings.EscapeNewlines | apps/api/src/config/app.config.ts:49 | This is the inverse encoding: it adds one character per newline, and the result holds no newline. |
| Strings.UnescapeCountsNewlines | apps/api/src/config/app.config.ts:49 | Unescaping adds exactly one newline per backslash-n pair. |
| Strings.EscapeUnescape | apps/api/src/config/app.config.ts:49 | A newline-free string survives unescaping and then escaping. |
| Strings.UnescapeEscape | apps/api/src/config/app.config.ts:49 | A string without backslash-n pairs survives escaping and then unescaping. |
| Strings.Utf16Length | apps/api/src/config/env.schema.ts:21-35 | The UTF-16 length lies between the number of characters and twice that, and it is 0 only for the empty string. |
| Strings.Utf16LengthOfBmp | apps/api/src/config/env.schema.ts:21-35 | A string of basic-plane characters has one code unit per character. |
| Strings.Utf16LengthOfAstral | apps/api/src/config/env.schema.ts:21-35 | A string of characters beyond U+FFFF has two code units per character. |
| JsNumbers.ShowNat | apps/api/src/config/env.schema.ts:8 | The decimal rendering is non-empty digits whose value is the number. |
| JsNumbers.ToNumber | apps/api/src/config/env.schema.ts:8 | `Number` reads a blank string as 0. A finite result has a fraction of digits. A non-blank string that reads as a finite number starts with a digit, a sign or a point. |
| JsNumbers.ParseInt | apps/api/src/config/app.config.ts:69-70 | `parseInt(s, 10)` reads a number if and only if, after leading whitespace, `s` starts with a digit, or with a sign and then a digit. |
| JsNumbers.LeadingDigits | apps/api/src/config/app.config.ts:69-70 | The result is the longest digit prefix: a prefix made of digits, followed by the end or by a non-digit. |
| JsNumbers.LeadingDigitsOf | apps/api/src/config/app.config.ts:69-70 | Digits followed by a non-digit give exactly those digits as the digit prefix. |
| JsNumbers.ParseIntStopsAtNonDigit | apps/api/src/config/app.config.ts:69-70 | `parseInt` reads the digit run and stops at the first non-digit, so "12abc" gives 12. |
| JsNumbers.ToNumberOfTrimmed | apps/api/src/config/env.schema.ts:8 | `Number` reads a non-empty trimmed string as a signed decimal. |
| JsNumbers.ToNumberShowNat | apps/api/src/config/env.schema.ts:8 | `Number` reads back the rendering of a natural number as that number. |
| JsNumbers.ToNumberNegatedShowNat | apps/api/src/config/env.schema.ts:8 | `Number` reads a minus sign before a rendered number as its negation. |
| JsNumbers.ToNumberDecimal | apps/api/src/config/env.schema.ts:8 | Digits, a point and more digits read back as a whole part and a fraction. |
| JsNumbers.ToNumberNotNumeral | apps/api/src/config/env.schema.ts:8 | Text that starts with neither a sign nor a digit, and has no point, is NaN. |
| JsNumbers.ParseIntTruncatesNumber | apps/api/src/config/app.config.ts:69-70 | For decimal notation: when `Number(s)` is finite with a non-zero integer part, `parseInt(s, 10)` is that number truncated toward zero. |
| Bootstrap.ConfigGet | apps/api/src/main.ts:17 | `configService.get(key, fallback)` gives the configured value when the key is present, and the fallback only when it is absent. |
| Bootstrap.TrimAll | apps/api/src/main.ts:19 | `.map(trim)` keeps the length and trims each piece in place. |
| Bootstrap.ParseOrigins | apps/api/src/main.ts:16-19 | There are (number of commas + 1) origins. Origin i is piece i of the comma split, trimmed. No origin starts or ends with whitespace or holds a comma. |
| Bootstrap.ParseJoinedOrigins | apps/api/src/main.ts:16-19 | Comma-free pieces joined by commas come back trimmed, one origin per piece and in order. |
| Bootstrap.TrimAllTrimmed | apps/api/src/main.ts:19 | Trimming every already trimmed origin changes nothing. |
| Bootstrap.ParseJoinedTrimmedOrigins | apps/api/src/main.ts:16-19 | Trimmed, comma-free origins survive a join and a parse. |
| Bootstrap.EmptyListIsOneEmptyOrigin | apps/api/src/main.ts:16-19 | "" gives one empty origin, not an empty list. |
| Bootstrap.TrimPadded | apps/api/src/main.ts:19 | Trimming removes one space of padding on each side. |
| Bootstrap.SpacedOrigins | apps/api/src/main.ts:16-19 | `" a , b "` gives `[a, b]` for trimmed, comma-free a and b (for example `" http://a.com , http://b.com "`). |
| Bootstrap.CorsOrigins | apps/api/src/main.ts:16-19 | An absent key gives the single origin "http://localhost:3001". A string value gives its parsed origins. The chain fails if and only if the stored value is a number. |
| Bootstrap.OriginsOf | apps/api/src/main.ts:18-19 | A string is split and trimmed. A number cannot be split and throws. |
| Bootstrap.FallbackIsOneOrigin | apps/api/src/main.ts:17 | The call-site fallback parses to itself as a single origin. |
| Bootstrap.TwoOrigins | apps/api/src/main.ts:16-19 | Two trimmed, comma-free origins joined by a comma split back into the two. |
| Bootstrap.DefaultOriginsParsed | apps/api/src/config/env.schema.ts:9-11 | The schema default parses to the two origins http://localhost:3001 and http://localhost:8081. |
| Bootstrap.ValidatedCorsOriginsSet | apps/api/src/main.ts:16-19 | Once `validateEnv` has succeeded, a set CORS_ORIGINS is split and trimmed as written. |
| Bootstrap.ValidatedCorsOriginsUnset | apps/api/src/main.ts:17 | Once `validateEnv` has succeeded, an unset CORS_ORIGINS yields the schema's two default origins. It never yields the call-site fallback. |
| Bootstrap.ListenPort | apps/api/src/main.ts:31 | The port is 3000 when PORT is absent from the configuration, and the stored value otherwise. |
| Bootstrap.ValidatedPort | apps/api/src/main.ts:31 | Once `validateEnv` has succeeded, the port is a positive number. It is 3000 when PORT is unset. Otherwise, for decimal notation, it is what `parseInt` reads from the variable. |
| PrismaConfig.DatasourceUrl | apps/api/prisma.config.ts:15 | The URL is the direct URL when defined, else the pooled URL when defined, else "". An empty result means the direct URL was undefined or empty. |
| PrismaConfig.EmptyDirectUrlKept | apps/api/prisma.config.ts:15 | A defined but empty direct URL is used as it is. It is not skipped in favour of the pooled URL. |
| PrismaConfig.ValidatedDatasource | apps/api/prisma.config.ts:15 | In an environment the server accepts, migrations use the direct URL. It passed the URL check, and it is the `directUrl` of the `database` namespace. |

## Left out

- The zod version is not visible in the source. The model follows zod 4: defaults apply only to undefined values, later checks are skipped after a failed type, number, integer or URL check, `.int()` is the safe-integer check, and messages are zod 4's English texts. The wording of the two safe-range messages ("Too big: expected int to be <=9007199254740991", "Too small: expected int to be >=-9007199254740991") is zod 4's and is not in the repository. Other zod versions word messages differently and report different numbers of issues per field.
- URL and e-mail syntax (`z.string().url()`, `z.string().email()`) belongs to the library. It is a `Formats` parameter, and no lemma depends on what it accepts.
- JsNumbers.ToNumber: `Number(s)` is limited to decimal notation: surrounding whitespace, "" as 0, an optional sign, digits and an optional fraction. Exponents, hexadecimal, binary and octal forms and `Infinity` are read as NaN.
- EnvSchema.CoercePositiveInt: `Number(s)` is exact, with no rounding to the nearest double. The safe-range check decides on the exact decimal value. JavaScript can round a long input first: "9007199254740991.0000000001" becomes the integer 9007199254740991 and is accepted, while the model reports it as not an integer. Inputs in plain decimal notation with at most 15 significant digits get the same verdict in both. Longer inputs can differ. Past about 309 digits, JavaScript overflows to Infinity or -Infinity, and zod rejects that with one invalid-type issue. The model reports the safe-range issue instead, plus the not-positive issue for a negative input.
- JsNumbers.ParseIntTruncatesNumber: the agreement between `parseInt(s, 10)` and `Number(s)` holds for decimal notation only. The model reads exponent and hexadecimal forms as NaN, while JavaScript does not: `Number("6e4")` is 60000 but `parseInt("6e4", 10)` is 6, `Number("3e3")` is 3000 but `parseInt` gives 3, and `Number("0x3e8")` is 1000 but `parseInt` gives 0.
- EnvSchema.PositiveIntParsed: the stored number equals the `parseInt` reading only for decimal notation. In JavaScript, PORT="6e4" passes the schema as 60000, while `parseInt` reads 6.
- AppConfig.ValidatedPositiveInt: the same holds for decimal notation only. THROTTLE_TTL="6e4" validates as 60000, while the raw `parseInt` reading is 6.
- AppConfig.ValidatedThrottle: `throttle` agrees with the validated numbers for decimal notation only. With THROTTLE_TTL="6e4", JavaScript validates 60000, but the factory's `parseInt` gives a `ttl` of 6.
- Bootstrap.ValidatedPort: the port agrees with the validated PORT for decimal notation only. With PORT="6e4", the schema's number is 60000, while `parseInt` reads 6.
- JsNumbers.ToNumberNotNumeral: "Infinity" and "-Infinity" are read as NaN. JavaScript reads them as infinities, which zod rejects with an invalid-type issue that has a different message.
- EnvSchema.LettersNotANumber: the NaN verdict does not cover "Infinity". JavaScript reads it as an infinity, and zod rejects it with a different message.
- `parseInt(s, 10)` is modelled as leading whitespace, an optional sign and the longest digit run, else NaN (`None`). Its floating-point precision is not modelled.
- Whitespace for `trim`, `trimStart` and `Number` is space, tab, line feed and carriage return. JavaScript also trims other Unicode spaces and line terminators.
- Strings are sequences of Unicode scalar values. A JavaScript string can also hold a lone surrogate, which a Dafny string cannot hold. `Strings.Utf16Length` counts the code units of well-formed text only.
- `expandVariables: true` (dotenv `${VAR}` expansion, apps/api/src/config/app.config.ts:33) is library behaviour. The model validates the environment as given.
- `isGlobal`, `registerAs`, the `ConfigModule`/`ConfigService` container and the module wiring are framework plumbing. `Bootstrap.ConfigGet` only reads the validated configuration and falls back when the key is absent.
- The success log line of `validateEnv` (apps/api/src/config/app.config.ts:25) and the bootstrap logs (apps/api/src/main.ts:34-36) are output only.
- `helmet()`, `enableCors`, `setGlobalPrefix`, `listen` and the asynchronous startup in `main.ts` change framework state; only the values they are given are modelled.
- `defineConfig`, the schema and migrations paths and the seed command (apps/api/prisma.config.ts:6-11) are declarative tool configuration.
- Error objects are modelled by their message text. The exact wording of the `TypeError`s for `.replace` on undefined and `.split` on a number is V8's, and only its presence matters to the model.
- Bootstrap.CorsOrigins: the call-site fallback "http://localhost:3001" differs from the schema's default of two origins. Validation always stores CORS_ORIGINS, so the fallback is unreachable after a successful validation (`Bootstrap.ValidatedCorsOriginsUnset`). The model keeps both as written.
