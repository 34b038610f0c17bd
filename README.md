# create-ace-live-server, modelled in Dafny

`create-ace-live-server` is a command-line scaffolder. It checks the Node.js
version, asks for a project name until it gets a usable one, and writes a new
project directory. That directory holds copies of bundled files and four
rendered files: `package.json`, `.env` (a random secret), `.gitignore`, and
`wrangler.jsonc` (the project name and a compatibility date three days before
today).

This project models the decision logic of `cli.ts` and proves what each
piece promises. The modules are:

- `JsText`: the JavaScript string primitives the program relies on.
  - `trim` (JavaScript's whitespace set).
  - `String(n)` for integers and `padStart`.
  - Splitting a text into lines.
- `ProjectName`: the three naming rules, applied in order to the trimmed
  answer. It has an existence oracle in place of `access`.
- `Cli`: the class `Build` with its `template` and `projectName` fields.
  - `SetProjectName` runs the prompt loop over a finite list of answers.
- `NodeVersion`: `parseInt(version.split('.')[0], 10) < 22`, including
  JavaScript's NaN outcome.
- `CompatDate`: the compatibility date.
  - The calendar is the proleptic Gregorian calendar, written out with leap
    years and month lengths.
  - It includes the `Date.UTC` reading of years 0 to 99 as 1900 to 1999.
  - Three days are subtracted, then the date is formatted `year-MM-DD`.
  - A day number shows the result is exactly three days earlier, and a parser
    reads the text back.
- `Base64`: the encoding of section 4 of RFC 4648, which Node.js uses for
  `toString('base64')`, with a decoder that undoes it.
- `Templates`: the four renderers, small readers, and `writeFiles` as data.
  - The readers are a JSON member lookup, a reader for `"key": "value"`
    lines, and a reader for `KEY=value` lines. They show where each input
    lands.
  - `writeFiles` becomes a plan: the directories to create, then the writes
    started together.

## Model

| member | source | states |
|---|---|---|
| `ProjectName.Validate` | cli.ts:120-131 | Accepted exactly when the trimmed answer is non-empty, has no reserved character and does not exist, and the name is the trimmed answer. Each rejection reason holds exactly when the rules before it pass and its own rule fails. |
| `ProjectName.OracleNotConsultedBeforeExistenceRule` | cli.ts:125-127 | For a blank answer, or one with a reserved character, the verdict is the same under any two existence oracles, and it is not "already exists". |
| `ProjectName.BlankAnswerIsEmptyName` | cli.ts:120-125 | An answer made only of whitespace is rejected as empty. |
| `ProjectName.ReservedCharAnywhereRejects` | cli.ts:126 | Any of the ten reserved characters (slash, backslash, `?`, `%`, `*`, `:`, vertical bar, `"`, `<`, `>`), anywhere in the answer, gets it rejected for invalid characters. |
| `ProjectName.AcceptedNameIsStable` | cli.ts:120-131 | An accepted name is non-empty, neither starts nor ends with whitespace, has no reserved character and does not exist. Validated again against the same oracle, it is accepted unchanged. |
| `ProjectName.AcceptedNameNeedsNoJsonEscape` | cli.ts:126 | An accepted name holds no `"` and no `\`. |
| `ProjectName.AcceptedNameIsOneLine` | cli.ts:120 | A name taken from a one-line answer holds no line break. |
| `Cli.Build.constructor` | cli.ts:33-35 | Both fields start empty. |
| `Cli.Build.SetProjectName` | cli.ts:114-135 | Every answer before the stopping point was rejected, in order, with the reason `Validate` gives. The first accepted answer's trimmed text becomes `projectName` and is returned. With no accepted answer, `projectName` is unchanged and every answer has a rejection. |
| `JsText.Trim` | cli.ts:120 | `trim()` returns text no longer than the answer that neither starts nor ends with whitespace; `TrimIsInnerSlice` and `TrimEmptyIffBlank` say what is dropped. |
| `JsText.TrimIsInnerSlice` | cli.ts:120 | `trim()` returns a contiguous slice of its input, and only whitespace lies outside it. |
| `JsText.TrimEmptyIffBlank` | cli.ts:120 | The trimmed answer is empty exactly when every character is whitespace. |
| `JsText.TrimKeepsNonWhitespace` | cli.ts:120 | A non-whitespace character of the answer survives trimming. |
| `JsText.TrimOfTrimmed` | cli.ts:120 | Trimming twice is trimming once. |
| `JsText.NatToDecimal` | cli.ts:230-231 | `String(n)` is all digits, has no leading zero, and reads back as `n`. |
| `JsText.DecimalLength` | cli.ts:230-231 | `String(n)` has at most `k` digits exactly when `n` is less than 10 to the `k`. |
| `JsText.IntDecimalRoundTrip` | cli.ts:229-233 | The decimal form of any integer year, minus sign included, reads back as that year. |
| `JsText.PadStart` | cli.ts:230-231 | `padStart` keeps the text as the tail and fills the front up to the width. |
| `JsText.LinesOfUnlines` | cli.ts:162-169 | A text written as lines, each ending in a newline, splits back into those lines. |
| `JsText.PrefixBefore` | cli.ts:105 | `split('.')[0]` is the prefix before the first `.`, or the whole version when it has no dot. |
| `NodeVersion.DigitPrefix` | cli.ts:105 | The longest run of digits at the start, as `parseInt` reads it. |
| `NodeVersion.ParseIntRadix10` | cli.ts:105 | `parseInt(s, 10)`: whitespace, an optional sign, then the digit prefix, or NaN without digits; `ParseOfDecimal` states its values. |
| `NodeVersion.ParseOfDecimal` | cli.ts:105 | A run of digits reads as the number it spells, and after `-` as that number negated. |
| `NodeVersion.MajorVersion` | cli.ts:105 | The first dotted segment read by `parseInt`; `DottedVersionGate` and `NonNumericVersionPasses` state its value. |
| `NodeVersion.NodeVersionTooOld` | cli.ts:104-111 | The run stops exactly when the major version is a number below 22; NaN passes. `DottedVersionGate` states the iff. |
| `NodeVersion.FirstSegmentOfDotted` | cli.ts:105 | `split('.')[0]` of `<digits>.<rest>` is the digits. |
| `NodeVersion.DottedVersionGate` | cli.ts:104-111 | For a version `<digits>.<rest>`, the major version is the value of the digits, and the gate refuses it exactly when that value is below 22. |
| `NodeVersion.NonNumericVersionPasses` | cli.ts:105-107 | A version whose first segment, after whitespace and one sign, does not start with a digit parses to NaN, and the gate lets it through. |
| `NodeVersion.LetterPrefixedVersionPasses` | cli.ts:105-107 | A version that starts with a letter, such as `v22.1.0`, parses to NaN and passes whatever number follows. |
| `NodeVersion.Node20IsRefused` | cli.ts:107-110 | Version 20.11.1 is refused. |
| `NodeVersion.Node100Passes` | cli.ts:105-107 | Version 100.0.0 passes: majors compare as numbers, not text. |
| `CompatDate.UtcMidnight` | cli.ts:226 | `Date.UTC` keeps every year outside 0 to 99. A date in years 0 to 99 keeps its month and day and moves to 1900 to 1999, except 0000-02-29, which becomes 1900-03-01. |
| `CompatDate.PreviousDay` | cli.ts:227 | Returns a valid date whose day number is one less, across month and year ends. |
| `CompatDate.DaysBefore` | cli.ts:227 | Returns a valid date whose day number is `n` less. |
| `CompatDate.DayNumberInjective` | cli.ts:227 | Two valid dates with the same day number are equal. |
| `CompatDate.CompatibilityDay` | cli.ts:224-227 | The compatibility day is a valid date whose day number is three less than that of the `Date.UTC` reading of the clock (`UtcMidnight`), and so three less than the clock's own for a year outside 0 to 99. |
| `CompatDate.CompatibilityDayIsThreeDaysEarlier` | cli.ts:224-227 | The compatibility day is a valid date exactly three days before the clock's date, and the only valid date with that day number. |
| `CompatDate.TwoDigits` | cli.ts:230-231 | The month or day is written as two digits that read back as the number, with a `0` in front when it is below 10. |
| `CompatDate.FormatDateLayout` | cli.ts:229-233 | The text is the year's decimal form, `-`, the two month digits, `-`, and the two day digits. |
| `CompatDate.FourDigitYearIsTenCharacters` | cli.ts:229-233 | A four-digit year gives a ten-character date. |
| `CompatDate.FormatDate` | cli.ts:229-233 | Parsing the formatted text gives back the date. |
| `CompatDate.FormattedDateCharacters` | cli.ts:229-233 | The formatted text holds only digits and `-`. |
| `CompatDate.CompatibilityDate` | cli.ts:224-234 | The compatibility date parses back as the compatibility day and holds no `"` and no line break. |
| `CompatDate.TwoDigitYearExample` | cli.ts:224-227 | Clock date 0050-06-10 gives 1950-06-07: `Date.UTC` reads the year as 1950 first. |
| `CompatDate.NewYearExample` | cli.ts:219-227 | 2025-01-01 gives 2024-12-29. |
| `CompatDate.MonthStartExample` | cli.ts:219-227 | 2025-02-01 gives 2025-01-29. |
| `CompatDate.LeapYearExample` | cli.ts:219-227 | 2024-03-01 gives 2024-02-27. |
| `CompatDate.CenturyYearExample` | cli.ts:219-227 | 2100-03-01 gives 2100-02-26, because 2100 is not a leap year. |
| `Base64.Letter` | cli.ts:96 | An alphabet character is never `=`, a newline or `"`. |
| `Base64.Encode` | cli.ts:96 | The encoding of `n` bytes has `4 * ((n + 2) / 3)` characters, no newline and no `"`. |
| `Base64.DecodeEncode` | cli.ts:96 | Decoding the encoding of any bytes gives them back. |
| `Base64.Decode` | cli.ts:96 | The inverse of the encoding, used to read the secret back; `DecodeEncode` states the round trip. |
| `Base64.PaddingOfSingle` | cli.ts:96 | A final group of one byte ends the encoding in `==`. |
| `Base64.PaddingOfPair` | cli.ts:96 | A final group of two bytes ends the encoding in a single `=`. |
| `Base64.NoPaddingOfWholeGroups` | cli.ts:96 | A whole number of three-byte groups encodes with no `=`. |
| `Base64.SecretLength` | cli.ts:96 | 64 bytes encode to 88 characters, the last two `=`. |
| `Base64.Rfc4648ShortVectors` | cli.ts:96 | The encoding gives the RFC 4648 section 10 results for "", "f", "fo" and "foo". |
| `Base64.Rfc4648FourByteVector` | cli.ts:96 | It gives `Zm9vYg==` for "foob". |
| `Base64.Rfc4648FiveByteVector` | cli.ts:96 | It gives `Zm9vYmE=` for "fooba". |
| `Base64.Rfc4648SixByteVector` | cli.ts:96 | It gives `Zm9vYmFy` for "foobar". |
| `Templates.Member` | cli.ts:38-60 | A lookup finds a member exactly when some member has that key. |
| `Templates.PackageDotJson` | cli.ts:38-61 | The manifest as ordered members; `ManifestEmbedsOnlyName` says where the name lands. |
| `Templates.ManifestEmbedsOnlyName` | cli.ts:38-60 | The manifest's `name` is the project name. Every other member is the same for any two project names. |
| `Templates.MemberLineReadsBack` | cli.ts:174-177 | A `"key": "value"` line with quote-free key and value reads back as that key and value. |
| `Templates.WranglerJsonc` | cli.ts:172-202 | The configuration text; `WranglerEmbedsNameAndDate` and `WranglerEmbedsOnlyNameAndDate` state what it holds. |
| `Templates.WranglerEmbedsNameAndDate` | cli.ts:172-202 | In `wrangler.jsonc`, `name` reads as the project name, `compatibility_date` as the date, and `main` as `src/index.ts`. |
| `Templates.WranglerEmbedsOnlyNameAndDate` | cli.ts:172-202 | The configuration has 28 lines. Line 3 names the project and line 5 carries the date. Every other line is the same for all inputs. |
| `Templates.DotEnv` | cli.ts:95-100 | The `.env` text; `DotEnvHoldsSecret` states its lines and that the secret reads back. |
| `Templates.DotEnvHoldsSecret` | cli.ts:95-100 | `.env` is exactly three lines: `LIVE_SECRET=` with the 88-character base 64 of the secret, a blank line, and the hint. The `LIVE_SECRET` value decodes back to the secret. |
| `Templates.GitIgnore` | cli.ts:162-169 | The `.gitignore` text; `GitIgnoreListsSecretFile` states its lines. |
| `Templates.GitIgnoreListsSecretFile` | cli.ts:162-169 | `.gitignore` lists its five entries, one per line, `.env` among them. |
| `Templates.Plan` | cli.ts:64-92 | `writeFiles` as data; `PlanTargets` states its directories, the target and source of each write, and that the rendered files carry the renderers' texts, the configuration with the compatibility date of the clock; `PlanWritesAreDisjoint` states that the writes do not overlap. |
| `Templates.PlanTargets` | cli.ts:64-92 | The plan creates the project directory, then its `src`. It then starts eight writes, each targeting `<name>/<file>` for its file in program order, and each copy reads the bundled file of that name. `.env`, `package.json`, `.gitignore` and `wrangler.jsonc` carry the renderers' output, the configuration with the compatibility date of the clock reading. |
| `Templates.PlanWritesAreDisjoint` | cli.ts:64-92 | Every concurrent write lands directly in the project directory. No target equals, or contains, another. Each copy's source is the bundled file of its target's name. |
| `Templates.AcceptedNameIsWritten` | cli.ts:126-129 | For any accepted answer, `package.json` and `wrangler.jsonc` both read back the accepted name. |
| `Templates.CompatibilityDateIsWritten` | cli.ts:177 | For any valid clock date, `wrangler.jsonc`'s `compatibility_date` reads back as the computed date. That text parses as the compatibility day: three days before the `Date.UTC` reading of the clock, which is the clock's own date outside years 0 to 99. |

## Left out

- Terminal I/O is not modelled: `readline`, `console.clear`, the coloured
  messages and the success banner. Each rejection reason stands for the
  message printed.
- The filesystem is an oracle, not a model.
  - `pathExists` becomes a function argument, fixed for one run of the loop.
  - `mkdir`, `cp` and `writeFile` are recorded as a plan (data, not effects), so
    their failures and partial writes are not modelled.
  - The `Promise.all` fan-out is not modelled.
- `join` is not modelled as path normalisation. A target is the list of its
  path segments.
- `main`, `onCatch` and `process.exit` (process control) are not modelled.
  The version gate is a predicate: true means the run stops with status 1.
- `randomBytes(64)` is a parameter: the 64 bytes are an input.
- The clock is a parameter: the compatibility date takes the clock's UTC
  year, month and day.
- `JSON.stringify(..., null, 2)` whitespace is not modelled. The manifest is
  a record of ordered members. An accepted name holds no `"` or `\`, so no
  escaping of those arises. `JSON.stringify` also escapes control characters
  U+0000 to U+001F, and an accepted name may hold one (a tab, say); that
  escaping in `package.json` is not modelled. `wrangler.jsonc` interpolates
  the name without escaping, and so does the model.
- `src/index.ts` and `ace.config.js` are bundled files that are only copied.
  The model knows them by name alone.
- `Cli.Build.SetProjectName`: the program loops until it gets a name. Here
  the answers are a finite list, and the method may end with no name.
- `Cli.Build.SetProjectName`: the model does not close readline; the program
  does, after the loop (cli.ts:134), with no `finally`, so an exception
  escaping the loop leaves it open. The `template` field is never assigned,
  as in the program.
- `pathExists` is `access(path, F_OK)` (cli.ts:209-216), which is true for
  any existing path, not only a folder. The existence oracle stands for that
  call.
- `CompatDate.CompatibilityDayIsThreeDaysEarlier` is stated only for clock
  years outside 0 to 99.
  - For those 100 years `Date.UTC` moves the date to 1900 to 1999 first;
    `UtcMidnight` says how, and `CompatDate.CompatibilityDay` states that
    the result is three days before that reading.
  - JavaScript's limit of 100 million days either side of 1970 is not
    modelled.
- `NodeVersion.ParseIntRadix10` reads integers exactly. A JavaScript number
  would round a major version above 2^53.
- `Templates.WranglerEmbedsNameAndDate` requires a name and a date with no
  `"` or line break. `AcceptedNameIsWritten` and `CompatibilityDateIsWritten`
  show that an accepted name and a computed date always qualify.
- `ProjectName.AcceptedNameIsOneLine` requires an answer with no line break,
  as a line read by `readline` has none.
