# Comma-list setting validators

This project models the comma-list parsing in the application settings of an
AI agent platform backend (`backend/core/config.py`). Three settings,
`ALLOWED_ORIGINS`, `CORS_ALLOW_METHODS` and `CORS_ALLOW_HEADERS`, are typed
`List[str]`, but a value may arrive as one comma-separated string, for
example as a keyword argument of the `Settings` constructor. Each has a
`pre=True` validator that runs before the type check. Given a string, it
splits it at every `,` and strips the surrounding whitespace from each piece,
keeping the order. Given anything else, such as a list, it returns the value
unchanged.

The project has two modules:

- `PyStr` (`pystr.dfy`) models the two Python string methods the validators
  call. `Split` is `str.split(sep)` with a one-character separator: empty
  pieces are kept, and there is always at least one piece. `Strip` is
  `str.strip()` with no argument. `Join` is `sep.join(pieces)`. The
  validators never call it; it is the inverse against which `Split` is
  specified. `IsSpace` is the whitespace set that `strip()` removes: the 29
  code points for which Python 3's `str.isspace()` holds (U+0009–U+000D,
  U+001C–U+0020, U+0085, U+00A0, U+1680, U+2000–U+200A, U+2028, U+2029,
  U+202F, U+205F, U+3000).
- `Config` (`config.dfy`) models the raw setting value as `PyObject`
  (None, bool, int, str or list). `ParseCommaList` is the split-and-strip
  expression. `ParseCorsOrigins`, `ParseCorsMethods` and `ParseCorsHeaders`
  are the three validators, each written out as in the source. The module
  also holds the default values of the three settings.

Each operation is specified independently of its body. `Split` is
specified by `Join` and by the fact that no piece holds the separator;
`SplitUnique` shows that these properties determine the result. `Strip` is
specified as the whitespace-free-at-both-ends infix that is surrounded only
by whitespace (`IsPaddedBy`); `StripUnique` shows that this determines the
result. The validators are specified by `ValidatesCommaList`, and
`ValidatesCommaListUnique` shows that this determines the result too.

## Model

| member | source | states |
|---|---|---|
| PyStr.Split | backend/core/config.py:193 | `s.split(",")` has one more piece than `s` has commas, no piece contains the separator, and joining the pieces with the separator gives back `s` exactly |
| PyStr.SplitUnique | backend/core/config.py:193 | any non-empty list of separator-free pieces that joins to `s` is `s.split(sep)`, so the split is unique |
| PyStr.SplitNoSeparator | backend/core/config.py:193 | a string without the separator splits into the one-element list of itself |
| PyStr.SplitAround | backend/core/config.py:193 | splitting `a + sep + b` gives the pieces of `a` followed by the pieces of `b` |
| PyStr.Strip | backend/core/config.py:193 | `strip()` returns a string with no whitespace at either end, and it is an infix of the input with only whitespace before and after it |
| PyStr.StripUnique | backend/core/config.py:193 | any whitespace-free-at-both-ends infix surrounded only by whitespace is exactly what `strip()` returns |
| PyStr.StripFixedPoint | backend/core/config.py:193 | `strip()` leaves a string unchanged if and only if it has no whitespace at either end |
| PyStr.StripIdempotent | backend/core/config.py:193 | stripping twice is the same as stripping once |
| PyStr.StripAddsNothing | backend/core/config.py:193 | a character absent from the input is absent from its stripped form |
| Config.ParseCommaList | backend/core/config.py:192-193 | for a string input the list has Count(s, ',') + 1 entries; no entry contains a comma; entry i has no whitespace at either end and is the i-th comma-separated segment with its surrounding whitespace cut off |
| Config.ParseCommaListUnique | backend/core/config.py:193 | any list meeting that description is the parser's result |
| Config.ParseAround | backend/core/config.py:193 | order is kept: parsing `a + "," + b` gives the entries of `a` followed by those of `b` |
| Config.ParseKeepsEmpty | backend/core/config.py:193 | empty segments are not filtered out: `""` gives `[""]`, and a trailing comma adds a trailing `""` |
| Config.ParseSingle | backend/core/config.py:193 | a string without a comma gives one entry, the stripped string |
| Config.ParseStrippedSegments | backend/core/config.py:193 | when no segment has surrounding whitespace, the result is exactly the split |
| Config.JoinRoundTrip | backend/core/config.py:193 | joining the result with `,` reproduces the input if and only if no segment of the input has surrounding whitespace |
| Config.ParseJoin | backend/core/config.py:193 | a non-empty list of trimmed, comma-free entries joined with `,` parses back to the same list |
| Config.ParseJoinIdempotent | backend/core/config.py:193 | parsing, joining with `,` and parsing again gives the first result |
| Config.ParseCorsOrigins | backend/core/config.py:190-194 | a string becomes the list of its trimmed comma segments (count, order and trimming as for ParseCommaList); any non-string value is returned unchanged; the result is never a string |
| Config.ParseCorsMethods | backend/core/config.py:196-200 | the same contract as ParseCorsOrigins, for `CORS_ALLOW_METHODS` |
| Config.ParseCorsHeaders | backend/core/config.py:202-206 | the same contract as ParseCorsOrigins, for `CORS_ALLOW_HEADERS` |
| Config.ValidatesCommaListUnique | backend/core/config.py:190-206 | only one result meets the validator contract for a given input |
| Config.ValidatorsAgree | backend/core/config.py:190-206 | the origins, methods and headers validators compute the same function |
| Config.ValidatorIdempotent | backend/core/config.py:190-206 | applying a validator to its own output changes nothing |
| Config.DefaultsPassThrough | backend/core/config.py:22-25 | the validator functions return the default lists of the three settings (lines 22-25 and 152-153) unchanged |
| Config.DefaultOriginsFromString | backend/core/config.py:22-25 | the default origins, given as one comma-separated string, are parsed into the default origins list |

## Left out

- Everything in `backend/main.py`. It is web-framework wiring: async startup and shutdown of services, middleware, a websocket loop, and endpoints that call services and token checks whose code is not part of this model.
- Reading settings from the process environment and from `.env` (config.py:208-211), and the failure when `DATABASE_URL`, `SECRET_KEY` or `OPENAI_API_KEY` is missing. Both are library behaviour that depends on the environment.
- How the settings library prepares a value before the validators see it. For a `List[str]` field it decodes an environment or `.env` value as JSON first, so a plain `a,b` there fails before any validator runs; only a value that is already a string (a constructor argument, or a JSON string) reaches a validator as `Str`. It also does not run these validators on a field's default, since none is declared to run always (config.py:190, 196, 202). The model starts from the value a validator receives.
- Pydantic's `List[str]` type check after a validator runs. A non-string value, such as an int, passes through a validator unchanged, as modelled, and pydantic may then reject it; that rejection is not modelled.
- The other settings fields and their defaults. They have no logic, and the float fields (config.py:130-134) are plain values.
- `get_settings`, its `lru_cache` memoisation, and the module-level exports (config.py:214-228). These are process-global caching and import-time effects.
- PyStr.IsSpace: the whitespace set is fixed to the 29 code points for which `str.isspace()` holds in current Python 3. A Unicode database in which that set differs is not modelled.
- Python strings that hold lone surrogate code points cannot be written as Dafny strings. `strip()` keeps such code points, since they are not whitespace.
- A playback play/pause gate (block reasons and a `canPlay` flag). It is not in `backend/core/config.py` or `backend/main.py`, so it is not modelled.
