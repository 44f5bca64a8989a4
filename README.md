# py-raceresult core, in Dafny

This project is a model of the decision logic in py-raceresult, a client library for
the Raceresult event-timing web API. The library's models read raw JSON values from
the vendor, and its HTTP client builds the requests it sends. The model covers:

- **Scalar codecs** (`Types`). These are the before-validators and serializers behind every
  date, datetime and fixed-point field:
  - they read ISO and European date texts;
  - they map the vendor's two "zero dates" (the VB epoch 1899-12-30 and Go's 0001-01-01) to "no date";
  - they accept RFC 3339, spaced, date-only and European datetime texts;
  - they write datetimes back in the shortest fitting form;
  - they read decimals, accepting a comma as the decimal point.
- **Rights check** (`Public`). This is `UserRight.has_right` over a map from module to
  permissions, with a `*` wildcard.
- **Display properties** (`ParticipantModel`). These are a participant's full name and one-line address.
- **Voucher validity** (`Payment`) and **registration activity** (`Registration`). Each is a
  validity window with inclusive, optional bounds. A voucher also has a use limit.
- **Null-to-list conversion** (`Registration`). A model validator edits the incoming dict
  in place. It replaces JSON nulls with empty lists for fields whose annotation mentions a list.
- **Chip file** (`Timing`). The body is CRLF-separated `transponder;identification` lines.
  The model has its reader and its writer.
- **HTTP client** (`Client`). This covers:
  - the base URL;
  - URL and query construction;
  - parameter serialization, where a lone bool is written as `true`/`false`;
  - the login form;
  - the session id, which is "0" when logged out.

Helper modules:

- `Wrappers`: the `Option` type.
- `Text`: the parts of Python's `str` that the source relies on: `split`, `join`, `replace`,
  `int()` on digit strings, `str()` of an integer, zero-padded numerals, ASCII `lower` and
  substring search.
- `Calendar`: Python's `date` and `datetime` values. Offsets are stored in minutes. A `None`
  offset marks a naive value. Comparison follows Python: comparing a naive value with an aware
  one raises `TypeError`, which the model represents as `None`.

Inputs that the source reads from the outside world are parameters of the model:

- the clock (`now`);
- the result of an HTTP request (`Reply`);
- `urlencode` (a function parameter).

The docstring of `RRDate` (src/raceresult/models/types.py:69-76) says the VB zero date 1899-12-30
is read as `None`. The European date branch (`DD.MM.YYYY`) has no zero-date check, though, so
"30.12.1899" decodes to 1899-12-30. The model follows the code, and `Types.EuropeanDateDecodes`
proves this for every date.

## Model

| member | source | states |
|---|---|---|
| Calendar.PyLess | src/raceresult/models/payment.py:106-109 | Python's `<` on datetimes. It raises (`None`) exactly when one side is naive and the other aware. Otherwise it compares the instants. |
| Types.DecodeDate | src/raceresult/models/types.py:26-53 | `None` and `""` give no date. A native date is kept unless it is a zero date, which gives no date. Bool, int, decimal and other values give no date. A text without a dot never decodes to a zero date. |
| Types.ParseIsoDate | src/raceresult/models/types.py:39 | `date.fromisoformat` succeeds only on a 10-character `YYYY-MM-DD`, and only on the ISO text of the date it returns. |
| Types.DecodeDateText | src/raceresult/models/types.py:34-53 | A text decodes either through `fromisoformat` or, when it holds a dot, through the European reader. A zero date can come only from the European reader. |
| Types.EuropeanDate | src/raceresult/models/types.py:50 | The first part is the day, the second the month and the third the year, each read by `int()`. |
| Types.ParseEuropeanDate | src/raceresult/models/types.py:46-52 | A text is read only when it splits on "." into exactly three parts, read as day, month and year. |
| Types.IsoDateParses | src/raceresult/models/types.py:56-60 | Every date read back from its `isoformat()` text is the same date. |
| Types.EncodeDate | src/raceresult/models/types.py:56-60 | The result is `""` exactly for no date. Otherwise it is an ISO text that parses back to the date. |
| Types.DateRoundTrip | src/raceresult/models/types.py:38-42 | Decoding the encoding of any non-zero date gives the date back. |
| Types.ZeroDateRoundTrip | src/raceresult/models/types.py:40-41 | A zero date encodes to a non-empty text, and that text decodes to no date. |
| Types.EuropeanDateDecodes | src/raceresult/models/types.py:45-52 | Every date written as `DD.MM.YYYY` decodes to itself. This includes the zero dates, because this branch has no sentinel check. |
| Types.ParseClock | src/raceresult/models/types.py:91-99 | An `HH:MM:SS` text is read only when it is exactly the zero-padded clock text of the numbers read. |
| Types.ClockParses | src/raceresult/models/types.py:153 | `HH:MM:SS` reads back as the same hour, minute and second. |
| Types.ParseOffset | src/raceresult/models/types.py:91 | An offset is read only from a six-character `±HH:MM` text. It is under a day, its sign is the text's sign, and its size is the hours times 60 plus the minutes. |
| Types.UncheckedOffsetMinutes | src/raceresult/models/types.py:91 | The minutes field is not range-checked on its own: "+05:75" reads as +06:15. |
| Types.OffsetParses | src/raceresult/models/types.py:149 | The `±HH:MM` suffix of `isoformat()` reads back as the same offset. The reader checks only that the offset is under a day, not the minutes field. |
| Types.DecodeDateTime | src/raceresult/models/types.py:79-130 | `None` and `""` give no datetime. A native datetime passes through unchanged, with no zero-date check. Every other non-text value gives no datetime. |
| Types.DecodeDateTimeText | src/raceresult/models/types.py:85-129 | A text without a `T` can only decode to a UTC datetime: every branch other than the RFC 3339 one attaches UTC. |
| Types.ParseIsoDateTime | src/raceresult/models/types.py:89-93 | A T-form text is read only when it is 19 or 25 characters long and starts with the ISO text of the date read. The result is naive exactly when the text has no offset suffix. |
| Types.ParseSpacedDateTime | src/raceresult/models/types.py:95-101 | A spaced text is read only when it is 19 characters long with a space at position 10. It starts with the ISO text of the date read, and the result is in UTC. |
| Types.ParseEuropeanDateTime | src/raceresult/models/types.py:110-127 | The result is in UTC, on the date read from the text before the first space. A text without a space gives midnight. |
| Types.EuropeanTime | src/raceresult/models/types.py:112-124 | The time after a European date keeps that date and is in UTC. A time without a colon has minutes and seconds 0. |
| Types.ZuluDecodes | src/raceresult/models/types.py:89-91 | A T-form text ending in `Z`, such as "2024-06-15T10:30:00Z", decodes to the UTC datetime it denotes. |
| Types.ZuluReplaced | src/raceresult/models/types.py:91 | Replacing the only `Z`, at the end, by "+00:00" gives the text with the UTC offset suffix. |
| Types.RfcBranch | src/raceresult/models/types.py:89-93 | A text with a `T` that `fromisoformat` reads once `Z` is replaced decodes to what it reads. |
| Types.SpacedDecodes | src/raceresult/models/types.py:95-101 | `YYYY-MM-DD HH:MM:SS` decodes to that wall-clock time in UTC. |
| Types.SpacedParses | src/raceresult/models/types.py:97-99 | `strptime` reads the fixed-width spaced text as that wall-clock time, made UTC. |
| Types.SpacedBranch | src/raceresult/models/types.py:88-101 | A text without `T` that the spaced reader reads reaches the spaced branch and decodes to what it reads. |
| Types.AssembleReads | src/raceresult/models/types.py:91-99 | A date text and a clock text written from a datetime are read back as that datetime, with the offset given. |
| Types.MidnightDecodes | src/raceresult/models/types.py:102-108 | A `YYYY-MM-DD` text alone decodes to midnight UTC of that date. |
| Types.EuropeanDateTimeDecodes | src/raceresult/models/types.py:110-124 | `DD.MM.YYYY HH:MM:SS` decodes to that time in UTC. |
| Types.EuropeanHourMinuteDecodes | src/raceresult/models/types.py:110-124 | `DD.MM.YYYY HH:MM` decodes to that time in UTC with the seconds 0. |
| Types.EuropeanHourDecodes | src/raceresult/models/types.py:110-124 | `DD.MM.YYYY HH` decodes to that hour in UTC with the minutes and seconds 0. |
| Types.EuropeanMidnightDecodes | src/raceresult/models/types.py:110-125 | `DD.MM.YYYY` alone decodes to midnight UTC of that date. |
| Types.EuropeanBranchDecodes | src/raceresult/models/types.py:88-110 | A European date followed by a space and a time with no space and no `T` passes every earlier branch and reaches the European one. |
| Types.EuropeanTimeSplit | src/raceresult/models/types.py:111-114 | Splitting on the space gives the date part and the time part, and the date part reads as the date. |
| Types.EuropeanClockReads | src/raceresult/models/types.py:114-124 | `HH:MM:SS` after a European date reads as that time in UTC. |
| Types.EuropeanHourMinuteReads | src/raceresult/models/types.py:114-124 | `HH:MM` after a European date reads as that time with the seconds 0. |
| Types.EuropeanHourReads | src/raceresult/models/types.py:114-124 | `HH` after a European date reads as that hour with the minutes and seconds 0. |
| Types.EuropeanTextParses | src/raceresult/models/types.py:45-52 | `DD.MM.YYYY` written from a date reads back as that date. |
| Types.IsoTextOf | src/raceresult/models/types.py:39 | A `YYYY-MM-DD` text is the ISO text of the date its digits denote, when that date exists. |
| Types.EncodeDateTime | src/raceresult/models/types.py:133-153 | The result is `""` exactly for no datetime or 1899-12-30 00:00:00. An aware value gives the 25-character T form, which `fromisoformat` reads back as the value. A naive value at midnight gives the `YYYY-MM-DD` text of its date. Any other naive value gives the 19-character `YYYY-MM-DD HH:MM:SS` text, which `strptime` reads back as that wall-clock time. |
| Types.NaiveDateTimeRoundTrip | src/raceresult/models/types.py:94-153 | A naive datetime other than the zero datetime decodes from its own encoding to the same wall-clock time marked UTC. This holds for both the spaced form and the date-only form. |
| Types.AwareDateTimeRoundTrip | src/raceresult/models/types.py:88-149 | An aware datetime other than the zero datetime decodes from its own encoding unchanged, offset included. |
| Types.AwareIsoParses | src/raceresult/models/types.py:91 | `fromisoformat` reads `YYYY-MM-DDTHH:MM:SS±HH:MM` as the aware datetime it denotes. |
| Types.ZuluFreeDecodes | src/raceresult/models/types.py:89-93 | A text with a `T` and no `Z` that `fromisoformat` reads decodes to exactly what it reads. |
| Types.NaiveIsoParses | src/raceresult/models/types.py:91 | `fromisoformat` reads `YYYY-MM-DDTHH:MM:SS` as the naive datetime it denotes. |
| Types.NaiveIsoDecodes | src/raceresult/models/types.py:89-93 | The T form without an offset decodes to a naive datetime, the zero datetime included. |
| Types.DecodeDecimalAsWritten | src/raceresult/models/types.py:172-189 | `None`, `""`, dates and other types decode to zero. A native decimal is kept. No text raises, because an unreadable text falls back to zero. |
| Types.ParseDecimalLiteral | src/raceresult/models/types.py:186 | A plain decimal literal is read with an exponent of at most 0. |
| Types.DecimalLiteralParses | src/raceresult/models/types.py:186 | Every decimal with exponent ≤ 0 is read back from its plain literal. |
| Types.IntLiteralParses | src/raceresult/models/types.py:178-179 | `Decimal(str(i))` is exactly the integer `i`. |
| Types.OnlyBoolRaises | src/raceresult/models/types.py:178-179 | The decimal decoder as written raises exactly for bool inputs. |
| Types.DecodeDecimal | src/raceresult/models/types.py:172-189 | `None`, `""`, bool and unreadable types decode to zero. A native decimal is kept. On every input that is not a bool, it agrees with the decoder as written. |
| Types.DecimalFromInt | src/raceresult/models/types.py:178-179 | An integer decodes exactly. |
| Types.UnreadableTextIsZero | src/raceresult/models/types.py:185-188 | A text that is not a literal even after the comma rewrite decodes to zero. |
| Types.DecimalComma | src/raceresult/models/types.py:183-184 | A text and its comma-to-point rewrite decode alike. |
| Types.CommaFreeDecodes | src/raceresult/models/types.py:180-188 | A non-empty text without a comma decodes to what `Decimal()` reads from it, or to zero when it raises. |
| Types.DecimalRoundTrip | src/raceresult/models/types.py:180-186 | A plain literal decodes to the decimal it was written from. |
| Types.CommaDecimalRoundTrip | src/raceresult/models/types.py:183-186 | The same literal with a comma as the decimal point decodes to the same decimal. |
| Public.SplitOnce | src/raceresult/models/public.py:55 | `split(".", 1)`. The head holds no dot. The tail is missing exactly when the text has no dot. Otherwise the text is head, dot, tail. |
| Public.SplitOnceAt | src/raceresult/models/public.py:55 | The split happens at the first dot. The tail keeps any further dots. |
| Public.HasRight | src/raceresult/models/public.py:39-62 | An empty map grants nothing. A `*` key grants everything. A right is granted only if its module is a key or the map has `*`. |
| Public.EmptyRightsGrantNothing | src/raceresult/models/public.py:50-51 | An empty rights map grants no right. |
| Public.WildcardGrantsAll | src/raceresult/models/public.py:52-53 | A `*` key grants every right. |
| Public.UndottedRight | src/raceresult/models/public.py:55-59 | Without `*`, an undotted right is granted if and only if it is a key. |
| Public.DottedRight | src/raceresult/models/public.py:55-62 | Without `*`, `module.rest` is granted if and only if the module is a key and its list holds `*` or the whole remainder. |
| ParticipantModel.NonEmpty | src/raceresult/models/participant.py:93 | `filter(None, …)` keeps exactly the non-empty texts and drops nothing else. |
| ParticipantModel.JoinNonEmptyIsEmpty | src/raceresult/models/participant.py:89-97 | Joining the non-empty pieces gives `""` exactly when every piece is empty. |
| ParticipantModel.FullName | src/raceresult/models/participant.py:76-84 | The result is the first and last name with one space, or the one that is non-empty, or `""`. No space is added at either end. |
| ParticipantModel.CityLine | src/raceresult/models/participant.py:92-94 | The result is postcode and town with one space, or the one that is present. It is `""` exactly when both are empty. |
| ParticipantModel.FullAddress | src/raceresult/models/participant.py:86-97 | The result is street, city line and country, with the empty ones dropped, joined by ", ". It is `""` exactly when every field is empty. |
| ParticipantModel.StreetAndTownAddress | src/raceresult/models/participant.py:86-97 | With street, postcode and town but no country, the address is "street, postcode town", as "123 Main St, 12345 Springfield". |
| Payment.IsValidAsWritten | src/raceresult/models/payment.py:100-113 | `is_valid` as written raises only when a bound is naive. |
| Payment.IsValid | src/raceresult/models/payment.py:100-113 | Valid if and only if the time is inside the window, both ends included, and the use limit admits a use. |
| Payment.AsWrittenAgrees | src/raceresult/models/payment.py:106-111 | When the present bounds are aware, the source's check does not raise and agrees with `IsValid`. |
| Payment.NaiveStartRaises | src/raceresult/models/payment.py:106-107 | A naive start bound always raises `TypeError`. |
| Payment.NaiveEndRaises | src/raceresult/models/payment.py:106-109 | A naive end bound raises once the start check passes: when there is no start bound, or when it is aware and already reached. |
| Payment.BoundsInclusive | src/raceresult/models/payment.py:106-109 | The voucher is valid at the exact start and the exact end of its window. |
| Payment.ZeroLimitIsUnlimited | src/raceresult/models/payment.py:110-111 | With a limit of 0, the use counter never changes validity. |
| Payment.UnboundedIsValid | src/raceresult/models/payment.py:106-113 | With no bounds and uses left, a voucher is valid at every time. |
| Payment.NaiveStartExample | src/raceresult/models/payment.py:106-107 | A voucher starting at naive 2024-01-01 00:00:00 raises as written; the corrected check compares instants. |
| Registration.NullToList | src/raceresult/models/registration.py:18-22 | Null becomes `[]`, every other value is returned unchanged, and the result is never null. |
| Registration.NullToListIdempotent | src/raceresult/models/registration.py:18-22 | Applying it twice is applying it once. |
| Registration.ConvertedKeys | src/raceresult/models/registration.py:37-44 | The conversion keeps exactly the keys of the dict. |
| Registration.ConvertedValues | src/raceresult/models/registration.py:39-44 | Non-null values, and values under keys of non-list fields, are unchanged. A null under a list field's key becomes `[]`. |
| Registration.ConvertedHasNoNullList | src/raceresult/models/registration.py:40-44 | After conversion, no list field's key holds null. |
| Registration.ConvertIdempotent | src/raceresult/models/registration.py:37-45 | Converting twice equals converting once. |
| Registration.CapitalListIsListField | src/raceresult/models/registration.py:42-43 | The test ignores case: an annotation beginning with `List` makes a list field. |
| Registration.OtherFieldsAreNotLists | src/raceresult/models/registration.py:42-43 | An annotation without "list", such as `str`, or no annotation at all, makes no list field. |
| Registration.ListFieldAt | src/raceresult/models/registration.py:42-43 | A field is a list field exactly when "list" occurs at some position of its lower-cased annotation. |
| Registration.ConvertedStep | src/raceresult/models/registration.py:37-44 | Handling one more field replaces that field's null, if any, and nothing else. |
| Registration.ConvertNullLists | src/raceresult/models/registration.py:32-45 | The very same input is returned. A dict ends up holding the converted map, and non-dict input is untouched. |
| Registration.IsActiveAsWritten | src/raceresult/models/registration.py:268-282 | A disabled form is inactive. The source's check raises only when a bound is naive. |
| Registration.IsActive | src/raceresult/models/registration.py:268-282 | Active if and only if enabled and the time is inside the window, both ends included. |
| Registration.ActiveAsWrittenAgrees | src/raceresult/models/registration.py:275-280 | When the present bounds are aware, the source's check does not raise and agrees with `IsActive`. |
| Registration.NaiveOpeningRaises | src/raceresult/models/registration.py:277-278 | An enabled form with a naive opening bound raises `TypeError`. |
| Registration.DisabledIsInactive | src/raceresult/models/registration.py:270-271 | A disabled form is inactive whatever its dates. |
| Registration.ActiveAtBounds | src/raceresult/models/registration.py:277-280 | An enabled form is active at both ends of its window. |
| Timing.EntryOf | src/raceresult/endpoints/timing.py:53-60 | A line gives an entry only through two `;`-separated parts, and neither field holds a `;`. |
| Timing.EntryWhenOneSemicolon | src/raceresult/endpoints/timing.py:53-54 | A line is an entry if and only if it holds exactly one `;`. |
| Timing.EntriesOf | src/raceresult/endpoints/timing.py:51-61 | There are never more entries than lines. |
| Timing.EntriesOfConcat | src/raceresult/endpoints/timing.py:51-61 | Entries keep line order: the entries of two line sequences read one after the other are the entries of each, concatenated. |
| Timing.ParseChipFile | src/raceresult/endpoints/timing.py:51-61 | The loop collects exactly the entries of the CRLF-separated lines, in order, and no more than there are lines. |
| Timing.BodyWithoutCarriageReturn | src/raceresult/endpoints/timing.py:52 | A bare line feed is no line break: a body without CR is read as one line. |
| Timing.EntryOfLine | src/raceresult/endpoints/timing.py:53-60 | A rendered line of `;`-free fields reads back as its entry. |
| Timing.Lines | src/raceresult/endpoints/timing.py:71 | Each entry becomes the line `transponder;identification`, in order. |
| Timing.RenderChipFile | src/raceresult/endpoints/timing.py:71-72 | No entries give an empty body. One entry gives its line, with no separator after it. |
| Timing.RenderThenParse | src/raceresult/endpoints/timing.py:52-72 | When no field holds `;` or CR, reading a rendered file gives the same entries in order. |
| Timing.LinesRead | src/raceresult/endpoints/timing.py:53-71 | Rendered lines of `;`-free entries read back as those entries. |
| Timing.ParseThenRender | src/raceresult/endpoints/timing.py:52-72 | A body whose every line holds exactly one `;` is rendered back unchanged. |
| Timing.LineOfEntry | src/raceresult/endpoints/timing.py:53-71 | A line with one `;` is the rendering of the entry read from it. |
| Timing.WellFormedLines | src/raceresult/endpoints/timing.py:53-71 | Lines with one `;` each are the rendered lines of their entries. |
| Client.PyStr | src/raceresult/client.py:119-120 | `str()`: bools as `True`/`False`, texts as themselves, and non-negative integers as digits denoting their value. |
| Client.PyStrs | src/raceresult/client.py:119 | `str()` of each element, in order. |
| Client.SerializeParam | src/raceresult/client.py:114-120 | A lone bool gives `true`/`false`. Any other single value gives its `str()`. An empty list gives `""`. |
| Client.BoolInListKeepsPythonSpelling | src/raceresult/client.py:116-119 | The bool check applies only to a lone value. A bool inside a list is written `True`/`False`. |
| Client.ListParamSplits | src/raceresult/client.py:118-119 | A list whose elements' texts hold no comma is recovered element by element by splitting on ",". |
| Client.Query | src/raceresult/client.py:105-109 | The filtered query has no more pairs than there are parameters. |
| Client.QueryEmpty | src/raceresult/client.py:105-111 | The query is empty if and only if every parameter is `None`. |
| Client.QueryMembership | src/raceresult/client.py:107-109 | A pair is in the query if and only if some parameter has that key and a value other than `None` that serializes to it. |
| Client.LoginForm | src/raceresult/client.py:173-184 | The form is empty if and only if no credential is given. |
| Client.LoginFormFields | src/raceresult/client.py:173-184 | The form's keys are each given credential's name, in order. "pw" comes right after "user" and is present exactly when a user is given. |
| Client.LoginFormValues | src/raceresult/client.py:173-184 | Each name holds exactly the given credential's value. "pw" holds the password, or `""` when none is given, exactly when a user is given. |
| Client.LoginFormHolds | src/raceresult/client.py:173-184 | A pair is in the form exactly when it is one of the six credential pairs the source writes. |
| Client.RaceResultClient.constructor | src/raceresult/client.py:37-57 | A new client keeps server and scheme, has session "0", and is not logged in. |
| Client.RaceResultClient.Default | src/raceresult/client.py:33-57 | A client built with the defaults talks to "events.raceresult.com" over HTTPS, has session "0", and is not logged in. |
| Client.RaceResultClient.IsLoggedIn | src/raceresult/client.py:70-73 | Logged in means a non-empty session id other than "0". Logged out means the session id is "0" or "". |
| Client.RaceResultClient.BaseUrl | src/raceresult/client.py:59-63 | "https://" and the server when HTTPS is set, "http://" and the server otherwise. The result always ends in the server. |
| Client.RaceResultClient.BuildUrl | src/raceresult/client.py:92-112 | The result is base, `/_id` only for a non-empty event id, then `/api/cmd`. It is followed by "?" and the encoded query exactly when some parameter is not `None`. |
| Client.RaceResultClient.Login | src/raceresult/client.py:193-194 | A successful reply's body becomes the session id, so the client is logged in unless the body is "0" or "". A failing request raises and changes nothing. |
| Client.RaceResultClient.Logout | src/raceresult/client.py:196-204 | When not logged in, it raises "not logged in" and changes nothing. A failing request raises and changes nothing. Success resets the session to "0". After a normal end, the client is never logged in. |

## Left out

- Transport: httpx, `_handle_response`'s status and JSON error parsing, the context manager, headers, timeout and user agent. These are I/O through a foreign library. A request's result is the `Reply` parameter.
- UTF-8 decoding and encoding of the chip-file body and of the login reply. Texts are modelled as already decoded.
- `urlencode` percent-encoding is a function parameter of `BuildUrl`. `json.dumps`/`json.loads` are outside the model.
- The clock: `datetime.now(timezone.utc)` is the `now` parameter, restricted to an aware value at offset zero.
- Floating point: the float branch of the decimal decoder, the float serializer of decimals and the duration helpers. The `DECIMAL_PLACES` and `DECIMAL_FACTOR` constants serve only these.
- Client.Scalar has no float kind. Some endpoints pass floats as parameters (src/raceresult/endpoints/times.py:172-173 and 206-207), and their `str()` form is not modelled.
- Types.DecodeDate: a native `datetime` passed to the date decoder is returned by the source as the datetime itself, because a datetime is a date to `isinstance`. The model returns its date part.
- Types.ParseIsoDate and Types.ParseIsoDateTime accept only `YYYY-MM-DD` and `YYYY-MM-DDTHH:MM:SS[±HH:MM]`. `fromisoformat` accepts more forms: fractions of a second, basic format, week dates and offsets with seconds.
- Types.ParseSpacedDateTime accepts only the fixed-width, zero-padded form. `strptime` is laxer: `%d`, `%m` and `%H` accept one digit or a leading space, and a space in the format matches any run of whitespace. So "2024-06- 5 10:30:00" decodes in Python but not in the model.
- Types.ParseOffset keeps the source's rule that only the whole offset is bounded: "+05:75" reads as +06:15. Offsets of a day or more are refused.
- Types.EuropeanDate and Types.EuropeanTime read a component of 2^31 or more as no value, and so do Types.ParseEuropeanDate, Types.ParseEuropeanDateTime, Types.DecodeDateText, Types.DecodeDateTimeText, Types.DecodeDate and Types.DecodeDateTime. CPython's `date()` and `datetime()` raise `OverflowError` on such a component (src/raceresult/models/types.py:50 and 115-126), and that error is not caught by the `except ValueError` around them, so the validator raises. Examples are "01.01.99999999999" and "15.06.2024 99999999999". The model does not carry that raise.
- Text.ParseNat reads only ASCII digit strings. Python's `int()` also accepts whitespace, signs and underscores.
- Types.ParseDecimalLiteral reads only plain literals. `Decimal()` also accepts exponents, `NaN`, `Infinity` and surrounding whitespace. A negative zero keeps no sign in the model.
- Types.Decimal is the coefficient and exponent pair, compared structurally. Python compares decimals by value.
- Calendar.DateTime has whole seconds and a fixed offset in minutes. Microseconds, named time zones and offsets with seconds are not modelled.
- Types.EncodeDateTime writes the year with four digits. Platform `strftime("%Y")` may not zero-pad years below 1000.
- Text.Lower folds ASCII letters only. Annotation texts are Python identifiers in practice.
- Registration.IsListField reads the annotation from the model class's own annotations. No annotation is `None`, as for an inherited field, and the model takes that as given rather than computing Pydantic's field table.
- Pydantic's validation machinery that calls these validators, and the field declarations of all models, are outside the model.
- Participant and Voucher are modelled with only the fields their properties read.
- All endpoint methods in `src/raceresult/endpoints/` and `src/raceresult/api.py` other than the chip-file reader and writer are left out. They are network round trips with one-to-one parameter marshaling.

## Findings

| source | as written | input that shows it | evidently intended | confidence | as-written member | corrected member |
|---|---|---|---|---|---|---|
| src/raceresult/models/types.py:178-179 | A bool is an `int` to `isinstance`, so it reaches `Decimal(str(value))`. That is `Decimal("True")`, which raises `InvalidOperation`. | `_parse_rr_decimal(True)` | The decoder is total: an unreadable value decodes to zero. | not executed; high | Types.DecodeDecimalAsWritten (Types.OnlyBoolRaises) | Types.DecodeDecimal |
| src/raceresult/models/payment.py:106-109 | The aware clock reading is compared with the bound. The T-form datetime decoder yields a naive value for a text without offset, and that comparison raises `TypeError`. | a voucher whose `ValidFrom` is "2024-01-01T00:00:00" | Compare instants, reading a naive bound as UTC, as the other datetime forms are. | not executed; high | Payment.IsValidAsWritten (Payment.NaiveStartExample) | Payment.IsValid |
| src/raceresult/models/registration.py:277-280 | The same comparison in `is_active` raises `TypeError` on a naive bound. | an enabled registration whose `EnabledFrom` is "2024-01-01T00:00:00" | Compare instants, reading a naive bound as UTC. | not executed; high | Registration.IsActiveAsWritten (Registration.NaiveOpeningRaises) | Registration.IsActive |
