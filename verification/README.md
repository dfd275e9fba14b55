# Expired waiver deletion, modelled in Dafny

This project models the decision logic of `expiredWaiverDeletion.py`. The script
reads an export of Sonatype IQ policy waivers, finds the waivers whose expiration
date lies strictly before the current UTC time, asks the operator to type
`DELETE`, and then sends one DELETE request to
`policyWaivers/{ownerType}/{scopeId}/{waiverId}` for each expired waiver whose
scope type is known and whose scope id is present. It counts successes and
failures, and a waiver that fails either check is counted as failed without a
request.

The model covers five pieces of that logic:

- `parse_waiver_datetime` (module `Timestamps`, with `Digits` and `Calendar`).
  It reads a `Z`-suffixed UTC timestamp, then the same with fractional seconds,
  or else a timestamp with a numeric offset. It returns the instant the string
  denotes, or `None`. Instants are microseconds since the Unix epoch, computed
  through the proleptic Gregorian day number, as Python's `datetime` does.
  A reference encoder (`Format`) writes the three accepted profiles, and two
  lemmas relate it to the parser in both directions.
- `SCOPE_TYPE_MAP` and its lookup (module `Scopes`).
- The classification loop (module `Classification`). It skips rows whose expiry
  is missing, sets aside rows whose expiry does not parse, and keeps a row as
  expired exactly when its instant is strictly before the reference time. Both
  kept lists are proved to be stable filters of the input.
- The confirmation gate and the deletion loop (modules `Confirmation` and
  `Deletion`). This covers `strip().upper() == "DELETE"`, the unknown-scope-type
  check, the missing-scope-id check, the endpoint path, the truthiness test on
  the result, and the two counters.
- The result of `make_api_request` and its truthiness (module `Api`).

Module `Records` holds the rows as the CSV reader produces them. Each cell is
missing (`NaN`), a string, or another scalar. `Scenarios` holds whole-run
examples.

The reference time, the operator's reply and the server are parameters. The
server is a function from the endpoint to an abstract `Exchange`: either a
transport error, or a response with a status, a body text and the decoded JSON
body, if any.

Three behaviours of the code worth noting:

- A timestamp with fractional seconds and a numeric offset
  (`2024-01-01T00:00:00.5+01:00`) is not accepted. Without a `Z` only the
  `%z` pattern is tried, and the fallback returns `None`
  (`Timestamps.FractionWithoutZIsUnparseable`).
- A server that rejects the request and a transport failure both give `None`.
  The loop counts both as failed and cannot tell them apart.
- The waiver id is never checked. A missing id is rendered as `nan`, and the
  request is still sent (`Scenarios.MissingWaiverIdIsStillRequested`).

## Model

| member | source | states |
|---|---|---|
| Timestamps.ParseWaiverDatetime | expiredWaiverDeletion.py:58-74 | A missing or non-string cell gives None, and only strings of 20 to 27 characters can parse. The parser is total, so no input raises. |
| Timestamps.ParseFormatRoundTrip | expiredWaiverDeletion.py:58-74 | Every valid timestamp of the three profiles, once written out, parses back to exactly the instant it denotes. |
| Timestamps.UtcRoundTrip | expiredWaiverDeletion.py:62-64 | `YYYY-MM-DDTHH:MM:SSZ` parses to that wall-clock time read as UTC, with no microseconds. |
| Timestamps.FractionRoundTrip | expiredWaiverDeletion.py:68-72 | `YYYY-MM-DDTHH:MM:SS.fZ` is reached after the whole-seconds reading fails, and it parses to the wall clock in UTC plus the right-padded microseconds. |
| Timestamps.OffsetProfileRoundTrip | expiredWaiverDeletion.py:65-67 | `YYYY-MM-DDTHH:MM:SS±HH:MM` (or `±HHMM`) parses to the wall clock minus the offset. |
| Timestamps.ParsedIsFormatted | expiredWaiverDeletion.py:58-74 | Whatever the parser accepts is the encoding of a valid timestamp of one of the three profiles, and the result is the instant that timestamp denotes. |
| Timestamps.WithoutZOnlyOffsetForm | expiredWaiverDeletion.py:65-67 | A string accepted without a trailing `Z` is exactly a clock followed by a numeric offset, and it denotes the clock shifted back by that offset. |
| Timestamps.FractionWithoutZIsUnparseable | expiredWaiverDeletion.py:73 | A string with fractional seconds and no trailing `Z` gives None. |
| Timestamps.MalformedInputs | expiredWaiverDeletion.py:60-74 | A non-date string, the empty string, an out-of-range month and day, and a missing cell all give None. |
| Timestamps.FractionMicros | expiredWaiverDeletion.py:71 | `%f` digits are right-padded with zeros to six places and read as microseconds. The result is always below one second. |
| Timestamps.ParseClock | expiredWaiverDeletion.py:63 | A reading `%Y-%m-%dT%H:%M:%S` accepts is a valid `datetime` whose zero-padded rendering is exactly the input string. |
| Timestamps.ParseClockFraction | expiredWaiverDeletion.py:71 | A reading `%Y-%m-%dT%H:%M:%S.%f` accepts is a valid clock, a dot and one to six digits, written exactly as the input, and its microseconds are those digits right-padded to six places. |
| Timestamps.ParseClockOffset | expiredWaiverDeletion.py:66 | A reading `%Y-%m-%dT%H:%M:%S%z` accepts is a valid clock followed by a valid offset, and the input is exactly their rendering. |
| Timestamps.ParseOffset | expiredWaiverDeletion.py:66 | An offset `%z` accepts is below a day and is exactly the rendering of the input, with or without the colon as written. |
| Timestamps.ClockRoundTrip | expiredWaiverDeletion.py:63 | Reading a written wall clock with `%Y-%m-%dT%H:%M:%S` gives the same clock back. |
| Timestamps.ClockShapeFormats | expiredWaiverDeletion.py:63 | A string of the clock's shape is exactly the rendering of the fields read from it. |
| Timestamps.OffsetRoundTrip | expiredWaiverDeletion.py:66 | A valid offset, written with or without the colon, reads back as itself. |
| Digits.ValuePad | expiredWaiverDeletion.py:63 | Reading a zero-padded field back gives the number. |
| Digits.PadValue | expiredWaiverDeletion.py:63 | Every digit field is the padded rendering of its own value, so reading a field loses nothing. |
| Calendar.InstantAt | expiredWaiverDeletion.py:147 | A reading at local midnight of the epoch day denotes its microseconds minus the zone's offset, so instants count from 1970-01-01T00:00:00 UTC. |
| Calendar.FieldOrderIsInstantOrder | expiredWaiverDeletion.py:147 | For two readings in the same zone, field-by-field order holds exactly when the instants they denote are in order. |
| Scopes.ScopeToken | expiredWaiverDeletion.py:189-191 | A token is found exactly for the five known scope types given as strings. A found token is one of the four owner types and is never empty. |
| Scopes.ScopeTokenTable | expiredWaiverDeletion.py:22-29 | `root_organization` and `organization` both map to `organization`. `application`, `repository` and `repository_container` map to themselves. Every other kind has no mapping. |
| Classification.StatusOf | expiredWaiverDeletion.py:140-147 | A row has no expiration exactly when its cell is missing. Otherwise it is unparseable exactly when the parser gives None on the cell's `str()`, and expired exactly when the parsed instant is strictly before the reference time. An expired or kept row carries the parsed instant. |
| Classification.Classify | expiredWaiverDeletion.py:139-155 | A row is in the expired list exactly when its status is Expired, and in the unparseable list exactly when its status is Unparseable. The two lists together are no longer than the input. |
| Classification.ClassifyIsStable | expiredWaiverDeletion.py:139-155 | The expired list, and likewise the unparseable list, is a stable filter of the input: exactly the rows with that status, in their input order. |
| Classification.ExpiredMeansParsedBefore | expiredWaiverDeletion.py:138-155 | A row is marked for deletion exactly when it is in the export, has an expiry cell, and that cell parses to an instant strictly before the reference time. |
| Classification.ExpiryAtReferenceTimeIsKept | expiredWaiverDeletion.py:147 | A waiver expiring exactly at the reference time is not expired and is not marked for deletion. |
| Confirmation.Strip | expiredWaiverDeletion.py:180 | The stripped reply is a slice of the reply with only whitespace before and after it, and it neither starts nor ends with whitespace, so exactly the leading and trailing whitespace is cut. It is empty exactly when the reply is all whitespace. |
| Confirmation.Upper | expiredWaiverDeletion.py:180 | Each character is upper-cased in place, so the length is kept and no lower-case ASCII letter is left. |
| Confirmation.Confirmed | expiredWaiverDeletion.py:180 | A reply confirms exactly when, once stripped, it spells DELETE in some mix of cases. |
| Confirmation.LeadingEnd | expiredWaiverDeletion.py:180 | The left scan of `strip()` stops at the first character that is not whitespace, and everything before it is whitespace. |
| Confirmation.TrailingStart | expiredWaiverDeletion.py:180 | The right scan of `strip()` never crosses the left one. Everything after where it stops is whitespace. |
| Confirmation.ConfirmedIff | expiredWaiverDeletion.py:180 | A reply confirms exactly when it is whitespace, then DELETE in any mix of cases, then whitespace. |
| Confirmation.PaddedKeywordConfirms | expiredWaiverDeletion.py:180 | DELETE in any case, surrounded by any whitespace, confirms. |
| Confirmation.ConfirmedIsPaddedKeyword | expiredWaiverDeletion.py:180 | Every confirming reply has that shape. |
| Confirmation.StripIsMiddle | expiredWaiverDeletion.py:180 | `strip()` removes only whitespace, and only from the two ends. |
| Confirmation.ShortReplyCancels | expiredWaiverDeletion.py:180 | A reply shorter than DELETE cancels. |
| Confirmation.SampleReplies | expiredWaiverDeletion.py:178-180 | An empty reply and "no" cancel. " delete\n" confirms. |
| Api.Truthy | expiredWaiverDeletion.py:204 | `None`, `False`, the empty string, the empty list and the empty dict are falsy. A boolean, string, list or dict is truthy exactly when it is not one of those. |
| Api.MakeApiRequest | expiredWaiverDeletion.py:32-55 | A transport error or an HTTP 4xx/5xx status gives None. A response without decodable JSON is falsy, unless it is a 204 to a DELETE. A truthy result implies a response without an error status. |
| Api.DeleteSucceedsIff | expiredWaiverDeletion.py:36-55 | A DELETE result is truthy exactly when the exchange is a non-error response that is either a 204, or has a non-empty body (or a status other than 200) that decodes to a truthy value. |
| Api.NoContentVersusEmptyOk | expiredWaiverDeletion.py:38-39 | A 204 to a DELETE gives True. A 200 with an empty body gives an empty list, which is falsy. |
| Deletion.ScopeIdMissing | expiredWaiverDeletion.py:195 | A scope id counts as missing exactly when it is NaN, the empty string, or a falsy scalar. |
| Deletion.WaiverEndpoint | expiredWaiverDeletion.py:200 | The path starts with `policyWaivers/` followed by the owner type, and something follows it. |
| Deletion.EndpointReadsBack | expiredWaiverDeletion.py:200 | The owner type, the scope id's `str()` and the waiver id's `str()` can each be read back at their positions in the path, separated by `/`. |
| Deletion.PlanEntry | expiredWaiverDeletion.py:189-200 | An unknown scope type is skipped, checked first. A known scope type with a missing or falsy scope id is skipped, checked second. Anything else is requested at `policyWaivers/{owner type}/{scope id}/{waiver id}`. Each of the three cases is an if-and-only-if. |
| Deletion.EntryOutcome | expiredWaiverDeletion.py:189-209 | An entry is deleted exactly when a request was sent and its result was truthy. A failed delete always had a request. |
| Deletion.Requests | expiredWaiverDeletion.py:186-202 | There are no more requests than entries, and one for every entry exactly when every entry passes both checks. |
| Deletion.RequestsInOrder | expiredWaiverDeletion.py:186-202 | The requests are exactly the endpoints of the entries that pass both checks, one for each such entry, in the order of the entries. |
| Deletion.Outcomes | expiredWaiverDeletion.py:185-209 | The run has one outcome per expired entry, in order, each from that entry alone. |
| Deletion.CountsCoverEveryOutcome | expiredWaiverDeletion.py:183-209 | Every outcome is counted once, as deleted or as failed. |
| Deletion.Orchestrate | expiredWaiverDeletion.py:162-214 | The phase does nothing exactly when the list is empty, and cancels exactly when the list is non-empty and the reply does not confirm. A completed run has one outcome per entry, in order. Its deleted counter counts the truthy DELETE results and its failed counter counts every other outcome, so the two add up to the number of entries. Its requests are those of the entries that pass both checks. |
| Deletion.OrchestrateAccounting | expiredWaiverDeletion.py:162-214 | An empty list gives no prompt and no run, and an unconfirmed reply cancels. Otherwise every entry is visited once, in order. `deleted` counts the Deleted outcomes and `failed` the others, the two add up to the number of expired entries, and the requests are those of the checked entries. |
| Deletion.RequestsComeFromCheckedEntries | expiredWaiverDeletion.py:189-202 | Every request goes to the endpoint of an entry that passed both checks, and every entry that passed them is requested at its endpoint. There are never more requests than entries. |
| Deletion.CheckedEntriesAreRequested | expiredWaiverDeletion.py:189-202 | Every entry that passes both checks has its endpoint among the requests. |
| Deletion.DeletedNeedsRequest | expiredWaiverDeletion.py:202-206 | The deleted count never exceeds the number of requests sent. |
| Deletion.VisitEntry | expiredWaiverDeletion.py:186-209 | One pass of the loop body gives the entry's outcome, and it sends a request exactly when the entry passed both checks. |
| Deletion.DeleteAll | expiredWaiverDeletion.py:183-210 | The loop produces the outcomes and requests of the entries in order. Its counters equal the deleted and failed counts and add up to the number of entries. |
| Deletion.DeleteExpired | expiredWaiverDeletion.py:162-214 | The gate and the loop together are the deletion phase. A completed run accounts for every expired entry and sends no more requests than there are entries. |
| Deletion.RequestsAddressExpiredRows | expiredWaiverDeletion.py:139-202 | Every endpoint the deletion phase can request belongs to a row of the export whose expiry parsed to an instant strictly before the reference time. |
| Deletion.Reconcile | expiredWaiverDeletion.py:139-214 | The whole run, classification then deletion: every request it sends addresses an expired row of the export. |
| Scenarios.ExpiryParses | expiredWaiverDeletion.py:62-64 | `2020-01-01T00:00:00Z` parses to midnight UTC on 1 January 2020. |
| Scenarios.ExpiryIsBeforeReference | expiredWaiverDeletion.py:147 | That instant is before 2024-01-01T00:00:00Z. |
| Scenarios.ApplicationWaiverIsDeleted | expiredWaiverDeletion.py:139-212 | For every expiry text that parses to an instant before the reference time, an application waiver confirmed and answered with 204 is marked, requested at `policyWaivers/application/app-42/W1` and counted as the one deletion. `ExpiryParses` and `ExpiryIsBeforeReference` supply the 2020 expiry and 2024 reference time of the scenario of one expired application waiver. |
| Scenarios.UnknownScopeTypeFailsWithoutRequest | expiredWaiverDeletion.py:189-194 | The same waiver with an unknown scope type is counted as failed, and nothing is requested, whatever the server would answer. |
| Scenarios.UnparseableRowIsSetAside | expiredWaiverDeletion.py:143-146 | A row whose expiry reads "banana" is set aside as unparseable, and the expired row after it is still marked. |
| Scenarios.MissingWaiverIdIsStillRequested | expiredWaiverDeletion.py:200 | A row without a waiver id is requested at a path ending in `nan`. |

## Left out

- Timestamps.ParseWaiverDatetime: accepts only zero-padded, full-width fields, an upper-case `T`, and offsets of the form `±HH:MM` or `±HHMM`. Python's `strptime` also accepts single-digit month, day, hour, minute and second, a day written with a leading space, a lower-case `t`, `%z` offsets with seconds or a fraction of a second, and non-ASCII decimal digits (such as fullwidth digits) where its patterns use `\d`, since `int()` reads any Unicode decimal digit. That is every digit of the year and of the `%z` hours, but only the positions given as `\d` in the day, hour, minute and second, whose leading digit is an ASCII class. The month and the `%z` minutes' leading digit take ASCII digits only, and so does the fraction, whose pattern is `[0-9]`. The model returns None for those strings, where the script would return an instant.
- Confirmation.Upper: upper-cases ASCII letters only, where Python's `str.upper()` also maps non-ASCII letters. This never changes the gate: in Python's Unicode case tables no character other than `d`, `e`, `l`, `t` and their capitals upper-cases into a string made only of `D`, `E`, `L` and `T`, so `Confirmed` agrees with `strip().upper() == "DELETE"` on every reply. It only affects the upper-cased text of a reply that does not confirm.
- Api.MakeApiRequest: the `requests` transport, authentication, the 30-second timeout and the exception classes are not modelled. Each is a way for the exchange to end in an error, and all of them give None. The error messages are not modelled.
- Deletion.EntryOutcome: the server is a pure function of the endpoint. Repeated or order-dependent answers from a real server are not modelled.
- Finding the CSV file with `glob` and the one-file check (lines 81-101): filesystem I/O.
- Loading with `pandas`, stripping column names and the required-column check (lines 106-127): a foreign library. Rows are given as already-parsed records.
- An `EOFError` from `input()` on a closed standard input (line 178): the script stops with a traceback. In the model the reply is always a string. The effect on the server, no request sent, is the same as `Cancelled`.
- `datetime.now(timezone.utc)` (line 132): a clock read. The reference time is a parameter.
- All printed output, the listing of the expired waivers, and the 'Component Name' column, which is only printed (lines 145-177, 192-212).
- The hard-coded credentials and server URL (lines 10-15): configuration.
- Seconds 60 and 61, which `strptime` matches and `datetime` then rejects. The model rejects them directly.
