# Obsolescence audit and diagnostic fragments, modelled in Dafny

This project models the decision logic of the network audit tool's
`modules/audit.py` and a few pure fragments of `modules/diagnostic.py`.

- **End-of-life resolution** (`get_eol_status`, `fetch_eol_date_from_api`).
  An OS label is looked up in the static `API_MAPPING` table. The release list
  returned by endoflife.date is searched for the first entry whose `cycle`
  equals the mapped cycle. The `eol` value found is then classified into one of
  five report statuses. That needs a faithful model of `strptime(…, "%Y-%m-%d")`
  and of `datetime` ordering.
- **The sweep** (`scan_network`). The base is the first three dot-separated
  fields of the configured subnet. The candidates `base.1` … `base.59` are
  visited in order. Each one that answers is classified through `KNOWN_HOSTS`
  (default `"Inconnu"`) and resolved. The rows are collected, and a report is
  written only when there is at least one row.
- **Diagnostic fragments**:
  - the `diag_<safe name>_<timestamp>.json` file name;
  - the clean-up of the `PRETTY_NAME` line of `/etc/os-release`;
  - the `OUVERT`/`FERMÉ` port words;
  - the rule that lets a detected machine type override the configured one.

The network, the ping subprocess and the clock are parameters:
- `service: string -> Reply` stands for `requests.get` on a URL;
- `alive: string -> bool` stands for `ping_host`;
- `now: DateTime` stands for `datetime.now()`.

In the sweep every host is resolved by its own call to `get_eol_status`. Each call
for a mapped label makes its own request, and each call whose date parses reads
the clock again. An unmapped label, which includes every "Inconnu" host, makes no
request. A falsy, non-string or unparseable `eol` never reads the clock. So the
sweep takes both per address:
- `service: string -> string -> Reply` gives, for each candidate address, the
  replies to the requests made while resolving it, if any;
- `now: string -> DateTime` gives the clock reading taken for that address, if
  one is taken.

Modules:
- `Wrappers`: `Option`.
- `Text`: Python's `split`/`join`, `str(int)`, `replace`, `strip`, `isalnum`.
- `Calendar`: dates, `strptime` for `%Y-%m-%d`, and datetime comparison.
- `Eol`: the mapping, the release search, and `get_eol_status`.
- `Sweep`: `KNOWN_HOSTS` and the loop of `scan_network`.
- `Diagnostic`: the diagnostic fragments.
- `Scenarios`: worked examples on concrete inputs.

The model follows the code in these cases:
- **No entry for the cycle.** If the release list has no entry for the cycle,
  the status is the API error, not the unknown status.
- **Missing or falsy `eol`.** A missing `eol`, or one that is `false`, `0`, `""`
  or an empty array or object, is also reported as the API error, not as
  supported.
- **`eol` of `true`, a non-zero number, or a non-empty array or object.**
  `strptime` raises a `TypeError` that nothing catches, so the whole scan stops
  (`Outcome.TypeError`, `ScanResult.Aborted`).
- **The sweep as written.** It is a sequential sweep of `.1`–`.59`. There is no
  CIDR expansion, no concurrency, no port probing and no sorting. A record has
  exactly the fields `ip`, `os`, `status` and `eol_date`. The unknown label is
  `"Inconnu"`.
- **Date comparison.** The comparison is `now > eol` where `eol` is midnight of
  that date. So on the end-of-life day itself, every moment after midnight is
  reported obsolete.

## Model

| member | source | states |
|---|---|---|
| Eol.FindCycle | modules/audit.py:33-38 | the first entry whose cycle equals the wanted one gives its `eol`; an unreadable entry before it, or no match at all, gives None; a non-None result is the `eol` of some matching entry |
| Eol.FetchEol | modules/audit.py:26-38 | an unreachable service, a status other than 200 or an undecodable body give None; otherwise the result of the cycle search |
| Eol.Decide | modules/audit.py:50-64 | a falsy value gives exactly the API error with "N/A"; exactly the truthy non-strings raise TypeError; a string that does not parse gives the date-format error with the raw string; a parsed date is obsolete iff now is after its midnight, else supported, with the raw string |
| Eol.GetEolStatus | modules/audit.py:40-48 | a label outside API_MAPPING gives exactly the unknown status with "N/A"; a mapped one is decided on the value fetched for its product and cycle |
| Eol.StatusTextInjective | modules/audit.py:43-64 | the five statuses are written as five different strings, so the report's status column names the status |
| Eol.ApiUrlInjective | modules/audit.py:27 | different products are fetched from different URLs |
| Eol.UnmappedMakesNoRequest | modules/audit.py:42-43 | the unknown-status answer does not depend on the service at all |
| Eol.MappedMakesOneRequest | modules/audit.py:45-48 | a mapped label depends on the service only through the reply for its product's URL |
| Eol.NoMatchingCycleIsApiError | modules/audit.py:33-38 | a release list without the cycle gives the API-error status, not the unknown one |
| Eol.DateColumn | modules/audit.py:40-64 | the date column is "N/A" for the unknown and API-error statuses, and the fetched string otherwise |
| Eol.NotApplicableIsBadDate | modules/audit.py:55-64 | an `eol` of "N/A" is a date-format error whose date is "N/A", so "N/A" alone does not identify the first two statuses |
| Eol.ObsoleteStaysObsolete | modules/audit.py:59-62 | an `eol` reported obsolete at time t is reported the same at every later time |
| Eol.ObsoleteFromMidnightOfEolDay | modules/audit.py:56-62 | an `eol` naming today's date is supported only at 00:00:00.000000 and obsolete at every later moment of the day |
| Calendar.ParseIsoDate | modules/audit.py:56 | a parsed date is a valid calendar date, and the string is 8 to 10 characters with the zero-padded year and a dash in front |
| Calendar.ParseIsoDateExactly | modules/audit.py:56 | a string parses to d iff d is a valid date and the string is d's four-digit year, a dash, an accepted spelling of its month, a dash and an accepted spelling of its day; every other string is refused |
| Calendar.ParseSpelled | modules/audit.py:56 | every accepted spelling of a valid date parses to that date |
| Calendar.ParseIsSpelling | modules/audit.py:56 | every string that parses is an accepted spelling of the date it gives |
| Calendar.ParseSplit | modules/audit.py:56 | a string that parses is its year, a month token and a day part joined by dashes, and its date is built from those parts |
| Calendar.SpellingIsToken | modules/audit.py:56 | each accepted spelling of a month (01–12, or 1–9) or a day (01–31, or 1–9, or a space and 1–9) is a token that reads back as that number |
| Calendar.ParseParts1 | modules/audit.py:56 | a four-digit year, a one-character month and a day part joined by dashes are read as those three parts |
| Calendar.ParseFormatIso | modules/audit.py:56 | every valid date, written YYYY-MM-DD, parses back to itself |
| Calendar.ParseUnpaddedIso | modules/audit.py:56 | single-digit months and days are accepted without a leading zero |
| Calendar.ParseRejectsTrailing | modules/audit.py:56 | a character after a zero-padded YYYY-MM-DD date makes the parse fail (the whole string must be consumed) |
| Calendar.ParseLeapDay | modules/audit.py:56 | February 29 of a year parses iff the year is a leap year |
| Calendar.ParseRejectsYearZero | modules/audit.py:56 | year 0000 is refused |
| Calendar.TokenValue | modules/audit.py:56 | a month token is an accepted spelling of its value in 1–12 (two digits, or one digit below 10); a day token is an accepted spelling of its value in 1–31 (two digits, or below 10 one digit or a space and one digit) |
| Calendar.YearValue | modules/audit.py:56 | four matched year digits are worth at most 9999 |
| Calendar.BuildDate | modules/audit.py:56 | a date is built iff the day part is a day token and the year, month and day values form a valid calendar date, and then it is exactly that date |
| Calendar.ParseParts | modules/audit.py:56 | a four-digit year, a two-character month and a day part joined by dashes are read as those three parts |
| Calendar.DaysInMonth | modules/audit.py:56 | February has 29 days in leap years and 28 otherwise; April, June, September and November have 30; the other months have 31 |
| Calendar.Midnight | modules/audit.py:56 | strptime's result is the valid datetime at 00:00 of the parsed date |
| Calendar.LaterTransitive | modules/audit.py:59 | datetime `>` is transitive |
| Calendar.LaterIrreflexive | modules/audit.py:59 | no datetime is later than itself |
| Calendar.LaterTotal | modules/audit.py:59 | of two distinct datetimes one is later |
| Calendar.LaterThanMidnightSameDay | modules/audit.py:59 | a time is later than midnight of its own day iff it is not 00:00:00.000000 |
| Calendar.LaterDayIsLater | modules/audit.py:59 | every time on a later day than d, in date order, is later than midnight of d |
| Sweep.TargetSubnet | modules/audit.py:78 | the configured subnet if present, else "192.168.10.0/24" |
| Sweep.BaseIp | modules/audit.py:79 | the base is a prefix of the subnet with at most two dots; if it is shorter, the subnet continues with its third dot |
| Sweep.CandidateIpInjective | modules/audit.py:86 | different octets give different candidate addresses |
| Sweep.LiveOctets | modules/audit.py:85-88 | the answering octets of 1..59, strictly increasing, containing every answering octet |
| Sweep.SweepLoop | modules/audit.py:85-97 | the loop builds the rows of the recursive sweep, or stops at the first TypeError |
| Sweep.ScanNetwork | modules/audit.py:78-97 | the scan is the sweep of the base of the configured subnet, resolving each classified label with that host's own replies and clock reading |
| Sweep.SweepRows | modules/audit.py:85-97 | a completed sweep has one row per answering candidate, in octet order, each with its label, status text and date |
| Sweep.SweepAborts | modules/audit.py:94 | the sweep aborts iff some answering candidate raises, and then at the first such candidate |
| Sweep.SweepInOrder | modules/audit.py:85-97 | rows are in strictly increasing octet order and no address appears twice |
| Sweep.SweepCoversLive | modules/audit.py:85-97 | a completed sweep reports exactly the candidates that answer |
| Sweep.ScanRowContents | modules/audit.py:89-96 | each row's os is KNOWN_HOSTS[ip] or "Inconnu", with the status and date resolved for that label from the replies and clock reading of that row's address |
| Sweep.ReportIffSomeAnswer | modules/audit.py:102 | the report is written iff the sweep completes and some candidate answers |
| Sweep.KnownHostsAreMapped | modules/audit.py:8-24 | every inventory label is in API_MAPPING, and "Inconnu" is not |
| Sweep.KnownHostShape | modules/audit.py:17-24 | every inventory address is 192.168.10 followed by one more field |
| Sweep.ForeignCandidateUnknown | modules/audit.py:89 | a candidate of any other base is never in the inventory |
| Sweep.UnknownIsUnmapped | modules/audit.py:89-94 | an address outside the inventory resolves as unknown status with "N/A", whatever the replies and the clock |
| Sweep.UnknownSweepIsUnmapped | modules/audit.py:85-97 | a sweep of unknown, unmapped candidates completes with every row "Inconnu", unknown status, "N/A" |
| Sweep.ForeignSweepIsUnmapped | modules/audit.py:78-97 | a sweep outside 192.168.10 never aborts and reports every host as "Inconnu", unknown status, "N/A" |
| Text.SplitShape | modules/audit.py:79 | `split` gives one more field than there are separators, and no field holds one |
| Text.JoinSplit | modules/audit.py:79 | joining the fields of a split gives back the string |
| Text.SplitJoin | modules/audit.py:79 | splitting a join of separator-free fields gives back the fields |
| Text.Decimal | modules/audit.py:86 | `str(i)` of a natural is a non-empty string of digits without a leading zero |
| Text.DecimalRoundTrip | modules/audit.py:86 | the digits of `str(i)` read back as i |
| Text.DecimalInjective | modules/audit.py:86 | different numbers have different decimal forms |
| Text.ReplaceAbsent | modules/diagnostic.py:68 | replacing a pattern that does not occur changes nothing |
| Text.ReplaceCharRemoves | modules/diagnostic.py:68 | after replacing a character by a string without it, the character no longer occurs |
| Text.StripLeft | modules/diagnostic.py:68 | the result is a suffix, the removed characters are whitespace, and the first kept one is not |
| Text.StripRight | modules/diagnostic.py:68 | the result is a prefix, the removed characters are whitespace, and the last kept one is not |
| Diagnostic.SafeName | modules/diagnostic.py:37 | same length as the name; letters and digits kept in place, everything else `_`; only letters, digits and `_` remain |
| Diagnostic.SafeNameIdempotent | modules/diagnostic.py:37 | sanitising twice is sanitising once |
| Diagnostic.SafeNameCollides | modules/diagnostic.py:37 | names that differ only outside letters and digits share a file name |
| Diagnostic.ReportFileName | modules/diagnostic.py:37-39 | the name is "diag_", the sanitised name, "_", the timestamp and ".json", at their positions |
| Diagnostic.ReportFileNameStaysInLogs | modules/diagnostic.py:37-40 | with a timestamp of digits and `_`, the name holds no path separator and no dot except that of ".json" |
| Diagnostic.DropQuotes | modules/diagnostic.py:68 | after `.replace('"', '')` no quote is left |
| Diagnostic.CleanOsName | modules/diagnostic.py:68-69 | the name has no `"` and is never empty, and an empty clean-up becomes "Linux inconnu" |
| Diagnostic.CleanOsNameOfLine | modules/diagnostic.py:67-69 | the line PRETTY_NAME="x" with its newline gives back x, for any non-empty x without quotes or the key |
| Diagnostic.CleanOsNameFallback | modules/diagnostic.py:68-69 | an empty answer and an empty quoted value both become "Linux inconnu" |
| Diagnostic.PortStatus | modules/diagnostic.py:105 | "OUVERT" iff the connect result is 0, "FERMÉ" iff it is not |
| Diagnostic.EffectiveType | modules/diagnostic.py:165-167 | the configured type when it is "local" or detection is "unknown", the detected type otherwise |
| Diagnostic.PortStatusTellsOpen | modules/diagnostic.py:105 | two connect results give the same word iff both or neither are 0 |
| Diagnostic.EffectiveTypeKnown | modules/diagnostic.py:165-167 | the type used is "unknown" only when "unknown" was configured |
| Diagnostic.EffectiveTypeIdempotent | modules/diagnostic.py:165-167 | applying the override again with the same detection changes nothing |
| Scenarios.Example2015 | modules/audit.py:40-64 | with an end of life of 2015-01-01, any day from 2016 on is obsolete and any day up to 2014 is supported |
| Scenarios.DefaultBase | modules/audit.py:78-79 | with no configured subnet the base is 192.168.10 |
| Scenarios.SingleObsoleteHost | modules/audit.py:78-97 | if only 192.168.10.40 answers, its service dates CentOS 7's end of life 2015-01-01 and its clock reads 2016 or later, the scan gives exactly one row: that host, "CentOS 7", obsolete, "2015-01-01" |

## Left out

- HTTP (`requests.get`), its timeout and the decoding of JSON are not modelled.
  The service is a function from URL to reply. JSON numbers are integers only:
  a float `eol` would behave like an integer of the same truthiness. A JSON array
  or object is kept only as its number of elements, the one thing the program
  looks at.
- `ping_host`'s subprocess and the platform test are not modelled. Liveness is
  an oracle.
- `datetime.now()` is the `now` parameter. The file's timestamp is taken as an
  input string.
- The writing of the CSV report and the JSON diagnostic report, the creation
  of the logs directory, and every `print` are not modelled. Only the decision
  whether the CSV is written is modelled.
- `config.get("network", {})` on a `network` value that is not a dictionary
  would raise AttributeError. The model takes the configured subnet as an
  optional string.
- The rest of `modules/diagnostic.py` is not modelled: SSH and paramiko,
  psutil, sockets, `detect_os_type`, and the menu loop of `run_diagnostic`.
  Only the four fragments above are modelled. The bytes-to-string `decode()` of
  the SSH output is taken as already done.
- `modules/backup.py` and `main.py` are not part of this model. They hold the
  mysqldump plumbing and the interactive menu.
- Diagnostic.SafeName: `isalnum` is modelled on ASCII letters and digits only.
  Python also keeps other Unicode letters and digits.
- Calendar.ParseIsoDate: digits are ASCII only. Python's `\d` in `strptime`
  also accepts other Unicode decimal digits.
- Text.StripLeft, Text.StripRight: whitespace is the ASCII and Unicode
  whitespace list of `str.isspace`, written out as characters.
