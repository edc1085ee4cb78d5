# Vaisala barometer driver, modelled in Dafny

The driver in `drivers.py` talks to a Vaisala barometer over telnet. It
keeps the last pressure, temperature and relative humidity in memory,
together with a time stamp. A getter refreshes the three readings only when
the time stamp is older than the time to live. A refresh does three things:

- it opens a session if none is held (connect, wait for the `>` prompt,
  install the output format, wait for the prompt again);
- it sends `SEND\r`, skips the echoed line and reads the measurement line;
- it extracts `P=`, `T=` and `RH=` from that line with one regular
  expression each.

Any failure drops the session and is raised again. The refresh is wrapped
in a `retry` decorator: up to 200 attempts, sleeping 1 second before the
second attempt and 1.1 times longer before each later one.

The project has five modules:

- `Outcomes` (outcomes.dfy): Python's `None`, the two exceptions the
  driver can raise, and the outcome of a call (a returned value or a raised
  exception).
- `Measurement` (measurement.dfy) is pure code:
  - a scanner for the one pattern `[ \t]*LABEL=[ \t]*(-?[0-9.]+)(e-?[0-9]+)?`;
  - the same pattern stated declaratively, with soundness and completeness
    lemmas that link it to the scanner;
  - `float()` on the matched literal, as an exact decimal;
  - `_extract_measurement` and `parse_response`.
- `Retry` (retry.dfy) describes a run of the decorator as a relation:
  - which call outcomes a run may consist of;
  - the sleeps between the calls.
- `Telnet` (telnet.dfy) is the transport: a `Link` object that plays back a
  script of replies, one per operation, and keeps a ghost log of the
  operations performed.
- `Drivers` (drivers.dfy) holds the `VaisalaDriver` class:
  - its fields are the three readings, the time stamp and whether a session
    is held, plus a ghost counter `refreshes` of the refreshes the getters
    have started;
  - its methods are the session property, the refresh and the decorator's
    loop around it, and the getters;
  - each method's contract gives the new state and the operations performed
    on the link; the retrying loop's contract chains its attempts one after
    the other on the link;
  - when the cache has expired, the refresh, the getters and the triple of
    getters hand out that chain of attempts as ghost outputs, so their
    contracts state that the decorated `update_info` ran, with its 200
    tries and its sleeps of 1 second growing 1.1 times after each failure.

The clock and the network are inputs to the model:

- Each getter receives the current instant `now`, in microseconds.
- The replies of the instrument are the link's script.
- The sleeps are returned as the sequence of their durations instead of
  being slept.

## Model

The contracts below use these definitions, which have no rows of their own:

- `Telnet.Answer`: what one transport operation returns or raises;
- `Drivers.Handshake`: the handshake, drivers.py:70-73;
- `Drivers.Exchange`: the exchange, drivers.py:79-81;
- `Drivers.AttemptOps`: the operations of one attempt;
- `Drivers.Attempted`: one attempt's operations, outcome and readings;
- `Drivers.Attempts`: a chain of attempts;
- `Drivers.LastLineParsed`: the last line read between two link positions, and its parse;
- `Drivers.VaisalaDriver.Refreshed`: a run of the decorated `update_info`,
  drivers.py:29-44 and 75-88, chained on the link, with its sleeps;
- `Drivers.Expired`: `is_info_expired`, drivers.py:118-120;
- `Drivers.OneRefreshWindow`: three getters at three instants find fresh
  whatever stamp the first leaves, drivers.py:90-100 and 118-120;
- `Measurement.Extract`: `_extract_measurement`, drivers.py:108-116;
- `Measurement.Parse` and `Measurement.AssignedBy`: `parse_response`,
  drivers.py:102-106;
- `Measurement.Mantissa` and `Measurement.ToDecimal`: `float()` on the
  matched literal, drivers.py:114;
- `Retry.Retried`: a run of the decorator's loop, drivers.py:29-44.

| member | source | states |
|---|---|---|
| `Measurement.ExponentAt` | drivers.py:111 | Group 2 as the scanner takes it is exactly the text that stands at its position |
| `Measurement.MatchAt` | drivers.py:111-112 | The scanner reports a match at position j only when the label and `=` stand there |
| `Measurement.Find` | drivers.py:112 | The position found matches, and no earlier position from the start does; no position found means none matches |
| `Measurement.Search` | drivers.py:112 | `re.search` gives no match exactly when no position matches; otherwise it gives the match at the first position that has one |
| `Measurement.SearchFindsFirstMatch` | drivers.py:112 | A match at j, with none before it, is what the search returns |
| `Measurement.MatchAtSound` | drivers.py:111-112 | Every scanner match is a token of the pattern: label, `=`, blanks, then greedy groups 1 and 2 spelled in the text |
| `Measurement.MatchAtComplete` | drivers.py:111-112 | Every token of the pattern is exactly what the scanner finds at its label |
| `Measurement.GroupsAtSound` | drivers.py:111 | The groups taken after the blanks have the shapes `-?[0-9.]+` and `(e-?[0-9]+)?` and could not have been extended |
| `Measurement.GroupsAtComplete` | drivers.py:111 | Groups spelled in the text and not extendable are what the scanner takes |
| `Measurement.ExtractsEmbeddedToken` | drivers.py:111-113 | In a line built around one token, with no earlier match, the search returns that token's groups |
| `Measurement.NoLabelNoMatch` | drivers.py:112-116 | A line without the label's first character has no match |
| `Measurement.ExtractsToken` | drivers.py:111-116 | For `LABEL=` and one token, extraction returns float() of group 1 joined with group 2, or raises ValueError exactly when the `[0-9.]+` part has two dots or no digit |
| `Measurement.ExponentSpellingsNotConsumed` | drivers.py:111-113 | `E` and `e+` are not part of the match; the literal is group 1 alone |
| `Measurement.MantissaOfParts` | drivers.py:114 | float() of digits, a dot and digits is the digits as one integer, scaled by the number of fraction digits |
| `Measurement.MantissaOfWhole` | drivers.py:114 | float() of digits alone is their integer value |
| `Measurement.MantissaFailsExactly` | drivers.py:114 | float() rejects a `[0-9.]+` part exactly when it has more than one dot or no digit |
| `Measurement.ConvertsByParts` | drivers.py:113-114 | float() of a matched literal is the mantissa, negated after `-` and scaled by the exponent group; it fails exactly when the mantissa does |
| `Measurement.ConversionFailsExactly` | drivers.py:113-116 | The ValueError that propagates out of extraction happens exactly for two dots or no digit |
| `Measurement.JoinedLiteralValue` | drivers.py:113-114 | `-5.0e-2` converts with its exponent to -50 * 10^-3 |
| `Measurement.JoinedLiteralIsReal` | drivers.py:114 | That decimal is the real number -0.05 |
| `Measurement.LabelThenLiteral` | drivers.py:111-113 | A label, `=` and group 1 alone match, with that group as the literal |
| `Measurement.RejectedLiteralRaises` | drivers.py:112-116 | After a label, an unsigned `[0-9.]+` literal float() rejects is matched, and extraction raises ValueError with it instead of returning None |
| `Measurement.TwoDotsRaise` | drivers.py:112-116 | `1.2.3` after any label, such as `P=1.2.3`, matches the pattern, float() rejects it, and extraction raises ValueError |
| `Measurement.LoneDotRaises` | drivers.py:112-116 | `.` after any label, such as `P=.`, matches the pattern, float() rejects it, and extraction raises ValueError |
| `Measurement.ParseAgreesWithAssignments` | drivers.py:102-106 | The parse returns exactly when all three extractions return, and the fields then hold its triple; a raise leaves the later fields untouched, and a pressure failure leaves all three |
| `Retry.Budget` | drivers.py:30-44 | Its value is `max(tries, 1)`, the number of calls the loop and the final call allow; `Retried` bounds a run's calls by it |
| `Retry.Delays` | drivers.py:41-43 | The k-th sleep is the delay multiplied k times by the backoff |
| `Retry.NextDelay` | drivers.py:43 | Multiplying the current delay by the backoff gives the next sleep's delay |
| `Retry.RetriedIsDetermined` | drivers.py:31-44 | Given the outcomes of the calls, the run is determined: no run extends another |
| `Retry.FirstReturnEndsRun` | drivers.py:33 | The first call that returns is the last call, and its value is the result |
| `Retry.ExhaustionRaisesLast` | drivers.py:31-44 | When every call raises a caught exception, the budget is used up and the final call's exception propagates |
| `Retry.SleepsWithinBudget` | drivers.py:31-43 | At most `tries - 1` sleeps happen |
| `Retry.DelaysGrow` | drivers.py:43 | With a backoff of at least 1 the sleeps never get shorter |
| `Telnet.Reached` | drivers.py:70-81 | A sequence of operations that stops at the first failure ends within its range, and at its end when all of them answer |
| `Telnet.ReachedStopsAtFirstFailure` | drivers.py:70-81 | A run that does not complete stops just after its first failing operation |
| `Telnet.StopsWhereReached` | drivers.py:70-81 | The declarative stopping position equals the one the step-by-step run reaches |
| `Telnet.RanJoins` | drivers.py:70-81 | A session followed by the exchange, the exchange only after a complete session, is one run of both operation lists |
| `Telnet.Link.Perform` | drivers.py:70-81 | One operation consumes the next reply, is appended to the log, and returns or raises what that reply says |
| `Drivers.ExpiryIsStrict` | drivers.py:118-120 | A reading exactly as old as the time to live is fresh; one microsecond later it has expired |
| `Drivers.FreshnessWindow` | drivers.py:118-120 | A reading is fresh from its time stamp up to and including the time to live later, and never fresh with a negative time to live |
| `Drivers.ExpiryIsMonotone` | drivers.py:118-120 | Once the cache has expired, it stays expired as time advances |
| `Drivers.AttemptsExtend` | drivers.py:31-44 | One more attempt, starting where the run stands, extends the run of attempts |
| `Drivers.AttemptAdvances` | drivers.py:69-81 | Every refresh attempt performs at least one operation on the link |
| `Drivers.AttemptsAdvance` | drivers.py:31-44 | A run of k attempts moves the link on by at least k operations |
| `Drivers.ReturnIsParsedLine` | drivers.py:81-84 | An attempt that returns read a line, returns its parse, and leaves the three fields holding that triple |
| `Drivers.VaisalaDriver.constructor` | drivers.py:57-65 | A new driver has no readings, no time stamp and no session, and keeps the host, port and time to live it was given |
| `Drivers.VaisalaDriver.Session` | drivers.py:67-74 | With a session held, no operation is performed and the call returns; otherwise the handshake runs up to its first failure, and the handle is held from the moment the connection succeeds |
| `Drivers.VaisalaDriver.Connect` | drivers.py:69-73 | The handshake's four operations run in order up to the first failure; it returns exactly when all four answer |
| `Drivers.VaisalaDriver.ParseResponse` | drivers.py:102-106 | The result is the parse of the line, and the fields are the ones the in-order assignments leave |
| `Drivers.VaisalaDriver.RequestLine` | drivers.py:79-81 | `SEND\r`, skip a line, read a line, up to the first failure; the result is the last line read |
| `Drivers.VaisalaDriver.FetchLine` | drivers.py:78-81 | The session, when needed, followed by the exchange is one run of the attempt's operations; it returns the last line exactly when all of them answer; afterwards a session is held exactly when one was before or the connection was opened, even if a later handshake step failed |
| `Drivers.VaisalaDriver.AttemptUpdate` | drivers.py:76-88 | One attempt: on success, the fields hold the parse triple, the time stamp is now and the session is held; on any failure, the session is dropped, the time stamp is unchanged and the error is raised again |
| `Drivers.VaisalaDriver.Retrying` | drivers.py:29-44 | Each call is a real attempt on the link, chained from where the link stood to where it stands; the outcomes form a run of the decorator, the sleeps are the geometric delays, and the driver is left as the last attempt left it |
| `Drivers.VaisalaDriver.UpdateInfo` | drivers.py:76-88 | The decorated refresh makes at most 200 chained attempts, sleeping 1 and then 1.1 times longer each time; a raise comes only after all 200 have failed; a return is the parse of the line the last attempt read |
| `Drivers.VaisalaDriver.RefreshIfExpired` | drivers.py:91 | Fresh: no call, and the driver and the link untouched. Expired: the decorated `update_info` runs, as a chain of attempts on the link of at most 200 calls, sleeping 1 second and then 1.1 times longer after each failure, that raises only after all 200 failed; the refresh raises exactly when its last call did, with that error, and otherwise the readings are stamped now and are the parse of a line read |
| `Drivers.VaisalaDriver.GetPressure` | drivers.py:90-92 | Fresh: no call and the cached pressure. Expired: the decorated `update_info` runs as a chain of attempts on the link, at most 200, sleeping 1 second and then 1.1 times longer after each failure; the getter raises exactly when its last call raised, and otherwise returns the refreshed pressure, stamped now and parsed from a line read |
| `Drivers.VaisalaDriver.GetTemperature` | drivers.py:94-96 | Fresh: no call and the cached temperature. Expired: the decorated `update_info` runs as a chain of attempts on the link, at most 200, sleeping 1 second and then 1.1 times longer after each failure; the getter raises exactly when its last call raised, and otherwise returns the refreshed temperature, stamped now and parsed from a line read |
| `Drivers.VaisalaDriver.GetRelativeHumidity` | drivers.py:98-100 | Fresh: no call and the cached humidity. Expired: the decorated `update_info` runs as a chain of attempts on the link, at most 200, sleeping 1 second and then 1.1 times longer after each failure; the getter raises exactly when its last call raised, and otherwise returns the refreshed humidity, stamped now and parsed from a line read |
| `Drivers.VaisalaDriver.ReadAll` | main.py:28-30 | The three getters, each at its own instant. When the later two find fresh the stamp the first leaves: fresh, no call and the cached triple; expired, exactly one run of the decorated `update_info` (200 tries, sleeps 1 s then ×1.1), chained on the link, which decides whether the triple raises, and otherwise the triple is the parse of a line read. Instants in order within ttl of the first: at most one refresh. Negative ttl, instants in order, expired: three refreshes |
| `Drivers.OneInstantIsOneWindow` | drivers.py:118-120 | With a non-negative ttl, three getters at one instant find fresh the stamp the first leaves |
| `Drivers.ZeroTtlRefreshesAgain` | drivers.py:118-120 | With a ttl of zero, a getter at a later instant than the refresh that stamped the cache finds it expired and refreshes again |

## Left out

- Telnet I/O, the network and the instrument are not modelled. Each
  operation takes the next reply of a script given in advance, and timeouts
  of `read_until` are not modelled.
- Every transport failure is one error, `TransportFault`. The model does
  not tell a refused connection from a reset or an end of stream.
- `Drivers.VaisalaDriver.constructor` takes the time to live in
  microseconds, as `timedelta(seconds=time_to_live_s)` holds it. The
  rounding of a fractional number of seconds to microseconds is not
  modelled.
- `datetime.now()` is not modelled. Each getter receives one instant
  `now`, and the refresh it triggers stamps that same instant, although the
  clock would have advanced during the refresh.
- `time.sleep` is not modelled. The sleeps are returned as a sequence of
  durations. The `%d` rounding of the delay in the log message is not
  modelled either.
- Logging and `print` in the decorator are left out.
- The `__main__` demo of drivers.py is left out.
- main.py (scheduler, MQTT, environment, JSON) is not part of this model.
  The exception is the order of its three getter calls, which `ReadAll`
  follows.
- `float()` is modelled as an exact decimal (coefficient and power of
  ten). The model covers only the literals the pattern lets through; binary
  rounding is left out.
- Python's `re` engine is not modelled in general. Only the one pattern is
  scanned, over a string with one character per byte.
- When a session is dropped, the model does not close the old telnet
  object. The source does not close it either.
- The decorator catches `Exception`, and every error of the model is one.
  `BaseException`s such as `KeyboardInterrupt` are not modelled.
- `Retry.Delays` gives each sleep as `delay * backoff^k`. The model does
  not prove a closed form for the total time slept.
- `Drivers.VaisalaDriver.ReadAll`: each getter's instant is both the
  instant it compares against the stamp and the stamp its refresh leaves,
  so a getter that follows a refresh sees the clock no later than the
  refresh stamped it. When the later two getters' instants fall outside
  the window of the first getter's stamp, the contract promises only
  the bound on refreshes for ordered instants. With a negative time to live, every
  getter refreshes. The contract then promises only three refreshes on
  success, and does not relate the returned triple to the fields, because
  the three values may come from different refreshes. Its ghost outputs
  then give no chain of attempts: they describe only the temperature
  getter's run, and no contract is stated about them.
- `_extract_measurement` catches only `AttributeError` (drivers.py:115),
  so `float()`'s `ValueError` propagates. The model raises `NotANumber`,
  which drops the session and is retried like any other failure.
