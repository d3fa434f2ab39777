# Admission helpers and session pool of the SRI lookup API

This project models the core of the Python service that answers taxpayer
lookups against Ecuador's tax authority (SRI), and proves properties of that
model. The core has three parts:

- **The security middleware** (`python-api/middleware/security.py`):
  - the RUC/cédula format check;
  - the case-insensitive scan for suspicious patterns (SQL keywords, script
    tags, path traversal, shell calls);
  - the test that an address belongs to a loopback or private IPv4 range;
  - the sliding-window rate limiter. One table of per-address timestamps is
    shared by every endpoint that applies a limit.
- **The Ecuadorian cédula check-digit algorithm and its report wrapper**
  (`python-api/sri_fallback_manager.py`).
- **The round-robin pool of authenticated scraping sessions**
  (`python-api/sri_hybrid_manager.py`): initialisation, selection of the next
  free session, the status report, and closing.

Where the source is pure, the model is pure: datatypes, functions and lemmas
(`Security`, `Text`, most of `Cedula`). The rate limiter is a class whose
`requests` map is updated in place by `IsAllowed`. `IsAllowed` is proved
equal to the function `Admit`, and the limiter's properties are proved about
`Admit`. The cédula validator keeps the source's summing loop, proved against
the recursive `WeightedSum`. The session pool is a class holding the session
list and the round-robin cursor. Its selection loop is proved equal to the
function `Select`, and the round-robin properties are stated about `Select`.

Files:

| file | module | contents |
|---|---|---|
| `wrappers.dfy` | `Wrappers` | `Option` |
| `text.dfy` | `Text` | ASCII digits, `int(s)` / `str(n)`, `str.lower`, `p in s`, `s.split(sep)` / `sep.join` |
| `security.dfy` | `Security` | format check, pattern scan, IPv4 parsing and internal ranges |
| `rate_limiter.dfy` | `RateLimiting` | `Admit`, its lemmas, the `SimpleRateLimiter` class |
| `cedula.dfy` | `Cedula` | check digit, validator loop, report |
| `hybrid_pool.dfy` | `HybridPool` | `Select`, status counts, the `SRIHybridPool` class |

## Model

| member | source | states |
|---|---|---|
| Text.Decimal | python-api/sri_hybrid_manager.py:344 | `str(n)` is a non-empty string of digits, has value `n` and has no leading zero |
| Text.DecimalValue | python-api/sri_fallback_manager.py:183 | `int(s)` of a two-digit string is ten times the first digit plus the second; `DecimalOfCanonical` gives the rest of its meaning |
| Text.DecimalOfCanonical | python-api/middleware/security.py:57 | reading a decimal spelling without leading zeros and printing the value gives the spelling back |
| Text.Lower | python-api/middleware/security.py:103 | lower-casing keeps the length and lower-cases each character |
| Text.LowerIdempotent | python-api/middleware/security.py:103-106 | lower-casing twice is the same as lower-casing once |
| Text.Contains | python-api/middleware/security.py:106 | `p in s` only when `p` is no longer than `s`; `ContainsIff` gives its full meaning |
| Text.ContainsIff | python-api/middleware/security.py:106 | `p in s` holds exactly when `p` occurs at some position of `s` |
| Text.ContainedInDigits | python-api/middleware/security.py:106 | anything found inside a string of digits is itself made of digits |
| Text.Split | python-api/middleware/security.py:57 | a split has at least one piece and no piece holds the separator; `JoinOfSplit` and `SplitOfJoin` make it the inverse of joining |
| Text.JoinOfSplit | python-api/middleware/security.py:57 | joining the pieces of a split gives back the original string |
| Text.SplitOfJoin | python-api/middleware/security.py:57 | splitting a join of separator-free pieces gives back the pieces |
| Security.ValidateRucFormat | python-api/middleware/security.py:71-92 | valid exactly for non-empty all-digit strings of length 10 or 13 whose province code is 1..24; valid exactly when the message is empty; each failing rule gives its own message, in the source's order |
| Security.FirstMatch | python-api/middleware/security.py:105-107 | the index returned is a matching pattern and no earlier pattern matches; `None` only if no pattern from there on matches |
| Security.DetectSuspiciousPatterns | python-api/middleware/security.py:94-109 | flagged exactly when some pattern occurs in the lower-cased data; the message names the first such pattern in list order; unflagged gives `(false, "")` |
| Security.DetectIgnoresCase | python-api/middleware/security.py:103-106 | the scan gives the same answer for the data and for its lower-cased form |
| Security.PatternsHaveNonDigit | python-api/middleware/security.py:96-101 | every lower-cased pattern contains a non-digit |
| Security.DigitsAreNeverSuspicious | python-api/middleware/security.py:94-109 | a string of digits is never flagged |
| Security.WellFormedIdsPassDetection | python-api/main.py:506-514 | an identifier that passes the format check always passes the pattern scan that follows it |
| Security.SqlKeywordTakesPriority | python-api/middleware/security.py:96-107 | data containing "select" in any case is reported as `SELECT`, whatever else it contains |
| Security.ParseOctet | python-api/middleware/security.py:57 | an accepted octet is all digits, has the decimal value of the text, is at most 255, and the text is its canonical spelling (so leading zeros and more than three digits are refused) |
| Security.ParseIPv4 | python-api/middleware/security.py:57 | a parsed address has four octets of at most 255 |
| Security.FormatOfParse | python-api/middleware/security.py:57 | any accepted text is exactly the canonical dotted quad of the parsed address: parsing is strict |
| Security.ParseOfFormat | python-api/middleware/security.py:57 | printing an address as a dotted quad and parsing it back gives the same address |
| Security.BlockSizes | python-api/middleware/security.py:60-65 | /8, /12 and /16 blocks hold 2^24, 2^20 and 2^16 addresses |
| Security.IsInternalDockerIp | python-api/middleware/security.py:54-69 | only a parseable address is internal (a parse error gives false); `InternalIff` gives the exact ranges |
| Security.InRangesIff | python-api/middleware/security.py:60-67 | an address lies in one of the four CIDR blocks exactly when its octets fall in 127.x, 10.x, 172.16-31.x or 192.168.x |
| Security.InternalIff | python-api/middleware/security.py:54-69 | an address is internal exactly when it parses and lies in 127/8, 10/8, 172.16/12 or 192.168/16 |
| Security.UnparseableIsExternal | python-api/middleware/security.py:68-69 | text that does not parse as an IPv4 address is never internal |
| RateLimiting.Prune | python-api/middleware/security.py:123-126 | the pruned list is no longer than the original, and every timestamp in it is inside the window |
| RateLimiting.PruneKeepsExactlyRecent | python-api/middleware/security.py:123-126 | pruning keeps each in-window timestamp exactly as often as it was stored, and nothing else |
| RateLimiting.PruneAppend | python-api/middleware/security.py:123-126 | pruning a concatenation prunes each part, so the stored order is kept |
| RateLimiting.PruneLengthIsCount | python-api/middleware/security.py:123-129 | the pruned length is the number of timestamps inside the window |
| RateLimiting.Admit | python-api/middleware/security.py:116-134 | the caller's entry exists afterwards and grows by at most one; an admitted call ends with `now` and leaves at most `limit` timestamps; a refused one leaves at least `limit`; `AdmitDecision` gives it exactly |
| RateLimiting.AdmitDecision | python-api/middleware/security.py:116-134 | a call is refused exactly when `limit` or more timestamps are in the window; the pruned list is stored, with `now` appended only on admission |
| RateLimiting.AdmitLeavesOthersAlone | python-api/middleware/security.py:116-134 | the table gains at most the caller's key, and every other address's entry is unchanged |
| RateLimiting.AdmitUnseenAddress | python-api/middleware/security.py:119-134 | a first call from an unseen address is admitted with history `[now]` when the limit is positive, and refused with an empty history otherwise |
| RateLimiting.AdmitKeepsBound | python-api/middleware/security.py:128-134 | under one fixed limit, no entry ever grows beyond the limit |
| RateLimiting.ReplayKeepsBound | python-api/middleware/security.py:116-134 | after any sequence of calls that all use one limit, starting from an empty table, every entry holds at most `limit` timestamps |
| RateLimiting.AdmitRecentHistory | python-api/middleware/security.py:122-134 | when nothing has expired and the limit is not reached, a call just appends `now` |
| RateLimiting.PruneAllRecent | python-api/middleware/security.py:123-126 | pruning a list whose timestamps are all recent leaves it unchanged |
| RateLimiting.ReplayBurst | python-api/middleware/security.py:116-134 | `n` same-instant calls under a limit of at least `n` are all remembered |
| RateLimiting.SharedTableExceedsSmallerLimit | python-api/middleware/security.py:136 | the one shared table is bounded per limit only: six calls admitted under limit 20 make a limit-5 call fail with six timestamps still stored |
| RateLimiting.SimpleRateLimiter.constructor | python-api/middleware/security.py:113-114 | a new limiter has an empty table |
| RateLimiting.SimpleRateLimiter.IsAllowed | python-api/middleware/security.py:116-134 | the answer and the new table are exactly those of `Admit` on the old table; the limit and window default to 10 and 60 |
| Cedula.Term | python-api/sri_fallback_manager.py:192-198 | each term is at most 9; odd positions keep the digit; even positions are congruent to twice the digit modulo 9, 9 stays 9, and only 0 gives 0 |
| Cedula.DigitValues | python-api/sri_fallback_manager.py:187 | the digit list has one value of at most 9 per character |
| Cedula.WeightedSum | python-api/sri_fallback_manager.py:190-198 | the weighted sum is at most 9 per digit |
| Cedula.CheckDigit | python-api/sri_fallback_manager.py:200-201 | the `decena` formula gives a digit that brings the sum to a multiple of ten |
| Cedula.CheckDigitCompletesTen | python-api/sri_fallback_manager.py:200-201 | the check digit equals `(10 - sum % 10) % 10` |
| Cedula.CheckDigitIsUnique | python-api/sri_fallback_manager.py:200-201 | no other digit brings the sum to a multiple of ten |
| Cedula.NineDigitSumAtMost81 | python-api/sri_fallback_manager.py:190-198 | the sum over nine digits is at most 81 |
| Cedula.AppendCheckCharacter | python-api/sri_fallback_manager.py:183-188 | a tenth digit changes neither the province code nor the expected check digit of the first nine |
| Cedula.IsValidCedula | python-api/sri_fallback_manager.py:178-201 | every accepted cédula is a well-formed identifier; `ExactlyOneCheckDigit` and `ValidarCedulaEcuatoriana` give its meaning |
| Cedula.ExactlyOneCheckDigit | python-api/sri_fallback_manager.py:178-201 | for nine digits starting with a valid province code, a tenth digit gives a valid cédula exactly when it is the check digit, and that digit does |
| Cedula.ChangedCheckDigitIsInvalid | python-api/sri_fallback_manager.py:178-201 | replacing the last character of a valid cédula by any other character makes it invalid |
| Cedula.ValidCedulaIsWellFormedId | python-api/sri_fallback_manager.py:180-185 | every accepted cédula also passes `validate_ruc_format` with `(true, "")` |
| Cedula.ValidarCedulaEcuatoriana | python-api/sri_fallback_manager.py:178-201 | the validator's loop accepts exactly the valid cédulas: ten digits, province 1..24, matching check digit |
| Cedula.ValidarCedulaEcuatorianaSync | python-api/sri_fallback_manager.py:299-308 | the report echoes the input and the verdict, and says "Cédula válida" exactly when the input is valid, the algorithm message otherwise |
| HybridPool.Probe | python-api/sri_hybrid_manager.py:377-378 | attempt `k` of a lap examines position `(start + k) % n`, inside the list |
| HybridPool.ProbeStep | python-api/sri_hybrid_manager.py:378 | the cursor step `(cursor + 1) % n` moves the scan to its next attempt |
| HybridPool.FirstEligible | python-api/sri_hybrid_manager.py:376-383 | the attempt returned finds an idle, authenticated session and every earlier attempt does not; `None` only if no remaining attempt does |
| HybridPool.Select | python-api/sri_hybrid_manager.py:369-385 | the cursor stays in range and any session handed out is in the pool, idle and authenticated; `SelectFindsFirstEligible`, `SelectNoneIff` and `SelectRoundRobin` give the rest |
| HybridPool.SelectFromEmpty | python-api/sri_hybrid_manager.py:372-373 | an empty pool hands out nothing and leaves the cursor alone |
| HybridPool.EveryPositionExamined | python-api/sri_hybrid_manager.py:376-385 | one lap of attempts from any cursor examines every position |
| HybridPool.SelectFindsFirstEligible | python-api/sri_hybrid_manager.py:369-385 | the session handed out is the first eligible one in cyclic order from the cursor, and the cursor ends one step past it |
| HybridPool.SelectNoneIff | python-api/sri_hybrid_manager.py:369-385 | nothing is handed out exactly when no session is idle and authenticated; the cursor then comes back to where it was |
| HybridPool.SelectKeepsCursorInRange | python-api/sri_hybrid_manager.py:378 | the cursor stays a valid index of a non-empty pool |
| HybridPool.SelectRoundRobin | python-api/sri_hybrid_manager.py:369-385 | when every session is eligible, the pool hands out the session under the cursor and advances the cursor by one, cyclically |
| HybridPool.CountBusy | python-api/sri_hybrid_manager.py:403 | the busy count is at most the pool size; `BusyPlusIdle` relates it to the idle count |
| HybridPool.CountAuthenticated | python-api/sri_hybrid_manager.py:410 | the authenticated count is at most the pool size, and at least the eligible count (`EligibleAtMostIdleAndAuthenticated`) |
| HybridPool.BusyPlusIdle | python-api/sri_hybrid_manager.py:402-408 | busy plus idle sessions make up the whole pool |
| HybridPool.EligibleAtMostIdleAndAuthenticated | python-api/sri_hybrid_manager.py:400-411 | there are no more eligible sessions than idle ones or authenticated ones |
| HybridPool.CountEligiblePositive | python-api/sri_hybrid_manager.py:380 | the count of eligible sessions is positive exactly when some session is eligible |
| HybridPool.ReadySessionsAreEligible | python-api/sri_hybrid_manager.py:341-350 | initialisation keeps one session per successful login, and each is idle and authenticated |
| HybridPool.SRIHybridPool.constructor | python-api/sri_hybrid_manager.py:330-334 | a new pool has no sessions, its cursor at 0, and the requested size |
| HybridPool.SRIHybridPool.Initialize | python-api/sri_hybrid_manager.py:336-367 | the loop appends, in slot order, the sessions whose login succeeded, named `HYBRID-<slot+1>`, and returns how many the pool holds |
| HybridPool.SRIHybridPool.GetAvailableSession | python-api/sri_hybrid_manager.py:369-385 | the loop leaves the sessions alone, and its result and new cursor are exactly those of `Select` on the old cursor |
| HybridPool.SRIHybridPool.SetBusy | python-api/sri_hybrid_manager.py:195-270 | only the busy flag of the one session changes |
| HybridPool.SRIHybridPool.GetPoolStatus | python-api/sri_hybrid_manager.py:400-411 | the report is typed `hybrid_pool`; the total is the pool size; busy and authenticated are the counts of sessions with those flags; available is total minus busy, which is the number of idle sessions and at least the number selection could hand out |
| HybridPool.SRIHybridPool.CloseAll | python-api/sri_hybrid_manager.py:413-418 | the pool is emptied and the invariant holds |
| HybridPool.CloseThenSelect | python-api/sri_hybrid_manager.py:413-418 | after closing, selection hands out nothing |

## Left out

- I/O is not modelled: the Selenium login, the aiohttp calls, session closing and logging. The outcome of each slot's login is a `seq<bool>` that `Initialize` takes as a parameter.
- Time is not modelled. `is_allowed` reads `time.time()`, a float; the model takes an integer `now`. `now` is the second parameter of `IsAllowed`, so that the defaulted `limit` and `window` can come last, as in the source. The two-second sleep between logins is not modelled.
- Concurrency is not modelled. The pool's `asyncio.Lock` and `consultar_concurrente`'s `gather` are out; each method runs as one atomic step.
- The FastAPI layer is left out: `require_internal_access`, `apply_rate_limit` and the endpoints in `main.py`. Only the facts the endpoints rely on are stated, in `WellFormedIdsPassDetection` and `SharedTableExceedsSmallerLimit`.
- Only ASCII is modelled. Python's `str.isdigit` also accepts other Unicode digits, and `str.lower` folds non-ASCII letters; the model handles ASCII digits and letters only.
- Security.ValidateRucFormat: the non-string argument case and the `ValueError` branch (security.py:89-90) are not modelled. The argument is always a string here, so "not a string" is reached by the empty string only. `int()` never fails on ASCII digits.
- Security.IsInternalDockerIp: IPv6 is not modelled. IPv6 text never parses as IPv4 here, so an IPv6 address is never internal. Python's `ipaddress` would accept `::1`, which is still outside the four IPv4 ranges, so the answer is the same.
- HybridPool.SRIHybridPool.Initialize: requires the cursor to be 0 when the pool is empty. The source keeps the old cursor after `close_all`, and `main.py` always builds a new pool instead of re-initialising a closed one (main.py:388-392).
- HybridPool.SRIHybridPool.CloseAll: `session.close()` and its exceptions are not modelled, only `sessions.clear()`.
- A session is reduced to its identifier and its two flags. `SRIHybridSession`'s HTTP work is not part of this model: `consultar_contribuyente_rapido`, the view-state refresh and XML extraction. Its effect on the pool, setting and clearing `is_busy`, is `SetBusy`.
- `SRIFallbackManager`'s HTTP lookups and `SmartSRIManager` are not part of this model. Neither are the credentials and URLs.
