# Mizan: a verified model of the gateway's core

Mizan is an AI gateway. This project models its state machines, parsers and money arithmetic
in Dafny 4.11 and proves what they promise. `dafny verify dfyconfig.toml` checks all of it.

| file | models |
|---|---|
| `SseDecoder.dfy`, `SseBatch.dfy`, `Utf8.dfy` | the incremental server-sent-events decoder, the batch parser beside it, and UTF-8 |
| `SsePrinter.dfy` | event streams as a server writes them, and that both parsers read them back |
| `GatewayStream.dfy` | the stream machine that turns decoder items into events, meters once and releases its lease |
| `Handler.dfy` | the skeleton of the chat-completion handler |
| `Wallet.dfy`, `Ledger.dfy`, `Billing.dfy` | charge arithmetic, the wallet and ledger tables under concurrent transactions, and the operations on them |
| `Limits.dfy`, `LimitClients.dfy` | the runtime limiter's calls: one client alone, with the whole store; and with other clients' scripts in between |
| `LimitRuns.dfy`, `LimitLeases.dfy` | many clients' slots over every run, one rate counter over time, slots with exact expiry |
| `Dispatch.dfy`, `DispatchClient.dfy`, `Decimal.dfy` | the dispatch job protocol, its clients, and the decimal texts its deadlines are compared as |
| `DaemonNodes.dfy` | request freshness, the nonce cache, the eligibility cutoff |
| `SqlScanner.dfy`, `Redaction.dfy`, `Truncation.dfy` | the placeholder scanner, the log redactor, the output filter |
| `Metrics.dfy`, `Prometheus.dfy` | the sharded metrics registry and its label text |
| `Core.dfy`, `Text.dfy` | shared results, errors and text operations |

## How to read it

- Objects with fields are classes, loops are loops. Each method is proved against a function or
  a predicate that does not mention how the method works, and the lemmas are about those.
- What such a function means is stated in literals of the source: its texts, numbers and fields,
  either in the method's contract or in a lemma that names them (`...Means`, `...Is`, `...InNumbers`).
- One SQL statement or one script of the key store is one step. `Ledger`, `Dispatch` and
  `LimitSlots` define the steps and prove what every run of any clients keeps.
  `Billing`, `DispatchClient` and `LimitClients` are the callers: between two statements they call
  `Yield`, whose contract allows any run of other clients, and a statement may fail at any time.
- What a caller has done is recorded where it is done, not by the caller: the transactions a client
  begins, the events it writes alone and its metering calls by the database, the updates of a
  client by the job store, its slots and the answers it got by the key store. Contracts speak of
  all of them.
- JSON decoding, clocks, fresh identifiers, database failures and upstream arrivals are
  parameters or nondeterministic choices.

## What the code does, where its documentation or a reader would expect otherwise

- A waiter may report a time-out although the job has just succeeded
  (`crates/mizan-api/src/dispatch.rs:361-362`); `Dispatch.TimeOutIsTrueUnlessCompleted` says exactly when.
- A grant may saturate the balance while the ledger records the full amount; see
  `Ledger.BalanceIsSum`.
- Charges are cut to 64 bits, which breaks the preflight's promise past that; see
  `Wallet.PreflightBreaks` and `Wallet.PreflightExactly`.
- A refused request has consumed its request and token counts; see `Limits.RefusalTakesNothing`.
- A slot counter that expires under an outstanding slot lets more slots be granted than the limit
  (`LimitSlots.ExpiryIsHarmlessExactly`), and requests shorter than the lease time do not prevent
  it: the expiry is set only when the key is made (`LimitLeases.LimitHoldsExactly`).
- Times are compared as decimal text; `Decimal.TextOrderIsNumeric` says exactly when that is the
  order of the numbers.
- A query with a bare `$` before the next number cannot be told from its conversion
  (`SqlScanner.QueryIsRecoveredExactly`).
- A stream that is dropped before its end is not metered; see `GatewayStream.Serve`.
- The clock is read before the nonce cache is locked, so that readings may overtake each other;
  `DaemonNodes.AcceptedAgainExactly` says when a request is then accepted twice.
- The decoder trims all spaces before a field, does not end a line at a lone CR and ends an
  unfinished event at the end of the input, unlike section 9.2.6 of the WHATWG HTML Living
  Standard; the model follows the code.

## Model

| member | source | states |
|---|---|---|
| SseDecoder.ParseStreamEvent | crates/mizan-providers/src/lib.rs:480-516 | The chunk loop yields exactly the chunks of one event: none for `[DONE]`, one error for bad JSON, no chunk for an empty choice without a finish reason, and one bare usage chunk when only usage is reported |
| SseDecoder.ChoiceMeans | crates/mizan-providers/src/lib.rs:487-503 | Each choice by itself: one chunk with its index, its text, its finish reason and the usage of the payload, or none without text and finish reason |
| SseDecoder.PayloadMeans | crates/mizan-providers/src/lib.rs:480-516 | The four cases of a payload: the end marker, bad JSON, a usage report without a chunk, and the chunks of the choices |
| SseDecoder.SseStream.ProcessSseLine | crates/mizan-providers/src/lib.rs:443-465 | Effect of one line on partial event and queue, for text that is not UTF-8, blank, comment, data and other lines |
| SseDecoder.SseStream.FlushPendingSseEvent | crates/mizan-providers/src/lib.rs:467-478 | Ends the partial event: nothing for blank data, else its chunks at the back of the queue, or its error and an unchanged queue |
| SseDecoder.SseStream.ProcessBufferedLine | crates/mizan-providers/src/lib.rs:358-370 | Taking a buffered line changes nothing of what the stream will yield, or yields the one error that remains |
| SseDecoder.SseStream.Receive | crates/mizan-providers/src/lib.rs:372-384 | Reading a piece, of any size, changes nothing of what the stream will yield; a read error is the last item |
| SseDecoder.SseStream.FeedRest | crates/mizan-providers/src/lib.rs:386-397 | At the end of the input the unfinished line is a line and the unfinished event an event |
| SseDecoder.SseStream.Close | crates/mizan-providers/src/lib.rs:385-414 | The end of the input yields what remains, item by item, and an empty-stream error if nothing was ever yielded |
| SseDecoder.SseStream.Next | crates/mizan-providers/src/lib.rs:342-419 | Each poll returns the first of the items the whole remaining body stands for and leaves the others; it terminates by (arrivals, buffer) |
| SseDecoder.DecodeAll | crates/mizan-providers/src/lib.rs:342-419 | Polling a fresh stream to its end yields the items of the body, a function that knows nothing of pieces; what was yielded is a prefix of it at every moment |
| SseDecoder.ItemsAtLine | crates/mizan-providers/src/lib.rs:358-370 | A line complete in the buffer is the first line of everything still to come, whatever arrives later |
| SseDecoder.CutItems | crates/mizan-providers/src/lib.rs:342-419 | Chunking independence: every cut of every body (empty pieces and cuts inside a character included) gives the items of the body |
| SseDecoder.CutBrokenBody | crates/mizan-providers/src/lib.rs:376-384 | A read error after any cut: the same body, ending broken, whatever would have arrived later |
| SseDecoder.BadLineEnds | crates/mizan-providers/src/lib.rs:354-402 | A line that is not UTF-8 is an error and the end, whatever comes after it; a body that breaks off ends in the read error |
| Utf8.DecodeEncode | crates/mizan-providers/src/lib.rs:444-445 | Every text survives UTF-8 encoding and decoding |
| Utf8.EncodeDecode | crates/mizan-providers/src/lib.rs:444-445 | Bytes that decode are the encoding of the text they decode to, so validity is exact |
| Utf8.BytesOfChar | crates/mizan-providers/src/lib.rs:444-445 | The bytes of a character are those of section 3 of RFC 3629 |
| Text.WhitespaceIs | crates/mizan-core/src/redaction.rs:10 | White space is the 25 code points of the Unicode property |
| Text.TrimMeans | crates/mizan-api/src/dispatch.rs:283-284 | Trimming yields a text without white space at its ends exactly when it stands in the input with nothing but white space around it |
| SseBatch.ParseStreamEvents | crates/mizan-providers/src/lib.rs:301-340 | The batch parser's loop computes the recursive batch reading of the lines |
| SseBatch.BatchIsParsed | crates/mizan-providers/src/lib.rs:301-340 | The batch answer depends on the payloads the parser makes of the lines only, and those need no JSON |
| SseBatch.StreamIsYielded | crates/mizan-providers/src/lib.rs:342-478 | The decoder's items depend on the payloads the decoder makes of the same lines only, for every text |
| SseBatch.AgreementIsExact | crates/mizan-providers/src/lib.rs:301-478 | For every text: the two agree under all JSON decoders if and only if they make the same payloads of it, end markers aside |
| SseBatch.CleanLinesAgree | crates/mizan-providers/src/lib.rs:305-328 | Where no line ends in white space but the CR of a CRLF, the payloads are the same |
| SseBatch.StreamingRefinesBatch | crates/mizan-providers/src/lib.rs:301-340 | Where no line ends in white space but the CR of a CRLF: the decoder yields exactly the batch chunks, or ends in the batch error, for every cut |
| SseBatch.BlankLineDiffers | crates/mizan-providers/src/lib.rs:306-308 | A text on which they differ: a line of spaces ends an event for the batch parser only |
| SsePrinter.PrintedIsRead | crates/mizan-providers/src/lib.rs:301-478 | Round trip: for every list of events written as data lines with any white space around the literal `data:`, comments and other fields in between, either line end, an empty line after each event and an unfinished event and line at the end, the decoder (for every cut of the bytes) and the batch parser read exactly the values of each event, and answer with their chunks up to the first payload that does not decode |
| SsePrinter.PayloadIsJoined | crates/mizan-providers/src/lib.rs:457-463 | The payload of an event is its values joined by line ends |
| Redaction.RedactForLogs | crates/mizan-core/src/redaction.rs:4-21 | Redacting segment by segment equals one pass over the whole text |
| Redaction.RedactSegment | crates/mizan-core/src/redaction.rs:23-55 | The nested loops replace each secret, from its prefix to the next boundary, by the marker |
| Redaction.MatchIsListed | crates/mizan-core/src/redaction.rs:57-62 | A match is one of the listed prefixes and is found whenever one of them is there |
| Redaction.SecretIsReplaced | crates/mizan-core/src/redaction.rs:23-66 | What becomes of a secret: after one of the four prefixes everything up to the next white space or one of the seven delimiters is replaced by the marker, what is before stays, and redaction goes on after it |
| Redaction.PlainStays | crates/mizan-core/src/redaction.rs:45-52 | Text in which no prefix starts stays, in front of anything |
| Redaction.CleanMeans | crates/mizan-core/src/redaction.rs:1-2 | Clean is: none of the four prefixes, spelled out, anywhere |
| Redaction.RedactClean | crates/mizan-core/src/redaction.rs:4-66 | The output contains none of the sensitive prefixes, for every input; the marker creates none either |
| Redaction.RedactTwice | crates/mizan-core/src/redaction.rs:4-66 | Redacting twice is redacting once, and exactly the texts without a sensitive prefix are left unchanged |
| Redaction.RedactKeepsSpaces | crates/mizan-core/src/redaction.rs:9-20 | All white space is preserved, in order |
| GatewayStream.NormalizedErrorsAreRedacted | crates/mizan-api/src/gateway.rs:1339-1355 | A transport or provider error becomes a provider error whose text is the redacted message under the names of the request, and holds no sensitive prefix |
| GatewayStream.NormalizedStatus | crates/mizan-api/src/gateway.rs:1339-1355 | Exactly transport and provider errors change, and they are answered with 502 |
| GatewayStream.StreamBuild.Poll | crates/mizan-api/src/gateway.rs:1508-1709 | Each poll yields the next of the events upstream's remaining items stand for; the database is not touched before the terminal event, and with it by exactly the one metering call that is due, its event and its ledger row, and nothing else; afterwards nothing changes |
| GatewayStream.StreamBuild.Finish | crates/mizan-api/src/gateway.rs:1531-1621 | The end: exactly one metering call, as the database counts them, with the last usage or the prompt estimate, and no other event or ledger row; the lease given back to the key store, one terminal event, a metering error taking precedence |
| GatewayStream.StreamBuild.Drop | crates/mizan-api/src/gateway.rs:1479-1483 | Dropping gives back a lease still held, and meters nothing |
| GatewayStream.Serve | crates/mizan-api/src/gateway.rs:1436-1711 | For every upstream body, every cut of it and every number of polls: event i is chunk i with its index, text and finish reason under the names of the request, and after the last chunk comes one event for the first error there is; if that event was produced, all that the database was asked for and all that it wrote for the stream is one metering call, with the last usage reported or the prompt estimate, status 200 or that of the error and the request's own price, its event and at most one ledger row, else nothing at all; a normal end means that event and charge have committed; the lease is released exactly once |
| Wallet.CeilDivIsCeiling | crates/mizan-wallet/src/lib.rs:37-43 | `ceil_div` is a ceiling for a value exactly if that is non-negative, within one divisor of zero, or leaves remainder one; otherwise it is one more |
| Wallet.NoOverflow | crates/mizan-wallet/src/lib.rs:20-35 | No product or sum leaves 128 bits, for all 64-bit tokens and prices |
| Wallet.PartIsCeiling | crates/mizan-wallet/src/lib.rs:21-28 | Each part of a charge is the exact ceiling for non-negative prices |
| Wallet.TotalIsExact | crates/mizan-wallet/src/lib.rs:30-34 | The 64-bit total is the exact one if and only if that fits 64 bits, and always has its low 64 bits |
| Wallet.ChargeIsCeilings | crates/mizan-wallet/src/lib.rs:20-43 | A charge is the least p with p million at least prompt tokens times the input price, plus the least q for completion tokens and the output price, each in its own field, while the sum fits 64 bits |
| Wallet.ChargeInNumbers | crates/mizan-wallet/src/lib.rs:20-43 | The same with the divisions written out |
| Wallet.ChargeMonotone | crates/mizan-wallet/src/lib.rs:20-35 | Less usage never costs more |
| Wallet.PartSplit | crates/mizan-wallet/src/lib.rs:20-43 | Splitting usage never costs less, and at most one microcredit more a part |
| Wallet.PreflightGuarantees | crates/mizan-api/src/billing.rs:387-412 | While the estimate's exact charge fits 64 bits, a passed preflight excludes a refusal of any usage within the estimate on a balance that did not fall |
| Wallet.PreflightBreaks | crates/mizan-wallet/src/lib.rs:30-34 | Past 64 bits the cut total passes while some usage within the estimate is refused |
| Wallet.PreflightExactly | crates/mizan-api/src/billing.rs:387-412 | For prices up to one microcredit a token, the exact condition under which the preflight keeps its promise |
| Ledger.StepKeepsInv | crates/mizan-api/src/billing.rs:208-266 | Every statement of every transaction, in any interleaving, keeps the invariant: chained rows, wallet equal to the last balance, one holder of each row lock |
| Ledger.BalanceIsSum | crates/mizan-api/src/billing.rs:219-221 | The last balance is at most the sum of the deltas, and equal to it if and only if no grant saturated |
| Ledger.LedgerConservation | crates/mizan-api/src/billing.rs:208-266 | Over every run with rollbacks anywhere: each row follows from the one before, the wallet is the last balance, never negative, and the sum of deltas exactly while no grant saturated |
| Ledger.ChargeIsAtomic | crates/mizan-api/src/billing.rs:292-385 | What several statements of a transaction have written becomes visible together at its commit, on top of the committed balance of that moment; no statement before shows anything |
| Ledger.CommittedWrites | crates/mizan-api/src/billing.rs:340-382 | At its last statement a transaction has written exactly one row, the balance after it and, for a charge, its event; or a new wallet at most |
| Ledger.RowsOfOne | crates/mizan-api/src/billing.rs:336-359 | A transaction has at most one ledger row, none if it has not committed, and a row at the end of the ledger is its one |
| Ledger.RunContinues | crates/mizan-api/src/billing.rs:208-266 | Over every run of any transactions: rows are only added, and what an ended transaction has written is all it ever writes |
| Ledger.CalledAgain | crates/mizan-api/src/billing.rs:292-412 | After a call whose transactions wrote no row, the rows of the next call are the rows of both, whatever others ran before, between and after their statements |
| Ledger.FallenBalanceWasCharged | crates/mizan-api/src/billing.rs:336-371 | Over every run, a balance lower than before means a ledger row of that user since then that takes credit away |
| Ledger.OthersAreStable | crates/mizan-api/src/billing.rs:623-695 | What a transaction may rely on while any statements of others run |
| Billing.Database.EnsureWalletInTx | crates/mizan-api/src/billing.rs:623-695 | Select, insert, select again: on success the transaction holds the wallet row with its current balance, whoever created it |
| Billing.Database.CommitTx | crates/mizan-api/src/billing.rs:262-266 | The commit lands on top of the balance of that moment, although others ran since the row was read, and its one row is all the transaction ever writes; a failed one leaves none |
| Billing.Database.RecordUsage | crates/mizan-api/src/billing.rs:292-385 | Of all transactions the call begins: a committed charge has exactly one ledger row, whose delta is minus the prompt tokens at the input price and the completion tokens at the output price, each rounded up, with the balance it left, together with its event, field by field and last; anything else has no row; insufficient credit is one 402 event and a balance below the charge; no other event is written and the call itself is counted once |
| Billing.Database.GrantCredits | crates/mizan-api/src/billing.rs:187-266 | Of all transactions the call begins: a success has exactly one ledger row, with the full amount and the returned balance, which may saturate; a failure has none; a non-positive amount changes nothing |
| Billing.Database.EnsureSufficientCredit | crates/mizan-api/src/billing.rs:387-412 | Success and refusal are decided by the wallet balance of the commit against the charge in numbers; the call writes no ledger row and no event |
| Handler.CeilDivide | crates/mizan-api/src/billing.rs:962-968 | Token estimates are exact ceilings |
| Handler.ResolveEffectiveMaxTokens | crates/mizan-api/src/gateway.rs:1300-1312 | Fails exactly when the request exceeds the route; otherwise within the route's limit, and the request's own when given |
| Handler.AdmissionInNumbers | crates/mizan-api/src/gateway.rs:1314-1327 | The admission estimate: a quarter of the prompt's bytes, rounded up, and the request's token limit, else the route's, else none |
| Handler.UsageInNumbers | crates/mizan-api/src/billing.rs:109-130 | What is metered: the usage the answer reports, else a quarter of the bytes of prompt and answer; the prompt alone for all that fails |
| Handler.ChatHandler.AcquireRuntimeLimits | crates/mizan-api/src/gateway.rs:1181-1206 | A lease is held on top of the slot counters at entry, with the rate counters grown once, exactly when every counter had room; a refusal leaves the slot counters alone |
| Handler.ReleaseRestoresSlots | crates/mizan-api/src/gateway.rs:1208-1218 | Giving back a held lease leaves every slot counter as before it was acquired |
| Handler.ChatHandler.ChatCompletions | crates/mizan-api/src/gateway.rs:314-694 | For every outcome of credit check, limits, provider and metering: an acquired lease is released or handed over exactly once, and an answered run leaves the key store as at entry but for rate counters grown once; the database counts at most one metering call, and all transactions of the run together have one ledger row if a charged request was answered 200 and none otherwise; only an answered request is metered as a success (every other with the prompt alone and the failing status it is answered with); a 200 only after its event and ledger row have committed; who is refused before the provider is asked, and how; and a refused charge only past the estimate, past 64 bits or after the user was charged since the credit check |
| Handler.RefusedMeansBroken | crates/mizan-api/src/gateway.rs:1314-1327 | A charge refused after a passed preflight means usage past the estimate, a charge past 64 bits, or a balance that fell |
| Handler.RefusedMeansCharged | crates/mizan-api/src/billing.rs:321-335 | In any later state of a run: a charge refused after a passed preflight means usage past the estimate, a charge past 64 bits, or a ledger row since the check that charged the user |
| Limits.KeysAreDistinct | crates/mizan-limits/src/lib.rs:13-33 | Counters of different scopes or kinds never share a key |
| Limits.KeysAreSpelled | crates/mizan-limits/src/lib.rs:13-33 | The nine kinds of keys, spelled out |
| Limits.Redis.CheckRequestCounter | crates/mizan-limits/src/lib.rs:151-170 | Counts first, then compares: a refused request has consumed its count |
| Limits.Redis.CheckTokenCounter | crates/mizan-limits/src/lib.rs:172-192 | The same for tokens; no command when tokens or limit are zero |
| Limits.Redis.AcquireConcurrencyLease | crates/mizan-limits/src/lib.rs:194-214 | One slot, or one slot too many taken and given back at once |
| Limits.Redis.ReleaseKeys | crates/mizan-limits/src/lib.rs:260-276 | Every key is tried whatever fails and the first failure is reported: each key is released once or accounts for one failed command |
| Limits.Redis.Release | crates/mizan-limits/src/lib.rs:94-104 | Releasing a lease gives back exactly its keys |
| Limits.Redis.CheckAndAcquire | crates/mizan-limits/src/lib.rs:107-149 | While commands succeed, it succeeds if and only if every counter has room for all occurrences of its scope; success holds exactly the lease's slots, refusal none; the store is determined in both cases, with the expiry of every rate and slot key: new ones after the window or the lease time, others as they were; failed commands leak at most as many slots |
| Limits.SuccessTakesAll | crates/mizan-limits/src/lib.rs:107-149 | All: each slot counter has risen by the multiplicity of its scope and is within the limit |
| Limits.RefusalTakesNothing | crates/mizan-limits/src/lib.rs:107-149 | Nothing: each slot counter is as at entry, expiry included, while exactly the request and token counters of the visited scopes have grown, by multiplicity |
| Limits.ReleaseUndoesSlots | crates/mizan-limits/src/lib.rs:240-276 | Releasing an acquired lease leaves exactly the grown rate counters |
| Limits.RateGrownExpires | crates/mizan-limits/src/lib.rs:216-238 | A rate key made by a call expires after the window, one at least, and a key that was there as before |
| LimitSlots.CounterNeverOvercounts | crates/mizan-limits/src/lib.rs:194-276 | Any interleaving with expiry at any moment: a present counter is at least one and at most the outstanding slots, so it is gone once all are returned |
| LimitSlots.GrantsStayWithinLimit | crates/mizan-limits/src/lib.rs:194-276 | While no expiry removes the key: the counter is exact and granted slots never exceed the limit |
| LimitSlots.ExpiryIsHarmlessExactly | crates/mizan-limits/src/lib.rs:194-276 | In every exact state an expiry keeps the limit, whatever clients do next, if and only if no slot is outstanding, that is if there is no counter to expire |
| LimitSlots.ExpiryBreaksLimit | crates/mizan-limits/src/lib.rs:194-214 | The shortest run that shows it: two slots out of one are granted |
| LimitLeases.ShortRequestsDoNotHelp | crates/mizan-limits/src/lib.rs:194-238 | The expiry dates from the increment that made the key: with exact expiry and every slot held for less than a lease, no bound holds for the granted slots, for any limit |
| LimitLeases.LimitHoldsExactly | crates/mizan-limits/src/lib.rs:194-238 | With exact expiry and every slot held for less than a lease, the limit holds over every run if and only if the lease is one unit of the store's clock |
| LimitClients.Client.AcquireConcurrencyLease | crates/mizan-limits/src/lib.rs:194-214 | With others' scripts and expiries in between: one slot granted within the limit, or one taken and given back at once, and what was asked |
| LimitClients.Client.ReleaseKeys | crates/mizan-limits/src/lib.rs:260-276 | With others in between: of the slots of the keys exactly as many are left as commands failed, and no other slot of the client is touched |
| LimitClients.Client.CheckAndAcquire | crates/mizan-limits/src/lib.rs:107-149 | With others' scripts and expiries between any two of its own: it asks each scope's counters once, in order, up to the first answer over its limit; it succeeds if and only if no answer is, and then has exactly one granted slot for each scope on top of what it had; a refusal gives back exactly the slots it took; failed commands leak at most as many |
| LimitClients.Client.Release | crates/mizan-limits/src/lib.rs:94-104 | With others in between: a success gives back exactly the slots of the lease |
| LimitClients.LaterKeepsBounded | crates/mizan-limits/src/lib.rs:107-149 | A call is a run of the slot steps, so what is proved of every run holds around it |
| LimitClients.AsksAre | crates/mizan-limits/src/lib.rs:151-214 | What a scope asks: its three keys spelled out, each with its amount, expiry and limit |
| LimitWindow.CounterExpires | crates/mizan-limits/src/lib.rs:216-238 | Every live counter carries the expiry set when its window was opened |
| LimitWindow.WindowBound | crates/mizan-limits/src/lib.rs:151-238 | What passes within one window sums to at most the limit |
| LimitWindow.AnySpanBound | crates/mizan-limits/src/lib.rs:151-238 | What passes in any span of the window's length sums to less than twice the limit |
| LimitWindow.SpanBoundIsAttained | crates/mizan-limits/src/lib.rs:151-238 | No smaller bound holds, for any limit and any window longer than the clock's unit |
| LimitWindow.UnitSpanBound | crates/mizan-limits/src/lib.rs:151-238 | For a window of one unit the bound is the limit itself |
| Dispatch.StepKeepsInv | crates/mizan-api/src/dispatch.rs:201-346 | Every statement of daemons, sweepers and waiters keeps: handed out once and only to its node, completed once by its node, leased within the deadline, succeeded with a response |
| Dispatch.RowStep | crates/mizan-api/src/dispatch.rs:409-460 | What one statement does to one row: status moves, lease time, completion, and everything that stays |
| Dispatch.UpdateMeans | crates/mizan-api/src/dispatch.rs:234-460 | Each update by its effect: exactly which rows it changes, and which of their fields to what |
| Dispatch.StatusMovesForward | crates/mizan-api/src/dispatch.rs:201-346 | Over every run and at every step a status stays or moves along accepted, leased, succeeded or failed, or from the first two to timed out |
| Dispatch.RunExtends | crates/mizan-api/src/dispatch.rs:201-460 | Every run keeps the invariant and all handouts, completions and job identities before it |
| Dispatch.TerminalIsFinal | crates/mizan-api/src/dispatch.rs:409-428 | A terminal row never changes again and is never handed out or completed afterwards |
| Dispatch.CompletedJobWasLeased | crates/mizan-api/src/dispatch.rs:315-343 | Over every run: a completed job was handed to its node and completed by it, each once, with the outcome its row keeps; no lease time past the deadline in the order of decimal texts, and in that of numbers exactly when the two orders agree, as for times of ten digits |
| Dispatch.ExpiredMeans | crates/mizan-api/src/dispatch.rs:445 | What the deadline comparison means in numbers, for all times, and exactly when it is the numeric one, as for times of ten digits |
| Dispatch.TimeOutIsTrueUnlessCompleted | crates/mizan-api/src/dispatch.rs:348-428 | Whatever runs between the waiter's last look and its update, the job is timed out if and only if no completion of it landed in between |
| Dispatch.LateCompletionWins | crates/mizan-api/src/dispatch.rs:361-362 | The shortest run for `TimeOutIsTrueUnlessCompleted`: the update of a time-out after a completion changes nothing, and the row stays a success with its response |
| DispatchClient.DispatchStore.CreateDispatchJob | crates/mizan-api/src/dispatch.rs:117-163 | A fresh accepted job, field by field, with its deadline at least a second past the clock and at most the largest time, and nothing else changed; on failure nothing at all |
| DispatchClient.SelectionMeans | crates/mizan-api/src/dispatch.rs:211-221 | The lease query in numbers: of the node's accepted jobs whose deadline has not passed the five created first, oldest first |
| DispatchClient.DispatchStore.LeaseNextJobForNode | crates/mizan-api/src/dispatch.rs:201-274 | With others running between all statements: of all jobs this call leases exactly the one it answers with, to the caller's node before its deadline, or the one whose request does not decode, and none otherwise; every job selected before it, oldest first, had gone through others' statements |
| DispatchClient.DispatchStore.CompleteJob | crates/mizan-api/src/dispatch.rs:276-346 | In texts: refused are exactly a status that is neither `succeeded` nor `failed` between white space, and a success without a response; not-found only when the caller does not hold the job; the row is succeeded exactly for the one word and failed exactly for the other, with response, code and trimmed message; and no other statement |
| DispatchClient.DispatchStore.WaitForDispatchResult | crates/mizan-api/src/dispatch.rs:348-407 | A result is what the row says at that moment, case by case; a time-out also on an unfinished row once the whole time has passed on the clock |
| DispatchClient.DispatchStore.MarkJobTimedOut | crates/mizan-api/src/dispatch.rs:409-434 | The one update, field by field, after which the job is terminal one way or the other; or nothing |
| DispatchClient.DispatchStore.DispatchToDaemonNode | crates/mizan-api/src/dispatch.rs:165-199 | An `Ok` means the job is terminal (for ever, by TerminalIsFinal); a success is the one response stored by the job's own node after leasing it; a reported time-out is one of the row, or comes after the whole time on the clock and is true of the row exactly when no completion landed since the last look; the call inserts the job, may mark it, and does nothing else |
| DispatchClient.TryLeaseOutcome | crates/mizan-api/src/dispatch.rs:234-252 | The compare-and-set on a stale selection either hands the job out in time or shows that it is gone |
| Decimal.TextOrderIsDecimal | crates/mizan-api/src/dispatch.rs:124-126 | The order of decimal texts in numbers, for all pairs: the longer number counts by its leading digits |
| Decimal.TextOrderIsNumeric | crates/mizan-api/src/dispatch.rs:211-221 | Exactly when comparing the texts is comparing the numbers: the same digit count, or leading digits of the longer not below the shorter |
| Decimal.SmallerAfterLarger | crates/mizan-api/src/dispatch.rs:445 | Exactly when the texts turn two numbers around |
| Decimal.TenDigitsInOrder | crates/mizan-api/src/dispatch.rs:211-221 | For all times from September 2001 to November 2286 the two orders are the same |
| Decimal.RenderReads | crates/mizan-api/src/dispatch.rs:124-126 | A rendering reads back as its number and has no zero in front |
| DaemonNodes.SignatureGate.ValidateDaemonRequestSignature | crates/mizan-api/src/daemon_nodes.rs:530-609 | Accepts exactly the requests whose signature matches, whose timestamp is within 300 seconds of the clock either way (and not in the last 300 of time), whose body hash is not blank on the three kinds of paths that ask for one, and whose nonce this node has not in the cache, expired ones aside once it holds 256; the next cache, and which error otherwise |
| DaemonNodes.FreshMeans | crates/mizan-api/src/daemon_nodes.rs:571-582 | With its overflow checks the age test means an age of at most 300 seconds either way, but for the last 300 seconds of time |
| DaemonNodes.AcceptedAgainExactly | crates/mizan-api/src/daemon_nodes.rs:571-619 | Over every run with any clock readings: the next passing request with an accepted nonce is accepted again if and only if a request since pruned it away, reaching a full cache with a reading past its expiry |
| DaemonNodes.AcceptedOnce | crates/mizan-api/src/daemon_nodes.rs:571-619 | Single acceptance, a corollary: over every run with a clock that does not go back, any nodes and any prunes, the same node, nonce and timestamp are accepted at most once |
| DaemonNodes.FirstUseIsAccepted | crates/mizan-api/src/daemon_nodes.rs:596-608 | No request is refused for its nonce unless an accepted one of the node had it |
| DaemonNodes.EarlierReadingIsAcceptedAgain | crates/mizan-api/src/daemon_nodes.rs:596-599 | A run from the empty cache with readings out of order in which one request is accepted twice |
| DaemonNodes.CutoffMeansRecent | crates/mizan-api/src/daemon_nodes.rs:838-851 | What the text comparison with the cutoff means, for all times, and exactly when it means seen within the stale time, as for times of ten digits |
| SqlScanner.ToDollarParams | crates/mizan-api/src/utils.rs:181-276 | The loop with its four flags converts the lexemes of the query |
| SqlScanner.PrepareSql | crates/mizan-api/src/utils.rs:27-32 | SQLite queries are unchanged, PostgreSQL queries converted |
| SqlScanner.LexemesKeepText | crates/mizan-api/src/utils.rs:191-273 | The lexemes are all of the text, in order |
| SqlScanner.ConvertedInOrder | crates/mizan-api/src/utils.rs:265-270 | The i-th bare question mark becomes `$i`; quoted, commented and all other text is unchanged |
| SqlScanner.QuestionMark | crates/mizan-api/src/utils.rs:265-270 | A bare question mark becomes the next number |
| SqlScanner.PlainCharacter | crates/mizan-api/src/utils.rs:272-273 | Any other character that opens nothing stays |
| SqlScanner.QuotedText | crates/mizan-api/src/utils.rs:212-240 | Text in quotes of either kind, with its quotes doubled, stays |
| SqlScanner.CommentLine | crates/mizan-api/src/utils.rs:192-198 | A comment to the end of the line, or of the query, stays |
| SqlScanner.CommentBlock | crates/mizan-api/src/utils.rs:200-210 | A block comment stays, to its first end |
| SqlScanner.OutputMirrorsInput | crates/mizan-api/src/utils.rs:181-276 | On the output the scanner goes through the same modes over the same lexemes, from any mode and number |
| SqlScanner.SecondPassChangesNothing | crates/mizan-api/src/utils.rs:181-276 | The output has no placeholder left and converts to itself |
| SqlScanner.QueryIsRecoveredExactly | crates/mizan-api/src/utils.rs:181-276 | A query is recovered from its conversion if and only if none of its bare `$` is followed by the digits of the number that would come next |
| SqlScanner.QueryCanBeRecovered | crates/mizan-api/src/utils.rs:181-276 | In particular, every query without a bare `$` is |
| SqlScanner.BareDollarIsAmbiguous | crates/mizan-api/src/utils.rs:265-270 | The shortest query that is not: two queries become one |
| Truncation.FilterOutput | crates/mizan-rtk/src/filter.rs:40-110 | The two shrinking loops end and find the largest kept count that fits with its marker, then assemble or cut |
| Truncation.LongerMarker | crates/mizan-rtk/src/filter.rs:112-117 | Keeping more never makes the marker shorter, so fitting is a threshold |
| Truncation.KeptIsLargest | crates/mizan-rtk/src/filter.rs:59-88 | A count on the way fits if and only if it is at most the kept one |
| Truncation.FilterKeepsLargestEnds | crates/mizan-rtk/src/filter.rs:90-109 | Output within the limit and counted right; a prefix and a suffix of the input around the marker that counts them, the largest such pair; else the beginning of the bare marker |
| Truncation.FilteredText | crates/mizan-rtk/src/filter.rs:59-117 | The output in full: head, the marker with the head's and then the tail's number, tail; the tail is given up first, and one character more would not fit |
| Truncation.FilterTwice | crates/mizan-rtk/src/filter.rs:45-52 | Short output is untouched, so filtering twice is filtering once |
| Metrics.MetricsRegistry.ObserveGateway | crates/mizan-api/src/metrics.rs:62-97 | Every label set stays in its own shard and no other, with its own numbers over all observations so far |
| Metrics.Record | crates/mizan-api/src/metrics.rs:75-96 | The updates add the observation to each number and to exactly the buckets whose bound it meets |
| Metrics.FiguresSnoc | crates/mizan-api/src/metrics.rs:75-96 | The running numbers are the independent counts and sums: requests, tokens, non-negative credits of successes, latencies at most each bound |
| Metrics.ObservationAdds | crates/mizan-api/src/metrics.rs:62-97 | What one observation adds to what a label set shows, number by number and bucket by bucket, and to which label set: each trimmed value under its own label, `unknown` for a blank one and `none` for no node |
| Metrics.BucketsAreCumulative | crates/mizan-api/src/metrics.rs:90-96 | Each bucket counts at most what the next one does, and none more than all |
| Metrics.ShardIndexOf | crates/mizan-api/src/metrics.rs:250-271 | The hash loops compute the shard of a label set from its length-prefixed UTF-8 bytes |
| Metrics.MetricsRegistry.Snapshot | crates/mizan-api/src/metrics.rs:178-193 | Strictly ordered by labels; exactly the label sets observed, each with its own numbers, as from one unsharded map |
| Metrics.OrderIsUnique | crates/mizan-api/src/metrics.rs:191 | The sorted snapshot does not depend on the shards' own order |
| Prometheus.ThreePassesAreOne | crates/mizan-api/src/metrics.rs:273-278 | The three replacements equal one character-wise escape |
| Prometheus.EscapeIs | crates/mizan-api/src/metrics.rs:273-278 | The escape of each character, anywhere in a text |
| Prometheus.EscapeCanBeUndone | crates/mizan-api/src/metrics.rs:273-278 | An escaped label before its closing quote can be read back, whatever follows |
| Prometheus.EscapedHasNoNewline | crates/mizan-api/src/metrics.rs:273-278 | No label breaks its line |
| Prometheus.LabelTextIs | crates/mizan-api/src/metrics.rs:204-215 | The label text: the five names in order, each with its own value |
| Prometheus.LabelTextIsUnique | crates/mizan-api/src/metrics.rs:204-215 | Different label sets are never written the same |

## Left out

- HTTP routing, extraction, tracing, request and audit logs, configuration, and the CRUD of users, providers and routes: plumbing.
- The handler for daemon routes (`crates/mizan-api/src/gateway.rs:698-1016`): the same accounting around `DispatchToDaemonNode`, without a lease.
- JSON, identifiers, password hashing, SHA-256 and AES: decoding is a parameter, a verified signature is a flag of the request, a fresh identifier is any unused one.
- Fields that no modelled statement reads back (request identifiers of jobs, models, API keys, `updated_at`) and the JSON encoding errors of requests and responses, which end in the same infrastructure error as a failed statement.
- Handler.ChatHandler.ChatCompletions: takes the sizes of the texts, not the texts, and does not cover a handler cancelled while it waits.
- Wallet.PreflightBreaks: leaves open the estimates past 64 bits whose cut total is within one token's charge of the largest amount; `PreflightExactly` closes it for prices up to one microcredit a token.
- Billing.Database.RecordUsage: a commit whose answer is lost is a failed commit.
- Limits.Redis.CheckAndAcquire: a failed command has no effect, and counters are unbounded (the script compares doubles, exact below 2^53). Other clients' scripts do not run during the call; `LimitClients` has those.
- GatewayStream.Serve: releases the lease before it returns, where the source starts a task for that; so does `Handler.ChatHandler.ChatCompletions`.
- LimitWindow.AnySpanBound: takes expiry to be exact and the store's clock not to go back.
- LimitLeases.LimitHoldsExactly: takes the same; the runs that break the limit have refused requests whose undo is still on its way when the key expires.
- LimitClients.Client.CheckAndAcquire: counts requests and tokens in a table that others change at will, so it says which counts were asked and answered, not what they were.
- Metrics.MetricsRegistry.ObserveGateway: counters are unbounded, so overflow is not modelled.
- The rest of the metrics page: help texts and one line per number around `Prometheus.LabelText`.
- PostgreSQL nested comments, `E''` strings and dollar quotes, which the scanner does not know either.
- The row loop of `select_eligible_daemon_node` after its cutoff: a first match.
