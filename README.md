# binance4py: websocket stream registry and query normalisation, in Dafny

This project models two sequential cores of binance4py, an asynchronous Python
client for the Binance API, and proves properties of them.

- `websocket.dfy` (module `Websocket`) models the `Websocket` object's
  per-connection state. That state is the connection slot (`_ws_conn`, a boolean
  `connected`), the start event (`started`), the registry from stream name to an
  ordered list of callbacks (`callbacks`, callbacks being opaque ids) and the
  command-id counter (`lastId`, starting at 1). A ghost log `sent` records every
  SUBSCRIBE command written to the connection. `subscribe` sends one SUBSCRIBE,
  with the current id, the first time a stream is seen; after that it only
  appends callbacks. The receive loop of `start` fans each `"stream"` frame out
  to that stream's callbacks in registration order. The `finally` block empties
  the registry. The loop is split into its steps: `Start` opens, `Dispatch`
  handles one frame, and `Receive` runs the `async for` over a stretch of
  frames. `TeardownAsWritten` is the `finally` block as written, and
  `RunLoopAsWritten` chains `Receive` and `TeardownAsWritten`. `Teardown` is
  the corrected `finally` block, which also releases the connection slot, and
  `RunLoop` chains `Receive` and `Teardown` (see "## Findings"). A boolean
  `closeSent` records that the connection's CLOSE frame has been written;
  `StopAsWritten` is `stop` as written and `Stop` its correction (see
  "## Findings").
- `utils.dfy` (module `Utils`) models `create_query_dict` as an imperative loop
  specified by the function `QueryDict`. It also models the trimming step of
  `number_to_string`, starting from the `"{:f}"` text of the number.
- `wrappers.dfy` holds the `Option` and `Result` types.

The class object invariant `Valid()` (partly through `Registered`) says six things:
- the logged ids are exactly 1, 2, 3, … in sending order, and `lastId` is the next one;
- every registered stream has a non-empty list;
- the registered streams are exactly the streams subscribed since the last teardown, each subscribed once;
- nothing is registered while no connection is set;
- the start event is set only while a connection is set;
- a CLOSE frame is pending only while a connection is set.

The model follows the code as written:
- the id counter is never reset on a new connection;
- there is no unsubscribe, no reply/id correlation and no command timeout;
- callbacks are awaited inline, one after the other.

## Model

| member | source | states |
|---|---|---|
| `Utils.RStrip` | binance4py/utils.py:48 | `rstrip(c)`: the result is a prefix of the input, does not end in `c`, and everything removed was `c` |
| `Utils.NumberToString` | binance4py/utils.py:45-49 | the result is a prefix of the formatted text; text without `"."` is returned unchanged; text with `"."` never yields a result ending in `"."` |
| `Utils.TrimFixedText` | binance4py/utils.py:46-48 | for fixed-point text `whole["." frac]`, the result is `whole` followed by the fraction with its trailing zeros removed, and no point is left when nothing remains of the fraction; the integer part is kept exactly (`"100.0"` → `"100"`); a result containing `"."` ends in neither `"0"` nor `"."` |
| `Utils.NumberToStringIdempotent` | binance4py/utils.py:46-49 | trimming its own output changes nothing |
| `Utils.IntegerNumberToString` | binance4py/utils.py:45-48 | an int's `"{:f}"` text, its digits followed by `".000000"`, trims back to exactly `str(n)` |
| `Utils.Replace` | binance4py/utils.py:13 | `replace(a, b)`: same length, each `a` becomes `b`, everything else is kept at its position |
| `Utils.RemoveAll` | binance4py/utils.py:13 | `replace(c, "")`: no `c` is left, the length drops by the number of `c`s, and every other character keeps its count |
| `Utils.RenderList` | binance4py/utils.py:12-13 | the list branch: the result contains no `'` and no space, and its length is the original length minus the number of spaces |
| `Utils.RenderListOfWords` | binance4py/utils.py:12-13 | for a list of plain strings (printable ASCII without a space, a quote or a backslash), Python's `str()` of the list renders as the compact JSON array `["A","B"]` |
| `Utils.Render` | binance4py/utils.py:12-17 | every kept value becomes a string or is an object passed through; strings and other objects are copied unchanged |
| `Utils.QueryDictIsOrderedFilter` | binance4py/utils.py:7-18 | the query dict is the non-`None` entries of the input, in input order, each rendered: every output entry comes from an increasing input position with a non-`None` value, and every such position is used |
| `Utils.QueryDictKeys` | binance4py/utils.py:9-11 | a key is in the output if and only if the input has it with a non-`None` value |
| `Utils.QueryDict` | binance4py/utils.py:7-18 | the query dict has at most as many entries as the input, and every value in it is a string or an object passed through, never `None` |
| `Utils.CreateQueryDict` | binance4py/utils.py:7-18 | the loop builds exactly `QueryDict(params)` |
| `Websocket.KlineStream` | binance4py/websocket.py:89 | the stream name is the symbol, then `@kline_`, then the interval |
| `Websocket.KlineStreamInjective` | binance4py/websocket.py:89 | for symbols without `@`, the stream name `symbol@kline_interval` determines symbol and interval (both directions) |
| `Websocket.Invocations` | binance4py/websocket.py:107-108 | one invocation per callback, in list order, each with the frame's data |
| `Websocket.FanOut` | binance4py/websocket.py:103-108 | a TEXT frame with `"stream"` invokes exactly that stream's callbacks in registration order, or raises when the stream is not registered (and only then); non-TEXT frames and frames without `"stream"` invoke nothing |
| `Websocket.Deliver` | binance4py/websocket.py:103-108 | the receive loop over a stretch of frames ends with an error only for a stream that is not registered, and the error names it |
| `Websocket.DeliverOnlyRegistered` | binance4py/websocket.py:103-108 | over any stretch of frames, every invocation is of a callback registered for the message's stream, and the loop ends with an error only at a frame whose stream is not registered |
| `Websocket.DeliverRaisesOnUnregistered` | binance4py/websocket.py:103-107 | the converse: a TEXT frame for an unregistered stream ends the loop with an error, and the invocations made are exactly those of the frames before it: no callback runs for that frame or any frame after it |
| `Websocket.RegisteredAfterFirstSubscribe` | binance4py/websocket.py:75-84 | registering a new stream with `[callback]` and logging SUBSCRIBE with the next id keeps the registry-log agreement |
| `Websocket.RegisteredAfterAppend` | binance4py/websocket.py:85-86 | appending a callback to a registered stream keeps the registry-log agreement |
| `Websocket.Websocket.Closed` | binance4py/websocket.py:31-33 | `closed`: true exactly when no connection is set; under the invariant, a closed object has nothing registered, no start event set and no close pending |
| `Websocket.Websocket.constructor` | binance4py/websocket.py:21-29 | a new object has no connection, an unset start event, an empty registry and `lastId == 1` |
| `Websocket.Websocket.IdsIncrease` | binance4py/websocket.py:29 | command ids are strictly increasing with no repeat, and all are below `lastId` |
| `Websocket.Websocket.OneSubscribePerStream` | binance4py/websocket.py:75-86 | a registered stream had exactly one SUBSCRIBE since the last teardown, however many callbacks it has |
| `Websocket.Websocket.Send` | binance4py/websocket.py:59-67 | `_send` fails exactly when closed, and then nothing is written; otherwise the command is appended to the log |
| `Websocket.Websocket.Subscribe` | binance4py/websocket.py:72-86 | first subscribe: exactly one `{"method":"SUBSCRIBE","params":[S],"id":lastId}` is sent, `[callback]` is registered and `lastId` grows by one; a known stream gets the callback appended at the end, with no command and `lastId` unchanged; while closed, a new stream raises with no entry created and `lastId` unchanged; other streams are untouched; the connection state is not touched |
| `Websocket.Websocket.Kline` | binance4py/websocket.py:88-89 | subscribe to `symbol + "@kline_" + interval`, with the same effects as `Subscribe` |
| `Websocket.Websocket.Dispatch` | binance4py/websocket.py:104-108 | the loop over one frame's callbacks yields exactly `FanOut(callbacks, frame)` |
| `Websocket.Websocket.Receive` | binance4py/websocket.py:103-108 | the loop over frames yields exactly `Deliver(callbacks, frames)`: the invocations in arrival order, ending at the first unknown stream |
| `Websocket.Websocket.Start` | binance4py/websocket.py:91-101 | no-op when a connection is set; otherwise the connection opens and the start event is set, or the connection attempt fails and the `finally` block leaves the object closed and empty; the id counter is never reset |
| `Websocket.Websocket.TeardownAsWritten` | binance4py/websocket.py:109-111 | registry emptied, start event cleared, the connection slot left as it was, `lastId` kept |
| `Websocket.Websocket.Teardown` | binance4py/websocket.py:109-111 | corrected (see "## Findings"): registry emptied, start event cleared, the slot released so that `closed` holds, `lastId` and the log kept |
| `Websocket.Websocket.RunLoopAsWritten` | binance4py/websocket.py:95-111 | as written: the invocations are `Deliver` of the registry at entry; afterwards the registry is empty and the start event cleared, but the slot still holds the finished connection, so `closed` is false |
| `Websocket.Websocket.RunLoop` | binance4py/websocket.py:95-111 | corrected (see "## Findings"): the receive loop, then teardown: the invocations are `Deliver` of the registry at entry, and afterwards the object is closed and empty with the counter kept |
| `Websocket.Websocket.StopAsWritten` | binance4py/websocket.py:113-117 | as written: `close()` is called exactly when a connection is set, and no state changes, because the coroutine is never awaited |
| `Websocket.Websocket.Stop` | binance4py/websocket.py:113-117 | corrected (see "## Findings"): a no-op when no connection is set; otherwise the CLOSE frame is written, and the invariant is kept |
| `Websocket.TwoCallbacksOneSubscription` | binance4py/websocket.py:75-86 | two callbacks on `btcusdt@trade` cost exactly one SUBSCRIBE (id 1), and one frame of that stream reaches both, in order |
| `Websocket.RestartAfterDropAsWritten` | binance4py/websocket.py:73-111 | as written, after the receive loop ends, `start` returns at once without reconnecting, and the start event that `subscribe` waits for stays cleared |
| `Websocket.RestartAfterDrop` | binance4py/websocket.py:109-111 | with the slot released, `start` opens again and sets the start event, and the next SUBSCRIBE carries id 2 because the counter is not reset |
| `Websocket.StopLeavesLoopRunningAsWritten` | binance4py/websocket.py:113-117 | as written, `stop` on an open connection calls `close()`, but no CLOSE frame is written and the connection stays set |
| `Websocket.StopClosesConnection` | binance4py/websocket.py:113-117 | with the close awaited, `stop` on an open connection writes the CLOSE frame |

## Left out

- The aiohttp transport is not modelled: `ws_connect`, `heartbeat=180`, `send_json` with the injected JSON encoder, and the decoding of TEXT frames by the injected JSON decoder. Frames arrive already parsed; a TEXT frame that fails to parse is not modelled. A message whose `"stream"` value is not a string (`null`, say) is not modelled: the source's `"stream" in data` test passes and the lookup raises, while the model has only a string or no key. CLOSE, CLOSING and CLOSED frames end aiohttp's `async for` rather than reaching the loop; they are the end of the frames given to `Receive`.
- `Websocket.Websocket.Send`: the `asyncio.Semaphore(5)` rate limit, the one-second sleep and the `send_json` await are not modelled as suspension points (see the `Subscribe` line). An error raised by the transport itself is not modelled.
- `Websocket.Websocket.Subscribe`: models the body after `await self._start_event.wait()`. The suspension of a caller whose start event is not set is not modelled.
- `Websocket.Websocket.Subscribe`: the body is modelled as atomic. In the source it suspends inside `await self._send(...)` (the semaphore, `send_json` and the sleep, websocket.py:63-70), before `_last_id` is incremented and before the stream is registered, and `kline` runs each subscribe as a task of its own. Two subscribes that overlap there are not modelled. They can send two commands with the same id, or send two SUBSCRIBEs for one stream, where the second `[callback]` overwrites the first and a callback is lost. `IdsIncrease` and `OneSubscribePerStream` hold for subscribes that do not overlap.
- `Websocket.Websocket.Kline`: `asyncio.ensure_future` scheduling is modelled as an immediate call. The fact that an exception in the scheduled task never reaches `kline`'s caller is not captured.
- `Websocket.Websocket.Receive`: callbacks are opaque ids. A callback that raises (which would end the loop) or that subscribes while it runs is not modelled. `Receive` assumes no `subscribe` interleaves with the frames it runs over; interleavings are expressed by alternating `Subscribe` and `Dispatch`.
- `Websocket.Websocket.Stop`: the close is modelled only by `closeSent`, which records that the CLOSE frame was written. The server's reply, and the end of the `async for` that follows it, are not derived from `closeSent`. That exit is the end of the frames given to `RunLoop`.
- `Websocket.Websocket.Start`: `transportUp` stands for whether `ws_connect` succeeds; the URL formatting with the client's top-level domain is left out.
- Listen-key calls (`create_listen_key`, `keep_alive_listen_key`, `close_listen_key`) are left out, because they are plain REST calls through the client.
- `quantize_tick_size`, `millisecond_to_datetime` and `get_timestamp` are left out. They are decimal-library rounding, the clock and floating point.
- `Utils.NumberToString`: the `"{:f}"` formatting itself is not modelled, because it is floating-point or decimal-library rendering; the model starts from its text. Python's `int.__format__('f')` renders through float, so `IntegerNumberToString` describes `"{:f}"` exactly for every integer that a float represents exactly; this includes every integer of magnitude up to 2^53. Booleans are ints in Python and take the number branch.
- `Utils.RenderList`: Python's `str()` of an arbitrary list is not modelled. `RenderListOfWords` covers lists of plain strings, such as symbol and permission lists. Strings with non-ASCII characters are not covered, because Unicode printability is not modelled.
- `Utils.CreateQueryDict`: a Python dict is modelled as its sequence of entries in insertion order. The list-before-number precedence is not observable here, because no value is both a list and a number.
- The REST resource wrappers, the signed request executor, endpoint constants and type aliases are not part of this model.

## Findings

| source | as written | input that shows it | evidently intended | confidence | as-written member | corrected member |
|---|---|---|---|---|---|---|
| binance4py/websocket.py:109-111 | the `finally` block of `start` empties the registry and clears the start event but leaves `_ws_conn` holding the finished connection, so `closed` stays False | `start()` opens; the server ends the connection so the loop exits; a second `start()` returns at once (line 92) and nothing reconnects, and later `subscribe` calls wait on a start event that is never set | releasing the connection slot on loop exit so that `closed` holds and `start()` can reconnect | medium, not executed | `Websocket.RestartAfterDropAsWritten` (using `Websocket.Websocket.RunLoopAsWritten` and `Websocket.Websocket.TeardownAsWritten`) | `Websocket.RestartAfterDrop` (using `Websocket.Websocket.RunLoop` and `Websocket.Websocket.Teardown`) |
| binance4py/websocket.py:117 | `stop` calls `self._ws_conn.close()` without `await`. aiohttp's `close` is a coroutine, so the call only creates a coroutine object that is never run | `start()` opens; `stop()` returns, but no CLOSE frame is written, the receive loop keeps running and `closed` stays False | `await self._ws_conn.close()`, which writes the CLOSE frame and ends the receive loop | medium, not executed (rests on aiohttp's coroutine API, which is not part of this model) | `Websocket.StopLeavesLoopRunningAsWritten` (using `Websocket.Websocket.StopAsWritten`) | `Websocket.StopClosesConnection` (using `Websocket.Websocket.Stop`) |
