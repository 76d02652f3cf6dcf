# MPC controller: message dispatch and reference sampling

This project models the exact, non-numeric part of the controller program in
`src/main.cpp` of a Model Predictive Control driver for a vehicle simulator.
The simulator talks to the controller over a WebSocket using Socket.IO
framing. Every text message of the form `42[...]` is a Socket.IO event:
Engine.IO packet type 4 ("message") carrying Socket.IO packet type 2
("EVENT").

Three pieces are modelled:

- `CppString`: the std::string operations the handler uses. These are
  `find`, `find_first_of`, `find_last_of` and `substr`. Unsigned 64-bit
  `size_t` arithmetic, which wraps modulo 2^64, is written out as `SizeT`.
- `MessageDispatch`: the handling of one received message.
  - `ReceivedText` turns the receive buffer into a string.
  - `HasData` is the payload extractor `hasData`.
  - `Classify` splits messages into ignored ones, events without data
    (answered with `42["manual",{}]`) and events with a payload.
  - `Respond` gives the replies sent for each kind.
  - Lemmas show that the controller's own outbound frames (`42["steer",...]`
    and the manual reply) are read back by the extractor as events whose
    payload is the frame without its `42` prefix.
- `ReferenceSamples`: the loop that samples the fitted reference curve at x
  stations 0, 5, …, 95 for display. The curve evaluator is a parameter.

`hasData` computes the span length `b2 - b1 + 1` in unsigned arithmetic, and
`substr` clamps the count to the end of the string. So when the last `]`
comes before the first `[`, the result is not a bracketed span. It is empty
when the two are adjacent, and otherwise it is the whole suffix from the first
`[`. The model keeps this behaviour (`HasDataSpan`), and `HasDataTwice` shows
its effect: extracting a second time gives back the first result only when
that result still holds a `]`.

The program's design describes an optimizer with latency compensation. The
code itself has the optimizer call and the latency sleep commented out, and it
always sends the fallback command. The model follows the code, so none of the
optimizer is modelled.

## Model

| member | source | states |
|---|---|---|
| CppString.SizeT | src/main.cpp:31 | size_t arithmetic: the result is below 2^64; it equals the operand when the operand is in range, the operand plus 2^64 when it is negative, and 0 at exactly 2^64 |
| CppString.Find | src/main.cpp:22 | `find` returns npos exactly when the pattern does not occur; otherwise it returns an index where the pattern occurs, with no earlier occurrence |
| CppString.FindFirstOf | src/main.cpp:23 | `find_first_of` returns npos exactly when no character of the set occurs; otherwise it returns an index of such a character, with none before it |
| CppString.FindLastOf | src/main.cpp:24 | `find_last_of` returns npos exactly when no character of the set occurs; otherwise it returns an index of such a character, with none after it |
| CppString.Substr | src/main.cpp:31 | `substr(pos, count)` has length min(count, size - pos) and is the text of the string starting at pos |
| MessageDispatch.ReceivedText | src/main.cpp:90 | the message text is a prefix of the receive buffer and holds no NUL; it has exactly `length` characters, or it is shorter and stops at the buffer's terminating NUL |
| MessageDispatch.HasData | src/main.cpp:20-34 | the result is a contiguous substring of the input, never longer, and never contains `null`; any input containing `null` gives ""; a non-empty result starts with `[` |
| MessageDispatch.HasDataSpan | src/main.cpp:23-31 | with no `null`, first `[` at b1 and last `]` at b2: if b1 <= b2 the result is exactly s[b1..b2], of length b2-b1+1, starting with `[` and ending with `]`; if b1 = b2+1 the wrapped length is 0 and the result is ""; if b1 > b2+1 the wrapped length is clamped and the result is the suffix from b1 |
| MessageDispatch.HasDataLocates | src/main.cpp:22-31 | with no `null`, the first `[` at b1 and the last `]` at b2, the result is `substr(b1, b2 - b1 + 1)` with the length computed in size_t |
| MessageDispatch.HasDataWithoutBrackets | src/main.cpp:29-33 | an input lacking `[` or lacking `]` gives "" |
| MessageDispatch.HasDataTwice | src/main.cpp:20-34 | applying the extractor to its own result gives that result back when it contains `]`, and "" otherwise |
| MessageDispatch.Classify | src/main.cpp:92-95 | a message is ignored if and only if it is not longer than 2 characters or does not start with `42`; it gets the manual reply if and only if it is such an event with an empty extraction; otherwise its payload is the extraction, non-empty, starts with `[`, has no `null`, and lies at index 2 or later of the message |
| MessageDispatch.PayloadFollowsPrefix | src/main.cpp:92-94 | a substring starting with `[` of a message starting with `42` occurs at index 2 or later |
| MessageDispatch.Respond | src/main.cpp:187-191 | a non-event gets no reply; an event whose extraction is empty gets exactly one reply, `42["manual",{}]`; an event with a payload gets whatever the JSON handler sends for that payload |
| MessageDispatch.EventFrameAvoidsNull | src/main.cpp:172 | framing an event name and body that lack `null` as `42["name",body]` does not create a `null` |
| MessageDispatch.EventFrameBrackets | src/main.cpp:172 | an event frame starts with `42`, has its first `[` at index 2 and its last `]` at the end, and is `42` followed by `["name",body]` |
| MessageDispatch.EventFrameRoundTrip | src/main.cpp:172 | an event frame whose name and body lack `null` is classified as a payload equal to `["name",body]`, the frame without its prefix |
| MessageDispatch.SteerFrameRoundTrip | src/main.cpp:172 | the steering frame `42["steer",json]` built from a `null`-free JSON text is classified as the payload `["steer",json]` |
| MessageDispatch.ManualNameAvoidsNull | src/main.cpp:190 | the event name `manual` does not contain `null` |
| MessageDispatch.ManualReplyIsFrame | src/main.cpp:190 | the manual reply is the event frame of `manual` with body `{}` |
| MessageDispatch.ManualReplyRoundTrip | src/main.cpp:190 | the manual reply, read back by the handler, is classified as the payload `["manual",{}]` |
| ReferenceSamples.SampleReference | src/main.cpp:130-136 | the loop yields exactly 20 stations, the i-th equal to 5·i (0 to 95, strictly increasing); the value list has the same length, and its i-th entry is the curve evaluated at the i-th station |

## Left out

- Network I/O and the event loop are not modelled: the uWS hub, the HTTP,
  connection and disconnection callbacks, `listen`/`run`, `ws.send` and all
  console output. A reply is modelled as a string in the list `Respond`
  returns.
- JSON handling is not modelled: `json::parse`, the `"telemetry"` event check,
  field access and `dump` are calls into the nlohmann library. `Respond`
  takes the handler's answer to a payload as the parameter `handleJson`.
- Respond: a payload that is not valid JSON makes `json::parse` throw. Since
  the JSON handler is a parameter, this exception is not modelled. This
  matters for the wrapped case of `HasDataSpan`, which yields text that does
  not end with `]`.
- `polyFit` (a Householder QR solve in Eigen) and `polyEval` are not
  modelled, because they are floating-point code. `SampleReference` takes the
  evaluator as the parameter `curve`.
- SampleReference: stations and values are `real`, so double rounding is not
  modelled. The stations are small integers, which a double holds exactly.
- The world-to-vehicle rotation and the cross-track error computation are not
  modelled: they are `double` arithmetic with `sin`, `cos` and `pow`.
- The MPC optimizer and the latency delay are not modelled, because the code
  has both commented out. The fallback command (steering 0.0, throttle 0.4,
  predicted trajectory equal to the reference samples) is a constant
  assignment into the JSON reply and is not modelled either.
- Substr: requires pos <= size. `std::string::substr` throws out_of_range
  otherwise, but `hasData` only passes the index of a character it found.
- ReceivedText: requires a NUL in the receive buffer, because
  `std::string(const char*)` reads up to the first NUL.
- Every string operation requires the string to be shorter than npos. This
  holds for every std::string.
