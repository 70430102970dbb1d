# Pine: a verified model of the codec, the framing, the thread pool and the ids

Pine is a C++20 networking library. This project models four of its parts in Dafny and proves what
they guarantee on all inputs or in all runs.

**The HTTP/1.1 codec** (`shared/src/http.cpp`, `http_request.cpp`, `http_response.cpp`). Strings are
`seq<char>`; `find`, `substr` and `size_t` subtraction have their C++ meaning, including `npos`,
`out_of_range` and wrap-around. The extractors and the `parse` and `to_string` methods keep their
imperative form, with an offset that advances through the whole message. They are proved to compute
functions that work on suffixes of the text, and these functions are proved to be the exact inverse of
writing down a *layout*: start line, header lines, blank line, body. From there follow the round trips,
their exact conditions, canonicalisation, the exact conditions under which the body and the order of
the header lines do not matter, the classification of errors, and the accounting for every byte. The
subset of the message format is that of sections 2.1 and 3 to 6 of RFC 9112.

**Message framing** (`shared/src/connection.cpp`). `recv` is a script of results; the receive loop is
proved to return the chunks up to the first short one, and is composed with the codec end to end, for a
single message and for a whole stream of them.

**The thread pool** (`shared/src/thread_pool.cpp`, `shared/include/thread_pool.h`). A transition system
over atomic steps: what a thread does while it holds the queue mutex, a notification, a spurious wake,
the end of a task. The invariants hold for every interleaving and every number of workers. The class
`ThreadPool` performs the same steps on mutable fields, and its destructor is a whole run.

**Snowflake ids** (`shared/include/snowflake.h`, `shared/src/snowflake.cpp`). Shifts, masks and `|` are
defined bit by bit on the values of `uint64_t`; packing is a bijection and an order isomorphism.

## How the files build on each other

- `Strings`, `Decimal`, `Bits`: searching, decimal numerals, bit operations.
- `HttpTokens`: tables of methods, statuses and versions, error codes.
- `HeaderBlock` (two modules: the block grammar, and what header lines mean), `OrderedMap`,
  `HeaderSafety`, `HeaderOrder`: the header section. `MessageRest`: what requests and responses share
  after their start lines.
- `HttpUtils`: the extractors. `MessageHeaders`, `Setters`, `SetterRuns`: what the setters do.
- `RequestGrammar`, `HttpRequest`, `RequestTheorems`, and the same three for responses;
  `ContentLength`: runs of setters.
- `Framing`, `Connection`: messages on a connection.
- `PoolModel`, `PoolTheorems`, `ThreadPool`. `Snowflake`.

## Terms

A header line is *spaced* when at least one character follows its colon. The extractor drops that
character unseen. When there is none, the length of the value wraps around, and the value becomes
everything from the LF of the line's own CRLF to the end of the message. A line *decides* its name when
no later line has the same name, and is *clean* when it is spaced or nothing follows it at all. The
lines of a section are *free of order* when lines of the same name would have the same value at the end
of the section, and all lines are spaced unless there is only one name; for pairwise different names
that is, when there is at most one line or all are spaced. A request is *safe* when its URI starts with
`/` and has no space, its header names have neither `:` nor CRLF, and its header values have no CRLF.

## Where the code and its documentation disagree

- `tests/unit/http_request_tests.cpp:43` expects one header after `set_header` and `set_body`, but
  `shared/include/http_request.h:96` adds Content-Length, as `tests/unit/http_response_tests.cpp:58-64`
  expects for responses. The model follows the code.
- `shared/include/snowflake.h:32-34` promises a sequence number against collisions within a
  millisecond. `last_millisecond` is never assigned, so ids of one millisecond coincide;
  `Snowflake.ClockOrder` states that.
- The round trip does not need CRLF-free values: `RequestTheorems.UnsafeValueRecovered` gives, for every
  safe name, a request with a CRLF in a value that is recovered all the same. The exact statement is
  `RequestTheorems.RoundTripExact`.
- A text whose length is a multiple of 1024 is never received as a message of its own, however it is
  cut into chunks (`Framing.DeliverableIff`).

## Model

| member | source | states |
|---|---|---|
| Strings.Find | shared/src/http.cpp:33-34 | The result is an occurrence at or after the start with none before it, and `npos` means there is none at all |
| Strings.FindInSuffix | shared/src/http.cpp:33-34 | Searching a message from an offset finds what searching its suffix finds, shifted by the offset |
| Strings.FindLineEnd | shared/src/http.cpp:33 | The CRLF written after a CRLF-free line is the first one found, even when the line ends in CR |
| Strings.SubstrWrapped | shared/src/http.cpp:49-50 | A length that wraps around to the largest `size_t` yields everything to the end of the string |
| Strings.SizeWraps | shared/src/http.cpp:49-50 | Subtraction of `size_t` values wraps around in 64 bits |
| Decimal.DecimalRoundTrip | shared/include/http_request.h:96 | `std::to_string` writes digits that denote the number, without a leading zero |
| Decimal.DecimalDigits | shared/include/http_request.h:96 | The digits are those of "0123456789", the last one last |
| HttpTokens.FirstMatchIff | shared/src/http.cpp:84-94 | The first-match loop returns the first entry of the table whose text starts the input, and fails exactly when there is none |
| HttpTokens.MatchUnique | shared/src/http.cpp:100-110 | In a prefix-free table the match is unique, so the order of the table does not matter |
| HttpTokens.MethodIff | shared/include/http.h:20-25 | The table maps "GET", "HEAD" and "POST" to their methods and has no other token |
| HttpTokens.StatusIff | shared/include/http.h:28-43 | The table maps "200 OK", "400 Bad Request", "404 Not Found" and "500 Internal Server Error" to their statuses and has no other text |
| HttpTokens.VersionFound | shared/include/http.h:52-55 | The table has the one version "HTTP/1.1" |
| HttpTokens.MethodsPrefixFree | shared/include/http.h:20-25 | No method token is a prefix of another |
| HttpTokens.StatusesPrefixFree | shared/include/http.h:37-43 | No "code reason" text is a prefix of another |
| HeaderBlock.ParseComplete | shared/src/http.cpp:55-79 | Reading the text of a well-formed block yields that block |
| HeaderBlock.ParseSound | shared/src/http.cpp:55-79 | What is read is a well-formed block whose text is the input, byte for byte |
| HeaderBlock.RejectedIff | shared/src/http.cpp:35-38 | The header section is rejected exactly when a visited line lacks a CRLF, or a colon inside the line |
| HeaderBlock.LeadsToBadUnique | shared/src/http.cpp:70-73 | A rejected header section determines the lines accepted before the bad one, and where that one starts |
| HeaderFields.AssignLastWins | shared/src/http.cpp:75 | The map holds exactly the names of the lines, each with the value of its last line |
| HeaderFields.LastWinsUnique | shared/src/http.cpp:75 | That description determines the map |
| HeaderFields.OrderIrrelevant | shared/src/http.cpp:75 | Inserting fields whose values agree wherever their names do gives the same map in any order and with any repetitions |
| HeaderFields.ReadStep | shared/src/http.cpp:70-75 | Reading one line and inserting its field keeps the outcome of the whole loop, or the line is rejected |
| HeaderFields.FieldOfLine | shared/src/http.cpp:40-50 | A line is a name without colons, a colon, one dropped character and the value; or a name and a colon, and then the value is everything from the LF of its CRLF on |
| OrderedMap.InOrderLists | shared/src/http_request.cpp:80-83 | Iterating the header map visits every entry once, in ascending order of names |
| OrderedMap.InOrderUnique | shared/src/http_request.cpp:80-83 | No other list of the entries is in ascending order |
| OrderedMap.InOrderRebuilds | shared/src/http_request.cpp:80-83 | Inserting the entries one by one rebuilds the map |
| OrderedMap.BeforeIff | shared/src/http_request.cpp:80-83 | The order of names: the smaller character at the first difference, or a proper prefix, comes first |
| HeaderSafety.RenderedLine | shared/src/http_request.cpp:82 | A safe field is written as one spaced line that reads back as that field, whatever follows |
| HeaderSafety.PrintedHeaders | shared/src/http_request.cpp:80-86 | A safe header map is read back unchanged, with any body |
| HeaderSafety.PrintedLines | shared/src/http_request.cpp:80-83 | Line `i` of the printed section is name, ": " and value of the `i`-th entry in ascending order of names |
| HeaderSafety.HeadersDenoted | shared/src/http.cpp:40-52 | Each name of the map gets the value of the line that decides it |
| HeaderSafety.ReadNamesSafe | shared/src/http.cpp:40-48 | Every name that is ever read is free of colons and CRLFs |
| HeaderSafety.ReadValuesSafeIff | shared/src/http.cpp:42-50 | The values read are CRLF-free exactly when every deciding line is clean |
| HeaderSafety.BodyIrrelevantIff | shared/src/http.cpp:42-50 | The header map is independent of the body exactly when every deciding line is spaced |
| HeaderOrder.OrderFreeIff | shared/src/http.cpp:42-76 | Every permutation of the header lines gives the same map exactly when the lines are free of order; for pairwise different names, exactly when there is at most one line or all are spaced |
| MessageRest.RestContents | shared/src/http_request.cpp:41-54 | After the start line two characters are skipped unseen, or what is there of them; then the headers and the body are those of the block that remains |
| MessageRest.RestSpelled | shared/src/http.cpp:55-79 | The text of line end, header lines, blank line and body, spelled out |
| HttpUtils.TryGetBody | shared/src/http.cpp:14-27 | Returns the rest of the message, or the body error when there is none |
| HttpUtils.TryGetHeader | shared/src/http.cpp:29-53 | For every offset, succeeds exactly when the rest starts with a line that has a colon; the name ends at the first colon, the value starts two characters later and ends at the CRLF, or wraps around; the offset is strictly advanced past that CRLF, within the message |
| HttpUtils.LineIsLocal | shared/src/http.cpp:33-38 | Comparing the two whole-remainder searches decides whether the line has a colon of its own |
| HttpUtils.TryGetHeaders | shared/src/http.cpp:55-79 | For every offset, computes the header map of the block the rest of the message is and stops at its body, or fails when the rest is no such block, and stops at the line it rejects |
| HttpUtils.TryGetMethod | shared/src/http.cpp:81-95 | Finds Get, Head or Post when the rest starts with "GET", "HEAD" or "POST", and moves past the token; else the method error; throws past the end |
| HttpUtils.TryGetStatus | shared/src/http.cpp:97-114 | Finds the status whose code and reason, spelled out, start the rest, and moves past them; else the status error; throws past the end |
| HttpUtils.TryGetUri | shared/src/http.cpp:116-135 | Returns the text from a slash up to the first space, else the URI error; throws at or past the end |
| HttpUtils.TryGetVersion | shared/src/http.cpp:137-152 | Finds the version when the rest starts with "HTTP/1.1", and moves past it; else the version error; throws past the end |
| RequestGrammar.LayoutComplete | shared/src/http_request.cpp:19-57 | The parser accepts the text of every well-formed layout and recovers the layout |
| RequestGrammar.LayoutSound | shared/src/http_request.cpp:19-57 | An accepted text is the text of its layout |
| RequestGrammar.LayoutIff | shared/src/http_request.cpp:19-57 | The grammar is exact and unambiguous |
| RequestGrammar.RequestIff | shared/src/http_request.cpp:19-57 | A request is the result of parsing exactly when a well-formed layout of the text means it |
| RequestGrammar.StartLineUnique | shared/src/http_request.cpp:24-41 | A text determines the method, URI and version of its start line, and where that line ends |
| RequestGrammar.PrintedText | shared/src/http_request.cpp:72-89 | The printed text: request line, one line for each field in order, blank line, body |
| RequestGrammar.PrintedSpelling | shared/src/http_request.cpp:72-89 | The printed text, spelled out: "GET", "HEAD" or "POST", the URI, "HTTP/1.1", a line name ": " value for each entry in order, a blank line, the body |
| ResponseGrammar.LayoutIff | shared/src/http_response.cpp:11-44 | The response grammar is exact and unambiguous |
| ResponseGrammar.ResponseIff | shared/src/http_response.cpp:11-44 | A response is the result of parsing exactly when a well-formed layout of the text means it |
| ResponseGrammar.StartLineUnique | shared/src/http_response.cpp:18-28 | A text determines the version and status of its status line, and where that line ends |
| ResponseGrammar.PrintedText | shared/src/http_response.cpp:60-83 | The printed text: status line, one line for each field in order, blank line, body |
| ResponseGrammar.PrintedSpelling | shared/src/http_response.cpp:60-83 | The printed text, spelled out: "HTTP/1.1", code and reason, a line name ": " value for each entry in order, a blank line, the body |
| HttpRequest.HttpRequest.constructor | shared/include/http_request.h:19 | A default request: GET, no URI, HTTP/1.1, no headers, no body |
| HttpRequest.HttpRequest.Of | shared/src/http_request.cpp:11-17 | A request with the given parts |
| HttpRequest.HttpRequest.Parse | shared/src/http_request.cpp:19-57 | The offset-driven parser returns the request, the error or the exception the grammar gives, for every text; a request it returns has the method whose token starts the text, the parts of the start line, and the headers and body read after it |
| HttpRequest.HttpRequest.ParseStartLine | shared/src/http_request.cpp:24-41 | Method, URI and version are those of the start line of the text, whatever becomes of the header section; the offset is left at the header lines; errors and the exception are those the grammar gives |
| HttpRequest.HttpRequest.GetHeader | shared/src/http_request.cpp:59-70 | The value of a name, or the empty string |
| HttpRequest.HttpRequest.ToString | shared/src/http_request.cpp:72-89 | The stepwise printer writes the text of the canonical layout; spelled out, token, URI, "HTTP/1.1", a line name ": " value for each header in ascending order, blank line, body |
| HttpRequest.HttpRequest.SetBody | shared/include/http_request.h:87-98 | Sets the body, and erases "Content-Length" or sets it to the decimal length; nothing else changes |
| HttpRequest.HttpRequest.SetHeader | shared/include/http_request.h:103-106 | The name has the value afterwards, whether it was there or not; every other name and every other part keeps its value |
| HttpRequest.HttpRequest.SetMethod | shared/include/http_request.h:110-113 | Sets the method; nothing else changes |
| HttpRequest.HttpRequest.SetUri | shared/include/http_request.h:117-120 | Sets the URI; nothing else changes |
| HttpRequest.HttpRequest.SetVersion | shared/include/http_request.h:124-127 | Sets the version; nothing else changes |
| HttpResponse.HttpResponse.constructor | shared/include/http_response.h:17 | A default response: 200, HTTP/1.1, no headers, no body |
| HttpResponse.HttpResponse.Parse | shared/src/http_response.cpp:11-44 | The offset-driven parser returns the response, the error or the exception the grammar gives, for every text; a response it returns has the status whose code and reason follow the version, and the headers and body read after the status line |
| HttpResponse.HttpResponse.ParseStartLine | shared/src/http_response.cpp:16-28 | Version and status are those of the status line of the text, whatever becomes of the header section; the offset is left at the header lines; errors and the exception are those the grammar gives |
| HttpResponse.HttpResponse.GetHeader | shared/src/http_response.cpp:46-58 | The value of a name, or the empty string |
| HttpResponse.HttpResponse.ToString | shared/src/http_response.cpp:60-83 | The stepwise printer writes the text of the canonical layout; spelled out, "HTTP/1.1", code and reason, a line name ": " value for each header in ascending order, blank line, body |
| HttpResponse.HttpResponse.SetBody | shared/include/http_response.h:64-75 | Sets the body, and erases "Content-Length" or sets it to the decimal length; nothing else changes |
| HttpResponse.HttpResponse.SetHeader | shared/include/http_response.h:80-83 | The name has the value afterwards, whether it was there or not; every other name and every other part keeps its value |
| HttpResponse.HttpResponse.SetStatus | shared/include/http_response.h:87-90 | Sets the status; nothing else changes |
| HttpResponse.HttpResponse.SetVersion | shared/include/http_response.h:94-97 | Sets the version; nothing else changes |
| RequestTheorems.RoundTrip | shared/src/http_request.cpp:19-89 | A safe request is recovered from its text, with any body |
| RequestTheorems.RoundTripIff | shared/src/http_request.cpp:19-89 | The conditions on URI and names are necessary for the round trip of any request, and for CRLF-free values also sufficient |
| RequestTheorems.RoundTripExact | shared/src/http_request.cpp:19-89 | The safe requests are exactly those recovered from a text whose header lines are all spaced |
| RequestTheorems.UnsafeValueRecovered | shared/src/http.cpp:42-50 | The condition on values is not necessary by itself: a family of unsafe requests that are recovered |
| RequestTheorems.ReadRequest | shared/src/http_request.cpp:19-57 | A request that was read has a safe URI and safe names, and is safe exactly when the deciding lines of its text are clean |
| RequestTheorems.Canonicalisation | shared/src/http.cpp:29-79 | A text is clean exactly when it is accepted, and printing what was read gives a spaced text that reads the same; separators, line order and overwritten lines are free |
| RequestTheorems.PrintInjective | shared/src/http_request.cpp:72-89 | Different safe requests have different texts |
| RequestTheorems.BodyIndependentIff | shared/src/http_request.cpp:43-54 | Any bytes after the blank line come back verbatim as the body and change nothing else, exactly when every deciding line is spaced |
| RequestTheorems.ReadFields | shared/src/http.cpp:40-76 | From spaced header lines of any well-formed text, with any separators and any character after the colon, each name gets the value of its last line |
| RequestTheorems.LineOrderIff | shared/src/http.cpp:55-79 | Every text with the same request line, body and header lines, in any order and with any skipped characters, reads as the same request exactly when the lines are free of order |
| RequestTheorems.FieldOrderIrrelevant | shared/src/http.cpp:55-79 | Permuting spaced header lines with different names, and changing skipped characters, gives the same request |
| RequestTheorems.ByteAccounting | shared/src/http_request.cpp:19-57 | The lengths of tokens, separators, header lines, blank line and body add up to the input |
| RequestTheorems.ParseDomain | shared/src/http_request.cpp:24-41 | The parser throws exactly on "GET", "HEAD" or "POST" alone or with one character after it; otherwise it returns a request or one of four errors, never the body error |
| RequestTheorems.MethodTokens | shared/include/http.h:20-25 | A request has method Get, Head or Post exactly when its text starts with "GET", "HEAD" or "POST", and the method is rejected exactly when it starts with none of them |
| RequestTheorems.ParsedParts | shared/src/http_request.cpp:19-57 | For every text and request, parsing returns the request exactly when the text is token, a character, URI, space, "HTTP/1.1", line end, lines and body of that request, and its headers are those the lines denote |
| RequestTheorems.UriError | shared/src/http.cpp:119-131 | The URI is rejected exactly when the text after method and separator has no leading slash or no space |
| RequestTheorems.VersionError | shared/src/http.cpp:141-151 | The version is rejected exactly when the text after the URI does not start with "HTTP/1.1" |
| RequestTheorems.HeadersError | shared/src/http.cpp:35-38 | The headers are rejected exactly when some visited line is bad |
| ResponseTheorems.RoundTrip | shared/src/http_response.cpp:11-83 | A safe response with any status of the table is recovered from its text, with any body |
| ResponseTheorems.RoundTripExact | shared/src/http_response.cpp:11-83 | The safe responses are exactly those recovered from a spaced text; safe names are necessary for the round trip of any response, and for CRLF-free values also sufficient |
| ResponseTheorems.ReadResponse | shared/src/http_response.cpp:11-44 | A response that was read has safe names, and is safe exactly when the deciding lines of its text are clean |
| ResponseTheorems.Canonicalisation | shared/src/http_response.cpp:11-83 | A text is clean exactly when it is accepted, and printing what was read gives a spaced text that reads the same |
| ResponseTheorems.PrintInjective | shared/src/http_response.cpp:60-83 | Different safe responses have different texts |
| ResponseTheorems.BodyIndependentIff | shared/src/http_response.cpp:30-41 | Any bytes after the blank line come back verbatim as the body and change nothing else, exactly when every deciding line is spaced |
| ResponseTheorems.ReadFields | shared/src/http.cpp:40-76 | From spaced header lines of any well-formed text, with any separators and any character after the colon, each name gets the value of its last line |
| ResponseTheorems.LineOrderIff | shared/src/http.cpp:55-79 | Every text with the same status line, body and header lines, in any order and with any skipped characters, reads as the same response exactly when the lines are free of order |
| ResponseTheorems.FieldOrderIrrelevant | shared/src/http.cpp:55-79 | Permuting spaced header lines with different names, and changing skipped characters, gives the same response |
| ResponseTheorems.ByteAccounting | shared/src/http_response.cpp:11-44 | The lengths of tokens, separators, header lines, blank line and body add up to the input |
| ResponseTheorems.ParseDomain | shared/src/http_response.cpp:16-28 | The parser throws exactly on the bare version token; otherwise it returns a response or one of three errors, never the body error |
| ResponseTheorems.StatusTokens | shared/include/http.h:37-43 | A response has the status whose code and reason, spelled out, follow "HTTP/1.1" and one character |
| ResponseTheorems.ParsedParts | shared/src/http_response.cpp:11-44 | For every text and response, parsing returns the response exactly when the text is "HTTP/1.1", a character, code and reason, line end, lines and body of that response, and its headers are those the lines denote |
| ResponseTheorems.StatusError | shared/src/http.cpp:97-114 | The status is rejected exactly when the text after version and separator starts with none of the four codes and reasons |
| ResponseTheorems.HeadersError | shared/src/http.cpp:35-38 | The headers are rejected exactly when some visited line is bad |
| MessageHeaders.WithLengthAgrees | shared/include/http_request.h:87-98 | After `set_body` "Content-Length" is present exactly when there is a body, and spells its length; every other header is unchanged |
| MessageHeaders.WithLengthSafe | shared/include/http_request.h:87-98 | `set_body` keeps a safe header map safe, whatever the body |
| MessageHeaders.AppendFields | shared/src/http_request.cpp:80-83 | The appending loop writes name, ": ", value and CRLF for each field in order |
| ContentLength.RequestLength | shared/include/http_request.h:87-127 | After any run of setters that leave Content-Length to `set_body`, it agrees with the body; with safe arguments and the URI set, this survives printing and parsing |
| ContentLength.ResponseLength | shared/include/http_response.h:64-97 | The same for responses |
| SetterRuns.RequestLastSetter | shared/include/http_request.h:87-127 | In any run of setters the last call that sets a header, the body, the method, the URI or the version decides it |
| SetterRuns.RequestKeeps | shared/include/http_request.h:87-127 | Whatever no call of a run sets keeps its value |
| SetterRuns.RequestKeepsHeader | shared/include/http_request.h:87-106 | A header that no call of a run sets or erases keeps its value, or stays absent |
| SetterRuns.ResponseLastSetter | shared/include/http_response.h:64-97 | In any run of setters the last call that sets a header, the body, the status or the version decides it |
| SetterRuns.ResponseKeeps | shared/include/http_response.h:64-97 | Whatever no call of a run sets keeps its value |
| SetterRuns.ResponseKeepsHeader | shared/include/http_response.h:64-83 | A header that no call of a run sets or erases keeps its value, or stays absent |
| Framing.FullPrefix | shared/src/connection.cpp:48-49 | The number of leading full chunks, and what follows them is not one |
| Framing.OutcomeSpelled | shared/src/connection.cpp:31-52 | After any number of 1024-byte chunks, a short chunk completes the message, a close is a connection reset and an error is that error, whatever was received before; later results are untouched |
| Framing.MessageIff | shared/src/connection.cpp:31-52 | A message is received exactly when the first result that is not a 1024-byte chunk exists and is a chunk |
| Framing.Delivered | shared/src/connection.cpp:22-53 | Full chunks followed by a short one are received as one message, and later results are untouched |
| Framing.DeliveredIff | shared/src/connection.cpp:22-53 | The chunks of a text are received as exactly that text precisely when they end short |
| Framing.DeliverableIff | shared/src/connection.cpp:25-50 | Some way of cutting a text delivers it alone exactly when its length is not a multiple of 1024 |
| Connection.Connection.Recv | shared/src/connection.cpp:31-32 | One `recv` call fills the start of the buffer, or reports a close or an error |
| Connection.Connection.ReceiveRawMessage | shared/src/connection.cpp:22-53 | For every script, the loop reads full chunks up to the first other result: a short chunk completes the message, a close is a connection reset, an error is that error; it consumes nothing after it |
| Connection.Connection.ReceiveRequest | server/src/server_connection.cpp:16-30 | Receiving a request is the loop followed by the parser, with its request, error or exception, or the failure of the connection |
| Connection.Connection.Start | server/src/server_connection.cpp:45-62 | The loop of a server connection accepts requests one after the other until the first result that is none, and returns that |
| Connection.Connection.SendRawMessage | shared/src/connection.cpp:55-79 | Success exactly when there was nothing to send or `send` took the whole message, never for 2^31 bytes or more; a failed `send` is reported with its code, and any other outcome as the message-size error |
| Connection.Conversions | shared/src/connection.cpp:61-66 | The conversions between `int` and `size_t`, by which -1 is the largest `size_t` and a length keeps its lowest 32 bits |
| Connection.EndToEnd | server/src/server_connection.cpp:16-30 | The text of a safe request, in full chunks and a short last one, is received as exactly that request, and what follows is untouched |
| Connection.ResponseEndToEnd | client/src/client_connection.cpp:44-55 | The text of a safe response, so cut, is received as exactly that response |
| Connection.StreamReceived | server/src/server_connection.cpp:50-58 | Any list of safe requests, each cut into chunks that end short, is received from the joined stream as exactly that list, and what follows is untouched |
| Connection.StreamServed | server/src/server_connection.cpp:50-58 | From such a stream the loop accepts exactly the list, and ends with whatever follows it |
| Connection.RequestDeliverableIff | server/src/server_connection.cpp:16-30 | A safe request can be delivered alone exactly when its text is not a multiple of 1024 bytes long |
| PoolTheorems.StepConserved | shared/src/thread_pool.cpp:36-51 | Every step keeps: while a worker sleeps, each queued task has a ready worker |
| PoolTheorems.StepOnce | shared/src/thread_pool.cpp:38-50 | Every step keeps: each task taken runs on exactly one worker or has finished once |
| PoolTheorems.StepOrder | shared/include/thread_pool.h:24-29 | Every step keeps: tasks taken, followed by the queue, are the tasks enqueued, in order |
| PoolTheorems.StepInv | shared/src/thread_pool.cpp:36-51 | Every step, of any thread, keeps the whole invariant |
| PoolTheorems.RunHistory | shared/include/thread_pool.h:24-29 | The history of a run is that of its events: every submitted task was enqueued, in order, and tasks are taken and finished by take and finish steps only |
| PoolTheorems.ReachableInv | shared/src/thread_pool.cpp:29-54 | All of this holds in every reachable state of a pool of any size; the tasks taken, followed by the queue, are exactly the tasks submitted by the events, in order, and each of these is queued, running or finished, exactly once |
| PoolTheorems.NeverStuck | shared/src/thread_pool.cpp:36-51 | No lost wakeup: unless all workers have exited, a queued task meets a ready or a busy worker |
| PoolTheorems.FinalQueue | shared/src/thread_pool.cpp:45-46 | When all workers have exited, the queue holds exactly the tasks enqueued after the last exit, and all others that were submitted have run once |
| PoolTheorems.Drained | shared/src/thread_pool.cpp:21-60 | With a worker, and enqueues after stop only from running tasks, when all workers have exited the queue is empty and every submitted task has run exactly once |
| PoolTheorems.DrainsIff | shared/src/thread_pool.cpp:16-19 | A pool drains on every such run exactly when it has at least one worker |
| PoolTheorems.StepMeasure | shared/src/thread_pool.cpp:21-27 | After the final notification every step but an enqueue lowers the measure by one |
| PoolTheorems.StepAfterStop | shared/src/thread_pool.cpp:36-51 | From stop on, before and after the final notification, each step of a pool with a worker left keeps the invariant and leaves no task behind |
| PoolTheorems.ShutdownAccount | shared/src/thread_pool.cpp:21-27 | The exact number of steps of a run after the final notification; nobody sleeps again |
| PoolTheorems.ShutdownProgress | shared/src/thread_pool.cpp:21-27 | Some worker can take a step exactly as long as not all have exited |
| PoolTheorems.ShutdownTerminates | shared/src/thread_pool.cpp:21-27 | Without new tasks shutdown ends within the measure, with every worker gone |
| ThreadPool.ThreadPool.constructor | shared/src/thread_pool.cpp:16-19 | A new pool has the given number of ready workers and no task: the initial state of the transition system |
| ThreadPool.ThreadPool.StartPool | shared/src/thread_pool.cpp:29-54 | Starts the given number of workers |
| ThreadPool.ThreadPool.EnqueueTask | shared/include/thread_pool.h:24-29 | The task is at the end of the queue, one sleeping worker, if any, is woken, and nothing else changes; this is the enqueue step |
| ThreadPool.ThreadPool.Turn | shared/src/thread_pool.cpp:38-49 | The critical section of a worker is the take, sleep or exit step, whichever the state calls for; `front` and `pop` never see an empty queue |
| ThreadPool.ThreadPool.TaskDone | shared/src/thread_pool.cpp:50 | The return of a task is the finish step |
| ThreadPool.ThreadPool.WakeUp | shared/src/thread_pool.cpp:41-44 | A spurious wake makes a sleeping worker ready and changes nothing else |
| ThreadPool.ThreadPool.WorkerStep | shared/src/thread_pool.cpp:36-51 | From stop on, any worker that has not exited can take a step, which may enqueue a new task; the invariant is kept, and after the notification the step counts down |
| ThreadPool.ThreadPool.StopPool | shared/src/thread_pool.cpp:56-60 | Setting the flag is the stop step |
| ThreadPool.ThreadPool.NotifyEveryone | shared/src/thread_pool.cpp:24 | The final notification wakes every sleeping worker and changes nothing else |
| ThreadPool.ThreadPool.Destroy | shared/src/thread_pool.cpp:21-27 | Under every schedule, with any steps of the workers between stop and notification and any finite number of tasks enqueued by running tasks, the destructor returns with all workers gone and every task, old or new, finished exactly once |
| Bits.OrAdds | shared/include/snowflake.h:56-59 | `\|` of numbers without a common bit is their sum |
| Bits.AndMask | shared/src/snowflake.cpp:26-28 | Masking with k ones takes the remainder modulo 2^k |
| Bits.ShrDivides | shared/src/snowflake.cpp:25-27 | Shifting right by k divides by 2^k |
| Snowflake.PackValue | shared/include/snowflake.h:54-60 | The number an id stands for, which fits 64 bits |
| Snowflake.PackUnpack | shared/src/snowflake.cpp:23-29 | Every 64-bit id is the packing of its fields |
| Snowflake.UnpackPack | shared/src/snowflake.cpp:23-29 | Every choice of fields is recovered from its id |
| Snowflake.OrderIsomorphism | shared/include/snowflake.h:54-60 | Ids are ordered as numbers exactly as their fields are ordered lexicographically |
| Snowflake.ClockOrder | shared/src/snowflake.cpp:11-21 | Generated ids are ordered as the clock modulo 2^42, strictly increase below that, and coincide within a millisecond |
| Snowflake.GeneratedValue | shared/src/snowflake.cpp:11-21 | The number of a generated id is the clock modulo 2^42 shifted by 22 bits, with worker, process and sequence 0, unless the clock is a multiple of 2^42 |
| Snowflake.Snowflake.constructor | shared/src/snowflake.cpp:11-21 | The fields of an id generated at a clock reading |
| Snowflake.Snowflake.FromId | shared/src/snowflake.cpp:23-29 | The fields of the given id, which packs back to it |
| Snowflake.Snowflake.AssignId | shared/src/snowflake.cpp:31-36 | Assigning an id sets the fields to those of the id |
| Snowflake.Snowflake.Equals | shared/src/snowflake.cpp:43-49 | Equality field by field is equality of ids |
| Snowflake.Snowflake.EqualsId | shared/src/snowflake.cpp:56-59 | A snowflake equals an id exactly when it has the fields of the id |

## Left out

- Sockets, Winsock and address lookup (`shared/src/wsa.cpp`): `recv` and `send` appear only as the results they return.
- `shared/include/coroutine.h`: its lifetime scheme depends on compiler coroutine semantics; `co_await` and `co_return` are ordinary calls and results here, and so the reporting of success as an unexpected value by the void specialisation is not modelled.
- `shared/include/expected.h`: a result is a datatype; a thrown `out_of_range` is a third constructor.
- `server/src/server.cpp` and the client classes: callbacks, an accept loop and simple map operations, which would only add easy members.
- Characters are those of Dafny; the order of header names is the order of their code points, which for bytes is the order the C++ map uses.
- A message that is too long for a `std::string` cannot be printed by the original; the functions and lemmas about printing set no bound.
- Exceptions thrown by tasks of the pool, logging, and the texts of error messages.
- Optional whitespace, case-insensitive names and chunked bodies of RFC 9112, which the code does not attempt.
- Connection.Connection.SendRawMessage: the partial write behind the message-size error is not repeated by the original, and so is not modelled beyond that error.
- ThreadPool.ThreadPool.Destroy: the tasks that running tasks enqueue during shutdown are any finite number, because otherwise the destructor need not return; no other thread enqueues, as the pool is being destroyed.
- Snowflake.Generate: the content of the sequence field that is incremented without having been initialised is a parameter, because the code does not decide it.
