# LogStream: a line-buffering stream onto a Poco Logger

A Dafny model of `LogStreamBuf` and `LogStream` from POCO's Foundation library
(`Foundation/include/Poco/LogStream.h`).

`LogStreamBuf` is a stream buffer. It appends every character written to it, other than CR and LF, to a
string message. When a CR or LF arrives, it sends that string to its `Logger` at the priority set at
that moment, and the message starts again empty. `LogStream` is the `std::ostream` façade over
it. It has one pair of operations per priority level: `fatal()` … `trace()` only set the
priority, and `fatal(message)` … `trace(message)` set it and then write the message.

Files:

- `message.dfy`, module `Message`: the eight `Message::Priority` levels and `Line`, the
  (priority, text) pair that the logger receives.
- `line_buffer.dfy`, module `LineBuffer`: the buffering behaviour as pure functions. `WriteChar`
  is one `writeToDevice` step and `WriteString` is a sequence of them. `Split`, `Joined` and
  `Terminators` are an independent reference definition: a text cut at its terminators. The
  lemmas connect the two definitions and prove the round trips.
- `log_stream.dfy`, module `Poco`: the classes `Logger`, `LogStreamBuf` and `LogStream`. The
  buffer's fields `priority`, `message` and `capacity` are updated in place. `Write` is a loop of
  `WriteToDevice` calls, proved against `WriteString`.

The `Logger` is reduced to a ghost record, `received`, of the lines it was sent. Its only
operation is `Log`. The binding to a logger is a `const` field, so no operation can rebind it.

The header does not say what a terminator does when the buffer is empty. That behaviour is in
the implementation file, `LogStream.cpp`, which is not part of this model. The model makes it
an explicit parameter, `EmptyLinePolicy`, fixed at construction:

- `SendEmpty`: every terminator sends a line, possibly an empty one.
- `DropEmpty`: a terminator that finds the buffer empty sends nothing.

Every contract holds under both choices. The CR-LF question follows from this choice
(`LineBuffer.CarriageReturnLineFeed`). Under `DropEmpty`, CR LF sends one line when the buffer
holds text and none when it is empty. Under `SendEmpty`, the CR sends the buffered line (empty
or not) and the LF then sends an empty line.

## Model

| member | source | states |
|---|---|---|
| LineBuffer.Split | Foundation/include/Poco/LogStream.h:34-37 | Reference cut of a text at CR and LF: exactly one completed line per terminator in the text. |
| LineBuffer.SplitIsClean | Foundation/include/Poco/LogStream.h:34-37 | No completed line and no pending text contains a CR or LF. |
| LineBuffer.Kept | Foundation/include/Poco/LogStream.h:35-37 | The lines handed to the logger: all of them under the send-empty choice, never more than there are, and each one non-empty under the drop-empty choice. |
| LineBuffer.KeptIsFilter | Foundation/include/Poco/LogStream.h:35-37 | Every line handed over is one of the completed lines, and every completed line that the empty-line choice sends appears among those handed over. |
| LineBuffer.KeptAppend | Foundation/include/Poco/LogStream.h:35-37 | Order is kept: the lines handed over from a + b are those from a, followed by those from b. |
| LineBuffer.KeptCount | Foundation/include/Poco/LogStream.h:35-37 | Multiplicity is kept: a line the empty-line choice sends is handed over exactly as often as it was completed, and any other line never is. |
| LineBuffer.SplitJoined | Foundation/include/Poco/LogStream.h:34-37 | Round trip: cutting lines joined by terminators, plus a terminator-free rest, gives back the same lines and rest. |
| LineBuffer.JoinedSplit | Foundation/include/Poco/LogStream.h:34-37 | Round trip: the completed lines, re-joined with the text's own terminators, plus the pending rest, rebuild the text exactly. |
| LineBuffer.WriteStringIsSplit | Foundation/include/Poco/LogStream.h:34-37 | Writing a text onto a buffer that holds no terminator sends exactly the completed lines of buffer+text (subject to the empty-line choice), in order, at the current priority, and leaves the text after the last terminator buffered. |
| LineBuffer.SentLinesAreClean | Foundation/include/Poco/LogStream.h:34-37 | Every line sent carries the priority in effect and contains no CR or LF; the buffer never contains one either. |
| LineBuffer.BufferingSendsNothing | Foundation/include/Poco/LogStream.h:34-35 | Text without CR or LF is appended to the buffer and nothing is sent, whatever the priority. |
| LineBuffer.TerminatorPriorityGoverns | Foundation/include/Poco/LogStream.h:91-94 | A line is sent with the priority current when its terminator is written, not the one current when its characters were buffered. |
| LineBuffer.CarriageReturnLineFeed | Foundation/include/Poco/LogStream.h:35-37 | CR then LF sends the buffered line once; the LF then sends an empty line only under the send-empty choice. |
| LineBuffer.WriteStringAppend | Foundation/include/Poco/LogStream.h:91-94 | Writing s1 and then s2 has the same effect as writing s1+s2: how the characters are divided among writes makes no difference. |
| Poco.LogStreamBuf.constructor | Foundation/include/Poco/LogStream.h:40 | Binds the logger and priority given, starts with an empty buffer whose capacity is at least bufferCapacity. |
| Poco.LogStreamBuf.SetPriority | Foundation/include/Poco/LogStream.h:46-47 | The priority becomes p; buffered text, capacity and lines already sent are unchanged. |
| Poco.LogStreamBuf.GetPriority | Foundation/include/Poco/LogStream.h:184-187 | Returns the current priority. |
| Poco.LogStreamBuf.GetLogger | Foundation/include/Poco/LogStream.h:190-193 | Returns the logger bound at construction (a const field, so no operation rebinds it). |
| Poco.LogStreamBuf.Capacity | Foundation/include/Poco/LogStream.h:178-181 | Returns the buffer capacity, which is never less than the buffered text. |
| Poco.LogStreamBuf.Reserve | Foundation/include/Poco/LogStream.h:58-59 | Capacity becomes at least n; buffered text, priority and lines sent are unchanged. |
| Poco.LogStreamBuf.WriteToDevice | Foundation/include/Poco/LogStream.h:34-37 | A character other than CR/LF is appended and nothing is sent; CR or LF sends the buffered text at the current priority (an empty buffer as the empty-line choice says) and empties the buffer. |
| Poco.LogStreamBuf.Write | Foundation/include/Poco/LogStream.h:91-94 | Writing a text character by character leaves the buffer and the logger's lines exactly as WriteString says, priority unchanged. |
| Poco.LogStream.constructor | Foundation/include/Poco/LogStream.h:104 | A fresh buffer bound to the logger, priority defaulting to information and capacity to at least 255. |
| Poco.LogStream.Priority | Foundation/include/Poco/LogStream.h:170-171 | Sets the priority to p and returns the same stream; buffered text and lines sent unchanged. |
| Poco.LogStream.PriorityMessage | Foundation/include/Poco/LogStream.h:117-168 | The step shared by the eight message overloads (the header has no such overload of its own): sets the priority to p, then writes the text through the buffer, with the effect WriteString gives at p. |
| Poco.LogStream.Fatal | Foundation/include/Poco/LogStream.h:114-115 | Sets the priority to Fatal and returns the same stream; buffered text and lines sent unchanged. |
| Poco.LogStream.FatalMessage | Foundation/include/Poco/LogStream.h:117-119 | Sets the priority to Fatal, then writes the message through the buffer, with the effect WriteString gives at Fatal; returns the same stream. |
| Poco.LogStream.Critical | Foundation/include/Poco/LogStream.h:121-122 | Sets the priority to Critical and returns the same stream; buffered text and lines sent unchanged. |
| Poco.LogStream.CriticalMessage | Foundation/include/Poco/LogStream.h:124-126 | Sets the priority to Critical, then writes the message through the buffer, with the effect WriteString gives at Critical; returns the same stream. |
| Poco.LogStream.Error | Foundation/include/Poco/LogStream.h:128-129 | Sets the priority to Error and returns the same stream; buffered text and lines sent unchanged. |
| Poco.LogStream.ErrorMessage | Foundation/include/Poco/LogStream.h:131-133 | Sets the priority to Error, then writes the message through the buffer, with the effect WriteString gives at Error; returns the same stream. |
| Poco.LogStream.Warning | Foundation/include/Poco/LogStream.h:135-136 | Sets the priority to Warning and returns the same stream; buffered text and lines sent unchanged. |
| Poco.LogStream.WarningMessage | Foundation/include/Poco/LogStream.h:138-140 | Sets the priority to Warning, then writes the message through the buffer, with the effect WriteString gives at Warning; returns the same stream. |
| Poco.LogStream.Notice | Foundation/include/Poco/LogStream.h:142-143 | Sets the priority to Notice and returns the same stream; buffered text and lines sent unchanged. |
| Poco.LogStream.NoticeMessage | Foundation/include/Poco/LogStream.h:145-147 | Sets the priority to Notice, then writes the message through the buffer, with the effect WriteString gives at Notice; returns the same stream. |
| Poco.LogStream.Information | Foundation/include/Poco/LogStream.h:149-150 | Sets the priority to Information and returns the same stream; buffered text and lines sent unchanged. |
| Poco.LogStream.InformationMessage | Foundation/include/Poco/LogStream.h:152-154 | Sets the priority to Information, then writes the message through the buffer, with the effect WriteString gives at Information; returns the same stream. |
| Poco.LogStream.Debug | Foundation/include/Poco/LogStream.h:156-157 | Sets the priority to Debug and returns the same stream; buffered text and lines sent unchanged. |
| Poco.LogStream.DebugMessage | Foundation/include/Poco/LogStream.h:159-161 | Sets the priority to Debug, then writes the message through the buffer, with the effect WriteString gives at Debug; returns the same stream. |
| Poco.LogStream.Trace | Foundation/include/Poco/LogStream.h:163-164 | Sets the priority to Trace and returns the same stream; buffered text and lines sent unchanged. |
| Poco.LogStream.TraceMessage | Foundation/include/Poco/LogStream.h:166-168 | Sets the priority to Trace, then writes the message through the buffer, with the effect WriteString gives at Trace; returns the same stream. |
| Poco.UsageExample | Foundation/include/Poco/LogStream.h:96-99 | The documented usage sends exactly the informational line at information priority, then the error line at error priority. |

## Left out

- `Poco.LogStreamBuf.WriteToDevice`: the `int` status it returns to the stream machinery is not modelled. Its value is set in `LogStream.cpp`, which is not part of this model.
- Empty-line suppression is not fixed. It is the `EmptyLinePolicy` parameter. A third rule, treating CR immediately followed by LF as one terminator, is not modelled. That rule would live in `LogStream.cpp`, which is not part of this model.
- `Poco.LogStream.FatalMessage` … `Poco.LogStream.TraceMessage`: these follow the header's wording ("sets the priority … and writes the given message"). No terminator is appended, so the message is sent at the next CR or LF. Some descriptions of `LogStream` say the message is written followed by a terminator. The header does not say so, and the model follows the header.
- Destruction of `LogStreamBuf` and `LogStream` (lines 43 and 111), including any flush of a partial line. A flush on destruction is commonly expected of stream adapters, but the header does not promise one. The destructor's body is in `LogStream.cpp`, which is not part of this model.
- The `LogStream(const std::string& loggerName, …)` constructor (line 107): it looks the logger up in a process-wide registry, which is not part of this model.
- `Logger` internals and the construction of a `Message` (source name, time stamp, thread): a `Logger` is only the list of (priority, text) lines it received.
- `LogIOS`, `rdbuf()`, `UnbufferedStreamBuf` and the `std::ios`/`std::ostream` inheritance (lines 71-87): these exist only to order construction and to adapt the iostream interface. The façade holds its buffer directly as `buf`.
- `operator<<` formatting of non-character values is standard-library behaviour. The model starts from the characters it produces.
- `Poco.LogStreamBuf.Reserve`: `std::string` may allocate more than requested, so capacity only promises to be at least the requested size and at least the buffered length. Actual allocation is not modelled.
- `size_t` bounds on capacities: modelled as unbounded `nat`.
- Thread safety: the class does no locking and makes no concurrency promise, so the model is sequential.
