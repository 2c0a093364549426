/**
 * LogStreamBuf and LogStream: a stream buffer that collects the characters written to it and
 * hands each completed line to a Logger, and the ostream facade that selects the priority.
 */
module Poco {
  import Message
  import opened LineBuffer

  /**
   * The Logger a LogStreamBuf forwards to, reduced to the lines it has received.  How a Logger
   * builds a Message and routes it to its channels is not part of this model.
   */
  class Logger {
    ghost var received: seq<Message.Line>

    constructor ()
      ensures received == []
    {
      received := [];
    }

    /** Logger::log: one completed line arrives. */
    method Log(line: Message.Line)
      modifies this
      ensures received == old(received) + [line]
    {
      received := received + [line];
    }
  }

  /**
   * The stream buffer.  The logger is bound at construction and never rebound (a const field);
   * emptyLines stands for the implementation's choice on terminators that find the buffer empty.
   */
  class LogStreamBuf {
    const logger: Logger
    const emptyLines: EmptyLinePolicy
    var priority: Message.Priority
    var message: string
    var capacity: nat

    /** The buffer holds only text written since the last terminator, within its capacity. */
    ghost predicate Valid()
      reads this
    {
      TerminatorFree(message) && |message| <= capacity
    }

    constructor (emptyLines: EmptyLinePolicy, logger: Logger, priority: Message.Priority, bufferCapacity: nat := 0)
      ensures Valid()
      ensures this.logger == logger && this.emptyLines == emptyLines
      ensures this.priority == priority && message == [] && capacity >= bufferCapacity
    {
      this.logger := logger;
      this.emptyLines := emptyLines;
      this.priority := priority;
      message := [];
      capacity := bufferCapacity;
    }

    method SetPriority(p: Message.Priority)
      requires Valid()
      modifies this
      ensures Valid()
      ensures priority == p && message == old(message) && capacity == old(capacity)
      ensures logger.received == old(logger.received)
    {
      priority := p;
    }

    method GetPriority() returns (p: Message.Priority)
      ensures p == priority
    {
      p := priority;
    }

    method GetLogger() returns (l: Logger)
      ensures l == logger
    {
      l := logger;
    }

    method Capacity() returns (n: nat)
      requires Valid()
      ensures n == capacity && n >= |message|
    {
      n := capacity;
    }

    /** Makes room for at least n characters; the buffered text and the priority stay as they are. */
    method Reserve(n: nat)
      requires Valid()
      modifies this
      ensures Valid()
      ensures capacity >= n
      ensures priority == old(priority) && message == old(message)
      ensures logger.received == old(logger.received)
    {
      if n > capacity {
        capacity := n;
      }
    }

    /**
     * One character: CR or LF hands the buffered text to the logger at the current priority (or,
     * for an empty buffer, does what emptyLines says) and restarts the buffer; any other character
     * is appended to the buffer and nothing is sent.
     */
    method WriteToDevice(c: char)
      requires Valid()
      modifies this, logger
      ensures Valid() && priority == old(priority)
      ensures !IsTerminator(c) ==> message == old(message) + [c] && logger.received == old(logger.received)
      ensures IsTerminator(c) ==>
                message == []
                && logger.received == old(logger.received)
                                      + if Sends(emptyLines, old(message)) then [Message.Line(priority, old(message))] else []
    {
      if IsTerminator(c) {
        if Sends(emptyLines, message) {
          logger.Log(Message.Line(priority, message));
        }
        message := [];
      } else {
        message := message + [c];
        if |message| > capacity {
          capacity := |message|;
        }
      }
    }

    /** Writes s one character at a time, as the stream machinery does. */
    method Write(s: string)
      requires Valid()
      modifies this, logger
      ensures Valid() && priority == old(priority)
      ensures var o := WriteString(emptyLines, priority, old(message), s);
              message == o.message && logger.received == old(logger.received) + o.sent
    {
      var i := 0;
      while i < |s|
        invariant 0 <= i <= |s|
        invariant Valid() && priority == old(priority)
        invariant var o := WriteString(emptyLines, priority, old(message), s[..i]);
                  message == o.message && logger.received == old(logger.received) + o.sent
      {
        WriteStringSnoc(emptyLines, priority, old(message), s[..i], s[i]);
        assert s[..i + 1] == s[..i] + [s[i]];
        WriteToDevice(s[i]);
        i := i + 1;
      }
      assert s[..i] == s;
    }
  }

  const DefaultBufferCapacity: nat := 255

  /** The ostream facade: selects the priority of the lines written through its buffer. */
  class LogStream {
    const buf: LogStreamBuf

    ghost predicate Valid()
      reads this, buf
    {
      buf.Valid()
    }

    /** The buffer holds, and the logger has received, what writing text at priority p onto message m0 and log0 gives. */
    ghost predicate WroteAt(p: Message.Priority, m0: string, log0: seq<Message.Line>, text: string)
      reads this, buf, buf.logger
    {
      var o := WriteString(buf.emptyLines, p, m0, text);
      buf.message == o.message && buf.logger.received == log0 + o.sent
    }

    constructor (emptyLines: EmptyLinePolicy, logger: Logger,
                 priority: Message.Priority := Message.Information,
                 bufferCapacity: nat := DefaultBufferCapacity)
      ensures Valid() && fresh(buf)
      ensures buf.logger == logger && buf.emptyLines == emptyLines
      ensures buf.priority == priority && buf.message == [] && buf.capacity >= bufferCapacity
    {
      buf := new LogStreamBuf(emptyLines, logger, priority, bufferCapacity);
    }

    /** Sets the priority to p; returns this stream. */
    method Priority(p: Message.Priority) returns (r: LogStream)
      requires Valid()
      modifies buf
      ensures Valid() && r == this
      ensures buf.priority == p
      ensures buf.message == old(buf.message) && buf.capacity == old(buf.capacity)
      ensures buf.logger.received == old(buf.logger.received)
    {
      buf.SetPriority(p);
      r := this;
    }

    /** Sets the priority to p, then writes text through the buffer. */
    method PriorityMessage(p: Message.Priority, text: string) returns (r: LogStream)
      requires Valid()
      modifies buf, buf.logger
      ensures Valid() && r == this
      ensures buf.priority == p
      ensures WroteAt(p, old(buf.message), old(buf.logger.received), text)
    {
      buf.SetPriority(p);
      buf.Write(text);
      r := this;
    }

    /** Sets the priority to Message.Fatal; returns this stream. */
    method Fatal() returns (r: LogStream)
      requires Valid()
      modifies buf
      ensures Valid() && r == this
      ensures buf.priority == Message.Fatal
      ensures buf.message == old(buf.message) && buf.capacity == old(buf.capacity)
      ensures buf.logger.received == old(buf.logger.received)
    {
      r := Priority(Message.Fatal);
    }

    /** Sets the priority to Message.Fatal, then writes text. */
    method FatalMessage(text: string) returns (r: LogStream)
      requires Valid()
      modifies buf, buf.logger
      ensures Valid() && r == this
      ensures buf.priority == Message.Fatal
      ensures WroteAt(Message.Fatal, old(buf.message), old(buf.logger.received), text)
    {
      r := PriorityMessage(Message.Fatal, text);
    }

    /** Sets the priority to Message.Critical; returns this stream. */
    method Critical() returns (r: LogStream)
      requires Valid()
      modifies buf
      ensures Valid() && r == this
      ensures buf.priority == Message.Critical
      ensures buf.message == old(buf.message) && buf.capacity == old(buf.capacity)
      ensures buf.logger.received == old(buf.logger.received)
    {
      r := Priority(Message.Critical);
    }

    /** Sets the priority to Message.Critical, then writes text. */
    method CriticalMessage(text: string) returns (r: LogStream)
      requires Valid()
      modifies buf, buf.logger
      ensures Valid() && r == this
      ensures buf.priority == Message.Critical
      ensures WroteAt(Message.Critical, old(buf.message), old(buf.logger.received), text)
    {
      r := PriorityMessage(Message.Critical, text);
    }

    /** Sets the priority to Message.Error; returns this stream. */
    method Error() returns (r: LogStream)
      requires Valid()
      modifies buf
      ensures Valid() && r == this
      ensures buf.priority == Message.Error
      ensures buf.message == old(buf.message) && buf.capacity == old(buf.capacity)
      ensures buf.logger.received == old(buf.logger.received)
    {
      r := Priority(Message.Error);
    }

    /** Sets the priority to Message.Error, then writes text. */
    method ErrorMessage(text: string) returns (r: LogStream)
      requires Valid()
      modifies buf, buf.logger
      ensures Valid() && r == this
      ensures buf.priority == Message.Error
      ensures WroteAt(Message.Error, old(buf.message), old(buf.logger.received), text)
    {
      r := PriorityMessage(Message.Error, text);
    }

    /** Sets the priority to Message.Warning; returns this stream. */
    method Warning() returns (r: LogStream)
      requires Valid()
      modifies buf
      ensures Valid() && r == this
      ensures buf.priority == Message.Warning
      ensures buf.message == old(buf.message) && buf.capacity == old(buf.capacity)
      ensures buf.logger.received == old(buf.logger.received)
    {
      r := Priority(Message.Warning);
    }

    /** Sets the priority to Message.Warning, then writes text. */
    method WarningMessage(text: string) returns (r: LogStream)
      requires Valid()
      modifies buf, buf.logger
      ensures Valid() && r == this
      ensures buf.priority == Message.Warning
      ensures WroteAt(Message.Warning, old(buf.message), old(buf.logger.received), text)
    {
      r := PriorityMessage(Message.Warning, text);
    }

    /** Sets the priority to Message.Notice; returns this stream. */
    method Notice() returns (r: LogStream)
      requires Valid()
      modifies buf
      ensures Valid() && r == this
      ensures buf.priority == Message.Notice
      ensures buf.message == old(buf.message) && buf.capacity == old(buf.capacity)
      ensures buf.logger.received == old(buf.logger.received)
    {
      r := Priority(Message.Notice);
    }

    /** Sets the priority to Message.Notice, then writes text. */
    method NoticeMessage(text: string) returns (r: LogStream)
      requires Valid()
      modifies buf, buf.logger
      ensures Valid() && r == this
      ensures buf.priority == Message.Notice
      ensures WroteAt(Message.Notice, old(buf.message), old(buf.logger.received), text)
    {
      r := PriorityMessage(Message.Notice, text);
    }

    /** Sets the priority to Message.Information; returns this stream. */
    method Information() returns (r: LogStream)
      requires Valid()
      modifies buf
      ensures Valid() && r == this
      ensures buf.priority == Message.Information
      ensures buf.message == old(buf.message) && buf.capacity == old(buf.capacity)
      ensures buf.logger.received == old(buf.logger.received)
    {
      r := Priority(Message.Information);
    }

    /** Sets the priority to Message.Information, then writes text. */
    method InformationMessage(text: string) returns (r: LogStream)
      requires Valid()
      modifies buf, buf.logger
      ensures Valid() && r == this
      ensures buf.priority == Message.Information
      ensures WroteAt(Message.Information, old(buf.message), old(buf.logger.received), text)
    {
      r := PriorityMessage(Message.Information, text);
    }

    /** Sets the priority to Message.Debug; returns this stream. */
    method Debug() returns (r: LogStream)
      requires Valid()
      modifies buf
      ensures Valid() && r == this
      ensures buf.priority == Message.Debug
      ensures buf.message == old(buf.message) && buf.capacity == old(buf.capacity)
      ensures buf.logger.received == old(buf.logger.received)
    {
      r := Priority(Message.Debug);
    }

    /** Sets the priority to Message.Debug, then writes text. */
    method DebugMessage(text: string) returns (r: LogStream)
      requires Valid()
      modifies buf, buf.logger
      ensures Valid() && r == this
      ensures buf.priority == Message.Debug
      ensures WroteAt(Message.Debug, old(buf.message), old(buf.logger.received), text)
    {
      r := PriorityMessage(Message.Debug, text);
    }

    /** Sets the priority to Message.Trace; returns this stream. */
    method Trace() returns (r: LogStream)
      requires Valid()
      modifies buf
      ensures Valid() && r == this
      ensures buf.priority == Message.Trace
      ensures buf.message == old(buf.message) && buf.capacity == old(buf.capacity)
      ensures buf.logger.received == old(buf.logger.received)
    {
      r := Priority(Message.Trace);
    }

    /** Sets the priority to Message.Trace, then writes text. */
    method TraceMessage(text: string) returns (r: LogStream)
      requires Valid()
      modifies buf, buf.logger
      ensures Valid() && r == this
      ensures buf.priority == Message.Trace
      ensures WroteAt(Message.Trace, old(buf.message), old(buf.logger.received), text)
    {
      r := PriorityMessage(Message.Trace, text);
    }
  }

  /**
   * The header's usage example: an informational line, then an error line selected with error(),
   * each ended by std::endl.
   */
  method UsageExample(emptyLines: EmptyLinePolicy, someLogger: Logger)
    modifies someLogger
    ensures someLogger.received
         == old(someLogger.received)
            + [Message.Line(Message.Information, "Some informational message"),
               Message.Line(Message.Error, "Some error message")]
  {
    var info, error := "Some informational message", "Some error message";
    assert TerminatorFree(info) && TerminatorFree(error);
    var ls := new LogStream(emptyLines, someLogger);
    ls.buf.Write(info + "\n");
    SendsOneLine(emptyLines, Message.Information, info, '\n');
    var e := ls.Error();
    e.buf.Write(error + "\n");
    SendsOneLine(emptyLines, Message.Error, error, '\n');
  }

  /** A non-empty line followed by a terminator, written on an empty buffer, is sent as one line. */
  lemma SendsOneLine(policy: EmptyLinePolicy, p: Message.Priority, line: string, t: char)
    requires TerminatorFree(line) && line != [] && IsTerminator(t)
    ensures WriteString(policy, p, [], line + [t]) == Outcome([], [Message.Line(p, line)])
  {
    WriteStringAppend(policy, p, [], line, [t]);
    TerminatorPriorityGoverns(policy, p, p, [], line, t);
    assert [] + line == line;
  }
}
