/** The parts of Poco's Message that a LogStream produces: a priority and a line of text. */
module Message {

  /** Message::Priority, from the most severe level to the least severe one. */
  datatype Priority = Fatal | Critical | Error | Warning | Notice | Information | Debug | Trace

  /** What the logger receives for one completed line: the priority and the text. */
  datatype Line = Line(priority: Priority, text: string)
}
