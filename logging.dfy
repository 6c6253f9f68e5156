/** The messages a Server raises through its LoggedMessage event
    (Server.cs:12-24, 69-86): an entry type and the formatted text. */
module Logging {

  /** The two EventLogEntryType values the server uses. */
  datatype EntryType = Information | Error

  datatype LoggedMessage = LoggedMessage(kind: EntryType, message: string)

  /** Log(format, args): an Information entry. */
  function Info(message: string): LoggedMessage {
    LoggedMessage(Information, message)
  }
}
