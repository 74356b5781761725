/** The record produced by the line parser (parser/models.py) and the optional result it comes in. */
module Models {

  /** `Optional[...]`: a value or nothing. */
  datatype Option<+T> = None | Some(value: T)

  /** One authentication attempt taken from a log line. All five fields are always present:
      a value of this type cannot be built with a field missing. */
  datatype LogEntry = LogEntry(
    timestamp: string,
    status: string,
    username: string,
    ipAddress: string,
    rawContent: string
  )
}
