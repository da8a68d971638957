/** The enumerations of types.py, and an optional value for Python's `X | None`. */
module Types {

  /** How one indentation unit is written: `indent_width` spaces, or one tab. */
  datatype IndentType = Spaces | Tabs

  /** The two output formats of the command. */
  datatype OutputFormat = Yaml | TreeFormat

  /** A value that may be absent (Python's `None`). */
  datatype Option<T> = None | Some(value: T)
}
