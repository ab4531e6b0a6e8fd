/** Failure-compatible wrappers shared by every module of the decoder.

    The decoder reports every exception the library raises as an `Err`
    carrying one `Error` variant; a value that the library leaves `null` is
    a `None`. */
module Results {

  datatype Option<+T> = None | Some(value: T)

  /** One variant per distinct way the decoder can fail. */
  datatype Error =
    /** An array index or `Substring` range outside its buffer. */
    | IndexOutOfRange
    /** `int.Parse` met text that is not an optional sign followed by digits. */
    | InvalidNumber
    /** `int.Parse` met a number outside the 32-bit signed range. */
    | NumberOverflow
    /** The module leader failed its pre-check or its structural check. */
    | InvalidFile
    /** A record leader carries a directory width outside 0..9. */
    | CorruptRecordLeader
    /** A record leader's length or field-area start is out of the sane range. */
    | CorruptRecord
    | UnrecognisedDataStructCode(code: char)
    | UnrecognisedDataTypeCode(code: char)
    /** `First()` on an empty array description. */
    | EmptyArrayDescription
    | FormatControlsMissingBrackets
    | TooManyFormats
    /** A format token of kind `X`. */
    | FormatNotSupported(kind: char)
    /** A format token whose leading character is not a known kind. */
    | FormatNotRecognised(kind: char)
    /** `Dictionary.Add` of a subfield name already present. */
    | DuplicateSubfieldName(name: string)
    /** A header directory entry points outside the header record. */
    | HeaderRecordInvalid
    | UndefinedField(tag: string)
    /** A data-record directory entry points outside the record body. */
    | FieldOutOfBounds(tag: string)
    /** `Array.CopyTo` into a destination that is too short. */
    | DestinationTooShort
    /** The input ended while a record body was still being extended. */
    | ShortRecord
    /** A loop of the library that never terminates on this input. */
    | Diverges

  datatype Result<+T> = Ok(value: T) | Err(error: Error) {

    predicate IsFailure() {
      Err?
    }

    function PropagateFailure<U>(): Result<U>
      requires Err?
    {
      Err(error)
    }

    function Extract(): T
      requires Ok?
    {
      value
    }
  }
}

/** The byte values and sizes fixed by ISO/IEC 8211. */
module Constants {

  /** Ends every field and the directory (0x1E). */
  const FieldTerminator: char := 30 as char

  /** Ends every variable-width subfield (0x1F). */
  const UnitTerminator: char := 31 as char

  /** Length of every leader, module or record. */
  const LeaderSize: nat := 24
}
