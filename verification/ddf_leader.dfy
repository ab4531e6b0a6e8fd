/** The leader that opens the file and every record. */
module DdfLeader {
  import opened Results

  /** A decoded leader. The fields a record leader does not read keep the
      library's defaults: `None` for the text fields, 0 for the field-control
      length. */
  datatype Leader = Leader(
    recordLength: int,
    interchangeLevel: Option<string>,
    leaderIdentifier: string,
    inlineCodeExtensionIndicator: Option<string>,
    versionNumber: Option<string>,
    appIndicator: Option<string>,
    fieldControlLength: int,
    fieldAreaStart: int,
    extendedCharSet: Option<seq<char>>,
    sizeFieldLength: int,
    sizeFieldPosition: int,
    sizeFieldTag: int)

  /** Width of one directory entry: tag, length digits and position digits. */
  function FieldEntryWidth(l: Leader): int
  {
    l.sizeFieldLength + l.sizeFieldPosition + l.sizeFieldTag
  }
}
