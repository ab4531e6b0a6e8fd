/** One subfield of a field definition: how its format token is interpreted
    and how its bytes are cut out of a field and normalised. */
module DdfSubfieldDefinition {
  import opened Results
  import opened Constants
  import opened Strings
  import opened Numbers

  datatype DataType = DdfInt | DdfFloat | DdfString | DdfBinaryString

  /** The binary-format codes; `SetFormat` may also store any other value a
      type digit produces. */
  const NotBinary: int := 0
  const UInt: int := 1
  const SInt: int := 2

  datatype SubfieldDefinition = SubfieldDefinition(
    name: string,
    formatWidth: int,
    isVariable: bool,
    dataType: DataType,
    formatDelimiter: char,
    binaryFormat: int,
    formatString: Option<string>)

  /** A subfield as the field definition creates it, before any format is
      applied: variable-width text delimited by the unit terminator. */
  function NewSubfieldDefinition(name: string): SubfieldDefinition
  {
    SubfieldDefinition(name, 0, true, DdfString, UnitTerminator, NotBinary, None)
  }

  // ---------------------------------------------------------------------
  // Format tokens
  // ---------------------------------------------------------------------

  /** The integer formed by all digits of a token. */
  function TokenDigits(format: string): (r: Result<int>)
    ensures r.Ok? <==> |FilterDigits(format)| >= 1 && DigitsValue(FilterDigits(format)) <= Int32Max
    ensures r.Ok? ==> r.value == DigitsValue(FilterDigits(format))
  {
    ParseIntOfDigits(FilterDigits(format));
    ParseInt(FilterDigits(format))
  }

  /** The kinds of text token: character strings (`A`, `C`), floating
      point (`R`) and integers (`I`, `S`). */
  predicate TextKind(c: char) {
    c == 'A' || c == 'C' || c == 'R' || c == 'I' || c == 'S'
  }

  /** The kinds of binary token. */
  predicate BinaryKind(c: char) {
    c == 'B' || c == 'b'
  }

  predicate KnownKind(c: char) {
    TextKind(c) || BinaryKind(c)
  }

  /** The errors a format token itself can cause. */
  predicate FormatError(e: Error) {
    e == InvalidNumber || e == NumberOverflow || e.FormatNotSupported? || e.FormatNotRecognised?
  }

  /** The first step of applying a token: it is recorded as the format
      string, and with `(` the width becomes the integer formed by all its
      digits, zero meaning variable width; without `(` the subfield is
      variable-width and keeps its width. */
  function SizeFormat(d: SubfieldDefinition, format: string): (r: Result<SubfieldDefinition>)
    ensures r.Ok? ==> r.value == d.(formatString := Some(format), formatWidth := r.value.formatWidth,
                                     isVariable := r.value.isVariable)
    ensures r.Ok? && '(' in format ==>
      r.value.formatWidth == DigitsValue(FilterDigits(format)) && (r.value.isVariable <==> r.value.formatWidth == 0)
    ensures r.Ok? && '(' !in format ==> r.value.isVariable && r.value.formatWidth == d.formatWidth
    ensures r.Ok? <==> '(' !in format || TokenDigits(format).Ok?
    ensures r.Err? ==> r.error == InvalidNumber || r.error == NumberOverflow
  {
    var named := d.(formatString := Some(format));
    if '(' in format then
      var width :- TokenDigits(format);
      Ok(named.(formatWidth := width, isVariable := width == 0))
    else Ok(named.(isVariable := true))
  }

  /** Applies one format token: `(` makes the width the integer formed by all
      the token's digits; the leading character selects the kind; `B`/`b`
      tokens are always fixed-width binary. */
  function SetFormat(d: SubfieldDefinition, format: string): (r: Result<SubfieldDefinition>)
    ensures r.Ok? ==> r.value.name == d.name && r.value.formatString == Some(format)
    ensures r.Ok? ==> r.value.formatDelimiter == d.formatDelimiter
    ensures r.Ok? && d.formatWidth >= 0 ==> r.value.formatWidth >= 0
    ensures |format| == 0 ==> r == Err(IndexOutOfRange)
    ensures r.Ok? ==> |format| >= 1 && KnownKind(format[0])
    ensures r.Err? && r.error.FormatNotSupported? ==> format[0] == 'X'
    ensures r.Err? && r.error.FormatNotRecognised? ==> r.error.kind == format[0] && (!KnownKind(format[0]) && format[0] != 'X')
    ensures |format| >= 1 && !KnownKind(format[0]) ==> r.Err?
    ensures r.Err? ==> r.error == IndexOutOfRange || FormatError(r.error)
  {
    var sized :- SizeFormat(d, format);
    var kind :- At(format, 0);
    match kind
    case 'A' => Ok(sized.(dataType := DdfString))
    case 'C' => Ok(sized.(dataType := DdfString))
    case 'R' => Ok(sized.(dataType := DdfFloat))
    case 'I' => Ok(sized.(dataType := DdfInt))
    case 'S' => Ok(sized.(dataType := DdfInt))
    case 'B' => SetBinaryFormat(sized, format)
    case 'b' => SetBinaryFormat(sized, format)
    case 'X' => Err(FormatNotSupported(kind))
    case _ => Err(FormatNotRecognised(kind))
  }

  /** What each kind of token sets: `A`/`C` text, `R` floating point and
      `I`/`S` integers keep the binary format and take the width in
      parentheses, if any, as a count of characters (zero meaning
      variable width); `B`/`b` tokens are fixed-width binary, sized either
      by a bit count in parentheses or by a type digit and a byte width. */
  lemma SetFormatKinds(d: SubfieldDefinition, format: string)
    ensures var r := SetFormat(d, format);
      && (r.Ok? && (format[0] == 'A' || format[0] == 'C') ==> r.value.dataType == DdfString)
      && (r.Ok? && format[0] == 'R' ==> r.value.dataType == DdfFloat)
      && (r.Ok? && (format[0] == 'I' || format[0] == 'S') ==> r.value.dataType == DdfInt)
      && (r.Ok? && TextKind(format[0]) ==>
            && r.value.binaryFormat == d.binaryFormat
            && ('(' in format ==> r.value.formatWidth == DigitsValue(FilterDigits(format))
                                   && (r.value.isVariable <==> r.value.formatWidth == 0))
            && ('(' !in format ==> r.value.isVariable && r.value.formatWidth == d.formatWidth))
      && (r.Ok? && BinaryKind(format[0]) ==> !r.value.isVariable && |format| >= 2)
  {
    var r := SetFormat(d, format);
    if r.Ok? {
      var sized := SizeFormat(d, format).value;
      if TextKind(format[0]) {
        assert r.value == sized.(dataType := KindType(format[0]));
      } else {
        assert r == SetBinaryFormat(sized, format);
      }
    }
  }

  /** A binary token is sized first, then handed to the binary branch. */
  lemma SetFormatBinary(d: SubfieldDefinition, format: string)
    requires |format| >= 1 && BinaryKind(format[0])
    ensures SizeFormat(d, format).Ok? ==> SetFormat(d, format) == SetBinaryFormat(SizeFormat(d, format).value, format)
    ensures SizeFormat(d, format).Err? ==> SetFormat(d, format) == Err(SizeFormat(d, format).error)
  {
  }

  /** The `B`/`b` branch of `SetFormat`: a bit count in parentheses, or a
      binary type digit followed by a byte width. */
  function SetBinaryFormat(d: SubfieldDefinition, format: string): (r: Result<SubfieldDefinition>)
    requires |format| >= 1
    ensures r.Ok? ==> r.value.formatWidth >= 0
    ensures r.Ok? ==> |format| >= 2 && !r.value.isVariable
    ensures r.Ok? ==> r.value == d.(isVariable := false, formatWidth := r.value.formatWidth,
                                     binaryFormat := r.value.binaryFormat, dataType := r.value.dataType)
    ensures r.Ok? && format[1] == '(' ==>
      && r.value.formatWidth == DigitsValue(FilterDigits(format)) / 8
      && r.value.binaryFormat == SInt
      && r.value.dataType == (if r.value.formatWidth < 5 then DdfInt else DdfBinaryString)
    ensures r.Ok? && format[1] != '(' ==>
      && r.value.formatWidth == DigitsValue(FilterDigits(format))
      && r.value.binaryFormat == (format[1] as int) - ('0' as int)
      && r.value.dataType == (if (format[1] == '1' || format[1] == '2') then DdfInt else DdfFloat)
    ensures r.Err? ==> r.error == IndexOutOfRange || FormatError(r.error)
  {
    var fixed := d.(isVariable := false);
    var second :- At(format, 1);
    if second == '(' then
      var bits :- TokenDigits(format);
      // `bits` is never negative, so C#'s truncating division agrees with Dafny's.
      var width := bits / 8;
      Ok(fixed.(formatWidth := width, binaryFormat := SInt,
                dataType := if width < 5 then DdfInt else DdfBinaryString))
    else
      var binaryFormat := (second as int) - ('0' as int);
      var width :- TokenDigits(format);
      Ok(fixed.(binaryFormat := binaryFormat, formatWidth := width,
                dataType := if binaryFormat == SInt || binaryFormat == UInt then DdfInt else DdfFloat))
  }

  /** The data type a text format kind selects. */
  function KindType(kind: char): DataType
  {
    if kind == 'R' then DdfFloat else if (kind == 'I' || kind == 'S') then DdfInt else DdfString
  }

  /** A text format token as format controls spell it: the kind alone for a
      variable-width subfield (`A`, `I`), or the kind and a width in
      parentheses (`A(10)`, `R(6)`). */
  function FormatToken(kind: char, width: nat): (t: string)
    ensures |t| >= 1 && t[0] == kind
  {
    if width == 0 then [kind] else [kind] + "(" + Decimal(width) + ")"
  }

  /** A bit-count binary token, `B(16)`. */
  function BinaryToken(bytes: nat): (t: string)
    ensures |t| >= 2 && t[0] == 'B' && t[1] == '('
  {
    "B(" + Decimal(8 * bytes) + ")"
  }

  lemma DigitsOfToken(prefix: string, width: nat)
    requires FilterDigits(prefix) == ""
    ensures FilterDigits(prefix + Decimal(width) + ")") == Decimal(width)
  {
    FilterDigitsAppend(prefix + Decimal(width), ")");
    FilterDigitsAppend(prefix, Decimal(width));
    FilterDigitsOfDigits(Decimal(width));
  }

  /** Reading a written text token back: the subfield gets the token's kind
      and width, and is variable exactly when no width was written. */
  lemma {:induction false} SetFormatToken(name: string, kind: char, width: nat)
    requires TextKind(kind) && width <= Int32Max
    ensures SetFormat(NewSubfieldDefinition(name), FormatToken(kind, width))
         == Ok(SubfieldDefinition(name, width, width == 0, KindType(kind), UnitTerminator,
                                  NotBinary, Some(FormatToken(kind, width))))
  {
    var t := FormatToken(kind, width);
    var d := NewSubfieldDefinition(name);
    if width == 0 {
      assert '(' !in t;
      SetFormatTextSteps(d, t);
    } else {
      TextTokenDigits(kind, width);
      SetFormatTextSteps(d, t);
    }
  }

  lemma TextTokenDigits(kind: char, width: nat)
    requires TextKind(kind) && 0 < width <= Int32Max
    ensures TokenDigits(FormatToken(kind, width)) == Ok(width) && '(' in FormatToken(kind, width)
  {
    var t := FormatToken(kind, width);
    assert t[1] == '(';
    assert FilterDigits([kind] + "(") == "" by {
      assert [kind] + "(" == [kind, '('];
    }
    DigitsOfToken([kind] + "(", width);
    DigitsValueOfDecimal(width);
    ParseIntOfDigits(Decimal(width));
  }

  lemma SetFormatTextSteps(d: SubfieldDefinition, format: string)
    requires |format| >= 1 && TextKind(format[0])
    requires '(' in format ==> TokenDigits(format).Ok?
    ensures '(' in format ==>
      SetFormat(d, format)
        == Ok(d.(formatString := Some(format), formatWidth := TokenDigits(format).value,
                 isVariable := TokenDigits(format).value == 0, dataType := KindType(format[0])))
    ensures '(' !in format ==>
      SetFormat(d, format)
        == Ok(d.(formatString := Some(format), isVariable := true, dataType := KindType(format[0])))
  {
  }

  /** Reading a written bit-count token back: a fixed-width signed binary
      subfield of `bytes` bytes, an integer when under five bytes and a
      binary string from five on. */
  lemma {:induction false} SetFormatBinaryToken(name: string, bytes: nat)
    requires 8 * bytes <= Int32Max
    ensures SetFormat(NewSubfieldDefinition(name), BinaryToken(bytes))
         == Ok(SubfieldDefinition(name, bytes, false, if bytes < 5 then DdfInt else DdfBinaryString,
                                  UnitTerminator, SInt, Some(BinaryToken(bytes))))
  {
    var t := BinaryToken(bytes);
    BinaryTokenDigits(bytes);
    var d := NewSubfieldDefinition(name);
    SetFormatBinaryTokenSteps(d, t);
    var sized := d.(formatString := Some(t), formatWidth := 8 * bytes, isVariable := 8 * bytes == 0);
    BinaryTokenWidth(sized, bytes);
  }

  lemma BinaryTokenDigits(bytes: nat)
    requires 8 * bytes <= Int32Max
    ensures TokenDigits(BinaryToken(bytes)) == Ok(8 * bytes) && '(' in BinaryToken(bytes)
  {
    var t := BinaryToken(bytes);
    assert FilterDigits("B(") == "" by {
      assert "B(" == ['B', '('];
    }
    DigitsOfToken("B(", 8 * bytes);
    DigitsValueOfDecimal(8 * bytes);
    ParseIntOfDigits(Decimal(8 * bytes));
    assert t[1] == '(';
  }

  lemma BinaryTokenWidth(d: SubfieldDefinition, bytes: nat)
    requires 8 * bytes <= Int32Max && TokenDigits(BinaryToken(bytes)) == Ok(8 * bytes)
    ensures SetBinaryFormat(d, BinaryToken(bytes))
         == Ok(d.(isVariable := false, formatWidth := bytes, binaryFormat := SInt,
                  dataType := if bytes < 5 then DdfInt else DdfBinaryString))
  {
    assert (8 * bytes) / 8 == bytes;
    assert BinaryToken(bytes)[1] == '(';
  }

  lemma SetFormatBinaryTokenSteps(d: SubfieldDefinition, format: string)
    requires |format| >= 2 && format[0] == 'B' && '(' in format && TokenDigits(format).Ok?
    ensures SetFormat(d, format)
         == SetBinaryFormat(d.(formatString := Some(format), formatWidth := TokenDigits(format).value,
                               isVariable := TokenDigits(format).value == 0), format)
  {
  }

  /** A format that is not of a known kind is refused, and `X` is refused
      as unsupported rather than unrecognised. */
  lemma SetFormatRejects(d: SubfieldDefinition, format: string)
    requires |format| >= 1 && '(' !in format
    ensures format[0] == 'X' ==> SetFormat(d, format) == Err(FormatNotSupported('X'))
    ensures (!KnownKind(format[0]) && format[0] != 'X') ==> SetFormat(d, format) == Err(FormatNotRecognised(format[0]))
  {
  }

  // ---------------------------------------------------------------------
  // Extraction
  // ---------------------------------------------------------------------

  /** The length of a subfield's content and the bytes to skip past it. */
  datatype Extent = Extent(length: int, consumed: int)

  predicate IsStop(c: char, delimiter: char) {
    c == delimiter || c == FieldTerminator
  }

  /** The double-byte heuristic: the budget ends in a delimiter or field
      terminator followed by a NUL. */
  predicate DoubleByteMarked(data: seq<char>, maxBytes: int, delimiter: char) {
    && maxBytes > 1 && maxBytes <= |data|
    && IsStop(data[maxBytes - 2], delimiter) && data[maxBytes - 1] == 0 as char
  }

  /** True when position `j` ends a double-byte value: a NUL right after a
      delimiter or field terminator. */
  predicate DoubleByteStop(data: seq<char>, j: int, delimiter: char) {
    0 < j < |data| && IsStop(data[j - 1], delimiter) && data[j] == 0 as char
  }

  /** The single-byte scan: the first position from `length` on holding a
      delimiter or field terminator, capped at `maxBytes`. */
  function ScanSingleByte(data: seq<char>, length: nat, maxBytes: int, delimiter: char): (r: Result<nat>)
    ensures r.Ok? ==> length <= r.value && (r.value <= maxBytes || r.value == length)
    ensures r.Ok? && length < r.value ==> r.value <= |data|
    ensures r.Ok? ==> forall j :: length <= j < r.value ==> !IsStop(data[j], delimiter)
    ensures r.Ok? && r.value < maxBytes ==> r.value < |data| && IsStop(data[r.value], delimiter)
    ensures maxBytes <= |data| ==> r.Ok?
    ensures r.Err? ==> r.error == IndexOutOfRange
    decreases maxBytes - length
  {
    if length >= maxBytes then Ok(length)
    else
      var c :- At(data, length);
      if IsStop(c, delimiter) then Ok(length)
      else ScanSingleByte(data, length + 1, maxBytes, delimiter)
  }

  /** The double-byte scan: the first position from `length` on that holds a
      NUL preceded by a delimiter or field terminator, capped at `maxBytes`,
      with one extra byte when a field terminator follows that NUL. */
  function ScanDoubleByte(data: seq<char>, length: nat, maxBytes: int, delimiter: char): (r: Result<Extent>)
    ensures r.Ok? ==> length <= r.value.length && (r.value.length <= maxBytes || r.value.length == length)
    ensures r.Ok? ==> forall j :: length <= j < r.value.length ==> !DoubleByteStop(data, j, delimiter)
    ensures r.Ok? && r.value.length < maxBytes ==> DoubleByteStop(data, r.value.length, delimiter)
    ensures r.Ok? ==>
      r.value.consumed == (if r.value.length + 1 < maxBytes && r.value.length + 1 < |data|
                              && data[r.value.length + 1] == FieldTerminator then 1 else 0)
    ensures maxBytes <= |data| ==> r.Ok?
    ensures r.Err? ==> r.error == IndexOutOfRange
    decreases maxBytes - length
  {
    if length >= maxBytes then Ok(Extent(length, 0))
    else
      var stops :-
        if length > 0 then
          var previous :- At(data, length - 1);
          if IsStop(previous, delimiter) then
            var current :- At(data, length);
            Ok(current == 0 as char)
          else Ok(false)
        else Ok(false);
      if stops then
        var extra :-
          if length + 1 < maxBytes then
            var next :- At(data, length + 1);
            Ok(if next == FieldTerminator then 1 else 0)
          else Ok(0);
        Ok(Extent(length, extra))
      else ScanDoubleByte(data, length + 1, maxBytes, delimiter)
  }

  /** The double-byte test with the source's evaluation order: the byte
      before last is looked at first, the last byte only when it matters. */
  function CheckDoubleByte(data: seq<char>, maxBytes: int, delimiter: char): (r: Result<bool>)
    ensures r.Ok? ==> (r.value <==> DoubleByteMarked(data, maxBytes, delimiter))
    ensures maxBytes <= |data| ==> r.Ok?
    ensures r.Err? ==> r.error == IndexOutOfRange
  {
    if maxBytes > 1 then
      var beforeLast :- At(data, maxBytes - 2);
      if IsStop(beforeLast, delimiter) then
        var last :- At(data, maxBytes - 1);
        Ok(last == 0 as char)
      else Ok(false)
    else Ok(false)
  }

  /** How many bytes of `data` the subfield's value occupies and how many
      must be skipped: a fixed width, truncated to the budget when too few
      bytes remain, or a variable width found by scanning for a delimiter. */
  function GetDataLength(d: SubfieldDefinition, data: seq<char>, maxBytes: int): (r: Result<Extent>)
    ensures !d.isVariable ==> r.Ok?
    ensures !d.isVariable && d.formatWidth <= maxBytes ==> r == Ok(Extent(d.formatWidth, d.formatWidth))
    ensures !d.isVariable && d.formatWidth > maxBytes ==> r == Ok(Extent(maxBytes, maxBytes))
    ensures d.isVariable && maxBytes <= |data| ==> r.Ok?
    // single-byte mode
    ensures d.isVariable && !DoubleByteMarked(data, maxBytes, d.formatDelimiter) && r.Ok? ==>
      && 0 <= r.value.length <= |data|
      && (r.value.length <= maxBytes || r.value.length == 0)
      && (forall j :: 0 <= j < r.value.length ==> !IsStop(data[j], d.formatDelimiter))
      && (r.value.length < maxBytes ==> r.value.length < |data| && IsStop(data[r.value.length], d.formatDelimiter))
      && r.value.consumed == (if maxBytes == 0 then r.value.length else r.value.length + 1)
    // double-byte mode
    ensures d.isVariable && DoubleByteMarked(data, maxBytes, d.formatDelimiter) && r.Ok? ==>
      && 0 <= r.value.length <= maxBytes
      && (forall j :: 0 <= j < r.value.length ==> !DoubleByteStop(data, j, d.formatDelimiter))
      && (r.value.length < maxBytes ==> DoubleByteStop(data, r.value.length, d.formatDelimiter))
      && (r.value.consumed == r.value.length + 2 <==>
            r.value.length + 1 < maxBytes && data[r.value.length + 1] == FieldTerminator)
      && (r.value.consumed == r.value.length + 1 || r.value.consumed == r.value.length + 2)
  {
    if !d.isVariable then
      if d.formatWidth > maxBytes then Ok(Extent(maxBytes, maxBytes))
      else Ok(Extent(d.formatWidth, d.formatWidth))
    else
      var doubleByte :- CheckDoubleByte(data, maxBytes, d.formatDelimiter);
      if !doubleByte then
        var length :- ScanSingleByte(data, 0, maxBytes, d.formatDelimiter);
        Ok(Extent(length, if maxBytes == 0 then length else length + 1))
      else
        // The marker was read inside `data`, so the scan cannot fail.
        var scan := ScanDoubleByte(data, 0, maxBytes, d.formatDelimiter).value;
        Ok(Extent(scan.length, scan.length + scan.consumed + 1))
  }

  /** The subfield's raw text and the bytes consumed. */
  datatype Decoded = Decoded(value: string, consumed: int)

  function ExtractStringData(d: SubfieldDefinition, data: seq<char>, maxBytes: int): (r: Result<Decoded>)
    ensures r.Ok? ==> GetDataLength(d, data, maxBytes).Ok?
    ensures r.Ok? ==> r.value.consumed == GetDataLength(d, data, maxBytes).value.consumed
    ensures r.Ok? ==> var n := GetDataLength(d, data, maxBytes).value.length;
      r.value.value == if n <= 0 then [] else if n >= |data| then data else data[..n]
  {
    var extent :- GetDataLength(d, data, maxBytes);
    Ok(Decoded(Take(data, extent.length), extent.consumed))
  }

  /** `float.TryParse` followed by invariant-culture formatting: `None` when
      the text is not a number, otherwise the printed value. */
  type FloatFormatter = string -> Option<string>

  /** The subfield's value as text: integers are parsed and reprinted,
      reals are reprinted or become `0` when they do not parse, strings and
      binary strings are returned verbatim. */
  function GetData(d: SubfieldDefinition, data: seq<char>, bytesRemaining: int, formatFloat: FloatFormatter): (r: Result<Decoded>)
    ensures r.Ok? ==> ExtractStringData(d, data, bytesRemaining).Ok?
    ensures r.Ok? ==> r.value.consumed == ExtractStringData(d, data, bytesRemaining).value.consumed
    ensures r.Ok? && d.dataType == DdfInt ==>
      ParseInt(r.value.value) == ParseInt(ExtractStringData(d, data, bytesRemaining).value.value)
    ensures r.Ok? && d.dataType == DdfInt ==>
      var n := ParseInt(ExtractStringData(d, data, bytesRemaining).value.value);
      n.Ok? && r.value.value == IntToString(n.value)
    ensures ExtractStringData(d, data, bytesRemaining).Ok? && d.dataType == DdfInt ==>
      (r.Ok? <==> ParseInt(ExtractStringData(d, data, bytesRemaining).value.value).Ok?)
    ensures ExtractStringData(d, data, bytesRemaining).Ok? && d.dataType == DdfFloat ==>
      r.Ok? && (formatFloat(ExtractStringData(d, data, bytesRemaining).value.value).None? ==> r.value.value == "0")
    ensures ExtractStringData(d, data, bytesRemaining).Ok? && d.dataType == DdfFloat ==>
      var printed := formatFloat(ExtractStringData(d, data, bytesRemaining).value.value);
      printed.Some? ==> r.Ok? && r.value.value == printed.value
    ensures r.Ok? && (d.dataType == DdfString || d.dataType == DdfBinaryString) ==>
      r.value == ExtractStringData(d, data, bytesRemaining).value
    ensures ExtractStringData(d, data, bytesRemaining).Err? ==> r.Err?
  {
    var raw :- ExtractStringData(d, data, bytesRemaining);
    match d.dataType
    case DdfInt =>
      var v :- ParseInt(raw.value);
      ParseIntToString(v);
      Ok(Decoded(IntToString(v), raw.consumed))
    case DdfFloat =>
      var printed := match formatFloat(raw.value)
        case Some(text) => text
        case None => "0";
      Ok(Decoded(printed, raw.consumed))
    case DdfString => Ok(raw)
    case DdfBinaryString => Ok(raw)
  }

  // ---------------------------------------------------------------------
  // Written subfields read back
  // ---------------------------------------------------------------------

  /** True when `value` can be written as a delimited subfield. */
  predicate Delimitable(value: string, delimiter: char) {
    forall j :: 0 <= j < |value| ==> !IsStop(value[j], delimiter)
  }

  /** A variable-width subfield written as its text followed by its
      delimiter (or by the field terminator, when it is the last one of its
      field) reads back as that text, consuming the terminator too,
      whatever budget beyond the terminator the field still has. */
  lemma VariableSubfieldRoundTrip(d: SubfieldDefinition, value: string, terminator: char, rest: seq<char>,
                                  maxBytes: int, formatFloat: FloatFormatter)
    requires d.isVariable && (d.dataType == DdfString || d.dataType == DdfBinaryString)
    requires Delimitable(value, d.formatDelimiter) && IsStop(terminator, d.formatDelimiter)
    requires |value| < maxBytes <= |value| + 1 + |rest|
    requires !DoubleByteMarked(value + [terminator] + rest, maxBytes, d.formatDelimiter)
    ensures GetData(d, value + [terminator] + rest, maxBytes, formatFloat)
         == Ok(Decoded(value, |value| + 1))
  {
    ExtractDelimited(d, value, terminator, rest, maxBytes);
    GetDataText(d, value + [terminator] + rest, maxBytes, formatFloat, Decoded(value, |value| + 1));
  }

  /** A delimited value is extracted whole, its terminator consumed. */
  lemma ExtractDelimited(d: SubfieldDefinition, value: string, terminator: char, rest: seq<char>, maxBytes: int)
    requires d.isVariable
    requires Delimitable(value, d.formatDelimiter) && IsStop(terminator, d.formatDelimiter)
    requires |value| < maxBytes <= |value| + 1 + |rest|
    requires !DoubleByteMarked(value + [terminator] + rest, maxBytes, d.formatDelimiter)
    ensures ExtractStringData(d, value + [terminator] + rest, maxBytes) == Ok(Decoded(value, |value| + 1))
  {
    var data := value + [terminator] + rest;
    var extent := GetDataLength(d, data, maxBytes);
    assert extent.Ok?;
    var n := extent.value.length;
    assert data[|value|] == terminator;
    assert n == |value|;
    assert data[..n] == value;
  }

  /** Text and binary subfields are returned as extracted. */
  lemma GetDataText(d: SubfieldDefinition, data: seq<char>, maxBytes: int, formatFloat: FloatFormatter, raw: Decoded)
    requires d.dataType == DdfString || d.dataType == DdfBinaryString
    requires ExtractStringData(d, data, maxBytes) == Ok(raw)
    ensures GetData(d, data, maxBytes, formatFloat) == Ok(raw)
  {
  }

  /** Integer subfields are parsed and printed again. */
  lemma GetDataInteger(d: SubfieldDefinition, data: seq<char>, maxBytes: int, formatFloat: FloatFormatter,
                       raw: Decoded, v: int)
    requires d.dataType == DdfInt
    requires ExtractStringData(d, data, maxBytes) == Ok(raw) && ParseInt(raw.value) == Ok(v)
    ensures GetData(d, data, maxBytes, formatFloat) == Ok(Decoded(IntToString(v), raw.consumed))
  {
  }

  /** A fixed-width subfield of `width` bytes followed by anything reads
      back as exactly those bytes when the budget covers them. */
  lemma FixedSubfieldRoundTrip(d: SubfieldDefinition, value: string, rest: seq<char>, maxBytes: int,
                               formatFloat: FloatFormatter)
    requires !d.isVariable && (d.dataType == DdfString || d.dataType == DdfBinaryString)
    requires |value| == d.formatWidth <= maxBytes
    ensures GetData(d, value + rest, maxBytes, formatFloat) == Ok(Decoded(value, |value|))
  {
    var data := value + rest;
    if |rest| == 0 {
      assert data == value;
    } else {
      assert data[..|value|] == value;
    }
  }

  /** Integer subfields are normalised: the printed form of any 32-bit value,
      written with its delimiter, reads back as itself. */
  lemma IntegerSubfieldRoundTrip(d: SubfieldDefinition, v: int, rest: seq<char>, formatFloat: FloatFormatter)
    requires d.isVariable && d.dataType == DdfInt
    requires d.formatDelimiter != '-' && !IsDigit(d.formatDelimiter) && Int32Min <= v <= Int32Max
    ensures GetData(d, IntToString(v) + [d.formatDelimiter] + rest, |IntToString(v)| + 1, formatFloat)
         == Ok(Decoded(IntToString(v), |IntToString(v)| + 1))
  {
    var text := IntToString(v);
    NoStopInIntText(v, d.formatDelimiter);
    IntTextUnmarked(v, d.formatDelimiter, rest);
    ExtractDelimited(d, text, d.formatDelimiter, rest, |text| + 1);
    ParseIntToString(v);
    GetDataInteger(d, text + [d.formatDelimiter] + rest, |text| + 1, formatFloat, Decoded(text, |text| + 1), v);
  }

  lemma IntTextUnmarked(v: int, delimiter: char, rest: seq<char>)
    requires delimiter != '-' && !IsDigit(delimiter)
    ensures !DoubleByteMarked(IntToString(v) + [delimiter] + rest, |IntToString(v)| + 1, delimiter)
  {
    var text := IntToString(v);
    var data := text + [delimiter] + rest;
    assert data[|text|] == delimiter;
  }

  lemma NoStopInIntText(v: int, delimiter: char)
    requires delimiter != '-' && !IsDigit(delimiter)
    ensures Delimitable(IntToString(v), delimiter)
  {
    var t := IntToString(v);
    forall j | 0 <= j < |t|
      ensures !IsStop(t[j], delimiter)
    {
      if v < 0 && j > 0 {
        assert t[j] == Decimal(-v)[j - 1];
      } else if v >= 0 {
        assert IsDigit(t[j]);
      }
    }
  }

  /** Integer subfields are normalised: `0042` is read as `42`. */
  lemma NormalisesIntegerExample()
    ensures GetData(NewSubfieldDefinition("N").(dataType := DdfInt), "0042" + [UnitTerminator], 5, _ => None)
         == Ok(Decoded("42", 5))
  {
    var d := NewSubfieldDefinition("N").(dataType := DdfInt);
    var data := "0042" + [UnitTerminator];
    assert !DoubleByteMarked(data, 5, UnitTerminator) by { assert data[3] == '2'; }
    assert Delimitable("0042", UnitTerminator) by {
      assert forall j :: 0 <= j < 4 ==> IsDigit("0042"[j]);
    }
    assert data == "0042" + [UnitTerminator] + [];
    ExtractDelimited(d, "0042", UnitTerminator, [], 5);
    FortyTwo();
    GetDataInteger(d, data, 5, _ => None, Decoded("0042", 5), 42);
  }

  /** `0042` parses as 42, which prints as `42`. */
  lemma FortyTwo()
    ensures ParseInt("0042") == Ok(42) && IntToString(42) == "42"
  {
    assert AllDigits("0042") by {
      assert forall j :: 0 <= j < 4 ==> IsDigit("0042"[j]);
    }
    assert "0042"[..3] == "004" && "004"[..2] == "00" && "00"[..1] == "0" && "0"[..0] == "";
    assert DigitsValue("0042") == 42;
    ParseIntOfDigits("0042");
    assert Decimal(42) == Decimal(4) + [DigitChar(2)];
  }

  /** A binary token with a type digit takes all its digits as the width,
      the type digit included: `b14` is an unsigned integer 14 bytes wide. */
  lemma BinaryTypeDigitExample()
    ensures SetFormat(NewSubfieldDefinition("V"), "b14")
         == Ok(SubfieldDefinition("V", 14, false, DdfInt, UnitTerminator, UInt, Some("b14")))
  {
    assert '(' !in "b14";
    TokenFourteen();
  }

  lemma TokenFourteen()
    ensures TokenDigits("b14") == Ok(14)
  {
    assert FilterDigits("b14") == "14" by {
      assert "b14"[1..] == "14" && "14"[1..] == "4" && "4"[1..] == "";
    }
    assert "14"[..1] == "1" && "1"[..0] == "";
    assert DigitsValue("14") == 14;
    ParseIntOfDigits("14");
  }

  /** A variable text subfield closed by the unit terminator, with one more
      byte of budget after it: `HELLO` is read and six bytes consumed. */
  lemma ReadDelimitedText()
    ensures GetData(NewSubfieldDefinition("NAME"), "HELLO" + [UnitTerminator] + "X", 7, _ => None)
         == Ok(Decoded("HELLO", 6))
  {
    var data := "HELLO" + [UnitTerminator] + "X";
    assert !DoubleByteMarked(data, 7, UnitTerminator) by { assert data[5] == UnitTerminator; assert data[6] == 'X'; }
    VariableSubfieldRoundTrip(NewSubfieldDefinition("NAME"), "HELLO", UnitTerminator, "X", 7, _ => None);
  }

  /** The double-byte heuristic keeps the terminator before the NUL in the
      value: `AB` followed by a unit terminator and a NUL reads as three
      bytes and consumes all four. */
  lemma ReadDoubleByteText()
    ensures GetData(NewSubfieldDefinition("ATVL"), "AB" + [UnitTerminator, 0 as char], 4, _ => None)
         == Ok(Decoded("AB" + [UnitTerminator], 4))
  {
    var data := "AB" + [UnitTerminator, 0 as char];
    var d := NewSubfieldDefinition("ATVL");
    assert DoubleByteMarked(data, 4, UnitTerminator);
    var scan := ScanDoubleByte(data, 0, 4, UnitTerminator);
    assert !DoubleByteStop(data, 1, UnitTerminator) by { assert data[0] == 'A'; }
    assert !DoubleByteStop(data, 2, UnitTerminator) by { assert data[1] == 'B'; }
    assert DoubleByteStop(data, 3, UnitTerminator);
    assert scan.value.length == 3;
    assert data[..3] == "AB" + [UnitTerminator];
  }
}
