/** Buffer readers shared by the header and data-record decoders: fixed-width
    decimal fields, delimited strings, the directory-entry counter and the
    leader decoder. */
module DdfUtils {
  import opened Results
  import opened Constants
  import opened Strings
  import opened Numbers
  import opened DdfLeader

  // ---------------------------------------------------------------------
  // Fixed-width decimal fields
  // ---------------------------------------------------------------------

  /** The integer written in the `maxChars` characters at `offset`. */
  function ReadIntFromBuffer(buffer: seq<char>, offset: int, maxChars: int): (r: Result<int>)
    ensures (offset < 0 || maxChars < 0 || offset + maxChars > |buffer|) ==> r == Err(IndexOutOfRange)
    ensures r.Ok? ==> 0 <= offset && 1 <= maxChars && offset + maxChars <= |buffer|
    ensures r.Ok? && maxChars == 1 ==> 0 <= r.value <= 9
  {
    if offset < 0 || maxChars < 0 || offset + maxChars > |buffer| then Err(IndexOutOfRange)
    else
      var text := buffer[offset..offset + maxChars];
      ParseIntBound(text);
      ParseInt(text)
  }

  /** A field that reads as a number holds digits after its first
      character, and its value has fewer digits than the field is wide. */
  lemma ReadIntFromBufferDigits(buffer: seq<char>, offset: int, maxChars: int)
    ensures var r := ReadIntFromBuffer(buffer, offset, maxChars);
      r.Ok? ==>
        && (forall j :: offset < j < offset + maxChars ==> IsDigit(buffer[j]))
        && -(Pow10(maxChars) as int) < r.value < Pow10(maxChars)
  {
    if 0 <= offset && 0 <= maxChars && offset + maxChars <= |buffer| {
      var text := buffer[offset..offset + maxChars];
      ParseIntBound(text);
      ParseIntShape(text);
      assert forall j :: offset < j < offset + maxChars ==> buffer[j] == text[1..][j - offset - 1];
    }
  }

  /** A field holding the zero-padded digits of `v` reads back as `v`. */
  lemma ReadIntFromBufferPadded(buffer: seq<char>, offset: nat, n: nat, v: nat)
    requires 1 <= n && v < Pow10(n) && v <= Int32Max
    requires offset + n <= |buffer| && buffer[offset..offset + n] == PadDecimal(v, n)
    ensures ReadIntFromBuffer(buffer, offset, n) == Ok(v)
  {
    ParsePadDecimal(v, n);
  }

  // ---------------------------------------------------------------------
  // Delimited strings
  // ---------------------------------------------------------------------

  /** The text read by `ReadStringFromBuffer` and how far the caller must
      advance past it. */
  datatype Scanned = Scanned(text: string, consumed: int)

  predicate IsDelimiter(c: char, firstDelimiter: char, secondDelimiter: char) {
    c == firstDelimiter || c == secondDelimiter
  }

  /** True when position `j` of `record` exists and holds a delimiter. */
  predicate DelimiterAt(record: seq<char>, j: int, firstDelimiter: char, secondDelimiter: char) {
    0 <= j < |record| && IsDelimiter(record[j], firstDelimiter, secondDelimiter)
  }

  /** The scan loop: the first index `i`, counting from `start`, at which
      `record[offset + i]` is a delimiter, capped at `stop`. */
  function ScanToDelimiter(record: seq<char>, offset: int, start: nat, stop: int,
                           firstDelimiter: char, secondDelimiter: char): (r: Result<nat>)
    ensures r.Ok? ==> start <= r.value && (r.value <= stop || r.value == start)
    ensures r.Ok? && start < r.value ==> 0 <= offset + start && offset + r.value <= |record|
    ensures r.Ok? ==> forall j :: offset + start <= j < offset + r.value ==>
      !IsDelimiter(record[j], firstDelimiter, secondDelimiter)
    ensures r.Ok? && r.value < stop ==> DelimiterAt(record, offset + r.value, firstDelimiter, secondDelimiter)
    ensures r.Err? ==> r.error == IndexOutOfRange
    ensures 0 <= offset && offset + stop <= |record| ==> r.Ok?
    decreases stop - start
  {
    if start >= stop then Ok(start)
    else
      var c :- At(record, offset + start);
      if IsDelimiter(c, firstDelimiter, secondDelimiter) then Ok(start)
      else ScanToDelimiter(record, offset, start + 1, stop, firstDelimiter, secondDelimiter)
  }

  /** Reads the text at `offset` up to the first of two delimiters, at most
      `maxChars - 1` characters; the delimiter that stops the scan is counted
      in `consumed` but not returned. */
  function ReadStringFromBuffer(record: seq<char>, offset: int, maxChars: int,
                                firstDelimiter: char, secondDelimiter: char): (r: Result<Scanned>)
    ensures r.Ok? ==> firstDelimiter !in r.value.text && secondDelimiter !in r.value.text
    ensures r.Err? ==> r.error == IndexOutOfRange
  {
    var i :- ScanToDelimiter(record, offset, 0, maxChars - 1, firstDelimiter, secondDelimiter);
    var stoppedOnDelimiter :-
      if i < maxChars then
        var c :- At(record, offset + i);
        Ok(IsDelimiter(c, firstDelimiter, secondDelimiter))
      else Ok(false);
    var consumed := if stoppedOnDelimiter then i + 1 else i;
    if i == 0 then Ok(Scanned("", consumed))
    else
      Ok(Scanned(record[offset..offset + i], consumed))
  }

  /** What `ReadStringFromBuffer` reads: at most `maxChars - 1` characters
      of the record from `offset` on, stopping before the first delimiter;
      the delimiter is consumed when the scan stopped on it inside the
      budget; the read fails only by running off the record. */
  lemma ReadStringFromBufferSpec(record: seq<char>, offset: int, maxChars: int,
                                 firstDelimiter: char, secondDelimiter: char)
    ensures var r := ReadStringFromBuffer(record, offset, maxChars, firstDelimiter, secondDelimiter);
      && (r.Ok? ==> |r.value.text| <= if maxChars > 1 then maxChars - 1 else 0)
      && (r.Ok? && |r.value.text| > 0 ==>
            0 <= offset && offset + |r.value.text| <= |record|
            && r.value.text == record[offset..offset + |r.value.text|])
      && (r.Ok? && |r.value.text| < maxChars - 1 ==>
            DelimiterAt(record, offset + |r.value.text|, firstDelimiter, secondDelimiter))
      && (r.Ok? ==>
            (r.value.consumed == |r.value.text| + 1 <==>
              |r.value.text| < maxChars && DelimiterAt(record, offset + |r.value.text|, firstDelimiter, secondDelimiter)))
      && (r.Ok? ==> r.value.consumed == |r.value.text| || r.value.consumed == |r.value.text| + 1)
      && (maxChars <= 0 ==> r == Ok(Scanned("", 0)))
      && (0 <= offset && offset + maxChars <= |record| ==> r.Ok?)
  {
  }

  lemma {:induction false} ScanReachesDelimiter(record: seq<char>, offset: nat, start: nat, stop: int, end: nat,
                                                 firstDelimiter: char, secondDelimiter: char)
    requires start <= end <= stop || start == end
    requires offset + end < |record|
    requires forall j :: offset + start <= j < offset + end ==> !IsDelimiter(record[j], firstDelimiter, secondDelimiter)
    requires IsDelimiter(record[offset + end], firstDelimiter, secondDelimiter)
    ensures ScanToDelimiter(record, offset, start, stop, firstDelimiter, secondDelimiter) == Ok(end)
    decreases end - start
  {
    if start < end {
      assert !IsDelimiter(record[offset + start], firstDelimiter, secondDelimiter);
      ScanReachesDelimiter(record, offset, start + 1, stop, end, firstDelimiter, secondDelimiter);
    }
  }

  /** A text without delimiters, followed by a delimiter inside the budget,
      reads back as that text, the delimiter consumed with it. */
  lemma ReadStringFromBufferDelimited(record: seq<char>, offset: nat, maxChars: int, text: string,
                                      firstDelimiter: char, secondDelimiter: char)
    requires offset + |text| < |record| && |text| < maxChars
    requires record[offset..offset + |text|] == text
    requires forall j :: 0 <= j < |text| ==> !IsDelimiter(text[j], firstDelimiter, secondDelimiter)
    requires IsDelimiter(record[offset + |text|], firstDelimiter, secondDelimiter)
    ensures ReadStringFromBuffer(record, offset, maxChars, firstDelimiter, secondDelimiter)
         == Ok(Scanned(text, |text| + 1))
  {
    forall j | offset <= j < offset + |text|
      ensures !IsDelimiter(record[j], firstDelimiter, secondDelimiter)
    {
      assert record[j] == text[j - offset];
    }
    ScanReachesDelimiter(record, offset, 0, maxChars - 1, |text|, firstDelimiter, secondDelimiter);
  }

  // ---------------------------------------------------------------------
  // Directory entries
  // ---------------------------------------------------------------------

  /** Start of the `k`-th directory entry. */
  function Stride(offset: int, k: nat, width: nat): int {
    offset + k * width
  }

  /** `n` is the number of entries before the directory ends: the first `n`
      strides lie below `dataSize` and do not start with a field
      terminator, and stride `n` reaches `dataSize` or starts with one. */
  ghost predicate IsEntryCount(record: seq<char>, offset: int, dataSize: int, width: nat, n: nat) {
    && (forall k: nat :: k < n ==>
          Stride(offset, k, width) < dataSize && 0 <= Stride(offset, k, width) < |record|
          && record[Stride(offset, k, width)] != FieldTerminator)
    && (Stride(offset, n, width) >= dataSize ||
          (0 <= Stride(offset, n, width) < |record| && record[Stride(offset, n, width)] == FieldTerminator))
  }

  /** The counting loop for a positive entry width. */
  function CountFrom(record: seq<char>, i: int, dataSize: int, width: nat): (r: Result<nat>)
    requires width > 0
    ensures r.Ok? ==> IsEntryCount(record, i, dataSize, width, r.value)
    ensures r.Err? ==> r.error == IndexOutOfRange
    decreases dataSize - i
  {
    if i >= dataSize then Ok(0)
    else
      var c :- At(record, i);
      if c == FieldTerminator then Ok(0)
      else
        var n :- CountFrom(record, i + width, dataSize, width);
        IsEntryCountStep(record, i, dataSize, width, n);
        Ok(n + 1)
  }

  lemma StrideShift(offset: int, k: nat, width: nat)
    ensures Stride(offset, k + 1, width) == Stride(offset + width, k, width)
  {
  }

  /** One more entry in front of a counted directory adds one to the count. */
  lemma IsEntryCountStep(record: seq<char>, i: int, dataSize: int, width: nat, n: nat)
    requires IsEntryCount(record, i + width, dataSize, width, n)
    requires i < dataSize && 0 <= i < |record| && record[i] != FieldTerminator
    ensures IsEntryCount(record, i, dataSize, width, n + 1)
  {
    assert Stride(i, 0, width) == i;
    forall k: nat | k < n + 1
      ensures Stride(i, k, width) < dataSize && 0 <= Stride(i, k, width) < |record|
      ensures record[Stride(i, k, width)] != FieldTerminator
    {
      if k > 0 {
        StrideShift(i, k - 1, width);
      }
    }
    StrideShift(i, n, width);
  }

  /** Counts the directory entries of `fieldEntryWidth` characters from
      `offset` up to `dataSize`, stopping at a field terminator. With a zero
      width the loop never advances, so it either stops at once or
      runs forever. */
  function CountDirectoryEntries(record: seq<char>, offset: int, dataSize: int, fieldEntryWidth: int): (r: Result<nat>)
    requires fieldEntryWidth >= 0
    ensures fieldEntryWidth > 0 && r.Ok? ==> IsEntryCount(record, offset, dataSize, fieldEntryWidth, r.value)
    ensures offset < dataSize && 0 <= offset < |record| && record[offset] == FieldTerminator ==> r == Ok(0)
    ensures fieldEntryWidth == 0 && offset < dataSize && 0 <= offset < |record| && record[offset] != FieldTerminator
      ==> r == Err(Diverges)
    ensures fieldEntryWidth > 0 && 0 <= offset && dataSize <= |record| ==> r.Ok?
  {
    if fieldEntryWidth == 0 then
      if offset >= dataSize then Ok(0)
      else
        var c :- At(record, offset);
        if c == FieldTerminator then Ok(0) else Err(Diverges)
    else
      CountFromInRange(record, offset, dataSize, fieldEntryWidth);
      CountFrom(record, offset, dataSize, fieldEntryWidth)
  }

  lemma {:induction false} CountFromInRange(record: seq<char>, i: int, dataSize: int, width: nat)
    requires width > 0
    ensures 0 <= i && dataSize <= |record| ==> CountFrom(record, i, dataSize, width).Ok?
    decreases dataSize - i
  {
    if 0 <= i && i < dataSize && dataSize <= |record| && record[i] != FieldTerminator {
      CountFromInRange(record, i + width, dataSize, width);
    }
  }

  /** The count is the only number of entries the directory admits: any `n`
      meeting the definition is the one the loop returns. */
  lemma {:induction false} CountDirectoryEntriesExact(record: seq<char>, offset: int, dataSize: int, width: nat, n: nat)
    requires width > 0
    requires IsEntryCount(record, offset, dataSize, width, n)
    ensures CountDirectoryEntries(record, offset, dataSize, width) == Ok(n)
    decreases n
  {
    assert Stride(offset, 0, width) == offset;
    if n > 0 {
      var next := offset + width;
      assert IsEntryCount(record, next, dataSize, width, n - 1) by {
        forall k: nat | k < n - 1
          ensures Stride(next, k, width) < dataSize
          ensures 0 <= Stride(next, k, width) < |record|
          ensures record[Stride(next, k, width)] != FieldTerminator
        {
          StrideShift(offset, k, width);
        }
        StrideShift(offset, n - 1, width);
      }
      CountDirectoryEntriesExact(record, offset + width, dataSize, width, n - 1);
    }
  }

  /** The counter never looks at a position at or beyond `dataSize`. */
  lemma {:induction false} CountIgnoresTail(record: seq<char>, offset: int, dataSize: int, width: nat)
    requires width > 0 && 0 <= dataSize <= |record|
    ensures CountDirectoryEntries(record, offset, dataSize, width)
         == CountDirectoryEntries(record[..dataSize], offset, dataSize, width)
    decreases dataSize - offset
  {
    if offset < dataSize && 0 <= offset && record[offset] != FieldTerminator {
      CountIgnoresTail(record, offset + width, dataSize, width);
    }
  }

  // ---------------------------------------------------------------------
  // Leaders
  // ---------------------------------------------------------------------

  /** The structural check a module leader must pass. */
  predicate ModuleLeaderAccepted(l: Leader) {
    && l.recordLength >= 12 && l.fieldControlLength != 0 && l.fieldAreaStart >= 24
    && l.sizeFieldLength != 0 && l.sizeFieldPosition != 0 && l.sizeFieldTag != 0
  }

  predicate WidthsAreDigits(l: Leader) {
    && 0 <= l.sizeFieldLength <= 9 && 0 <= l.sizeFieldPosition <= 9 && 0 <= l.sizeFieldTag <= 9
  }

  /** A record leader carries only the record length, identifier, field-area
      start and directory widths; everything else keeps its default. */
  predicate HasRecordLeaderDefaults(l: Leader) {
    && l.interchangeLevel.None? && l.inlineCodeExtensionIndicator.None?
    && l.versionNumber.None? && l.appIndicator.None? && l.extendedCharSet.None?
    && l.fieldControlLength == 0
  }

  /** Decodes a 24-character leader: the numbers at their fixed offsets,
      the single characters, and the validation of a module leader. */
  function CreateLeader(leader: seq<char>, moduleLeader: bool): (r: Result<Leader>)
    ensures r.Ok? ==> WidthsAreDigits(r.value)
    ensures r.Ok? && moduleLeader ==> ModuleLeaderAccepted(r.value)
    ensures r.Ok? && moduleLeader ==> FieldEntryWidth(r.value) >= 3
    ensures r.Ok? && !moduleLeader ==> HasRecordLeaderDefaults(r.value)
    ensures r.Ok? && !moduleLeader ==> 0 <= FieldEntryWidth(r.value) <= 27
    ensures r.Ok? ==> |leader| > 6 && r.value.leaderIdentifier == [leader[6]]
    ensures r.Err? ==> r.error != CorruptRecordLeader
  {
    if moduleLeader then
      var recordLength :- ReadIntFromBuffer(leader, 0, 5);
      var interchangeLevel :- At(leader, 5);
      var leaderIdentifier :- At(leader, 6);
      var inlineCodeExtension :- At(leader, 7);
      var versionNumber :- At(leader, 8);
      var appIndicator :- At(leader, 9);
      var fieldControlLength :- ReadIntFromBuffer(leader, 10, 2);
      var fieldAreaStart :- ReadIntFromBuffer(leader, 12, 5);
      var charSet0 :- At(leader, 17);
      var charSet1 :- At(leader, 18);
      var charSet2 :- At(leader, 19);
      var sizeFieldLength :- ReadIntFromBuffer(leader, 20, 1);
      var sizeFieldPosition :- ReadIntFromBuffer(leader, 21, 1);
      var sizeFieldTag :- ReadIntFromBuffer(leader, 23, 1);
      var l := Leader(recordLength, Some([interchangeLevel]), [leaderIdentifier],
                      Some([inlineCodeExtension]), Some([versionNumber]), Some([appIndicator]),
                      fieldControlLength, fieldAreaStart, Some([charSet0, charSet1, charSet2, 0 as char]),
                      sizeFieldLength, sizeFieldPosition, sizeFieldTag);
      if !ModuleLeaderAccepted(l) then Err(InvalidFile) else Ok(l)
    else
      var recordLength :- ReadIntFromBuffer(leader, 0, 5);
      var leaderIdentifier :- At(leader, 6);
      var fieldAreaStart :- ReadIntFromBuffer(leader, 12, 5);
      var sizeFieldLength :- ReadIntFromBuffer(leader, 20, 1);
      var sizeFieldPosition :- ReadIntFromBuffer(leader, 21, 1);
      var sizeFieldTag :- ReadIntFromBuffer(leader, 23, 1);
      var l := Leader(recordLength, None, [leaderIdentifier], None, None, None, 0,
                      fieldAreaStart, None, sizeFieldLength, sizeFieldPosition, sizeFieldTag);
      if !WidthsAreDigits(l) then Err(CorruptRecordLeader) else Ok(l)
  }

  /** True when every numeric field of a module leader reads as a number. */
  predicate ModuleLeaderNumbersParse(leader: seq<char>) {
    && |leader| >= 24
    && ReadIntFromBuffer(leader, 0, 5).Ok? && ReadIntFromBuffer(leader, 10, 2).Ok?
    && ReadIntFromBuffer(leader, 12, 5).Ok? && ReadIntFromBuffer(leader, 20, 1).Ok?
    && ReadIntFromBuffer(leader, 21, 1).Ok? && ReadIntFromBuffer(leader, 23, 1).Ok?
  }

  /** A module leader whose numbers read is rejected exactly when its record
      length is below 12, its field-control length is 0, its field area
      starts before 24, or one of its directory widths is 0. */
  lemma ModuleLeaderRejectedIff(leader: seq<char>)
    requires ModuleLeaderNumbersParse(leader)
    ensures CreateLeader(leader, true).Err? <==>
      (|| ReadIntFromBuffer(leader, 0, 5).value < 12
       || ReadIntFromBuffer(leader, 10, 2).value == 0
       || ReadIntFromBuffer(leader, 12, 5).value < 24
       || ReadIntFromBuffer(leader, 20, 1).value == 0
       || ReadIntFromBuffer(leader, 21, 1).value == 0
       || ReadIntFromBuffer(leader, 23, 1).value == 0)
    ensures CreateLeader(leader, true).Err? ==> CreateLeader(leader, true).error == InvalidFile
  {
  }

  /** A leader the decoder can represent as 24 characters: numbers that fit
      their slots, single-character indicators. */
  predicate Writable(l: Leader) {
    && 0 <= l.recordLength < 100000 && 0 <= l.fieldControlLength < 100
    && 0 <= l.fieldAreaStart < 100000 && WidthsAreDigits(l) && |l.leaderIdentifier| == 1
    && (l.interchangeLevel.Some? ==> |l.interchangeLevel.value| == 1)
    && (l.inlineCodeExtensionIndicator.Some? ==> |l.inlineCodeExtensionIndicator.value| == 1)
    && (l.versionNumber.Some? ==> |l.versionNumber.value| == 1)
    && (l.appIndicator.Some? ==> |l.appIndicator.value| == 1)
    && (l.extendedCharSet.Some? ==> |l.extendedCharSet.value| == 4)
  }

  function Indicator(c: Option<string>): char
    requires c.Some? ==> |c.value| == 1
  {
    if c.Some? then c.value[0] else ' '
  }

  /** The first 20 characters of a written leader: numbers, indicators and
      extended character set. */
  function LeaderHead(l: Leader): (text: seq<char>)
    requires Writable(l)
    ensures |text| == 20
    ensures text[0..5] == PadDecimal(l.recordLength, 5)
    ensures text[6] == l.leaderIdentifier[0]
    ensures text[10..12] == PadDecimal(l.fieldControlLength, 2)
    ensures text[12..17] == PadDecimal(l.fieldAreaStart, 5)
  {
    var charSet := if l.extendedCharSet.Some? then l.extendedCharSet.value[..3] else "   ";
    var numbers := PadDecimal(l.recordLength, 5);
    var indicators := [Indicator(l.interchangeLevel), l.leaderIdentifier[0], Indicator(l.inlineCodeExtensionIndicator),
                       Indicator(l.versionNumber), Indicator(l.appIndicator)];
    var control := PadDecimal(l.fieldControlLength, 2);
    var areaStart := PadDecimal(l.fieldAreaStart, 5);
    var text := numbers + indicators + control + areaStart + charSet;
    assert text[10..12] == control;
    assert text[12..17] == areaStart;
    text
  }

  /** The 24 characters that encode `l`: the independent writer against
      which the decoder is checked. Absent indicators are written as
      spaces, and position 22 (reserved) as `0`. */
  function LeaderText(l: Leader): (text: seq<char>)
    requires Writable(l)
    ensures |text| == 24
  {
    LeaderHead(l)
    + [DigitChar(l.sizeFieldLength as nat), DigitChar(l.sizeFieldPosition as nat), '0',
       DigitChar(l.sizeFieldTag as nat)]
  }

  lemma LeaderTextRecordLength(l: Leader)
    requires Writable(l)
    ensures ReadIntFromBuffer(LeaderText(l), 0, 5) == Ok(l.recordLength)
  {
    assert LeaderText(l)[0..5] == PadDecimal(l.recordLength, 5);
    ReadIntFromBufferPadded(LeaderText(l), 0, 5, l.recordLength);
  }

  lemma LeaderTextFieldControlLength(l: Leader)
    requires Writable(l)
    ensures ReadIntFromBuffer(LeaderText(l), 10, 2) == Ok(l.fieldControlLength)
  {
    assert LeaderText(l)[10..12] == PadDecimal(l.fieldControlLength, 2);
    ReadIntFromBufferPadded(LeaderText(l), 10, 2, l.fieldControlLength);
  }

  lemma LeaderTextFieldAreaStart(l: Leader)
    requires Writable(l)
    ensures ReadIntFromBuffer(LeaderText(l), 12, 5) == Ok(l.fieldAreaStart)
  {
    assert LeaderText(l)[12..17] == PadDecimal(l.fieldAreaStart, 5);
    ReadIntFromBufferPadded(LeaderText(l), 12, 5, l.fieldAreaStart);
  }

  /** A one-character field holding a digit reads as that digit. */
  lemma ReadSingleDigit(buffer: seq<char>, offset: nat, d: nat)
    requires d < 10 && offset < |buffer| && buffer[offset] == DigitChar(d)
    ensures ReadIntFromBuffer(buffer, offset, 1) == Ok(d)
  {
    var text := buffer[offset..offset + 1];
    assert text == [DigitChar(d)];
    assert text[..0] == [];
    assert DigitsOf(text) == Some(d);
  }

  lemma LeaderTextWidths(l: Leader)
    requires Writable(l)
    ensures ReadIntFromBuffer(LeaderText(l), 20, 1) == Ok(l.sizeFieldLength)
    ensures ReadIntFromBuffer(LeaderText(l), 21, 1) == Ok(l.sizeFieldPosition)
    ensures ReadIntFromBuffer(LeaderText(l), 23, 1) == Ok(l.sizeFieldTag)
  {
    var t := LeaderText(l);
    ReadSingleDigit(t, 20, l.sizeFieldLength as nat);
    ReadSingleDigit(t, 21, l.sizeFieldPosition as nat);
    ReadSingleDigit(t, 23, l.sizeFieldTag as nat);
  }

  /** Reading the written numeric slots back gives the leader's numbers. */
  lemma LeaderTextNumbers(l: Leader)
    requires Writable(l)
    ensures ReadIntFromBuffer(LeaderText(l), 0, 5) == Ok(l.recordLength)
    ensures ReadIntFromBuffer(LeaderText(l), 10, 2) == Ok(l.fieldControlLength)
    ensures ReadIntFromBuffer(LeaderText(l), 12, 5) == Ok(l.fieldAreaStart)
    ensures ReadIntFromBuffer(LeaderText(l), 20, 1) == Ok(l.sizeFieldLength)
    ensures ReadIntFromBuffer(LeaderText(l), 21, 1) == Ok(l.sizeFieldPosition)
    ensures ReadIntFromBuffer(LeaderText(l), 23, 1) == Ok(l.sizeFieldTag)
  {
    LeaderTextRecordLength(l);
    LeaderTextFieldControlLength(l);
    LeaderTextFieldAreaStart(l);
    LeaderTextWidths(l);
  }

  /** A module leader whose numbers read decodes field by field. */
  lemma ModuleLeaderFields(leader: seq<char>)
    requires ModuleLeaderNumbersParse(leader)
    ensures CreateLeader(leader, true) ==
      var l := Leader(ReadIntFromBuffer(leader, 0, 5).value, Some([leader[5]]), [leader[6]],
                      Some([leader[7]]), Some([leader[8]]), Some([leader[9]]),
                      ReadIntFromBuffer(leader, 10, 2).value, ReadIntFromBuffer(leader, 12, 5).value,
                      Some([leader[17], leader[18], leader[19], 0 as char]),
                      ReadIntFromBuffer(leader, 20, 1).value, ReadIntFromBuffer(leader, 21, 1).value,
                      ReadIntFromBuffer(leader, 23, 1).value);
      if !ModuleLeaderAccepted(l) then Err(InvalidFile) else Ok(l)
  {
  }

  /** Module-leader round trip: an accepted, fully populated leader that is
      written out and decoded again comes back unchanged. */
  lemma ModuleLeaderRoundTrip(l: Leader)
    requires Writable(l) && ModuleLeaderAccepted(l)
    requires l.interchangeLevel.Some? && l.inlineCodeExtensionIndicator.Some?
    requires l.versionNumber.Some? && l.appIndicator.Some? && l.extendedCharSet.Some?
    requires l.extendedCharSet.value[3] == 0 as char
    ensures CreateLeader(LeaderText(l), true) == Ok(l)
  {
    LeaderTextNumbers(l);
    var t := LeaderText(l);
    ModuleLeaderFields(t);
    ModuleLeaderChars(l);
  }

  /** The single characters of a written module leader are the leader's own. */
  lemma ModuleLeaderChars(l: Leader)
    requires Writable(l)
    requires l.interchangeLevel.Some? && l.inlineCodeExtensionIndicator.Some?
    requires l.versionNumber.Some? && l.appIndicator.Some? && l.extendedCharSet.Some?
    requires l.extendedCharSet.value[3] == 0 as char
    ensures var t := LeaderText(l);
      && [t[17], t[18], t[19], 0 as char] == l.extendedCharSet.value
      && [t[6]] == l.leaderIdentifier
      && Some([t[5]]) == l.interchangeLevel
      && Some([t[7]]) == l.inlineCodeExtensionIndicator
      && Some([t[8]]) == l.versionNumber
      && Some([t[9]]) == l.appIndicator
  {
    var t := LeaderText(l);
    assert [t[17], t[18], t[19], 0 as char] == l.extendedCharSet.value;
    assert [t[6]] == l.leaderIdentifier;
    assert [t[5]] == l.interchangeLevel.value;
    assert [t[7]] == l.inlineCodeExtensionIndicator.value;
    assert [t[8]] == l.versionNumber.value;
    assert [t[9]] == l.appIndicator.value;
  }

  /** Record-leader round trip: a written leader decodes to its record
      length, identifier, field-area start and widths, with every other field
      at its default. */
  lemma RecordLeaderRoundTrip(l: Leader)
    requires Writable(l)
    ensures CreateLeader(LeaderText(l), false)
         == Ok(Leader(l.recordLength, None, l.leaderIdentifier, None, None, None, 0,
                      l.fieldAreaStart, None, l.sizeFieldLength, l.sizeFieldPosition, l.sizeFieldTag))
  {
    LeaderTextNumbers(l);
    var t := LeaderText(l);
    assert [t[6]] == l.leaderIdentifier;
  }
}
