# ISO/IEC 8211 reader in Dafny

This project models the GreaterHeights.ISO8211 library. The library reads files in
the ISO/IEC 8211 interchange format, such as S-57 catalogue files:

- it checks and decodes the 24-character module leader;
- it reads the data descriptive record and decodes one field definition per
  directory entry (field controls, name, array descriptor and format controls,
  expanded and applied to the subfields);
- it hands out data records one at a time, binding each directory entry of a
  record body to its field definition;
- a field cuts its bytes into named subfield values.

One Dafny module stands for each C# source file. `DdfUtils`, `DdfLeader`,
`DdfSubfieldDefinition`, `DdfFieldDefinition`, `DdfField`, `DdfRecord` and
`Iso8211Reader` follow the classes of the same names. Four helper modules
support them:

- `Results`: `Option`, `Result` and one `Error` datatype for every exception the library raises;
- `Constants`: the field terminator, unit terminator and leader size of `Constants.cs`;
- `Strings`: the .NET string and LINQ operations the code relies on;
- `Numbers`: `int.Parse` and `int.ToString`, with the 32-bit range.

Conventions:

- Every exception becomes an `Err` value.
- A loop that never ends in the C# (directory counting with a zero entry
  width) becomes `Err(Diverges)`.
- The input stream is a `string` parameter. Each reading operation returns the
  input it left unread.
- An open reader is a `Session` value holding the module leader, the field
  definitions and the remaining input.

Most operations have an independent partner and a lemma tying the two together:

- a leader writer (`LeaderText`), a directory-entry writer (`EntryText`), a
  definition-entry writer (`DefinitionEntry`) and a subfield writer
  (`WriteSubfields`), each with a round-trip lemma;
- `Join` for `Split`;
- a reference count definition (`IsEntryCount`) for the directory counter;
- `SumWidths` for the fixed-width loop.

The format-control expander follows the code, not the format's usual
description:

- A bracketed group is unwrapped only at position 0. So `(A,(I,R))` expands to
  `A,(I,R)` and the inner group is copied as it stands.
- A repeat count uses only its first digit, and its other digits are skipped.
- After a bracketed repeat, the next character, normally the separating comma,
  is dropped.

The `DdfFieldDefinition` examples pin each quirk down.

## Model

| member | source | states |
|---|---|---|
| Numbers.ParseInt | GreaterHeights.ISO8211/DDFUtils.cs:42 | `int.Parse` yields only 32-bit values, needs non-empty text, and fails only as an invalid or overflowing number |
| Numbers.ParseIntShape | GreaterHeights.ISO8211/DDFUtils.cs:42 | text that parses is a sign or digit followed by digits only |
| Numbers.ParseIntOfDigits | GreaterHeights.ISO8211/DDFUtils.cs:42 | an unsigned digit string parses exactly when it is non-empty and at most 2^31-1, and then to its digit value |
| Numbers.ParseIntToString | GreaterHeights.ISO8211/DDFSubFieldDefinition.cs:205-208 | parsing the printed form of any 32-bit integer gives it back, so reprinting an integer subfield loses nothing |
| Numbers.ParsePadDecimal | GreaterHeights.ISO8211/DDFUtils.cs:36-43 | an n-digit zero-padded field of a value below 10^n parses to that value |
| Numbers.ParseIntBound | GreaterHeights.ISO8211/DDFUtils.cs:36-43 | a number read from n characters has magnitude below 10^n |
| Strings.LastIndexOf | GreaterHeights.ISO8211/DDFFieldDefinition.cs:371 | the result holds `c` and no later position does; it is -1 exactly when `c` does not occur |
| Strings.Split | GreaterHeights.ISO8211/DDFFieldDefinition.cs:378 | there is at least one piece, no piece holds the separator, and joining the pieces gives the text back |
| Strings.SplitJoin | GreaterHeights.ISO8211/DDFFieldDefinition.cs:378 | splitting joined separator-free pieces gives the pieces back |
| Strings.SplitCount | GreaterHeights.ISO8211/DDFFieldDefinition.cs:240 | splitting yields one more piece than there are separators |
| Strings.ReadChars | GreaterHeights.ISO8211/DDFUtils.cs:94-113 | a read of n characters gives the next n characters of the input, NUL-padded when it runs out, and the unread rest |
| DdfUtils.ReadIntFromBuffer | GreaterHeights.ISO8211/DDFUtils.cs:36-43 | a slice outside the buffer is an index error; a one-character field reads as 0 to 9 |
| DdfUtils.ReadIntFromBufferDigits | GreaterHeights.ISO8211/DDFUtils.cs:36-43 | a field that reads holds digits after its first character, and its value has fewer digits than the field is wide |
| DdfUtils.ReadIntFromBufferPadded | GreaterHeights.ISO8211/DDFUtils.cs:36-43 | a field holding the zero-padded digits of `v` reads back as `v` |
| DdfUtils.ReadStringFromBuffer | GreaterHeights.ISO8211/DDFUtils.cs:55-83 | the text returned contains neither delimiter, and the only failure is running off the record |
| DdfUtils.ReadStringFromBufferSpec | GreaterHeights.ISO8211/DDFUtils.cs:65-80 | the text is the record slice at `offset` of at most `maxChars - 1` characters, stopped by the first delimiter; the delimiter is consumed exactly when the scan stopped on it inside the budget; a non-positive budget reads nothing; an in-range budget never fails |
| DdfUtils.ReadStringFromBufferDelimited | GreaterHeights.ISO8211/DDFUtils.cs:55-83 | a delimiter-free text followed by a delimiter inside the budget reads back whole, the delimiter consumed with it |
| DdfUtils.CountDirectoryEntries | GreaterHeights.ISO8211/DDFUtils.cs:123-138 | the count meets the reference definition: that many strides start before `dataSize` without a field terminator, and the next does not; a terminator at the start gives 0; a zero width that does not stop at once diverges; in-range input never fails |
| DdfUtils.CountDirectoryEntriesExact | GreaterHeights.ISO8211/DDFUtils.cs:123-138 | any count meeting the reference definition is the one the loop returns |
| DdfUtils.CountIgnoresTail | GreaterHeights.ISO8211/DDFUtils.cs:127-129 | the count never depends on characters at or beyond `dataSize` |
| DdfUtils.CreateLeader | GreaterHeights.ISO8211/DDFUtils.cs:151-201 | a decoded leader has one-digit widths and the identifier at index 6; a module leader passes the structural check; a record leader keeps the defaults of the fields it does not read; the corrupt-record-leader error cannot occur |
| DdfUtils.ModuleLeaderRejectedIff | GreaterHeights.ISO8211/DDFUtils.cs:175-179 | once its numbers read, a module leader is rejected as an invalid file exactly when the record length is below 12, the field-control length is 0, the field area starts before 24, or a width is 0 |
| DdfUtils.ModuleLeaderFields | GreaterHeights.ISO8211/DDFUtils.cs:155-173 | a module leader whose numbers read decodes field by field from its fixed offsets, with a NUL appended to the extended character set |
| DdfUtils.LeaderTextNumbers | GreaterHeights.ISO8211/DDFUtils.cs:159-172 | each numeric slot of a written leader reads back as the leader's number |
| DdfUtils.ModuleLeaderChars | GreaterHeights.ISO8211/DDFUtils.cs:160-169 | each single-character slot of a written module leader reads back as the leader's indicator |
| DdfUtils.ModuleLeaderRoundTrip | GreaterHeights.ISO8211/DDFUtils.cs:155-179 | an accepted, fully populated module leader, written and decoded again, comes back unchanged |
| DdfUtils.RecordLeaderRoundTrip | GreaterHeights.ISO8211/DDFUtils.cs:181-197 | a written leader decoded as a record leader gives its length, identifier, field-area start and widths, with every other field at its default |
| DdfRecord.EntryText | GreaterHeights.ISO8211/DDFLeader.cs:100-103 | a directory entry takes exactly the leader's entry width: tag width plus length digits plus position digits |
| DdfSubfieldDefinition.TokenDigits | GreaterHeights.ISO8211/DDFSubFieldDefinition.cs:125 | the width of a token is the integer formed by all its digits; it fails when there is no digit or the value exceeds 32 bits |
| DdfSubfieldDefinition.SizeFormat | GreaterHeights.ISO8211/DDFSubFieldDefinition.cs:121-131 | the token is stored; with `(` the width is the token's digits and the subfield is variable exactly at width 0; without `(` it is variable and keeps its width; nothing else changes |
| DdfSubfieldDefinition.SetFormat | GreaterHeights.ISO8211/DDFSubFieldDefinition.cs:119-192 | the name and delimiter are kept and the token is stored; an empty token is an index error; success needs a known kind; `X` is unsupported; any other unknown kind is unrecognised |
| DdfSubfieldDefinition.SetFormatKinds | GreaterHeights.ISO8211/DDFSubFieldDefinition.cs:136-181 | `A`/`C` give strings, `R` floats and `I`/`S` integers, each keeping the binary format and taking the width in parentheses; `B`/`b` are always fixed width |
| DdfSubfieldDefinition.SetFormatBinary | GreaterHeights.ISO8211/DDFSubFieldDefinition.cs:121-159 | a binary token is sized by the common width step before its binary branch runs, and a sizing failure is the result |
| DdfSubfieldDefinition.SetBinaryFormat | GreaterHeights.ISO8211/DDFSubFieldDefinition.cs:152-181 | `B(n)` is signed, n/8 bytes wide, an integer below 5 bytes and a binary string from 5; a type digit sets the binary format, with all digits as the width, and types 1 and 2 are integers, the rest floats |
| DdfSubfieldDefinition.SetFormatToken | GreaterHeights.ISO8211/DDFSubFieldDefinition.cs:119-150 | a written text token read back gives the token's kind and width, variable exactly when no width was written |
| DdfSubfieldDefinition.SetFormatBinaryToken | GreaterHeights.ISO8211/DDFSubFieldDefinition.cs:152-163 | a written bit-count token read back gives a fixed signed binary subfield of that many bytes |
| DdfSubfieldDefinition.BinaryTypeDigitExample | GreaterHeights.ISO8211/DDFSubFieldDefinition.cs:166-178 | `b14` is an unsigned integer 14 bytes wide: the type digit is counted into the width |
| DdfSubfieldDefinition.SetFormatRejects | GreaterHeights.ISO8211/DDFSubFieldDefinition.cs:183-190 | `X` is refused as unsupported, any other unknown kind as unrecognised |
| DdfSubfieldDefinition.ScanSingleByte | GreaterHeights.ISO8211/DDFSubFieldDefinition.cs:298-306 | the scan stops at the first delimiter or field terminator, or at the budget |
| DdfSubfieldDefinition.ScanDoubleByte | GreaterHeights.ISO8211/DDFSubFieldDefinition.cs:307-322 | the scan stops at the first NUL that follows a delimiter or field terminator, or at the budget; one extra byte is consumed when a field terminator follows that NUL |
| DdfSubfieldDefinition.CheckDoubleByte | GreaterHeights.ISO8211/DDFSubFieldDefinition.cs:291-296 | the double-byte test holds exactly when the budget ends in a delimiter or field terminator followed by a NUL |
| DdfSubfieldDefinition.GetDataLength | GreaterHeights.ISO8211/DDFSubFieldDefinition.cs:246-338 | a fixed width is used whole, or cut to the budget; a variable width ends at the first stop of the single- or double-byte scan, and the terminator (plus the extra field terminator in double-byte mode) is consumed |
| DdfSubfieldDefinition.ExtractStringData | GreaterHeights.ISO8211/DDFSubFieldDefinition.cs:230-237 | the value is the first `length` bytes of the data, clamped, and the consumed count is the one `GetDataLength` gives |
| DdfSubfieldDefinition.GetData | GreaterHeights.ISO8211/DDFSubFieldDefinition.cs:201-221 | integers are parsed and reprinted, and fail exactly when they do not parse; floats are reprinted, or "0" when they do not parse; strings and binary strings are returned as extracted; the consumed count is the extractor's |
| DdfSubfieldDefinition.GetDataText | GreaterHeights.ISO8211/DDFSubFieldDefinition.cs:213-216 | text and binary subfields are returned exactly as extracted |
| DdfSubfieldDefinition.GetDataInteger | GreaterHeights.ISO8211/DDFSubFieldDefinition.cs:205-208 | an integer subfield whose text parses to `v` reads as the printed form of `v` |
| DdfSubfieldDefinition.ExtractDelimited | GreaterHeights.ISO8211/DDFSubFieldDefinition.cs:230-237 | a delimited value is extracted whole, its terminator consumed |
| DdfSubfieldDefinition.VariableSubfieldRoundTrip | GreaterHeights.ISO8211/DDFSubFieldDefinition.cs:298-335 | a variable text subfield written with its terminator reads back as its text, consuming the terminator, whatever budget follows |
| DdfSubfieldDefinition.FixedSubfieldRoundTrip | GreaterHeights.ISO8211/DDFSubFieldDefinition.cs:248-263 | a fixed-width value followed by anything reads back as exactly its bytes |
| DdfSubfieldDefinition.IntegerSubfieldRoundTrip | GreaterHeights.ISO8211/DDFSubFieldDefinition.cs:205-208 | the printed form of any 32-bit integer, written with its delimiter, reads back as itself |
| DdfSubfieldDefinition.NormalisesIntegerExample | GreaterHeights.ISO8211/DDFSubFieldDefinition.cs:205-208 | `0042` is read as `42` |
| DdfSubfieldDefinition.ReadDelimitedText | GreaterHeights.ISO8211/DDFSubFieldDefinition.cs:298-335 | `HELLO` closed by a unit terminator reads as `HELLO`, consuming six bytes |
| DdfSubfieldDefinition.ReadDoubleByteText | GreaterHeights.ISO8211/DDFSubFieldDefinition.cs:289-322 | in double-byte mode the terminator before the NUL stays in the value, and all four bytes are consumed |
| DdfFieldDefinition.DataStructCodeOf | GreaterHeights.ISO8211/DDFFieldDefinition.cs:113-134 | the structure code is accepted exactly for blank or 0 to 3, and is elementary exactly for blank or 0; anything else is an unrecognised code |
| DdfFieldDefinition.CheckDataTypeCode | GreaterHeights.ISO8211/DDFFieldDefinition.cs:136-166 | the type code is accepted exactly for blank or 0 to 6 |
| DdfFieldDefinition.SubfieldList | GreaterHeights.ISO8211/DDFFieldDefinition.cs:371 | the subfield list is the suffix from the last `*` on, star kept, or the whole description when there is none |
| DdfFieldDefinition.BuildSubfields | GreaterHeights.ISO8211/DDFFieldDefinition.cs:369-386 | an empty description fails; otherwise there is one fresh subfield per `!`-separated name, the names joined give the list back, and the subfields repeat exactly when there is a `*` |
| DdfFieldDefinition.BuildSubfieldsRoundTrip | GreaterHeights.ISO8211/DDFFieldDefinition.cs:369-386 | the names of a written description come back in order; they repeat exactly when it is starred |
| DdfFieldDefinition.ExtractSubString | GreaterHeights.ISO8211/DDFFieldDefinition.cs:345-363 | an item opening with a bracket gives the text right after the bracket, at least one character short of the end; any other item gives its prefix up to the first comma, or all of it; only a bracketed item can fail |
| DdfFieldDefinition.ExtractGroup | GreaterHeights.ISO8211/DDFFieldDefinition.cs:349-362 | a bracketed item whose body never closes more brackets than it opens is extracted as exactly its body, its inner commas passed |
| DdfFieldDefinition.ExpandFormat | GreaterHeights.ISO8211/DDFFieldDefinition.cs:280-338 | expansion fails only by an index error |
| DdfFieldDefinition.ExpandPlain | GreaterHeights.ISO8211/DDFFieldDefinition.cs:329-334 | format controls with no leading group and no repeat count expand to themselves |
| DdfFieldDefinition.ExpandCopies | GreaterHeights.ISO8211/DDFFieldDefinition.cs:329-334 | a character that starts neither a leading group nor a count is copied |
| DdfFieldDefinition.ExpandBracketedPlain | GreaterHeights.ISO8211/DDFFieldDefinition.cs:286-293 | bracketed controls that need no expansion are unwrapped to their body |
| DdfFieldDefinition.SkipDigitsRun | GreaterHeights.ISO8211/DDFFieldDefinition.cs:301-304 | the skip over a repeat count stops at the first non-digit |
| DdfFieldDefinition.ExpandRepeatedGroup | GreaterHeights.ISO8211/DDFFieldDefinition.cs:296-327 | a count made of a run of digits repeats a bracketed item as many times as its first digit says, comma-separated; the expansion resumes after the character that follows the closing bracket |
| DdfFieldDefinition.ExpandRepeatedExpansion | GreaterHeights.ISO8211/DDFFieldDefinition.cs:296-327 | a count before a bracketed item repeats the item's own expansion as many times as its first digit says |
| DdfFieldDefinition.ExpandRepeatedChar | GreaterHeights.ISO8211/DDFFieldDefinition.cs:296-327 | a count before a single plain character repeats it, and expansion resumes right after it |
| DdfFieldDefinition.ExpandCountedGroup | GreaterHeights.ISO8211/DDFFieldDefinition.cs:296-322 | controls made of a count and a bracketed item expand to copies of the item's expansion, as many as the count's first digit |
| DdfFieldDefinition.ExpandRepeatExample | GreaterHeights.ISO8211/DDFFieldDefinition.cs:296-322 | `2(A,B)` expands to `A,B,A,B` |
| DdfFieldDefinition.ExpandGroupedRepeatExample | GreaterHeights.ISO8211/DDFFieldDefinition.cs:286-322 | `(2(A,B))` expands to `A,B,A,B` |
| DdfFieldDefinition.ExpandSkipsCommaExample | GreaterHeights.ISO8211/DDFFieldDefinition.cs:320-323 | `2(A,B),I` expands to `A,B,A,BI`: the comma after a bracketed repeat is dropped |
| DdfFieldDefinition.ExpandInnerGroupExample | GreaterHeights.ISO8211/DDFFieldDefinition.cs:286 | `(A,(I,R))` expands to `A,(I,R)`: only a group at position 0 is unwrapped |
| DdfFieldDefinition.ExpandNestedRepeatExample | GreaterHeights.ISO8211/DDFFieldDefinition.cs:286-327 | `(2(3A))` expands to six copies of `A` |
| DdfFieldDefinition.ExpandTwoGroupsOfThree | GreaterHeights.ISO8211/DDFFieldDefinition.cs:296-327 | `2(3A)` expands to six copies of `A` |
| DdfFieldDefinition.ExpandThreeA | GreaterHeights.ISO8211/DDFFieldDefinition.cs:324-327 | `3A` expands to `A,A,A` |
| DdfFieldDefinition.ExpandMultiDigitCountExample | GreaterHeights.ISO8211/DDFFieldDefinition.cs:298-304 | `12(A)` expands to `A`: only the first digit of a count is used |
| DdfFieldDefinition.ExpandSkippedDigitExample | GreaterHeights.ISO8211/DDFFieldDefinition.cs:298-304 | `30A` expands to `A,A,A`: later digits are skipped, not multiplied in |
| DdfFieldDefinition.SetFormats | GreaterHeights.ISO8211/DDFFieldDefinition.cs:248-254 | subfield k gets token k, in order; the result succeeds when every token applies, and running out of tokens is an index error |
| DdfFieldDefinition.FixedWidthIsSum | GreaterHeights.ISO8211/DDFFieldDefinition.cs:261-270 | the fixed width is the sum of the subfield widths when none is 0, and 0 otherwise |
| DdfFieldDefinition.ApplyFormats | GreaterHeights.ISO8211/DDFFieldDefinition.cs:228-273 | controls without brackets are rejected, and only those; there is exactly one expanded token per subfield, applied in order; more tokens than subfields is an error; the fixed width is the loop's |
| DdfFieldDefinition.ApplyPlainFormats | GreaterHeights.ISO8211/DDFFieldDefinition.cs:228-273 | bracketed plain tokens, one per subfield, are applied to the subfields in order |
| DdfFieldDefinition.ReadEntryTexts | GreaterHeights.ISO8211/DDFFieldDefinition.cs:172-200 | the name, descriptor and format controls read contain no terminator |
| DdfFieldDefinition.ReadTerminated | GreaterHeights.ISO8211/DDFFieldDefinition.cs:174-180 | a terminated string inside the budget reads back whole, its terminator consumed |
| DdfFieldDefinition.ReadEntryLayout | GreaterHeights.ISO8211/DDFFieldDefinition.cs:172-200 | the three strings of a laid-out entry read back in order |
| DdfFieldDefinition.Initialize | GreaterHeights.ISO8211/DDFFieldDefinition.cs:99-216 | the tag is kept; the structure code comes from the first control byte, and an unknown one is an error; the type code is checked; the texts hold no terminator; an elementary field has no subfields; any other field has the subfields its descriptor builds, formatted by its controls |
| DdfFieldDefinition.InitializeLayout | GreaterHeights.ISO8211/DDFFieldDefinition.cs:99-216 | a laid-out entry decodes to its name, descriptor and controls; it is elementary with no subfields for a blank or 0 code, and otherwise it succeeds exactly when its subfields can be built and formatted |
| DdfFieldDefinition.ElementaryEntryRoundTrip | GreaterHeights.ISO8211/DDFFieldDefinition.cs:99-216 | a written elementary definition entry decodes to its name, descriptor and controls |
| DdfField.DecodePass | GreaterHeights.ISO8211/DDFField.cs:71-81 | a pass fails only with a reader error or a repeated name; a successful pass read its first value and met a new first name |
| DdfField.NamesFreshIff | GreaterHeights.ISO8211/DDFField.cs:78-80 | adding the names one by one succeeds exactly when they are distinct and none was already present |
| DdfField.DecodePassShape | GreaterHeights.ISO8211/DDFField.cs:71-81 | a successful pass keeps the earlier entries and adds one entry per definition, with its name and type, in order |
| DdfField.DecodePassNames | GreaterHeights.ISO8211/DDFField.cs:78-80 | the entries a pass adds carry the definitions' names and types in order |
| DdfField.DecodePassKeeps | GreaterHeights.ISO8211/DDFField.cs:78-80 | a pass leaves each earlier entry in its place |
| DdfField.DecodePassFirst | GreaterHeights.ISO8211/DDFField.cs:71-77 | the first entry holds the value read at the starting position with the whole budget |
| DdfField.DecodePassAt | GreaterHeights.ISO8211/DDFField.cs:71-77 | entry k holds the value read at the position advanced by the bytes the first k values consumed, with the budget reduced by the same amount |
| DdfField.DecodeRepeats | GreaterHeights.ISO8211/DDFField.cs:69-82 | the repeated passes fail only with a reader error or a repeated name |
| DdfField.SingleRepeat | GreaterHeights.ISO8211/DDFField.cs:53-57 | with the repeat count of 1, decoding a field is one pass from its offset |
| DdfField.GetDataErrors | GreaterHeights.ISO8211/DDFSubFieldDefinition.cs:201-221 | reading a subfield fails only on bytes that do not fit or an integer that does not parse |
| DdfField.GetRecord | GreaterHeights.ISO8211/DDFField.cs:63-85 | one value per subfield definition, in order, under its name and type; the names are distinct; failures are reader errors or duplicate names |
| DdfField.GetRecordIsOnePass | GreaterHeights.ISO8211/DDFField.cs:63-85 | decoding a field is one pass over its definitions from its offset, with its size as budget and an empty dictionary |
| DdfField.GetRecordFirst | GreaterHeights.ISO8211/DDFField.cs:67-77 | the first value is `GetData` at the field's offset with the field's whole size |
| DdfField.GetRecordAt | GreaterHeights.ISO8211/DDFField.cs:69-82 | value k is `GetData` at the field's offset plus the bytes the earlier subfields consumed, with the size reduced by that sum |
| DdfField.EmptyFieldDecodesEmpty | GreaterHeights.ISO8211/DDFField.cs:63-85 | a field without subfield definitions decodes to nothing |
| DdfField.DuplicateNamesRejected | GreaterHeights.ISO8211/DDFField.cs:78-80 | a definition naming a subfield twice cannot be decoded, whatever the bytes |
| DdfField.WrittenSubfieldReadsBack | GreaterHeights.ISO8211/DDFSubFieldDefinition.cs:201-221 | the first of a field's written values reads back with exactly its written width |
| DdfField.GetDataReadsBack | GreaterHeights.ISO8211/DDFSubFieldDefinition.cs:201-221 | the subfield reader gives back every writable value from the bytes written for it, consuming exactly its written width |
| DdfField.PassRoundTrip | GreaterHeights.ISO8211/DDFField.cs:71-81 | written subfields with distinct names, after any bytes, decode in one pass into exactly their entries |
| DdfField.GetRecordRoundTrip | GreaterHeights.ISO8211/DDFField.cs:63-85 | a field written into a record body after any other bytes reads back as exactly the written values under their names |
| DdfRecord.ReadEntry | GreaterHeights.ISO8211/DDFRecord.cs:158-163 | an entry that reads lies within its buffer; failures are index or number errors |
| DdfRecord.ReadEntryTag | GreaterHeights.ISO8211/DDFRecord.cs:158 | the tag of an entry is the tag-width characters at the start of the entry |
| DdfRecord.ReadEntryRoundTrip | GreaterHeights.ISO8211/DDFRecord.cs:153-163 | a written directory entry reads back as itself wherever it sits |
| DdfRecord.FindDefinition | GreaterHeights.ISO8211/DDFRecord.cs:165-171 | the first definition with the tag is found exactly when one exists; otherwise the field is undefined |
| DdfRecord.BindField | GreaterHeights.ISO8211/DDFRecord.cs:165-188 | an entry binds exactly when its tag is defined and its slice fits the body; the field gets the body, the entry's length and the offset field-area start + position - 24; an undefined tag and an out-of-bounds slice are the two errors |
| DdfRecord.BindFromShape | GreaterHeights.ISO8211/DDFRecord.cs:151-189 | a successful binding holds one field per entry in range, each the field of its entry, in order |
| DdfRecord.BindFromAllBound | GreaterHeights.ISO8211/DDFRecord.cs:151-189 | binding fails only when some entry cannot be bound |
| DdfRecord.BindingFits | GreaterHeights.ISO8211/DDFRecord.cs:173-177 | every field an entry binds to names a definition and lies inside the body |
| DdfRecord.BindingBindsEntries | GreaterHeights.ISO8211/DDFRecord.cs:151-188 | every field the binding produces for entry k is the binding of the directory entry read k entry-widths into the body |
| DdfRecord.BoundEntries | GreaterHeights.ISO8211/DDFRecord.cs:151-188 | a successful binding of `count` entries gives field k as the binding of the entry k entry-widths into the body |
| DdfRecord.NeedsMore | GreaterHeights.ISO8211/DDFRecord.cs:126-127 | the loop stops exactly when a field terminator is in one of the last two places; an empty body, or a one-character body without a terminator, is an index error |
| DdfRecord.ExtendBodyAsWritten | GreaterHeights.ISO8211/DDFRecord.cs:126-139 | the loop as written succeeds only on a body that is already terminated; otherwise it fails on the copy when input remains, or diverges at the end of the input |
| DdfRecord.PaddingNeverTerminates | GreaterHeights.ISO8211/DDFRecord.cs:129-133 | at the end of the input, NUL slots never end the loop as written |
| DdfRecord.ExtensionCounterexample | GreaterHeights.ISO8211/DDFRecord.cs:129-133 | body `AB` with input `C` and a field terminator: the loop as written fails where the intended loop completes the record |
| DdfRecord.ExtendBody | GreaterHeights.ISO8211/DDFRecord.cs:126-139 | the extended body is terminated, grows only by input characters taken in order, and the rest is what was not taken; a terminated body is left alone |
| DdfRecord.ExtendBodyToTerminator | GreaterHeights.ISO8211/DDFRecord.cs:126-139 | a body that needs more grows exactly up to and including the first field terminator of the input |
| DdfRecord.ExtendBodyWithoutTerminator | GreaterHeights.ISO8211/DDFRecord.cs:133-136 | without a field terminator in the input the record is short |
| DdfRecord.ReadBody | GreaterHeights.ISO8211/DDFRecord.cs:112-188 | the fields are one per directory entry the extended body counts, each the binding of its entry, in order and inside the body; the rest is the input after the extension |
| DdfRecord.ReadHeader | GreaterHeights.ISO8211/DDFRecord.cs:83-195 | nothing is read exactly at the end of the input; a corrupt leader is an error; the reuse flag is the leader identifier `R`; a length of 0 adds no fields; otherwise the body's fields are appended to the earlier ones |
| DdfRecord.ReadHeaderFields | GreaterHeights.ISO8211/DDFRecord.cs:141-188 | the new fields are one per counted directory entry, each bound from its entry and inside the terminated body |
| DdfRecord.Read | GreaterHeights.ISO8211/DDFRecord.cs:56-64 | a record that reuses its header reads nothing and keeps its fields; any other reads its header |
| Iso8211Reader.PrintableFrom | GreaterHeights.ISO8211/ISO8211Reader.cs:200-206 | true exactly when every leader character is printable ASCII; a short leader whose characters are all printable is an index error |
| Iso8211Reader.LeaderIsValid | GreaterHeights.ISO8211/ISO8211Reader.cs:197-224 | valid exactly when the 24 characters are printable, index 5 is 1 to 3, index 6 is `L` and index 8 is `1` or a space; an index error exactly for a short printable leader |
| Iso8211Reader.ReadRecord | GreaterHeights.ISO8211/ISO8211Reader.cs:175-190 | the record has the leader's length and starts with the leader; a length below 24 leaves no room for the leader |
| Iso8211Reader.ReadRecordSplits | GreaterHeights.ISO8211/ISO8211Reader.cs:175-190 | with enough input the record and the rest are the leader and the input cut at the length; with too little the record is padded with NULs |
| Iso8211Reader.DefinitionAt | GreaterHeights.ISO8211/ISO8211Reader.cs:145-162 | a decoded definition carries its entry's tag, and its field lies inside the record |
| Iso8211Reader.DefinitionAtCases | GreaterHeights.ISO8211/ISO8211Reader.cs:145-162 | an entry error is passed on; a field outside the record makes the header invalid; otherwise the definition is the one decoded at the field's position |
| Iso8211Reader.DefinitionAtInside | GreaterHeights.ISO8211/ISO8211Reader.cs:155-159 | the field a decoded definition describes lies inside the record |
| Iso8211Reader.ReadFieldDefinitions | GreaterHeights.ISO8211/ISO8211Reader.cs:141-167 | there is one definition per counted entry |
| Iso8211Reader.ReadFieldDefinitionsAll | GreaterHeights.ISO8211/ISO8211Reader.cs:141-167 | reading succeeds exactly when every entry decodes, and definition k is entry k's |
| Iso8211Reader.ReadFieldDefinitionsFirstError | GreaterHeights.ISO8211/ISO8211Reader.cs:141-167 | a failed read stopped at the first entry that does not decode, with that entry's error |
| Iso8211Reader.Open | GreaterHeights.ISO8211/ISO8211Reader.cs:95-120 | a leader refused by the pre-check makes the file invalid; a short printable leader is an index error; an open reader holds the decoded module leader, whose record length is at least 24 |
| Iso8211Reader.OpenReadsDirectory | GreaterHeights.ISO8211/ISO8211Reader.cs:95-120 | an open reader holds the definitions of exactly as many entries as the directory counts, read in order, and the input after the data descriptive record |
| Iso8211Reader.OpenLeaderRoundTrip | GreaterHeights.ISO8211/ISO8211Reader.cs:97-106 | a written module leader that opens opens as that leader |
| Iso8211Reader.Read | GreaterHeights.ISO8211/ISO8211Reader.cs:126-131 | nothing is returned exactly at the end of the input; the leader and definitions never change |
| Iso8211Reader.ReadLoadsRecord | GreaterHeights.ISO8211/ISO8211Reader.cs:126-131 | a record read from non-empty input comes from a sane leader, takes its reuse flag from the identifier, and its fields lie inside the terminated body |

## Left out

- Numbers.ParseInt: .NET `int.Parse` also accepts leading and trailing white space, so " 42" in a fixed-width `I` field parses in C#. The model reports `InvalidNumber` instead.
- Numbers.IsDigit: only ASCII `0` to `9` count as digits. C# `char.IsDigit` also accepts other Unicode decimal digits.
- DdfFieldDefinition.ExpandFrom: the repeat count is recognised with the ASCII-only `IsDigit`. The C# uses Unicode `char.IsDigit` (DDFFieldDefinition.cs:296-304).
- DdfSubfieldDefinition.FloatFormatter: `float.TryParse` and the invariant-culture printing of a float are a function parameter. Floating point is not modelled.
- DdfSubfieldDefinition.GetDataLength: the `Console.Write` diagnostic for a fixed width cut to the budget (DDFSubFieldDefinition.cs:252-256) is dropped. It has no effect on the result.
- Strings.ReadChars: reads n characters and NUL-pads a short read. This stands in for `BinaryReader` and `ReadObjectsFromBuffer` with single-byte characters.
- DdfRecord.NextLeader: reads the record leader with `ReadChars`, so a short leader is NUL-padded. `ReadObjectsFromBuffer` always reports the requested count, so the "short on file" errors at DDFRecord.cs:92-96 and 117-120 cannot fire, and the model has none.
- Iso8211Reader.ReadRecord: NUL-pads a short data descriptive record. It takes the 24-character leader that `Open` has already read.
- UTF-8 decoding (DDFUtils.cs:107, ISO8211Reader.cs:97 and 184) is not modelled: the input is a string of single-byte characters.
- DdfRecord.ReadHeader: models the corrected extension loop (`ExtendBody`), not the loop as written; see Findings. `ReadBody`, `Read`, `Iso8211Reader.Read` and `Iso8211Reader.ReadLoadsRecord` inherit this.
- DdfField.GetRecord: `GetRepeatCount` always returns 1, so the model fixes `RepeatCount` at 1. `DecodeRepeats` is the general loop.
- DdfField.GetRecord: the .NET `Dictionary` is a set of keys plus the entries in insertion order. Enumeration order is not otherwise specified by .NET.
- DdfFieldDefinition.ApplyFormats: the "fewer formats than subfields" check (DDFFieldDefinition.cs:256-259) can never fire. A missing token fails earlier at `formatList[index]`, which the model reports as an index error.
- DdfFieldDefinition.Initialize: the `ArgumentNullException` for a null leader is left out; Dafny values are never null. `Initialize` never returns false, because `BuildSubfields` and `ApplyFormats` either return true or throw, so the "definition not added" path of ReadFieldDefinitions does not exist in the model.
- DdfSubfieldDefinition.GetData: the default branch (DDFSubFieldDefinition.cs:217-219) cannot be reached, because the data type has only four values.
- The reader's constructor, its file-existence check, `Dispose` and the `Reader` property are file handling and are left out. The input is a parameter.
- Integer arithmetic is unbounded. The sums the C# forms stay below 2^31, given the 5- and 9-digit fields and the sanity checks. The only exception is `dataSize++` in the extension loop on a record longer than 2^31 characters.
- `IIso8211Reader.cs` is an interface and carries no logic. `SubFieldData.cs` becomes the `SubfieldData` datatype. `Constants.cs` becomes the `Constants` module. The `DdfLeader` properties become the `Leader` datatype.
- The NUnit test reads a catalogue file from disk and is not part of this model.

## Findings

| source | as written | input that shows it | evidently intended | confidence | as-written member | corrected member |
|---|---|---|---|---|---|---|
| GreaterHeights.ISO8211/DDFRecord.cs:129-133 | each pass of the extension loop grows the buffer to `dataSize` characters, then asks `ReadObjectsFromBuffer` to copy the next character in at index `dataSize`, one past the end | body `AB`, whose last two characters hold no field terminator, with `C` and a field terminator still to read: the copy throws `ArgumentException`. At the end of the input the copy is empty, the new slot stays NUL and the loop never ends | append each next character at index `dataSize - 1` until the body ends its last field; running out of input is a short record | high; not executed | DdfRecord.ExtendBodyAsWritten, DdfRecord.ExtensionCounterexample | DdfRecord.ExtendBody, DdfRecord.ExtendBodyToTerminator |
