/** The reader of an ISO/IEC 8211 file: it checks and decodes the module
    leader, reads the data descriptive record and its field definitions, and
    then hands out one data record per call. */
module Iso8211Reader {
  import opened Results
  import opened Constants
  import opened Strings
  import opened DdfLeader
  import opened DdfUtils
  import opened DdfFieldDefinition
  import DdfRecord

  /** An open reader: the module leader, the field definitions in directory
      order, and the input not read yet. */
  datatype Session = Session(leader: Leader, definitions: seq<FieldDefinition>, input: string)

  // ---------------------------------------------------------------------
  // The leader pre-check
  // ---------------------------------------------------------------------

  /** Printable ASCII, the only characters a module leader may hold. */
  predicate Printable(c: char) {
    32 <= c as int <= 126
  }

  /** The interchange levels a module leader may announce. */
  predicate IsLevel(c: char) {
    c == '1' || c == '2' || c == '3'
  }

  /** The codes the pre-check demands once every character is printable:
      an interchange level at index 5, the leader identifier `L` at index 6
      and a version number of `1` or a space at index 8. */
  predicate LeaderCodes(leader: seq<char>)
    requires |leader| >= LeaderSize
  {
    IsLevel(leader[5]) && leader[6] == 'L' && (leader[8] == '1' || leader[8] == ' ')
  }

  /** The first `LeaderSize` characters are present and printable. */
  predicate AllPrintable(leader: seq<char>) {
    |leader| >= LeaderSize && forall j :: 0 <= j < LeaderSize ==> Printable(leader[j])
  }

  /** The characters that are present up to `LeaderSize` are printable, but
      the leader is short. */
  predicate ShortAndPrintable(leader: seq<char>) {
    |leader| < LeaderSize && forall j :: 0 <= j < |leader| ==> Printable(leader[j])
  }

  /** Scans positions `i` to `LeaderSize - 1` for a character outside the
      printable range. A short leader whose characters are all printable
      reads past its end. */
  function PrintableFrom(leader: seq<char>, i: nat): (r: Result<bool>)
    requires i <= LeaderSize && i <= |leader|
    ensures r == Ok(true) <==> |leader| >= LeaderSize && forall j :: i <= j < LeaderSize ==> Printable(leader[j])
    ensures r.Err? <==> |leader| < LeaderSize && forall j :: i <= j < |leader| ==> Printable(leader[j])
    ensures r.Err? ==> r.error == IndexOutOfRange
    decreases LeaderSize - i
  {
    if i == LeaderSize then Ok(true)
    else
      var c :- At(leader, i);
      if !Printable(c) then Ok(false) else PrintableFrom(leader, i + 1)
  }

  /** The module-leader pre-check: printable characters and the three
      codes. It fails with an index error exactly when a short leader gets
      past the printable check. */
  function LeaderIsValid(leader: seq<char>): (r: Result<bool>)
    ensures r == Ok(true) <==> AllPrintable(leader) && LeaderCodes(leader)
    ensures r.Err? <==> ShortAndPrintable(leader)
    ensures r.Err? ==> r.error == IndexOutOfRange
  {
    var printable :- PrintableFrom(leader, 0);
    if !printable then Ok(false) else Ok(LeaderCodes(leader))
  }

  // ---------------------------------------------------------------------
  // The data descriptive record
  // ---------------------------------------------------------------------

  /** Reads the data descriptive record: the leader already read, followed
      by the rest of the record's `recordLength` characters, NUL-padded if
      the input runs out. A length below the leader's own does not leave
      room to copy the leader in. */
  function ReadRecord(leader: seq<char>, l: Leader, input: string): (r: Result<(seq<char>, string)>)
    requires |leader| == LeaderSize
    ensures r.Ok? <==> l.recordLength >= LeaderSize
    ensures r.Err? ==> r.error == DestinationTooShort
    ensures r.Ok? ==> |r.value.0| == l.recordLength && r.value.0[..LeaderSize] == leader
  {
    if l.recordLength < LeaderSize then Err(DestinationTooShort)
    else
      var read := ReadChars(input, l.recordLength - LeaderSize);
      Ok((leader + read.0, read.1))
  }

  /** With enough input, the record and the input left over are the leader
      and the input, cut at the record's length; with too little, the
      record is the leader and the whole input followed by NULs. */
  lemma ReadRecordSplits(leader: seq<char>, l: Leader, input: string)
    requires |leader| == LeaderSize && l.recordLength >= LeaderSize
    ensures var r := ReadRecord(leader, l, input).value;
      l.recordLength - LeaderSize <= |input| ==> r.0 + r.1 == leader + input
    ensures var r := ReadRecord(leader, l, input).value;
      |input| < l.recordLength - LeaderSize ==>
        && r.1 == []
        && r.0[..LeaderSize + |input|] == leader + input
        && forall j :: LeaderSize + |input| <= j < l.recordLength ==> r.0[j] == 0 as char
  {
    var read := ReadChars(input, l.recordLength - LeaderSize);
    var r := ReadRecord(leader, l, input).value;
    assert r.0 == leader + read.0;
    if l.recordLength - LeaderSize <= |input| {
      assert read.0 + read.1 == input;
    } else {
      assert r.0[..LeaderSize + |input|] == leader + read.0[..|input|];
    }
  }

  /** Decodes the field definition of directory entry `i`: the entry's tag,
      length and position, a check that the field lies inside the record,
      and the definition itself. */
  function DefinitionAt(l: Leader, record: seq<char>, width: int, i: nat): (r: Result<FieldDefinition>)
    ensures r.Ok? ==>
      var e := DdfRecord.ReadEntry(record, l, LeaderSize + i * width);
      && e.Ok? && r.value.tag == e.value.tag
      && DdfRecord.Fits(l.fieldAreaStart + e.value.position, e.value.length, l.recordLength)
  {
    var e :- DdfRecord.ReadEntry(record, l, LeaderSize + i * width);
    var start := l.fieldAreaStart + e.position;
    if !DdfRecord.Fits(start, e.length, l.recordLength) then Err(HeaderRecordInvalid)
    else Initialize(l, e.tag, e.length, record, start)
  }

  /** The three ways an entry's definition comes out: the entry's own error,
      an invalid header when the field would lie outside the record, and
      otherwise the definition decoded at the field's position. */
  lemma DefinitionAtCases(l: Leader, record: seq<char>, width: int, i: nat)
    ensures var e := DdfRecord.ReadEntry(record, l, LeaderSize + i * width);
      e.Err? ==> DefinitionAt(l, record, width, i) == Err(e.error)
    ensures var e := DdfRecord.ReadEntry(record, l, LeaderSize + i * width);
      e.Ok? && !DdfRecord.Fits(l.fieldAreaStart + e.value.position, e.value.length, l.recordLength) ==>
        DefinitionAt(l, record, width, i) == Err(HeaderRecordInvalid)
    ensures var e := DdfRecord.ReadEntry(record, l, LeaderSize + i * width);
      e.Ok? && DdfRecord.Fits(l.fieldAreaStart + e.value.position, e.value.length, l.recordLength) ==>
        DefinitionAt(l, record, width, i)
        == Initialize(l, e.value.tag, e.value.length, record, l.fieldAreaStart + e.value.position)
  {
  }

  /** How the definition of the directory entry with a given index is
      decoded. */
  type Decoder = nat -> Result<FieldDefinition>

  /** The decoder of a data descriptive record's directory. */
  function EntryDecoder(l: Leader, record: seq<char>, width: int): Decoder {
    (i: nat) => DefinitionAt(l, record, width, i)
  }

  /** Decodes the definitions of directory entries `i` to `count - 1` in
      order; the first entry that fails stops the loop with its error. */
  function DefinitionsFrom(decode: Decoder, i: nat, count: nat): (r: Result<seq<FieldDefinition>>)
    ensures r.Ok? ==> |r.value| == if i <= count then count - i else 0
    decreases count - i
  {
    if i >= count then Ok([])
    else
      var definition :- decode(i);
      var rest :- DefinitionsFrom(decode, i + 1, count);
      Ok([definition] + rest)
  }

  /** Reads the `fieldCount` field definitions of the data descriptive
      record. */
  function ReadFieldDefinitions(l: Leader, record: seq<char>, width: int, fieldCount: nat)
    : (r: Result<seq<FieldDefinition>>)
    ensures r.Ok? ==> |r.value| == fieldCount
  {
    DefinitionsFrom(EntryDecoder(l, record, width), 0, fieldCount)
  }

  /** The loop succeeds exactly when every entry decodes, and then gives
      entry `k`'s definition in place `k - i`. */
  lemma {:induction false} DefinitionsFromAll(decode: Decoder, i: nat, count: nat)
    requires i <= count
    ensures var r := DefinitionsFrom(decode, i, count);
      r.Ok? <==> forall k :: i <= k < count ==> decode(k).Ok?
    ensures var r := DefinitionsFrom(decode, i, count);
      r.Ok? ==> forall k :: i <= k < count ==> r.value[k - i] == decode(k).value
    decreases count - i
  {
    if i < count {
      DefinitionsFromAll(decode, i + 1, count);
      var r := DefinitionsFrom(decode, i, count);
      var rest := DefinitionsFrom(decode, i + 1, count);
      if r.Ok? {
        assert r.value == [decode(i).value] + rest.value;
        forall k | i < k < count
          ensures r.value[k - i] == decode(k).value
        {
          assert r.value[k - i] == rest.value[k - (i + 1)];
        }
      }
    }
  }

  /** When the loop fails, it failed at an entry all of whose predecessors
      decoded, and with that entry's error. */
  lemma {:induction false} DefinitionsFromFirstError(decode: Decoder, i: nat, count: nat)
    requires i <= count
    ensures var r := DefinitionsFrom(decode, i, count);
      r.Err? ==> exists j :: i <= j < count && FirstFailure(decode, i, j) && r.error == decode(j).error
    decreases count - i
  {
    var r := DefinitionsFrom(decode, i, count);
    if r.Err? {
      if decode(i).Err? {
        assert FirstFailure(decode, i, i);
      } else {
        DefinitionsFromFirstError(decode, i + 1, count);
        var j :| i + 1 <= j < count && FirstFailure(decode, i + 1, j) && r.error == decode(j).error;
        assert FirstFailure(decode, i, j);
      }
    }
  }

  /** Entry `j` is the first from `i` on whose definition fails. */
  predicate FirstFailure(decode: Decoder, i: nat, j: nat) {
    decode(j).Err? && forall k :: i <= k < j ==> decode(k).Ok?
  }

  /** The definitions read are, in directory order, the decoded entries;
      reading succeeds exactly when every entry decodes. */
  lemma ReadFieldDefinitionsAll(l: Leader, record: seq<char>, width: int, fieldCount: nat)
    ensures var r := ReadFieldDefinitions(l, record, width, fieldCount);
      r.Ok? <==> forall k :: 0 <= k < fieldCount ==> EntryDecoder(l, record, width)(k).Ok?
    ensures var r := ReadFieldDefinitions(l, record, width, fieldCount);
      r.Ok? ==> forall k :: 0 <= k < fieldCount ==> r.value[k] == EntryDecoder(l, record, width)(k).value
  {
    DefinitionsFromStart(EntryDecoder(l, record, width), fieldCount);
  }

  /** `DefinitionsFromAll` for a loop that starts at the first entry. */
  lemma DefinitionsFromStart(decode: Decoder, count: nat)
    ensures var r := DefinitionsFrom(decode, 0, count);
      r.Ok? <==> forall k :: 0 <= k < count ==> decode(k).Ok?
    ensures var r := DefinitionsFrom(decode, 0, count);
      r.Ok? ==> forall k :: 0 <= k < count ==> r.value[k] == decode(k).value
  {
    DefinitionsFromAll(decode, 0, count);
    var r := DefinitionsFrom(decode, 0, count);
    if r.Ok? {
      forall k | 0 <= k < count
        ensures r.value[k] == decode(k).value
      {
        assert r.value[k - 0] == decode(k).value;
      }
    }
  }

  /** The decoder applies `DefinitionAt` to an entry index. */
  lemma EntryDecoderAt(l: Leader, record: seq<char>, width: int, k: nat)
    ensures EntryDecoder(l, record, width)(k) == DefinitionAt(l, record, width, k)
  {
  }

  /** A failed read failed at the first entry that does not decode, with
      that entry's error. */
  lemma ReadFieldDefinitionsFirstError(l: Leader, record: seq<char>, width: int, fieldCount: nat)
    ensures var r := ReadFieldDefinitions(l, record, width, fieldCount);
      r.Err? ==> exists j :: 0 <= j < fieldCount && FirstFailure(EntryDecoder(l, record, width), 0, j)
                             && r.error == DefinitionAt(l, record, width, j).error
  {
    DefinitionsFromFirstError(EntryDecoder(l, record, width), 0, fieldCount);
  }

  /** The field a decoded definition describes lies inside the record. */
  lemma DefinitionAtInside(l: Leader, record: seq<char>, width: int, i: nat)
    ensures var r := DefinitionAt(l, record, width, i);
      r.Ok? ==>
        var e := DdfRecord.ReadEntry(record, l, LeaderSize + i * width).value;
        0 <= l.fieldAreaStart + e.position && l.fieldAreaStart + e.position + e.length <= l.recordLength
  {
  }

  // ---------------------------------------------------------------------
  // Opening and reading
  // ---------------------------------------------------------------------

  /** Opens a file: the pre-checked module leader, decoded; the data
      descriptive record; its directory entries counted; and the field
      definitions read. */
  function Open(input: string): (r: Result<Session>)
    ensures LeaderIsValid(Take(input, LeaderSize)) == Ok(false) ==> r == Err(InvalidFile)
    ensures LeaderIsValid(Take(input, LeaderSize)).Err? ==> r == Err(IndexOutOfRange)
    ensures r.Ok? ==>
      && LeaderIsValid(Take(input, LeaderSize)) == Ok(true)
      && CreateLeader(Take(input, LeaderSize), true) == Ok(r.value.leader)
      && r.value.leader.recordLength >= LeaderSize
  {
    var leader := Take(input, LeaderSize);
    var valid :- LeaderIsValid(leader);
    if !valid then Err(InvalidFile)
    else
      var l :- CreateLeader(leader, true);
      var read :- ReadRecord(leader, l, Skip(input, LeaderSize));
      var width := FieldEntryWidth(l);
      var count :- CountDirectoryEntries(read.0, LeaderSize, l.recordLength, width);
      var definitions :- ReadFieldDefinitions(l, read.0, width, count);
      Ok(Session(l, definitions, read.1))
  }

  /** Reads the next data record with a fresh record object, or nothing at
      the end of the input. The leader and the definitions never change. */
  function Read(s: Session): (r: Result<(Option<DdfRecord.Record>, Session)>)
    ensures r.Ok? && r.value.0.None? <==> |s.input| == 0
    ensures |s.input| == 0 ==> r == Ok((None, s))
    ensures r.Ok? ==> r.value.1.leader == s.leader && r.value.1.definitions == s.definitions
  {
    var outcome :- DdfRecord.Read(DdfRecord.NewRecord, s.input, s.definitions);
    Ok((if outcome.loaded then Some(outcome.record) else None, s.(input := outcome.rest)))
  }

  /** What an open reader holds: the definitions of exactly as many
      directory entries as the data descriptive record has, read in order,
      and the input from the end of that record on. */
  lemma OpenReadsDirectory(input: string)
    ensures var r := Open(input);
      r.Ok? ==>
        var l := r.value.leader;
        |Take(input, LeaderSize)| == LeaderSize
        && var record := ReadRecord(Take(input, LeaderSize), l, Skip(input, LeaderSize)).value.0;
           && IsEntryCount(record, LeaderSize, l.recordLength, FieldEntryWidth(l), |r.value.definitions|)
           && ReadFieldDefinitions(l, record, FieldEntryWidth(l), |r.value.definitions|) == Ok(r.value.definitions)
           && (l.recordLength <= |input| ==> r.value.input == input[l.recordLength..])
  {
    var r := Open(input);
    if r.Ok? {
      var leader := Take(input, LeaderSize);
      var l := r.value.leader;
      var read := ReadRecord(leader, l, Skip(input, LeaderSize)).value;
      if l.recordLength <= |input| {
        ReadRecordSplits(leader, l, Skip(input, LeaderSize));
        assert leader + Skip(input, LeaderSize) == input;
        assert read.1 == input[l.recordLength..];
      }
    }
  }

  /** A written module leader that the pre-check accepts opens as that
      leader, whatever follows it. */
  lemma OpenLeaderRoundTrip(l: Leader, rest: string)
    requires Writable(l) && ModuleLeaderAccepted(l)
    requires l.interchangeLevel.Some? && l.inlineCodeExtensionIndicator.Some?
    requires l.versionNumber.Some? && l.appIndicator.Some? && l.extendedCharSet.Some?
    requires l.extendedCharSet.value[3] == 0 as char
    ensures var r := Open(LeaderText(l) + rest);
      r.Ok? ==> r.value.leader == l
  {
    assert Take(LeaderText(l) + rest, LeaderSize) == LeaderText(l);
    ModuleLeaderRoundTrip(l);
  }

  /** A record read from a non-empty input comes from a sane leader, takes
      its reuse flag from the leader identifier, and, unless the leader
      gives a length of 0, holds fields that each lie inside the body
      extended to its last field terminator. */
  lemma ReadLoadsRecord(s: Session)
    requires |s.input| > 0
    ensures var r := Read(s);
      r.Ok? ==>
        && r.value.0.Some?
        && DdfRecord.NextLeader(s.input).Ok? && !DdfRecord.Corrupt(DdfRecord.NextLeader(s.input).value)
        && r.value.0.value.reuseHeader == (ReadChars(s.input, LeaderSize).0[6] == 'R')
    ensures var r := Read(s);
      var l := DdfRecord.NextLeader(s.input);
      r.Ok? && l.value.recordLength != 0 ==>
        var read := ReadChars(ReadChars(s.input, LeaderSize).1, l.value.recordLength - LeaderSize);
        && DdfRecord.ExtendBody(read.0, read.1).Ok?
        && var body := DdfRecord.ExtendBody(read.0, read.1).value.0;
           && DdfRecord.Terminated(body)
           && forall k :: 0 <= k < |r.value.0.value.fields| ==>
                DdfRecord.FitsBody(r.value.0.value.fields[k], body, s.definitions)
  {
    var l := DdfRecord.NextLeader(s.input);
    if Read(s).Ok? && l.value.recordLength != 0 {
      DdfRecord.ReadHeaderFields(DdfRecord.NewRecord, s.input, s.definitions);
    }
  }
}
