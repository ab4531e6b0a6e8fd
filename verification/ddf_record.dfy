/** A data record: its leader, its body, and the binding of its directory
    entries to the field definitions read from the file's header. */
module DdfRecord {
  import opened Results
  import opened Constants
  import opened Strings
  import opened Numbers
  import opened DdfLeader
  import opened DdfUtils
  import opened DdfFieldDefinition
  import opened DdfField

  // ---------------------------------------------------------------------
  // Directory entries
  // ---------------------------------------------------------------------

  /** One directory entry: the tag of a field, its length and its position
      within the field area. */
  datatype DirectoryEntry = DirectoryEntry(tag: string, length: int, position: int)

  /** The errors a directory entry can raise: an entry running off its
      buffer, or digits that are not a 32-bit number. */
  predicate EntryError(e: Error) {
    e == IndexOutOfRange || e == InvalidNumber || e == NumberOverflow
  }

  /** Reads the directory entry starting at `at`: the tag, then the length
      digits, then the position digits, each as wide as the leader says. */
  function ReadEntry(buffer: seq<char>, l: Leader, at: int): (r: Result<DirectoryEntry>)
    ensures r.Ok? ==> 0 <= at + l.sizeFieldTag && at + FieldEntryWidth(l) <= |buffer|
    ensures r.Err? ==> EntryError(r.error)
  {
    EntryOf(Take(Skip(buffer, at), l.sizeFieldTag),
            ReadIntFromBuffer(buffer, at + l.sizeFieldTag, l.sizeFieldLength),
            ReadIntFromBuffer(buffer, at + l.sizeFieldTag + l.sizeFieldLength, l.sizeFieldPosition))
  }

  /** The entry of a tag and two numbers read in turn: the first failed
      read decides the error. */
  function EntryOf(tag: string, length: Result<int>, position: Result<int>): (r: Result<DirectoryEntry>)
    ensures r.Ok? <==> length.Ok? && position.Ok?
    ensures r.Ok? ==> r.value == DirectoryEntry(tag, length.value, position.value)
    ensures r.Err? ==> r.error == (if length.Err? then length.error else position.error)
  {
    var n :- length;
    var p :- position;
    Ok(DirectoryEntry(tag, n, p))
  }

  /** The tag of an entry read inside its buffer is the characters at the
      start of the entry. */
  lemma ReadEntryTag(buffer: seq<char>, l: Leader, at: nat)
    requires 0 <= l.sizeFieldTag
    ensures var r := ReadEntry(buffer, l, at);
      r.Ok? ==> at + l.sizeFieldTag <= |buffer| && r.value.tag == buffer[at..at + l.sizeFieldTag]
  {
    if ReadEntry(buffer, l, at).Ok? {
      TakeAfter(buffer, at, l.sizeFieldTag);
    }
  }

  /** True when `e` can be written with the widths of `l`: a tag of the
      tag width and two numbers that fit their digit counts. */
  predicate Encodable(e: DirectoryEntry, l: Leader) {
    && |e.tag| == l.sizeFieldTag
    && 1 <= l.sizeFieldLength && 0 <= e.length < Pow10(l.sizeFieldLength) && e.length <= Int32Max
    && 1 <= l.sizeFieldPosition && 0 <= e.position < Pow10(l.sizeFieldPosition) && e.position <= Int32Max
  }

  /** The text of a directory entry: the tag and the two zero-padded
      numbers. */
  function EntryText(e: DirectoryEntry, l: Leader): (text: string)
    requires Encodable(e, l)
    ensures |text| == FieldEntryWidth(l)
  {
    e.tag + PadDecimal(e.length, l.sizeFieldLength) + PadDecimal(e.position, l.sizeFieldPosition)
  }

  /** A written directory entry reads back as itself wherever it sits. */
  lemma ReadEntryRoundTrip(buffer: seq<char>, l: Leader, at: nat, e: DirectoryEntry)
    requires Encodable(e, l)
    requires at + FieldEntryWidth(l) <= |buffer| && buffer[at..at + FieldEntryWidth(l)] == EntryText(e, l)
    ensures ReadEntry(buffer, l, at) == Ok(e)
  {
    EntryPiecesRead(buffer, l, at, e);
    ReadEntryOf(buffer, l, at, e);
  }

  /** The three pieces of a written entry read back as its tag and
      numbers. */
  lemma EntryPiecesRead(buffer: seq<char>, l: Leader, at: nat, e: DirectoryEntry)
    requires Encodable(e, l)
    requires at + FieldEntryWidth(l) <= |buffer| && buffer[at..at + FieldEntryWidth(l)] == EntryText(e, l)
    ensures Take(Skip(buffer, at), l.sizeFieldTag) == e.tag
    ensures ReadIntFromBuffer(buffer, at + l.sizeFieldTag, l.sizeFieldLength) == Ok(e.length)
    ensures ReadIntFromBuffer(buffer, at + l.sizeFieldTag + l.sizeFieldLength, l.sizeFieldPosition) == Ok(e.position)
  {
    EntryTagRead(buffer, l, at, e);
    EntryLengthRead(buffer, l, at, e);
    EntryPositionRead(buffer, l, at, e);
  }

  lemma EntryTagRead(buffer: seq<char>, l: Leader, at: nat, e: DirectoryEntry)
    requires Encodable(e, l)
    requires at + FieldEntryWidth(l) <= |buffer| && buffer[at..at + FieldEntryWidth(l)] == EntryText(e, l)
    ensures Take(Skip(buffer, at), l.sizeFieldTag) == e.tag
  {
    EntryLayout(buffer, l, at, e);
    TakeAfter(buffer, at, l.sizeFieldTag);
  }

  lemma EntryLengthRead(buffer: seq<char>, l: Leader, at: nat, e: DirectoryEntry)
    requires Encodable(e, l)
    requires at + FieldEntryWidth(l) <= |buffer| && buffer[at..at + FieldEntryWidth(l)] == EntryText(e, l)
    ensures ReadIntFromBuffer(buffer, at + l.sizeFieldTag, l.sizeFieldLength) == Ok(e.length)
  {
    EntryLayout(buffer, l, at, e);
    NumberRead(buffer, at + l.sizeFieldTag, l.sizeFieldLength, e.length);
  }

  lemma EntryPositionRead(buffer: seq<char>, l: Leader, at: nat, e: DirectoryEntry)
    requires Encodable(e, l)
    requires at + FieldEntryWidth(l) <= |buffer| && buffer[at..at + FieldEntryWidth(l)] == EntryText(e, l)
    ensures ReadIntFromBuffer(buffer, at + l.sizeFieldTag + l.sizeFieldLength, l.sizeFieldPosition) == Ok(e.position)
  {
    EntryLayout(buffer, l, at, e);
    NumberRead(buffer, at + l.sizeFieldTag + l.sizeFieldLength, l.sizeFieldPosition, e.position);
  }

  /** A written entry has its tag and its two numbers in their places. */
  lemma EntryLayout(buffer: seq<char>, l: Leader, at: nat, e: DirectoryEntry)
    requires Encodable(e, l)
    requires at + FieldEntryWidth(l) <= |buffer| && buffer[at..at + FieldEntryWidth(l)] == EntryText(e, l)
    ensures at + l.sizeFieldTag + l.sizeFieldLength + l.sizeFieldPosition <= |buffer|
    ensures buffer[at..at + l.sizeFieldTag] == e.tag
    ensures buffer[at + l.sizeFieldTag..at + l.sizeFieldTag + l.sizeFieldLength]
         == PadDecimal(e.length, l.sizeFieldLength)
    ensures buffer[at + l.sizeFieldTag + l.sizeFieldLength..
                   at + l.sizeFieldTag + l.sizeFieldLength + l.sizeFieldPosition]
         == PadDecimal(e.position, l.sizeFieldPosition)
  {
    ThreeParts(buffer, at, e.tag, PadDecimal(e.length, l.sizeFieldLength), PadDecimal(e.position, l.sizeFieldPosition));
  }

  /** A text made of three pieces, laid down at `at`, has each piece in
      its place. */
  lemma ThreeParts(buffer: seq<char>, at: nat, a: string, b: string, c: string)
    requires at + |a + b + c| <= |buffer| && buffer[at..at + |a + b + c|] == a + b + c
    ensures buffer[at..at + |a|] == a
    ensures buffer[at + |a|..at + |a| + |b|] == b
    ensures buffer[at + |a| + |b|..at + |a| + |b| + |c|] == c
  {
    var text := a + b + c;
    SliceOfSlice(buffer, at, text, 0, |a|);
    SliceOfSlice(buffer, at, text, |a|, |a| + |b|);
    SliceOfSlice(buffer, at, text, |a| + |b|, |text|);
    assert text[..|a|] == a;
    assert text[|a|..|a| + |b|] == b;
    assert text[|a| + |b|..] == c;
  }

  lemma SliceOfSlice(buffer: seq<char>, at: nat, text: string, i: nat, j: nat)
    requires at + |text| <= |buffer| && buffer[at..at + |text|] == text && i <= j <= |text|
    ensures buffer[at + i..at + j] == text[i..j]
  {
    forall k | 0 <= k < j - i
      ensures buffer[at + i..at + j][k] == text[i..j][k]
    {
      assert buffer[at..at + |text|][i + k] == text[i + k];
    }
  }

  /** A zero-padded number in its place reads back as itself. */
  lemma NumberRead(buffer: seq<char>, offset: nat, n: nat, v: int)
    requires 1 <= n && 0 <= v < Pow10(n) && v <= Int32Max
    requires offset + n <= |buffer| && buffer[offset..offset + n] == PadDecimal(v, n)
    ensures ReadIntFromBuffer(buffer, offset, n) == Ok(v)
  {
    ReadIntFromBufferPadded(buffer, offset, n, v);
  }

  lemma TakeAfter<T>(s: seq<T>, at: nat, n: nat)
    requires at + n <= |s|
    ensures Take(Skip(s, at), n) == s[at..at + n]
  {
    if at > 0 && at < |s| {
      assert Skip(s, at) == s[at..];
    }
  }

  /** An entry whose tag and numbers read is read as that entry. */
  lemma ReadEntryOf(buffer: seq<char>, l: Leader, at: int, e: DirectoryEntry)
    requires Take(Skip(buffer, at), l.sizeFieldTag) == e.tag
    requires ReadIntFromBuffer(buffer, at + l.sizeFieldTag, l.sizeFieldLength) == Ok(e.length)
    requires ReadIntFromBuffer(buffer, at + l.sizeFieldTag + l.sizeFieldLength, l.sizeFieldPosition) == Ok(e.position)
    ensures ReadEntry(buffer, l, at) == Ok(e)
  {
    var length := ReadIntFromBuffer(buffer, at + l.sizeFieldTag, l.sizeFieldLength);
    var position := ReadIntFromBuffer(buffer, at + l.sizeFieldTag + l.sizeFieldLength, l.sizeFieldPosition);
    assert ReadEntry(buffer, l, at) == EntryOf(Take(Skip(buffer, at), l.sizeFieldTag), length, position);
  }

  // ---------------------------------------------------------------------
  // Binding entries to definitions
  // ---------------------------------------------------------------------

  /** The first definition carrying `tag`, or the error for an undefined
      field. */
  function FindDefinition(definitions: seq<FieldDefinition>, tag: string): (r: Result<FieldDefinition>)
    ensures r.Ok? <==> exists k :: 0 <= k < |definitions| && definitions[k].tag == tag
    ensures r.Ok? ==> exists k :: 0 <= k < |definitions| && definitions[k] == r.value
                                 && forall j :: 0 <= j < k ==> definitions[j].tag != tag
    ensures r.Ok? ==> r.value.tag == tag
    ensures r.Err? ==> r.error == UndefinedField(tag)
    decreases |definitions|
  {
    if |definitions| == 0 then Err(UndefinedField(tag))
    else if definitions[0].tag == tag then Ok(definitions[0])
    else
      var r := FindDefinition(definitions[1..], tag);
      if r.Ok? then
        var k :| 0 <= k < |definitions[1..]| && definitions[1..][k] == r.value
                 && forall j :: 0 <= j < k ==> definitions[1..][j].tag != tag;
        assert definitions[k + 1] == r.value;
        r
      else
        assert forall k :: 1 <= k < |definitions| ==> definitions[k] == definitions[1..][k - 1];
        r
  }

  /** Where a field starts in the record body: the field area begins
      `fieldAreaStart` characters into the record, and the body starts
      after the leader. */
  function FieldOffset(l: Leader, e: DirectoryEntry): int {
    l.fieldAreaStart + e.position - LeaderSize
  }

  /** True when the `length` characters at `offset` lie within a body of
      `size` characters. */
  predicate Fits(offset: int, length: int, size: int) {
    0 <= offset && length <= size - offset
  }

  /** Binds one directory entry: the field gets the first definition with
      its tag, and the slice of the body the entry points at. */
  function BindField(body: seq<char>, l: Leader, definitions: seq<FieldDefinition>, e: DirectoryEntry)
    : (r: Result<Field>)
    ensures r.Ok? <==> FindDefinition(definitions, e.tag).Ok? && Fits(FieldOffset(l, e), e.length, |body|)
    ensures FindDefinition(definitions, e.tag).Err? ==> r == Err(UndefinedField(e.tag))
    ensures FindDefinition(definitions, e.tag).Ok? && !Fits(FieldOffset(l, e), e.length, |body|)
      ==> r == Err(FieldOutOfBounds(e.tag))
    ensures r.Ok? ==>
      && r.value.data == body && r.value.definition.tag == e.tag
      && r.value.offset == FieldOffset(l, e) && r.value.dataSize == e.length
      && r.value.definition in definitions
  {
    var definition :- FindDefinition(definitions, e.tag);
    var offset := FieldOffset(l, e);
    if !Fits(offset, e.length, |body|) then Err(FieldOutOfBounds(e.tag))
    else Ok(Field(body, e.length, definition, offset))
  }

  /** The field that directory entry `i` of the body binds to, or why it
      cannot be bound. */
  function EntryField(body: seq<char>, l: Leader, definitions: seq<FieldDefinition>, i: int): Result<Field> {
    var e :- ReadEntry(body, l, i * FieldEntryWidth(l));
    BindField(body, l, definitions, e)
  }

  /** How the directory entry with a given index is bound. */
  type Binder = int -> Result<Field>

  /** The binding of a record body's directory entries. */
  function Binding(body: seq<char>, l: Leader, definitions: seq<FieldDefinition>): Binder {
    i => EntryField(body, l, definitions, i)
  }

  /** Binds directory entries `i` up to `count`, in directory order. */
  function BindFrom(bind: Binder, i: int, count: int): Result<seq<Field>>
    decreases count - i
  {
    if i >= count then Ok([])
    else
      var field :- bind(i);
      var rest :- BindFrom(bind, i + 1, count);
      Ok([field] + rest)
  }

  /** A successful binding holds one field per entry in range, each the
      field of its entry, in directory order. */
  lemma {:induction false} BindFromShape(bind: Binder, i: int, count: int)
    requires i <= count
    ensures var r := BindFrom(bind, i, count);
      r.Ok? ==> |r.value| == count - i && forall k :: 0 <= k < count - i ==> bind(i + k) == Ok(r.value[k])
    decreases count - i
  {
    var r := BindFrom(bind, i, count);
    if i < count && r.Ok? {
      BindFromShape(bind, i + 1, count);
      var rest := BindFrom(bind, i + 1, count).value;
      assert r.value == [bind(i).value] + rest;
      forall k | 0 < k < count - i
        ensures bind(i + k) == Ok(r.value[k])
      {
        assert r.value[k] == rest[k - 1];
        assert bind((i + 1) + (k - 1)) == Ok(rest[k - 1]);
      }
    }
  }

  /** Binding fails only when some entry in range cannot be bound. */
  lemma {:induction false} BindFromAllBound(bind: Binder, i: int, count: int)
    requires forall k :: i <= k < count ==> bind(k).Ok?
    ensures BindFrom(bind, i, count).Ok?
    decreases count - i
  {
    if i < count {
      BindFromAllBound(bind, i + 1, count);
    }
  }

  /** True when `field` names one of `definitions` and lies within
      `body`. */
  predicate FitsBody(field: Field, body: seq<char>, definitions: seq<FieldDefinition>) {
    field.data == body && field.definition in definitions && Fits(field.offset, field.dataSize, |body|)
  }

  /** True when every field `bind` produces fits `body`. */
  ghost predicate BindsInto(bind: Binder, body: seq<char>, definitions: seq<FieldDefinition>) {
    forall k :: bind(k).Ok? ==> FitsBody(bind(k).value, body, definitions)
  }

  /** Every entry of a record body binds to a field inside that body. */
  lemma BindingFits(body: seq<char>, l: Leader, definitions: seq<FieldDefinition>)
    ensures BindsInto(Binding(body, l, definitions), body, definitions)
  {
    forall k | Binding(body, l, definitions)(k).Ok?
      ensures FitsBody(Binding(body, l, definitions)(k).value, body, definitions)
    {
      assert Binding(body, l, definitions)(k) == EntryField(body, l, definitions, k);
    }
  }

  /** Every field of a binding fits the body when each entry's field
      does. */
  lemma BoundFieldsFit(bind: Binder, body: seq<char>, definitions: seq<FieldDefinition>, count: int)
    requires 0 <= count && BindsInto(bind, body, definitions)
    ensures var r := BindFrom(bind, 0, count);
      r.Ok? ==> forall k :: 0 <= k < |r.value| ==> FitsBody(r.value[k], body, definitions)
  {
    BindFromShape(bind, 0, count);
    var r := BindFrom(bind, 0, count);
    if r.Ok? {
      forall k | 0 <= k < |r.value|
        ensures FitsBody(r.value[k], body, definitions)
      {
        assert bind(0 + k) == Ok(r.value[k]);
      }
    }
  }

  // ---------------------------------------------------------------------
  // The record body
  // ---------------------------------------------------------------------

  /** A body ends its last field when its last or next-to-last character
      is a field terminator. */
  predicate Terminated(body: seq<char>) {
    |body| >= 1 && (body[|body| - 1] == FieldTerminator || (|body| >= 2 && body[|body| - 2] == FieldTerminator))
  }

  /** The guard of the loop that extends a record body: true while the
      body does not end with a field terminator in either of its last two
      places. The guard reads the last character before checking the size,
      so an empty body, or a one-character body without a terminator,
      fails with an index error. */
  function NeedsMore(body: seq<char>): (r: Result<bool>)
    ensures r.Err? <==> |body| == 0 || (|body| == 1 && body[0] != FieldTerminator)
    ensures r.Err? ==> r.error == IndexOutOfRange
    ensures r == Ok(false) <==> Terminated(body)
  {
    var last :- At(body, |body| - 1);
    if last == FieldTerminator then Ok(false)
    else if |body| == 0 then Ok(true)
    else
      var beforeLast :- At(body, |body| - 2);
      Ok(beforeLast != FieldTerminator)
  }

  /** The extension loop as written: each pass allocates a buffer one
      character longer but asks for the next character to be copied in at
      the index one past its end. A copy of a character there raises an
      argument error; at the end of the input nothing is copied, the new
      slot stays NUL and the loop runs forever. */
  function ExtendBodyAsWritten(body: seq<char>, input: string): (r: Result<(seq<char>, string)>)
    ensures r.Ok? <==> Terminated(body)
    ensures r.Ok? ==> r.value == (body, input)
    ensures NeedsMore(body) == Ok(true) ==> r.Err? && (r.error == DestinationTooShort <==> |input| > 0)
  {
    var more :- NeedsMore(body);
    if !more then Ok((body, input))
    else if |input| == 0 then Err(Diverges)
    else Err(DestinationTooShort)
  }

  /** At the end of the input every pass of the loop as written appends a
      NUL, which is never a field terminator: once the guard asks for more,
      it asks for more forever. */
  lemma {:induction false} PaddingNeverTerminates(body: seq<char>, n: nat)
    requires NeedsMore(body) == Ok(true)
    ensures NeedsMore(body + seq(n, _ => 0 as char)) == Ok(true)
    decreases n
  {
    if n > 0 {
      PaddingNeverTerminates(body, n - 1);
      var shorter := body + seq(n - 1, _ => 0 as char);
      assert body + seq(n, _ => 0 as char) == shorter + [0 as char];
    }
  }

  /** The extension loop as evidently intended: append the next character
      of the input until the body ends its last field; running out of
      input is a short record. */
  function ExtendBody(body: seq<char>, input: string): (r: Result<(seq<char>, string)>)
    ensures r.Ok? ==> Terminated(r.value.0)
    ensures r.Ok? ==> |body| <= |r.value.0| <= |body| + |input|
    ensures r.Ok? ==> r.value.0 + r.value.1 == body + input
    ensures r.Err? ==> r.error == IndexOutOfRange || r.error == ShortRecord
    ensures Terminated(body) ==> r == Ok((body, input))
    decreases |input|
  {
    var more :- NeedsMore(body);
    if !more then Ok((body, input))
    else if |input| == 0 then Err(ShortRecord)
    else
      assert body + input == (body + [input[0]]) + input[1..];
      ExtendBody(body + [input[0]], input[1..])
  }

  /** A body missing its terminator grows exactly up to the first field
      terminator of the input. */
  lemma {:induction false} ExtendBodyToTerminator(body: seq<char>, input: string, j: nat)
    requires NeedsMore(body) == Ok(true)
    requires j < |input| && input[j] == FieldTerminator && FieldTerminator !in input[..j]
    ensures ExtendBody(body, input) == Ok((body + input[..j + 1], input[j + 1..]))
    decreases j
  {
    var grown := body + [input[0]];
    if j == 0 {
      assert Terminated(grown);
      assert input[..1] == [input[0]];
    } else {
      assert input[0] in input[..j];
      assert grown[|grown| - 1] == input[0] && grown[|grown| - 2] == body[|body| - 1];
      assert input[1..][..j - 1] == input[1..j];
      ExtendBodyToTerminator(grown, input[1..], j - 1);
      assert grown + input[1..][..j] == body + input[..j + 1];
    }
  }

  /** Without a field terminator in the input a body missing its
      terminator cannot be completed. */
  lemma {:induction false} ExtendBodyWithoutTerminator(body: seq<char>, input: string)
    requires NeedsMore(body) == Ok(true) && FieldTerminator !in input
    ensures ExtendBody(body, input) == Err(ShortRecord)
    decreases |input|
  {
    if |input| > 0 {
      var grown := body + [input[0]];
      assert input[0] in input;
      assert grown[|grown| - 1] == input[0] && grown[|grown| - 2] == body[|body| - 1];
      assert forall c :: c in input[1..] ==> c in input;
      ExtendBodyWithoutTerminator(grown, input[1..]);
    }
  }

  /** A body that needs more and one more character of input: the loop as
      written fails where the intended loop completes the record. */
  lemma ExtensionCounterexample()
    ensures ExtendBodyAsWritten(['A', 'B'], ['C', FieldTerminator]) == Err(DestinationTooShort)
    ensures ExtendBody(['A', 'B'], ['C', FieldTerminator]) == Ok((['A', 'B', 'C', FieldTerminator], []))
  {
    var input := ['C', FieldTerminator];
    assert NeedsMore(['A', 'B']) == Ok(true);
    assert input[..1] == ['C'];
    ExtendBodyToTerminator(['A', 'B'], input, 1);
    assert input[..2] == input && input[2..] == [];
    assert ['A', 'B'] + input == ['A', 'B', 'C', FieldTerminator];
  }

  // ---------------------------------------------------------------------
  // Reading a record
  // ---------------------------------------------------------------------

  /** A record: the fields bound so far, and whether its leader asked for
      the header to be reused. */
  datatype Record = Record(fields: seq<Field>, reuseHeader: bool)

  /** A freshly constructed record. */
  const NewRecord := Record([], false)

  /** What reading a record gives back: whether a record was read, the
      record, and the input that remains. */
  datatype Outcome = Outcome(loaded: bool, record: Record, rest: string)

  /** A record leader whose length or field-area start is out of the sane
      range; a length of 0 is let through. */
  predicate Corrupt(l: Leader) {
    && (l.recordLength < 24 || l.recordLength > 100000000 || l.fieldAreaStart < 24 || l.fieldAreaStart > 100000)
    && l.recordLength != 0
  }

  /** The leader of the next record, as read from the input. */
  function NextLeader(input: string): Result<Leader> {
    CreateLeader(ReadChars(input, LeaderSize).0, false)
  }

  /** `field` is the binding of the directory entry with index `k`: the
      entry is read at `k` entry widths into the body and bound to its
      definition. */
  predicate EntryBinds(body: seq<char>, l: Leader, definitions: seq<FieldDefinition>, k: int, field: Field) {
    var e := ReadEntry(body, l, k * FieldEntryWidth(l));
    e.Ok? && BindField(body, l, definitions, e.value) == Ok(field)
  }

  /** `fields` holds one field per directory entry the body counts, each
      the binding of its entry, in directory order. */
  predicate DirectoryFields(body: seq<char>, l: Leader, definitions: seq<FieldDefinition>, fields: seq<Field>)
    requires 0 <= FieldEntryWidth(l)
  {
    && CountDirectoryEntries(body, 0, |body|, FieldEntryWidth(l)).Ok?
    && |fields| == CountDirectoryEntries(body, 0, |body|, FieldEntryWidth(l)).value
    && forall k :: 0 <= k < |fields| ==> EntryBinds(body, l, definitions, k, fields[k])
  }

  /** True when every field `bind` produces is the binding of its entry. */
  ghost predicate BindsEntries(bind: Binder, body: seq<char>, l: Leader, definitions: seq<FieldDefinition>) {
    forall k :: bind(k).Ok? ==> EntryBinds(body, l, definitions, k, bind(k).value)
  }

  /** The binding of a record body binds each entry to its own field. */
  lemma BindingBindsEntries(body: seq<char>, l: Leader, definitions: seq<FieldDefinition>)
    ensures BindsEntries(Binding(body, l, definitions), body, l, definitions)
  {
    forall k | Binding(body, l, definitions)(k).Ok?
      ensures EntryBinds(body, l, definitions, k, Binding(body, l, definitions)(k).value)
    {
      assert Binding(body, l, definitions)(k) == EntryField(body, l, definitions, k);
    }
  }

  /** A successful binding of the first `count` entries is one field per
      entry, each the binding of its entry. */
  lemma BoundEntries(bind: Binder, body: seq<char>, l: Leader, definitions: seq<FieldDefinition>, count: nat)
    requires BindsEntries(bind, body, l, definitions)
    ensures var r := BindFrom(bind, 0, count);
      r.Ok? ==> |r.value| == count && forall k :: 0 <= k < count ==> EntryBinds(body, l, definitions, k, r.value[k])
  {
    BindFromShape(bind, 0, count);
    var r := BindFrom(bind, 0, count);
    if r.Ok? {
      forall k | 0 <= k < count
        ensures EntryBinds(body, l, definitions, k, r.value[k])
      {
        assert bind(0 + k) == Ok(r.value[k]);
      }
    }
  }

  /** Reads the body of a record of sane length, extends it to its last
      field terminator, counts its directory entries and binds each one to
      its definition. The result is the fields and the remaining input;
      every field lies inside the extended body. */
  function ReadBody(l: Leader, definitions: seq<FieldDefinition>, input: string): (r: Result<(seq<Field>, string)>)
    requires l.recordLength >= LeaderSize && 0 <= FieldEntryWidth(l)
    ensures r.Ok? ==>
      var read := ReadChars(input, l.recordLength - LeaderSize);
      && ExtendBody(read.0, read.1).Ok?
      && forall k :: 0 <= k < |r.value.0| ==> FitsBody(r.value.0[k], ExtendBody(read.0, read.1).value.0, definitions)
    ensures r.Ok? ==>
      var read := ReadChars(input, l.recordLength - LeaderSize);
      && ExtendBody(read.0, read.1).Ok?
      && r.value.1 == ExtendBody(read.0, read.1).value.1
      && DirectoryFields(ExtendBody(read.0, read.1).value.0, l, definitions, r.value.0)
  {
    var dataSize := l.recordLength - LeaderSize;
    var read := ReadChars(input, dataSize);
    var extended :- ExtendBody(read.0, read.1);
    var body := extended.0;
    var count :- CountDirectoryEntries(body, 0, |body|, FieldEntryWidth(l));
    var fields :- BindFrom(Binding(body, l, definitions), 0, count);
    BindingFits(body, l, definitions);
    BoundFieldsFit(Binding(body, l, definitions), body, definitions, count);
    BindingBindsEntries(body, l, definitions);
    BoundEntries(Binding(body, l, definitions), body, l, definitions, count);
    Ok((fields, extended.1))
  }

  /** Reads the next record from `input`: nothing at the end of the input,
      otherwise a leader, a sanity check, and a body unless the leader
      gives a length of 0. The new fields are appended to the record's. */
  function ReadHeader(record: Record, input: string, definitions: seq<FieldDefinition>): (r: Result<Outcome>)
    ensures r.Ok? && !r.value.loaded <==> |input| == 0
    ensures |input| == 0 ==> r == Ok(Outcome(false, record, input))
    ensures |input| > 0 && NextLeader(input).Ok? && Corrupt(NextLeader(input).value) ==> r == Err(CorruptRecord)
    ensures r.Ok? && r.value.loaded ==>
      && NextLeader(input).Ok? && !Corrupt(NextLeader(input).value)
      && r.value.record.reuseHeader == (ReadChars(input, LeaderSize).0[6] == 'R')
      && |record.fields| <= |r.value.record.fields|
      && r.value.record.fields[..|record.fields|] == record.fields
    ensures r.Ok? && r.value.loaded && NextLeader(input).value.recordLength == 0 ==>
      r.value.record.fields == record.fields && r.value.rest == ReadChars(input, LeaderSize).1
    ensures r.Ok? && r.value.loaded && NextLeader(input).value.recordLength != 0 ==>
      var body := ReadBody(NextLeader(input).value, definitions, ReadChars(input, LeaderSize).1);
      body.Ok? && r.value.record.fields == record.fields + body.value.0 && r.value.rest == body.value.1
  {
    if |input| == 0 then Ok(Outcome(false, record, input))
    else
      var read := ReadChars(input, LeaderSize);
      var l :- NextLeader(input);
      var reuse := l.leaderIdentifier == "R";
      if Corrupt(l) then Err(CorruptRecord)
      else if l.recordLength == 0 then Ok(Outcome(true, record.(reuseHeader := reuse), read.1))
      else
        var body :- ReadBody(l, definitions, read.1);
        assert (record.fields + body.0)[..|record.fields|] == record.fields;
        Ok(Outcome(true, Record(record.fields + body.0, reuse), body.1))
  }

  /** A record that reuses its header reads nothing and keeps its fields;
      any other record reads its header. */
  function Read(record: Record, input: string, definitions: seq<FieldDefinition>): (r: Result<Outcome>)
    ensures record.reuseHeader ==> r == Ok(Outcome(true, record, input))
    ensures !record.reuseHeader ==> r == ReadHeader(record, input, definitions)
  {
    if !record.reuseHeader then ReadHeader(record, input, definitions) else Ok(Outcome(true, record, input))
  }

  /** A record of sane, non-zero length gets the fields its directory
      binds, each inside the body extended to its last field terminator. */
  lemma ReadHeaderFields(record: Record, input: string, definitions: seq<FieldDefinition>)
    requires |input| > 0 && NextLeader(input).Ok? && !Corrupt(NextLeader(input).value)
    requires NextLeader(input).value.recordLength != 0
    ensures var r := ReadHeader(record, input, definitions);
      var l := NextLeader(input).value;
      var read := ReadChars(ReadChars(input, LeaderSize).1, l.recordLength - LeaderSize);
      r.Ok? ==>
        && ExtendBody(read.0, read.1).Ok?
        && var body := ExtendBody(read.0, read.1).value.0;
           && Terminated(body)
           && forall k :: |record.fields| <= k < |r.value.record.fields| ==>
                FitsBody(r.value.record.fields[k], body, definitions)
    ensures var r := ReadHeader(record, input, definitions);
      var l := NextLeader(input).value;
      var read := ReadChars(ReadChars(input, LeaderSize).1, l.recordLength - LeaderSize);
      r.Ok? ==>
        && |record.fields| <= |r.value.record.fields|
        && ExtendBody(read.0, read.1).Ok?
        && DirectoryFields(ExtendBody(read.0, read.1).value.0, l, definitions,
                           r.value.record.fields[|record.fields|..])
  {
    var r := ReadHeader(record, input, definitions);
    var l := NextLeader(input).value;
    if r.Ok? {
      var body := ReadBody(l, definitions, ReadChars(input, LeaderSize).1);
      assert r.value.record.fields == record.fields + body.value.0;
      assert r.value.record.fields[|record.fields|..] == body.value.0;
      forall k | |record.fields| <= k < |r.value.record.fields|
        ensures r.value.record.fields[k] == body.value.0[k - |record.fields|]
      {
      }
    }
  }
}
