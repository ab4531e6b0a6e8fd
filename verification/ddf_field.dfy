/** One field of a data record: its bytes inside the record body and the
    definition that says how to cut them into named subfield values. */
module DdfField {
  import opened Results
  import opened Constants
  import opened Strings
  import opened Numbers
  import opened DdfSubfieldDefinition
  import opened DdfFieldDefinition

  /** One decoded subfield: its name, its value as text and its type. */
  datatype SubfieldData = SubfieldData(name: string, value: string, dataType: DataType)

  /** A field of a record. `data` is the whole record body, `offset` the
      position of this field's first byte in it and `dataSize` the byte
      budget the field's subfields share. */
  datatype Field = Field(data: seq<char>, dataSize: int, definition: FieldDefinition, offset: int)

  /** How often a field's subfield sequence is decoded: the catalogue files
      the decoder targets never repeat fields inside a record. */
  const RepeatCount: nat := 1

  /** Reads one subfield's value from the bytes at its position within a
      byte budget. */
  type SubfieldReader = (SubfieldDefinition, seq<char>, int) -> Result<Decoded>

  /** The reader a field uses: the subfield definition's own `GetData`. */
  function Reader(formatFloat: FloatFormatter): SubfieldReader {
    (d: SubfieldDefinition, bytes: seq<char>, budget: int) => GetData(d, bytes, budget, formatFloat)
  }

  /** The names of decoded subfields, in the order they were added. */
  function EntryNames(entries: seq<SubfieldData>): (r: seq<string>)
    ensures |r| == |entries|
    ensures forall k :: 0 <= k < |r| ==> r[k] == entries[k].name
  {
    seq(|entries|, k requires 0 <= k < |entries| => entries[k].name)
  }

  /** No name occurs twice: what a dictionary keyed by name can hold. */
  predicate DistinctNames(names: seq<string>) {
    forall i, j :: 0 <= i < j < |names| ==> names[i] != names[j]
  }

  /** The errors decoding a field can raise: a subfield that does not fit
      its bytes, an integer that does not parse, or a name already added. */
  predicate RecordError(e: Error) {
    e == IndexOutOfRange || e == InvalidNumber || e == NumberOverflow || e.DuplicateSubfieldName?
  }

  /** A reader that fails only in the ways `GetData` can. */
  ghost predicate ReaderErrors(read: SubfieldReader) {
    forall d, bytes, budget :: read(d, bytes, budget).Err? ==> RecordError(read(d, bytes, budget).error)
  }

  /** The dictionary a field decodes into: the keys present and the
      entries in the order they were added. */
  datatype Dictionary = Dictionary(keys: set<string>, entries: seq<SubfieldData>)

  /** `Dictionary.Add`: the entry goes in under its name, which must not be
      a key yet. */
  function Add(dict: Dictionary, entry: SubfieldData): Result<Dictionary> {
    if entry.name in dict.keys then Err(DuplicateSubfieldName(entry.name))
    else Ok(Dictionary(dict.keys + {entry.name}, dict.entries + [entry]))
  }

  /** One pass over the subfield definitions: each value is read from the
      record body at `position` within the remaining budget, the position
      and budget advance by the bytes consumed, and the entry is added
      under the subfield's name. The result holds the dictionary and the
      budget left. */
  function DecodePass(read: SubfieldReader, data: seq<char>, subfields: seq<SubfieldDefinition>, position: int,
                      bytesRemaining: int, dict: Dictionary): (r: Result<(Dictionary, int)>)
    ensures r.Err? && ReaderErrors(read) ==> RecordError(r.error)
    ensures r.Ok? && |subfields| > 0 ==>
      read(subfields[0], Skip(data, position), bytesRemaining).Ok? && subfields[0].name !in dict.keys
    decreases |subfields|
  {
    if |subfields| == 0 then Ok((dict, bytesRemaining))
    else
      var d := subfields[0];
      var decoded :- read(d, Skip(data, position), bytesRemaining);
      var added :- Add(dict, SubfieldData(d.name, decoded.value, d.dataType));
      DecodePass(read, data, subfields[1..], position + decoded.consumed, bytesRemaining - decoded.consumed, added)
  }

  /** True when adding the definitions' names one by one to `keys` never
      meets a name already present. */
  predicate NamesFresh(subfields: seq<SubfieldDefinition>, keys: set<string>)
    decreases |subfields|
  {
    |subfields| == 0 || (subfields[0].name !in keys && NamesFresh(subfields[1..], keys + {subfields[0].name}))
  }

  /** Adding the names one by one succeeds exactly when they are distinct
      and none is a key already. */
  lemma {:induction false} NamesFreshIff(subfields: seq<SubfieldDefinition>, keys: set<string>)
    ensures NamesFresh(subfields, keys)
        <==> DistinctNames(SubfieldNames(subfields)) && forall k :: 0 <= k < |subfields| ==> subfields[k].name !in keys
    decreases |subfields|
  {
    if |subfields| > 0 {
      var name := subfields[0].name;
      var tail := subfields[1..];
      NamesFreshIff(tail, keys + {name});
      if NamesFresh(subfields, keys) {
        forall i, j | 0 <= i < j < |subfields|
          ensures SubfieldNames(subfields)[i] != SubfieldNames(subfields)[j]
        {
          assert tail[j - 1].name !in keys + {name};
          if i > 0 {
            assert SubfieldNames(tail)[i - 1] != SubfieldNames(tail)[j - 1];
          }
        }
        forall k | 0 <= k < |subfields|
          ensures subfields[k].name !in keys
        {
          if k > 0 {
            assert tail[k - 1].name !in keys + {name};
          }
        }
      }
      if DistinctNames(SubfieldNames(subfields)) && forall k :: 0 <= k < |subfields| ==> subfields[k].name !in keys {
        forall i, j | 0 <= i < j < |tail|
          ensures SubfieldNames(tail)[i] != SubfieldNames(tail)[j]
        {
          assert SubfieldNames(subfields)[i + 1] != SubfieldNames(subfields)[j + 1];
        }
        forall k | 0 <= k < |tail|
          ensures tail[k].name !in keys + {name}
        {
          assert SubfieldNames(subfields)[0] != SubfieldNames(subfields)[k + 1];
          assert subfields[k + 1].name !in keys;
        }
      }
    }
  }

  /** A pass whose first value reads and whose first name is new goes on
      with the rest of the definitions after that value. */
  lemma DecodePassStep(read: SubfieldReader, data: seq<char>, subfields: seq<SubfieldDefinition>, position: int,
                       bytesRemaining: int, dict: Dictionary, decoded: Decoded)
    requires |subfields| > 0 && subfields[0].name !in dict.keys
    requires read(subfields[0], Skip(data, position), bytesRemaining) == Ok(decoded)
    ensures var entry := SubfieldData(subfields[0].name, decoded.value, subfields[0].dataType);
      DecodePass(read, data, subfields, position, bytesRemaining, dict)
        == DecodePass(read, data, subfields[1..], position + decoded.consumed, bytesRemaining - decoded.consumed,
                      Dictionary(dict.keys + {entry.name}, dict.entries + [entry]))
  {
  }

  /** What a successful pass produced: the entries it started with,
      followed by one entry per subfield definition carrying that
      definition's name and type; the names were all new and distinct. */
  lemma {:induction false} DecodePassShape(read: SubfieldReader, data: seq<char>, subfields: seq<SubfieldDefinition>,
                                           position: int, bytesRemaining: int, dict: Dictionary)
    ensures var r := DecodePass(read, data, subfields, position, bytesRemaining, dict);
      r.Ok? ==>
        && |r.value.0.entries| == |dict.entries| + |subfields|
        && r.value.0.entries[..|dict.entries|] == dict.entries
        && (forall k :: 0 <= k < |subfields| ==>
              r.value.0.entries[|dict.entries| + k].name == subfields[k].name
              && r.value.0.entries[|dict.entries| + k].dataType == subfields[k].dataType)
        && NamesFresh(subfields, dict.keys)
    decreases |subfields|
  {
    DecodePassPrefix(read, data, subfields, position, bytesRemaining, dict);
    DecodePassNames(read, data, subfields, position, bytesRemaining, dict);
    DecodePassFresh(read, data, subfields, position, bytesRemaining, dict);
    var r := DecodePass(read, data, subfields, position, bytesRemaining, dict);
    if r.Ok? {
      assert r.value.0.entries[..|dict.entries|] == dict.entries;
    }
  }

  /** A successful pass keeps the entries it started with and adds one
      entry per definition. */
  lemma {:induction false} DecodePassPrefix(read: SubfieldReader, data: seq<char>, subfields: seq<SubfieldDefinition>,
                                            position: int, bytesRemaining: int, dict: Dictionary)
    ensures var r := DecodePass(read, data, subfields, position, bytesRemaining, dict);
      r.Ok? ==>
        && |r.value.0.entries| == |dict.entries| + |subfields|
        && forall i :: 0 <= i < |dict.entries| ==> r.value.0.entries[i] == dict.entries[i]
    decreases |subfields|
  {
    var r := DecodePass(read, data, subfields, position, bytesRemaining, dict);
    if r.Ok? && |subfields| > 0 {
      var d := subfields[0];
      var decoded := read(d, Skip(data, position), bytesRemaining).value;
      var entry := SubfieldData(d.name, decoded.value, d.dataType);
      var added := Dictionary(dict.keys + {entry.name}, dict.entries + [entry]);
      DecodePassStep(read, data, subfields, position, bytesRemaining, dict, decoded);
      DecodePassPrefix(read, data, subfields[1..], position + decoded.consumed, bytesRemaining - decoded.consumed,
                       added);
      forall i | 0 <= i < |dict.entries|
        ensures r.value.0.entries[i] == dict.entries[i]
      {
        assert added.entries[i] == dict.entries[i];
      }
    }
  }

  /** The entries a successful pass adds carry its definitions' names and
      types, in order. */
  lemma {:induction false} DecodePassNames(read: SubfieldReader, data: seq<char>, subfields: seq<SubfieldDefinition>,
                                           position: int, bytesRemaining: int, dict: Dictionary)
    ensures var r := DecodePass(read, data, subfields, position, bytesRemaining, dict);
      r.Ok? ==> LinesUp(r.value.0.entries, |dict.entries|, subfields)
    decreases |subfields|, 1
  {
    var r := DecodePass(read, data, subfields, position, bytesRemaining, dict);
    if r.Ok? && |subfields| > 0 {
      NamesFrom(read, data, subfields, position, bytesRemaining, dict,
                read(subfields[0], Skip(data, position), bytesRemaining).value);
    }
  }

  /** `DecodePassNames` once the first subfield has been read. */
  lemma {:induction false} NamesFrom(read: SubfieldReader, data: seq<char>, subfields: seq<SubfieldDefinition>,
                                     position: int, bytesRemaining: int, dict: Dictionary, decoded: Decoded)
    requires |subfields| > 0 && subfields[0].name !in dict.keys
    requires read(subfields[0], Skip(data, position), bytesRemaining) == Ok(decoded)
    ensures var r := DecodePass(read, data, subfields, position, bytesRemaining, dict);
      r.Ok? ==> LinesUp(r.value.0.entries, |dict.entries|, subfields)
    decreases |subfields|, 0
  {
    var d := subfields[0];
    var entry := SubfieldData(d.name, decoded.value, d.dataType);
    var added := Dictionary(dict.keys + {entry.name}, dict.entries + [entry]);
    var r := DecodePass(read, data, subfields, position, bytesRemaining, dict);
    var rest := DecodePass(read, data, subfields[1..], position + decoded.consumed, bytesRemaining - decoded.consumed,
                           added);
    assert r == rest by {
      DecodePassStep(read, data, subfields, position, bytesRemaining, dict, decoded);
    }
    RestLinesUp(read, data, subfields[1..], position + decoded.consumed, bytesRemaining - decoded.consumed, added,
                |dict.entries|);
    NamesStep(r, rest, dict, added, subfields, entry);
  }

  /** The pass after the first value lines up with the remaining
      definitions and keeps the entry before it. */
  lemma RestLinesUp(read: SubfieldReader, data: seq<char>, subfields: seq<SubfieldDefinition>, position: int,
                    bytesRemaining: int, added: Dictionary, i: nat)
    requires i < |added.entries|
    ensures var rest := DecodePass(read, data, subfields, position, bytesRemaining, added);
      rest.Ok? ==>
        && LinesUp(rest.value.0.entries, |added.entries|, subfields)
        && i < |rest.value.0.entries| && rest.value.0.entries[i] == added.entries[i]
    decreases |subfields|, 2
  {
    DecodePassNames(read, data, subfields, position, bytesRemaining, added);
    DecodePassKeeps(read, data, subfields, position, bytesRemaining, added, i);
  }

  /** From position `from` on, the entries carry the definitions' names and
      types, one entry per definition. */
  predicate LinesUp(entries: seq<SubfieldData>, from: nat, subfields: seq<SubfieldDefinition>) {
    && |entries| == from + |subfields|
    && forall k :: 0 <= k < |subfields| ==>
         entries[from + k].name == subfields[k].name && entries[from + k].dataType == subfields[k].dataType
  }

  /** The inductive step of `DecodePassNames`, on the results alone. */
  lemma NamesStep(r: Result<(Dictionary, int)>, rest: Result<(Dictionary, int)>, dict: Dictionary, added: Dictionary,
                  subfields: seq<SubfieldDefinition>, entry: SubfieldData)
    requires |subfields| > 0 && r == rest && added.entries == dict.entries + [entry]
    requires entry.name == subfields[0].name && entry.dataType == subfields[0].dataType
    requires rest.Ok? ==> LinesUp(rest.value.0.entries, |added.entries|, subfields[1..])
    requires rest.Ok? ==>
      |dict.entries| < |rest.value.0.entries| && rest.value.0.entries[|dict.entries|] == added.entries[|dict.entries|]
    ensures r.Ok? ==> LinesUp(r.value.0.entries, |dict.entries|, subfields)
  {
    if r.Ok? {
      var entries := r.value.0.entries;
      var tail := subfields[1..];
      assert entries[|dict.entries|] == entry;
      forall k | 1 <= k < |subfields|
        ensures entries[|dict.entries| + k].name == subfields[k].name
             && entries[|dict.entries| + k].dataType == subfields[k].dataType
      {
        assert |dict.entries| + k == |added.entries| + (k - 1);
        assert tail[k - 1] == subfields[k];
      }
    }
  }

  /** A successful pass met only new names. */
  lemma {:induction false} DecodePassFresh(read: SubfieldReader, data: seq<char>, subfields: seq<SubfieldDefinition>,
                                           position: int, bytesRemaining: int, dict: Dictionary)
    ensures var r := DecodePass(read, data, subfields, position, bytesRemaining, dict);
      r.Ok? ==> NamesFresh(subfields, dict.keys)
    decreases |subfields|
  {
    var r := DecodePass(read, data, subfields, position, bytesRemaining, dict);
    if r.Ok? && |subfields| > 0 {
      var d := subfields[0];
      var decoded := read(d, Skip(data, position), bytesRemaining).value;
      var entry := SubfieldData(d.name, decoded.value, d.dataType);
      var added := Dictionary(dict.keys + {entry.name}, dict.entries + [entry]);
      DecodePassStep(read, data, subfields, position, bytesRemaining, dict, decoded);
      DecodePassFresh(read, data, subfields[1..], position + decoded.consumed, bytesRemaining - decoded.consumed,
                      added);
    }
  }

  /** The first entry of a pass holds the value read at the pass's
      starting position with the whole remaining budget. */
  lemma DecodePassFirst(read: SubfieldReader, data: seq<char>, subfields: seq<SubfieldDefinition>, position: int,
                        bytesRemaining: int, dict: Dictionary)
    requires |subfields| > 0
    ensures var r := DecodePass(read, data, subfields, position, bytesRemaining, dict);
      var first := read(subfields[0], Skip(data, position), bytesRemaining);
      r.Ok? ==> first.Ok? && |dict.entries| < |r.value.0.entries|
                && r.value.0.entries[|dict.entries|].value == first.value.value
  {
    var r := DecodePass(read, data, subfields, position, bytesRemaining, dict);
    var d := subfields[0];
    var first := read(d, Skip(data, position), bytesRemaining);
    if r.Ok? {
      DecodePassStep(read, data, subfields, position, bytesRemaining, dict, first.value);
      var entry := SubfieldData(d.name, first.value.value, d.dataType);
      var added := Dictionary(dict.keys + {entry.name}, dict.entries + [entry]);
      var rest := DecodePass(read, data, subfields[1..], position + first.value.consumed,
                             bytesRemaining - first.value.consumed, added);
      DecodePassKeeps(read, data, subfields[1..], position + first.value.consumed,
                      bytesRemaining - first.value.consumed, added, |dict.entries|);
      assert r == rest;
      assert added.entries[|dict.entries|] == entry;
    }
  }

  /** A successful pass leaves each entry it started with in its place. */
  lemma {:induction false} DecodePassKeeps(read: SubfieldReader, data: seq<char>, subfields: seq<SubfieldDefinition>,
                                           position: int, bytesRemaining: int, dict: Dictionary, i: nat)
    requires i < |dict.entries|
    ensures var r := DecodePass(read, data, subfields, position, bytesRemaining, dict);
      r.Ok? ==> i < |r.value.0.entries| && r.value.0.entries[i] == dict.entries[i]
    decreases |subfields|
  {
    var r := DecodePass(read, data, subfields, position, bytesRemaining, dict);
    if r.Ok? && |subfields| > 0 {
      var d := subfields[0];
      var decoded := read(d, Skip(data, position), bytesRemaining).value;
      var entry := SubfieldData(d.name, decoded.value, d.dataType);
      var added := Dictionary(dict.keys + {entry.name}, dict.entries + [entry]);
      DecodePassStep(read, data, subfields, position, bytesRemaining, dict, decoded);
      DecodePassKeeps(read, data, subfields[1..], position + decoded.consumed, bytesRemaining - decoded.consumed,
                      added, i);
    }
  }

  /** The bytes the first `k` subfield values of a pass consume, each read
      where the values before it left the position and budget. */
  function Consumed(read: SubfieldReader, data: seq<char>, subfields: seq<SubfieldDefinition>, position: int,
                    bytesRemaining: int, k: nat): int
    requires k <= |subfields|
    decreases k
  {
    if k == 0 then 0
    else
      match read(subfields[0], Skip(data, position), bytesRemaining)
      case Ok(d) =>
        d.consumed + Consumed(read, data, subfields[1..], position + d.consumed, bytesRemaining - d.consumed, k - 1)
      case Err(_) => 0
  }

  /** The `k`-th value of a pass's entries, starting at entry `from`, is
      the one read after the first `k` values consumed their bytes. */
  predicate ReadAfter(read: SubfieldReader, data: seq<char>, subfields: seq<SubfieldDefinition>, position: int,
                      bytesRemaining: int, entries: seq<SubfieldData>, from: nat, k: nat)
    requires k < |subfields|
  {
    var at := ReadAt(read, data, subfields, position, bytesRemaining, k);
    at.Ok? && from + k < |entries| && entries[from + k].value == at.value.value
  }

  /** The read of the `k`-th subfield value of a pass: at the pass's
      position advanced by the bytes the first `k` values consumed, with
      the budget reduced by the same amount. */
  function ReadAt(read: SubfieldReader, data: seq<char>, subfields: seq<SubfieldDefinition>, position: int,
                  bytesRemaining: int, k: nat): Result<Decoded>
    requires k < |subfields|
  {
    var before := Consumed(read, data, subfields, position, bytesRemaining, k);
    read(subfields[k], Skip(data, position + before), bytesRemaining - before)
  }

  /** In a successful pass, the value of the `k`-th subfield was read at the
      pass's position advanced by the bytes the earlier values consumed,
      with the budget reduced by the same amount. */
  lemma {:induction false} DecodePassAt(read: SubfieldReader, data: seq<char>, subfields: seq<SubfieldDefinition>,
                                        position: int, bytesRemaining: int, dict: Dictionary, k: nat)
    requires k < |subfields|
    ensures var r := DecodePass(read, data, subfields, position, bytesRemaining, dict);
      r.Ok? ==> ReadAfter(read, data, subfields, position, bytesRemaining, r.value.0.entries, |dict.entries|, k)
    decreases k, 1
  {
    var r := DecodePass(read, data, subfields, position, bytesRemaining, dict);
    if k == 0 {
      PassAtFirst(read, data, subfields, position, bytesRemaining, dict);
    } else if r.Ok? {
      PassAtFrom(read, data, subfields, position, bytesRemaining, dict, k,
                 read(subfields[0], Skip(data, position), bytesRemaining).value);
    }
  }

  /** `DecodePassAt` for a later value, once the first has been read. */
  lemma {:induction false} PassAtFrom(read: SubfieldReader, data: seq<char>, subfields: seq<SubfieldDefinition>,
                                      position: int, bytesRemaining: int, dict: Dictionary, k: nat, decoded: Decoded)
    requires 0 < k < |subfields| && subfields[0].name !in dict.keys
    requires read(subfields[0], Skip(data, position), bytesRemaining) == Ok(decoded)
    ensures var r := DecodePass(read, data, subfields, position, bytesRemaining, dict);
      r.Ok? ==> ReadAfter(read, data, subfields, position, bytesRemaining, r.value.0.entries, |dict.entries|, k)
    decreases k, 0
  {
    var d := subfields[0];
    var entry := SubfieldData(d.name, decoded.value, d.dataType);
    var added := Dictionary(dict.keys + {entry.name}, dict.entries + [entry]);
    var r := DecodePass(read, data, subfields, position, bytesRemaining, dict);
    var rest := DecodePass(read, data, subfields[1..], position + decoded.consumed,
                           bytesRemaining - decoded.consumed, added);
    assert r == rest by {
      DecodePassStep(read, data, subfields, position, bytesRemaining, dict, decoded);
    }
    DecodePassAt(read, data, subfields[1..], position + decoded.consumed, bytesRemaining - decoded.consumed,
                 added, k - 1);
    PassAtStep(r, rest, read, data, subfields, position, bytesRemaining, decoded, |dict.entries|,
               |added.entries|, k);
  }

  /** `DecodePassAt` for the first value. */
  lemma PassAtFirst(read: SubfieldReader, data: seq<char>, subfields: seq<SubfieldDefinition>, position: int,
                    bytesRemaining: int, dict: Dictionary)
    requires 0 < |subfields|
    ensures var r := DecodePass(read, data, subfields, position, bytesRemaining, dict);
      r.Ok? ==> ReadAfter(read, data, subfields, position, bytesRemaining, r.value.0.entries, |dict.entries|, 0)
  {
    DecodePassFirst(read, data, subfields, position, bytesRemaining, dict);
    assert Consumed(read, data, subfields, position, bytesRemaining, 0) == 0;
  }

  /** The inductive step of `DecodePassAt`, on the results alone. */
  lemma PassAtStep(r: Result<(Dictionary, int)>, rest: Result<(Dictionary, int)>, read: SubfieldReader,
                   data: seq<char>, subfields: seq<SubfieldDefinition>, position: int, bytesRemaining: int,
                   decoded: Decoded, from: nat, next: nat, k: nat)
    requires r == rest && 0 < k < |subfields| && next == from + 1
    requires read(subfields[0], Skip(data, position), bytesRemaining) == Ok(decoded)
    requires rest.Ok? ==> ReadAfter(read, data, subfields[1..], position + decoded.consumed,
                                    bytesRemaining - decoded.consumed, rest.value.0.entries, next, k - 1)
    ensures r.Ok? ==> ReadAfter(read, data, subfields, position, bytesRemaining, r.value.0.entries, from, k)
  {
    if r.Ok? {
      ReadAfterStep(read, data, subfields, position, bytesRemaining, decoded, r.value.0.entries, from, k);
    }
  }

  /** Reading the `k`-th value of a pass is reading the `k - 1`-th value of
      the pass that starts after the first value. */
  lemma ReadAfterStep(read: SubfieldReader, data: seq<char>, subfields: seq<SubfieldDefinition>, position: int,
                      bytesRemaining: int, decoded: Decoded, entries: seq<SubfieldData>, from: nat, k: nat)
    requires 0 < k < |subfields|
    requires read(subfields[0], Skip(data, position), bytesRemaining) == Ok(decoded)
    requires ReadAfter(read, data, subfields[1..], position + decoded.consumed, bytesRemaining - decoded.consumed,
                       entries, from + 1, k - 1)
    ensures ReadAfter(read, data, subfields, position, bytesRemaining, entries, from, k)
  {
    var after := Consumed(read, data, subfields[1..], position + decoded.consumed,
                          bytesRemaining - decoded.consumed, k - 1);
    assert Consumed(read, data, subfields, position, bytesRemaining, k) == decoded.consumed + after;
    assert subfields[1..][k - 1] == subfields[k];
    assert position + decoded.consumed + after == position + (decoded.consumed + after);
    assert bytesRemaining - decoded.consumed - after == bytesRemaining - (decoded.consumed + after);
    assert ReadAt(read, data, subfields, position, bytesRemaining, k)
        == ReadAt(read, data, subfields[1..], position + decoded.consumed, bytesRemaining - decoded.consumed, k - 1);
  }

  /** The repeats of a field: each pass starts again at the field's offset
      but the budget carries over from the previous pass. */
  function DecodeRepeats(read: SubfieldReader, field: Field, repeats: nat, bytesRemaining: int,
                         dict: Dictionary): (r: Result<(Dictionary, int)>)
    ensures r.Err? && ReaderErrors(read) ==> RecordError(r.error)
    decreases repeats
  {
    if repeats == 0 then Ok((dict, bytesRemaining))
    else
      var pass :- DecodePass(read, field.data, field.definition.subfieldDefinitions, field.offset, bytesRemaining,
                             dict);
      DecodeRepeats(read, field, repeats - 1, pass.1, pass.0)
  }

  /** A field decoded once is one pass over its definitions from its
      offset with its whole budget. */
  lemma SingleRepeat(read: SubfieldReader, field: Field, bytesRemaining: int, dict: Dictionary)
    ensures DecodeRepeats(read, field, 1, bytesRemaining, dict)
         == DecodePass(read, field.data, field.definition.subfieldDefinitions, field.offset, bytesRemaining, dict)
  {
  }

  /** `GetData` fails only on a subfield that does not fit its bytes or an
      integer that does not parse. */
  lemma GetDataErrors(formatFloat: FloatFormatter)
    ensures ReaderErrors(Reader(formatFloat))
  {
    forall d, bytes, budget | GetData(d, bytes, budget, formatFloat).Err?
      ensures RecordError(GetData(d, bytes, budget, formatFloat).error)
    {
      var extent := GetDataLength(d, bytes, budget);
      if extent.Ok? && d.dataType == DdfInt {
        var raw := ExtractStringData(d, bytes, budget).value.value;
        assert ParseInt(raw).Err?;
      }
    }
  }

  /** The field's subfield values keyed by name, in definition order: one
      entry per subfield definition, carrying that definition's name and
      type, the first value read at the field's offset with the whole
      budget; a name defined twice makes the field unreadable. */
  function GetRecord(field: Field, formatFloat: FloatFormatter): (r: Result<seq<SubfieldData>>)
    ensures r.Ok? ==> |r.value| == |field.definition.subfieldDefinitions|
    ensures r.Ok? ==> forall k :: 0 <= k < |r.value| ==>
      r.value[k].name == field.definition.subfieldDefinitions[k].name
      && r.value[k].dataType == field.definition.subfieldDefinitions[k].dataType
    ensures r.Ok? ==> DistinctNames(EntryNames(r.value))
    ensures r.Err? ==> RecordError(r.error)
  {
    var read := Reader(formatFloat);
    GetDataErrors(formatFloat);
    var empty := Dictionary({}, []);
    var decoded :- DecodeRepeats(read, field, RepeatCount, field.dataSize, empty);
    var subfields := field.definition.subfieldDefinitions;
    SingleRepeat(read, field, field.dataSize, empty);
    DecodePassShape(read, field.data, subfields, field.offset, field.dataSize, empty);
    NamesFreshIff(subfields, {});
    assert EntryNames(decoded.0.entries) == SubfieldNames(subfields);
    Ok(decoded.0.entries)
  }

  /** The entries of a single pass from the field's offset with the
      field's whole size as budget, or its error. */
  function PassEntries(r: Result<(Dictionary, int)>): Result<seq<SubfieldData>> {
    if r.Ok? then Ok(r.value.0.entries) else Err(r.error)
  }

  /** Decoding a field is one pass over its definitions from its offset,
      starting with an empty dictionary. */
  lemma GetRecordIsOnePass(field: Field, formatFloat: FloatFormatter)
    ensures GetRecord(field, formatFloat)
         == PassEntries(DecodePass(Reader(formatFloat), field.data, field.definition.subfieldDefinitions,
                                   field.offset, field.dataSize, Dictionary({}, [])))
  {
    SingleRepeat(Reader(formatFloat), field, field.dataSize, Dictionary({}, []));
  }

  /** The first subfield of a decoded field is read at the field's offset
      with the field's whole size as budget. */
  lemma GetRecordFirst(field: Field, formatFloat: FloatFormatter)
    ensures var r := GetRecord(field, formatFloat);
      r.Ok? && |r.value| > 0 ==>
        var first := GetData(field.definition.subfieldDefinitions[0], Skip(field.data, field.offset),
                             field.dataSize, formatFloat);
        first.Ok? && r.value[0].value == first.value.value
  {
    var r := GetRecord(field, formatFloat);
    if r.Ok? && |r.value| > 0 {
      GetRecordIsOnePass(field, formatFloat);
      DecodePassFirst(Reader(formatFloat), field.data, field.definition.subfieldDefinitions, field.offset,
                      field.dataSize, Dictionary({}, []));
    }
  }

  /** Each subfield value of a decoded field is the one its `GetData`
      reads at the field's offset advanced by the bytes the earlier
      subfields consumed, with the field's size reduced by the same amount
      as its budget. */
  lemma GetRecordAt(field: Field, formatFloat: FloatFormatter, k: nat)
    ensures var r := GetRecord(field, formatFloat);
      r.Ok? && k < |r.value| ==>
        && k < |field.definition.subfieldDefinitions|
        && ReadAfter(Reader(formatFloat), field.data, field.definition.subfieldDefinitions, field.offset,
                     field.dataSize, r.value, 0, k)
  {
    var r := GetRecord(field, formatFloat);
    if r.Ok? && k < |r.value| {
      GetRecordIsOnePass(field, formatFloat);
      PassReadsAt(Reader(formatFloat), field.data, field.definition.subfieldDefinitions, field.offset,
                  field.dataSize, r.value, k);
    }
  }

  /** The `k`-th entry of a successful pass that starts with an empty
      dictionary was read after the earlier values consumed their bytes. */
  lemma PassReadsAt(read: SubfieldReader, data: seq<char>, subfields: seq<SubfieldDefinition>, offset: int,
                    size: int, entries: seq<SubfieldData>, k: nat)
    requires PassEntries(DecodePass(read, data, subfields, offset, size, Dictionary({}, []))) == Ok(entries)
    requires k < |entries|
    ensures k < |subfields| && ReadAfter(read, data, subfields, offset, size, entries, 0, k)
  {
    DecodePassShape(read, data, subfields, offset, size, Dictionary({}, []));
    DecodePassAt(read, data, subfields, offset, size, Dictionary({}, []), k);
  }

  /** A field without subfield definitions decodes to no values. */
  lemma EmptyFieldDecodesEmpty(field: Field, formatFloat: FloatFormatter)
    requires field.definition.subfieldDefinitions == []
    ensures GetRecord(field, formatFloat) == Ok([])
  {
    GetRecordIsOnePass(field, formatFloat);
  }

  /** A definition that names a subfield twice cannot be read whatever the
      bytes: the second name is rejected by the dictionary. */
  lemma DuplicateNamesRejected(field: Field, formatFloat: FloatFormatter)
    requires !DistinctNames(SubfieldNames(field.definition.subfieldDefinitions))
    ensures GetRecord(field, formatFloat).Err?
  {
  }

  // ---------------------------------------------------------------------
  // Written fields read back
  // ---------------------------------------------------------------------

  /** True when `value` can be written for subfield `d`: text of exactly
      the fixed width, or text free of the delimiter and field terminator
      for a variable-width subfield. */
  predicate WritableValue(d: SubfieldDefinition, value: string) {
    && (d.dataType == DdfString || d.dataType == DdfBinaryString)
    && (if d.isVariable then Delimitable(value, d.formatDelimiter) else |value| == d.formatWidth)
  }

  predicate WritableValues(subfields: seq<SubfieldDefinition>, values: seq<string>) {
    |subfields| == |values| && forall k :: 0 <= k < |subfields| ==> WritableValue(subfields[k], values[k])
  }

  /** The bytes of a field holding `values`: each fixed-width value as it
      is, each variable-width value followed by its delimiter, except that
      the field terminator closes the last one; a field whose last subfield
      is fixed-width gets the terminator after it. */
  function WriteSubfields(subfields: seq<SubfieldDefinition>, values: seq<string>): (r: string)
    requires |subfields| == |values|
    ensures |r| >= 1 && r[|r| - 1] == FieldTerminator
    decreases |subfields|
  {
    if |subfields| == 0 then [FieldTerminator]
    else if !subfields[0].isVariable then values[0] + WriteSubfields(subfields[1..], values[1..])
    else if |subfields| == 1 then values[0] + [FieldTerminator]
    else values[0] + [subfields[0].formatDelimiter] + WriteSubfields(subfields[1..], values[1..])
  }

  /** The bytes a written value occupies, its terminator included. */
  function WrittenWidth(d: SubfieldDefinition, value: string): nat {
    if d.isVariable then |value| + 1 else |value|
  }

  /** The entries a reader should produce for written `values`. */
  function Entries(subfields: seq<SubfieldDefinition>, values: seq<string>): (r: seq<SubfieldData>)
    requires |subfields| == |values|
    decreases |subfields|
  {
    if |subfields| == 0 then []
    else [SubfieldData(subfields[0].name, values[0], subfields[0].dataType)] + Entries(subfields[1..], values[1..])
  }

  /** True when `read` gives back every written value from the bytes
      written for it and the ones after, consuming exactly its width. */
  predicate ReadsBack(read: SubfieldReader, subfields: seq<SubfieldDefinition>, values: seq<string>)
    requires |subfields| == |values|
    decreases |subfields|
  {
    |subfields| == 0 ||
      (var written := WriteSubfields(subfields, values);
       && read(subfields[0], written, |written|) == Ok(Decoded(values[0], WrittenWidth(subfields[0], values[0])))
       && ReadsBack(read, subfields[1..], values[1..]))
  }

  /** Writing more than one subfield puts the first value's bytes in front
      of the bytes written for the rest. */
  lemma WriteSubfieldsSplit(subfields: seq<SubfieldDefinition>, values: seq<string>)
    requires |subfields| == |values| && |subfields| > 1
    ensures var written := WriteSubfields(subfields, values);
      var rest := WriteSubfields(subfields[1..], values[1..]);
      |written| == WrittenWidth(subfields[0], values[0]) + |rest|
      && written[WrittenWidth(subfields[0], values[0])..] == rest
  {
    var written := WriteSubfields(subfields, values);
    var rest := WriteSubfields(subfields[1..], values[1..]);
    if subfields[0].isVariable {
      assert written == values[0] + [subfields[0].formatDelimiter] + rest;
    } else {
      assert written == values[0] + rest;
    }
  }

  lemma WritableTail(subfields: seq<SubfieldDefinition>, values: seq<string>)
    requires WritableValues(subfields, values) && |subfields| > 0
    ensures WritableValues(subfields[1..], values[1..])
  {
    forall k | 0 <= k < |subfields| - 1
      ensures WritableValue(subfields[1..][k], values[1..][k])
    {
      assert WritableValue(subfields[k + 1], values[k + 1]);
    }
  }

  /** The first written subfield reads back as its value. */
  lemma WrittenSubfieldReadsBack(subfields: seq<SubfieldDefinition>, values: seq<string>, formatFloat: FloatFormatter)
    requires WritableValues(subfields, values) && |subfields| > 0
    ensures var written := WriteSubfields(subfields, values);
      GetData(subfields[0], written, |written|, formatFloat)
        == Ok(Decoded(values[0], WrittenWidth(subfields[0], values[0])))
  {
    var d, v := subfields[0], values[0];
    var written := WriteSubfields(subfields, values);
    var rest := WriteSubfields(subfields[1..], values[1..]);
    assert WritableValue(d, v);
    if !d.isVariable {
      assert written == v + rest;
      FixedSubfieldRoundTrip(d, v, rest, |written|, formatFloat);
    } else if |subfields| == 1 {
      assert written == v + [FieldTerminator] + [];
      VariableSubfieldRoundTrip(d, v, FieldTerminator, [], |written|, formatFloat);
    } else {
      assert written == v + [d.formatDelimiter] + rest;
      assert !DoubleByteMarked(written, |written|, d.formatDelimiter);
      VariableSubfieldRoundTrip(d, v, d.formatDelimiter, rest, |written|, formatFloat);
    }
  }

  /** The field's own reader gives back every writable value. */
  lemma {:induction false} GetDataReadsBack(subfields: seq<SubfieldDefinition>, values: seq<string>,
                                            formatFloat: FloatFormatter)
    requires WritableValues(subfields, values)
    ensures ReadsBack(Reader(formatFloat), subfields, values)
    decreases |subfields|
  {
    if |subfields| > 0 {
      WrittenSubfieldReadsBack(subfields, values, formatFloat);
      WritableTail(subfields, values);
      GetDataReadsBack(subfields[1..], values[1..], formatFloat);
    }
  }

  /** A reader that gives back written values reads the first one at the
      position it was written to. */
  lemma ReadsBackFirst(read: SubfieldReader, data: seq<char>, subfields: seq<SubfieldDefinition>,
                       values: seq<string>, position: nat, bytesRemaining: int)
    requires |subfields| == |values| && |subfields| > 0 && ReadsBack(read, subfields, values)
    requires position <= |data| && data[position..] == WriteSubfields(subfields, values)
    requires bytesRemaining == |data| - position
    ensures read(subfields[0], Skip(data, position), bytesRemaining)
         == Ok(Decoded(values[0], WrittenWidth(subfields[0], values[0])))
    ensures ReadsBack(read, subfields[1..], values[1..])
  {
    assert Skip(data, position) == WriteSubfields(subfields, values);
  }

  /** True when `read`, started at `position` in `data` with the rest of
      `data` as its budget, gives back each value in turn, consuming
      exactly the width it was written with. */
  predicate ReadsBackAt(read: SubfieldReader, data: seq<char>, subfields: seq<SubfieldDefinition>,
                        values: seq<string>, position: nat)
    requires |subfields| == |values|
    decreases |subfields|
  {
    |subfields| == 0 ||
      (var width := WrittenWidth(subfields[0], values[0]);
       && read(subfields[0], Skip(data, position), |data| - position) == Ok(Decoded(values[0], width))
       && ReadsBackAt(read, data, subfields[1..], values[1..], position + width))
  }

  /** A reader that gives back written values does so wherever the
      written bytes sit in a record body. */
  lemma {:induction false} ReadsBackInBody(read: SubfieldReader, data: seq<char>, subfields: seq<SubfieldDefinition>,
                                           values: seq<string>, position: nat)
    requires |subfields| == |values| && ReadsBack(read, subfields, values)
    requires position <= |data| && data[position..] == WriteSubfields(subfields, values)
    ensures ReadsBackAt(read, data, subfields, values, position)
    decreases |subfields|
  {
    if |subfields| > 0 {
      ReadsBackFirst(read, data, subfields, values, position, |data| - position);
      var width := WrittenWidth(subfields[0], values[0]);
      if |subfields| > 1 {
        WriteSubfieldsSplit(subfields, values);
        assert data[position + width..] == WriteSubfields(subfields[1..], values[1..]);
        ReadsBackInBody(read, data, subfields[1..], values[1..], position + width);
      }
    }
  }

  /** Subfields that read back in order decode, each under its own name,
      into the dictionary after the entries already there. */
  lemma {:induction false} DecodeWritten(read: SubfieldReader, data: seq<char>, subfields: seq<SubfieldDefinition>,
                                         values: seq<string>, position: nat, remaining: int, dict: Dictionary)
    requires |subfields| == |values| && ReadsBackAt(read, data, subfields, values, position)
    requires remaining == |data| - position && NamesFresh(subfields, dict.keys)
    ensures var r := DecodePass(read, data, subfields, position, remaining, dict);
      r.Ok? && r.value.0.entries == dict.entries + Entries(subfields, values)
    decreases |subfields|
  {
    if |subfields| == 0 {
      DecodeWrittenNil(read, data, subfields, values, position, remaining, dict);
    } else {
      var d := subfields[0];
      var width := WrittenWidth(d, values[0]);
      var added := Dictionary(dict.keys + {d.name}, dict.entries + [SubfieldData(d.name, values[0], d.dataType)]);
      DecodeWritten(read, data, subfields[1..], values[1..], position + width, remaining - width, added);
      DecodeWrittenCons(read, data, subfields, values, position, remaining, dict);
    }
  }

  lemma DecodeWrittenNil(read: SubfieldReader, data: seq<char>, subfields: seq<SubfieldDefinition>,
                         values: seq<string>, position: nat, remaining: int, dict: Dictionary)
    requires |subfields| == |values| == 0
    ensures var r := DecodePass(read, data, subfields, position, remaining, dict);
      r.Ok? && r.value.0.entries == dict.entries + Entries(subfields, values)
  {
    assert dict.entries + Entries(subfields, values) == dict.entries;
  }

  /** The inductive step of `DecodeWritten`, with the rest's result as a
      premise. */
  lemma DecodeWrittenCons(read: SubfieldReader, data: seq<char>, subfields: seq<SubfieldDefinition>,
                          values: seq<string>, position: nat, remaining: int, dict: Dictionary)
    requires |subfields| == |values| > 0 && ReadsBackAt(read, data, subfields, values, position)
    requires remaining == |data| - position && NamesFresh(subfields, dict.keys)
    requires var d := subfields[0];
      var width := WrittenWidth(d, values[0]);
      var added := Dictionary(dict.keys + {d.name}, dict.entries + [SubfieldData(d.name, values[0], d.dataType)]);
      var r := DecodePass(read, data, subfields[1..], position + width, remaining - width, added);
      r.Ok? && r.value.0.entries == added.entries + Entries(subfields[1..], values[1..])
    ensures var r := DecodePass(read, data, subfields, position, remaining, dict);
      r.Ok? && r.value.0.entries == dict.entries + Entries(subfields, values)
  {
    var d := subfields[0];
    var width := WrittenWidth(d, values[0]);
    var added := Dictionary(dict.keys + {d.name}, dict.entries + [SubfieldData(d.name, values[0], d.dataType)]);
    var rest := DecodePass(read, data, subfields[1..], position + width, remaining - width, added);
    WrittenHead(read, data, subfields, values, position, remaining, dict.keys);
    DecodePassStep(read, data, subfields, position, remaining, dict, Decoded(values[0], width));
    EntriesAfter(dict.entries, subfields, values);
    SamePass(DecodePass(read, data, subfields, position, remaining, dict), rest,
             dict.entries + Entries(subfields, values));
  }

  /** The first written subfield reads back and its name is new. */
  lemma WrittenHead(read: SubfieldReader, data: seq<char>, subfields: seq<SubfieldDefinition>,
                    values: seq<string>, position: nat, remaining: int, keys: set<string>)
    requires |subfields| == |values| > 0 && ReadsBackAt(read, data, subfields, values, position)
    requires remaining == |data| - position && NamesFresh(subfields, keys)
    ensures subfields[0].name !in keys
    ensures read(subfields[0], Skip(data, position), remaining)
         == Ok(Decoded(values[0], WrittenWidth(subfields[0], values[0])))
  {
  }

  lemma SamePass(r: Result<(Dictionary, int)>, rest: Result<(Dictionary, int)>, entries: seq<SubfieldData>)
    requires r == rest && rest.Ok? && rest.value.0.entries == entries
    ensures r.Ok? && r.value.0.entries == entries
  {
  }

  /** Appending the entries of written values is appending the first
      entry, then the entries of the rest. */
  lemma EntriesAfter(entries: seq<SubfieldData>, subfields: seq<SubfieldDefinition>, values: seq<string>)
    requires |subfields| == |values| && |subfields| > 0
    ensures entries + Entries(subfields, values)
         == (entries + [SubfieldData(subfields[0].name, values[0], subfields[0].dataType)])
            + Entries(subfields[1..], values[1..])
  {
  }

  /** Written subfields with distinct names, after any other bytes, decode
      in one pass from an empty dictionary into exactly their entries. */
  lemma PassRoundTrip(read: SubfieldReader, prefix: seq<char>, subfields: seq<SubfieldDefinition>,
                      values: seq<string>)
    requires |subfields| == |values| && ReadsBack(read, subfields, values)
    requires DistinctNames(SubfieldNames(subfields))
    ensures var written := WriteSubfields(subfields, values);
      var r := DecodePass(read, prefix + written, subfields, |prefix|, |written|, Dictionary({}, []));
      r.Ok? && r.value.0.entries == Entries(subfields, values)
  {
    var written := WriteSubfields(subfields, values);
    var data := prefix + written;
    assert data[|prefix|..] == written;
    NamesFreshIff(subfields, {});
    WrittenPass(read, data, subfields, values, |prefix|, |written|);
  }

  /** Written subfields whose names are fresh decode from where they were
      written, with the rest of the data as budget, into their entries. */
  lemma WrittenPass(read: SubfieldReader, data: seq<char>, subfields: seq<SubfieldDefinition>,
                    values: seq<string>, position: nat, bytesRemaining: int)
    requires |subfields| == |values| && ReadsBack(read, subfields, values)
    requires position <= |data| && data[position..] == WriteSubfields(subfields, values)
    requires NamesFresh(subfields, {}) && bytesRemaining == |data| - position
    ensures var r := DecodePass(read, data, subfields, position, bytesRemaining, Dictionary({}, []));
      r.Ok? && r.value.0.entries == Entries(subfields, values)
  {
    ReadsBackInBody(read, data, subfields, values, position);
    DecodeWritten(read, data, subfields, values, position, bytesRemaining, Dictionary({}, []));
    assert [] + Entries(subfields, values) == Entries(subfields, values);
  }

  /** The field round trip: a field written into a record body after any
      other bytes, with distinct subfield names, is read back as exactly
      the written values under their names. */
  lemma GetRecordRoundTrip(prefix: seq<char>, definition: FieldDefinition, values: seq<string>,
                           formatFloat: FloatFormatter)
    requires WritableValues(definition.subfieldDefinitions, values)
    requires DistinctNames(SubfieldNames(definition.subfieldDefinitions))
    ensures var written := WriteSubfields(definition.subfieldDefinitions, values);
      GetRecord(Field(prefix + written, |written|, definition, |prefix|), formatFloat)
        == Ok(Entries(definition.subfieldDefinitions, values))
  {
    var subfields := definition.subfieldDefinitions;
    var written := WriteSubfields(subfields, values);
    GetDataReadsBack(subfields, values, formatFloat);
    PassRoundTrip(Reader(formatFloat), prefix, subfields, values);
    GetRecordIsOnePass(Field(prefix + written, |written|, definition, |prefix|), formatFloat);
  }
}
