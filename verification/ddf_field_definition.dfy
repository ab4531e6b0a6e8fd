/** A field definition from the data descriptive record: the field's
    structure code, name, subfield names and the format controls that give
    each subfield its type and width. */
module DdfFieldDefinition {
  import opened Results
  import opened Constants
  import opened Strings
  import opened Numbers
  import opened DdfLeader
  import opened DdfUtils
  import opened DdfSubfieldDefinition

  datatype DataStructCode = Elementary | Vector | Array | Concatenated

  datatype FieldDefinition = FieldDefinition(
    tag: string,
    fieldName: string,
    arrayDescription: string,
    formatControls: string,
    dataStructCode: DataStructCode,
    subfieldDefinitions: seq<SubfieldDefinition>,
    fixedWidth: int,
    repeatingSubfields: bool)

  // ---------------------------------------------------------------------
  // Field controls
  // ---------------------------------------------------------------------

  /** The data structure code in the first field-control byte; a blank is
      accepted as elementary for ADRG and DIGEST products. */
  function DataStructCodeOf(c: char): (r: Result<DataStructCode>)
    ensures r.Ok? <==> c in " 0123"
    ensures r.Ok? ==> (r.value == Elementary <==> c in " 0")
    ensures r.Err? ==> r.error == UnrecognisedDataStructCode(c)
  {
    match c
    case ' ' => Ok(Elementary)
    case '0' => Ok(Elementary)
    case '1' => Ok(Vector)
    case '2' => Ok(Array)
    case '3' => Ok(Concatenated)
    case _ => Err(UnrecognisedDataStructCode(c))
  }

  /** The data type code in the second field-control byte is checked and
      then discarded. */
  function CheckDataTypeCode(c: char): (r: Result<()>)
    ensures r.Ok? <==> c in " 0123456"
    ensures r.Err? ==> r.error == UnrecognisedDataTypeCode(c)
  {
    if c in " 0123456" then Ok(()) else Err(UnrecognisedDataTypeCode(c))
  }

  // ---------------------------------------------------------------------
  // Subfield names
  // ---------------------------------------------------------------------

  /** The part of an array description that names the subfields: from its
      last `*` on (the `*` kept), or all of it when there is none. */
  function SubfieldList(arrayDescription: string): (r: string)
    ensures '*' in arrayDescription ==> |r| >= 1 && r[0] == '*' && '*' !in r[1..]
    ensures '*' !in arrayDescription ==> r == arrayDescription
    ensures |r| <= |arrayDescription| && (|r| == 0 <==> |arrayDescription| == 0)
    ensures r == arrayDescription[|arrayDescription| - |r|..]
  {
    var star := LastIndexOf(arrayDescription, '*');
    if star >= 0 then
      arrayDescription[star..]
    else Skip(arrayDescription, star)
  }

  /** One subfield per `!`-separated name; the subfields repeat when the
      description has a `*`, and an empty description has no first
      character to look at. */
  function BuildSubfields(arrayDescription: string): (r: Result<(seq<SubfieldDefinition>, bool)>)
    ensures r.Ok? <==> |arrayDescription| > 0
    ensures r.Err? ==> r.error == EmptyArrayDescription
    ensures r.Ok? ==> (r.value.1 <==> '*' in arrayDescription)
    ensures r.Ok? ==> |r.value.0| == Occurrences(SubfieldList(arrayDescription), '!') + 1
    ensures r.Ok? ==> Join(SubfieldNames(r.value.0), '!') == SubfieldList(arrayDescription)
    ensures r.Ok? ==> forall k :: 0 <= k < |r.value.0| ==>
      r.value.0[k] == NewSubfieldDefinition(r.value.0[k].name) && '!' !in r.value.0[k].name
  {
    var list := SubfieldList(arrayDescription);
    var first :- if |list| == 0 then Err(EmptyArrayDescription) else Ok(list[0]);
    var names := Split(list, '!');
    SplitCount(list, '!');
    var subfields := NewSubfields(names);
    assert SubfieldNames(subfields) == names;
    Ok((subfields, first == '*'))
  }

  function NewSubfields(names: seq<string>): (r: seq<SubfieldDefinition>)
    ensures |r| == |names|
    ensures forall k :: 0 <= k < |r| ==> r[k] == NewSubfieldDefinition(names[k])
  {
    seq(|names|, k requires 0 <= k < |names| => NewSubfieldDefinition(names[k]))
  }

  function SubfieldNames(subfields: seq<SubfieldDefinition>): (r: seq<string>)
    ensures |r| == |subfields|
    ensures forall k :: 0 <= k < |r| ==> r[k] == subfields[k].name
  {
    seq(|subfields|, k requires 0 <= k < |subfields| => subfields[k].name)
  }

  /** The names a description lists: with a leading `*`, the first name
      carries it. */
  function StarNames(names: seq<string>, starred: bool): seq<string>
    requires |names| >= 1
  {
    if starred then ["*" + names[0]] + names[1..] else names
  }

  function Description(names: seq<string>, starred: bool): string
  {
    (if starred then "*" else "") + Join(names, '!')
  }

  lemma DescriptionLists(names: seq<string>, starred: bool)
    requires |names| >= 1
    requires forall k :: 0 <= k < |names| ==> |names[k]| >= 1 && '!' !in names[k] && '*' !in names[k]
    ensures Join(StarNames(names, starred), '!') == Description(names, starred)
    ensures SubfieldList(Description(names, starred)) == Description(names, starred)
    ensures |Description(names, starred)| > 0
    ensures forall k :: 0 <= k < |names| ==> '!' !in StarNames(names, starred)[k]
  {
    var description := Description(names, starred);
    var listed := StarNames(names, starred);
    if starred {
      JoinPrefixFirst(names, "*", '!');
      forall k | 0 <= k < |listed| ensures '!' !in listed[k] {
        if k == 0 {
          assert listed[0] == "*" + names[0];
        } else {
          assert listed[k] == names[k];
        }
      }
    }
    NoStarInJoin(names, '!');
    JoinLength(names, '!');
    if starred {
      assert description[0] == '*';
      assert description[1..] == Join(names, '!');
      assert LastIndexOf(description, '*') == 0;
    } else {
      assert '*' !in description;
    }
  }

  /** Non-empty subfield names without `!` or `*` are read back from the
      description that lists them, in order; the subfields repeat exactly
      when the description is starred, and the first name then keeps the
      star. */
  lemma BuildSubfieldsRoundTrip(names: seq<string>, starred: bool)
    requires |names| >= 1
    requires forall k :: 0 <= k < |names| ==> |names[k]| >= 1 && '!' !in names[k] && '*' !in names[k]
    ensures BuildSubfields(Description(names, starred)).Ok?
    ensures BuildSubfields(Description(names, starred)).value.1 == starred
    ensures SubfieldNames(BuildSubfields(Description(names, starred)).value.0) == StarNames(names, starred)
  {
    var description := Description(names, starred);
    DescriptionLists(names, starred);
    var built := BuildSubfields(description).value.0;
    SplitJoin(SubfieldNames(built), '!');
    SplitJoin(StarNames(names, starred), '!');
    if starred {
      assert description[0] == '*';
    } else {
      NoStarInJoin(names, '!');
    }
  }

  lemma {:induction false} JoinPrefixFirst(parts: seq<string>, prefix: string, sep: char)
    requires |parts| >= 1
    ensures Join([prefix + parts[0]] + parts[1..], sep) == prefix + Join(parts, sep)
  {
    var starred := [prefix + parts[0]] + parts[1..];
    if |parts| == 1 {
      assert starred == [prefix + parts[0]];
    } else {
      assert starred[1..] == parts[1..];
    }
  }

  lemma {:induction false} NoStarInJoin(parts: seq<string>, sep: char)
    requires sep != '*'
    requires forall k :: 0 <= k < |parts| ==> '*' !in parts[k]
    ensures '*' !in Join(parts, sep)
    decreases |parts|
  {
    if |parts| > 1 {
      NoStarInJoin(parts[1..], sep);
    }
  }

  lemma {:induction false} JoinLength(parts: seq<string>, sep: char)
    requires |parts| >= 1
    ensures |Join(parts, sep)| >= |parts| - 1 + |parts[0]|
    decreases |parts|
  {
    if |parts| > 1 {
      JoinLength(parts[1..], sep);
    }
  }

  // ---------------------------------------------------------------------
  // Format controls
  // ---------------------------------------------------------------------

  /** How a character changes the bracket depth. */
  function Delta(c: char): int
  {
    if c == '(' then 1 else if c == ')' then -1 else 0
  }

  /** The bracket depth reached after `s`, starting from `depth`. */
  function Net(s: string, depth: int): int
  {
    if |s| == 0 then depth else Net(s[1..], depth + Delta(s[0]))
  }

  /** True when, starting from `depth`, no prefix of `s` brings the depth
      below zero. */
  predicate Stays(s: string, depth: int)
  {
    |s| == 0 || (depth + Delta(s[0]) >= 0 && Stays(s[1..], depth + Delta(s[0])))
  }

  /** The bracket scan of `ExtractSubString`: the first comma outside
      brackets, or the end of the input. */
  function BracketScan(input: string, i: nat, bracket: int): (r: nat)
    requires i <= |input|
    ensures i <= r <= |input|
    ensures r < |input| ==> input[r] == ','
    decreases |input| - i
  {
    if i < |input| && (bracket > 0 || input[i] != ',') then
      BracketScan(input, i + 1, bracket + Delta(input[i]))
    else i
  }

  /** The first comma-separated item of `input`, taking brackets into
      account; an item in brackets is returned without its first and last
      characters. */
  function ExtractSubString(input: string): (r: Result<string>)
    ensures r.Ok? ==> |input| >= 1
    ensures r.Ok? && input[0] == '(' ==> |r.value| + 2 <= |input| && r.value == input[1..|r.value| + 1]
    ensures r.Ok? && input[0] != '(' ==> |r.value| <= |input| && r.value == input[..|r.value|]
    ensures r.Ok? && input[0] != '(' && |r.value| < |input| ==> input[|r.value|] == ','
    ensures r.Err? ==> r.error == IndexOutOfRange
    ensures |input| >= 1 && input[0] != '(' ==> r.Ok?
  {
    var i := BracketScan(input, 0, 0);
    var first :- At(input, 0);
    if first == '(' then
      if i < 2 then Err(IndexOutOfRange) else Ok(input[1..i - 1])
    else Ok(input[..i])
  }

  /** `repeat` copies of `s` separated by commas. */
  function RepeatJoin(s: string, repeat: nat): (r: string)
    ensures repeat == 0 ==> r == ""
    ensures repeat == 1 ==> r == s
  {
    if repeat == 0 then "" else if repeat == 1 then s else s + "," + RepeatJoin(s, repeat - 1)
  }

  /** Expands format controls: a bracketed group at the very start is
      unwrapped and expanded, a repeat count at the start or after a comma
      repeats the following item, and every other character is copied. Only
      the first digit of a count is used; the count's remaining digits are
      skipped. */
  function ExpandFormat(formatControls: string): (r: Result<string>)
    ensures r.Err? ==> r.error == IndexOutOfRange
    decreases |formatControls|, 1
  {
    ExpandFrom(formatControls, 0)
  }

  /** The expansion of `formatControls` from position `src` on. */
  function ExpandFrom(formatControls: string, src: nat): (r: Result<string>)
    requires src <= |formatControls|
    ensures r.Err? ==> r.error == IndexOutOfRange
    decreases |formatControls|, 0, |formatControls| - src
  {
    var fc := formatControls;
    if src == |fc| then Ok("")
    else if (src == 0 || fc[src] == ',') && fc[src] == '(' then
      var contents :- ExtractSubString(fc[src..]);
      var expanded :- ExpandFormat(contents);
      var rest :- ExpandFrom(fc, Clamp(src + |contents| + 3, |fc|));
      Ok(expanded + rest)
    else if (src == 0 || fc[src - 1] == ',') && IsDigit(fc[src]) then
      var repeat := DigitValue(fc[src]);
      var after :- SkipDigits(fc, src);
      var next := fc[after..];
      var contents :- ExtractSubString(next);
      var expanded :- ExpandFormat(contents);
      var resume := if next[0] == '(' then after + |contents| + 3 else after + |contents|;
      var rest :- ExpandFrom(fc, Clamp(resume, |fc|));
      Ok(RepeatJoin(expanded, repeat) + rest)
    else
      var rest :- ExpandFrom(fc, src + 1);
      Ok([fc[src]] + rest)
  }

  function Clamp(i: nat, n: nat): (r: nat)
    ensures r <= n && (i <= n ==> r == i)
  {
    if i < n then i else n
  }

  /** The position of the first non-digit from `src` on; running off the end
      of the string is an index error. */
  function SkipDigits(s: string, src: nat): (r: Result<nat>)
    requires src <= |s|
    ensures r.Ok? ==> src <= r.value < |s| && !IsDigit(s[r.value])
    ensures r.Ok? ==> forall j :: src <= j < r.value ==> IsDigit(s[j])
    ensures r.Err? ==> r.error == IndexOutOfRange && forall j :: src <= j < |s| ==> IsDigit(s[j])
    decreases |s| - src
  {
    if src == |s| then Err(IndexOutOfRange)
    else if IsDigit(s[src]) then SkipDigits(s, src + 1)
    else Ok(src)
  }

  /** Format controls with nothing to expand: no group at the start and no
      repeat count at the start or after a comma. */
  predicate Plain(s: string) {
    && (|s| > 0 ==> s[0] != '(' && !IsDigit(s[0]))
    && forall k :: 0 < k < |s| ==> (s[k - 1] == ',' ==> !IsDigit(s[k]))
  }

  lemma {:induction false} ExpandFromPlain(fc: string, src: nat)
    requires src <= |fc| && Plain(fc)
    ensures ExpandFrom(fc, src) == Ok(fc[src..])
    decreases |fc| - src
  {
    if src < |fc| {
      ExpandFromPlain(fc, src + 1);
      assert fc[src..] == [fc[src]] + fc[src + 1..];
    }
  }

  /** Plain format controls expand to themselves. */
  lemma ExpandPlain(fc: string)
    requires Plain(fc)
    ensures ExpandFormat(fc) == Ok(fc)
  {
    ExpandFromPlain(fc, 0);
  }

  /** Inside brackets the scan passes every comma. */
  lemma {:induction false} ScanInside(input: string, i: nat, end: nat, bracket: int)
    requires i <= end <= |input| && bracket >= 1
    requires Stays(input[i..end], bracket - 1)
    ensures BracketScan(input, i, bracket) == BracketScan(input, end, Net(input[i..end], bracket))
    decreases end - i
  {
    if i < end {
      assert input[i..end][1..] == input[i + 1..end];
      assert input[i..end][0] == input[i];
      ScanInside(input, i + 1, end, bracket + Delta(input[i]));
    } else {
      assert input[i..end] == [];
    }
  }

  /** A bracketed item whose body never closes more brackets than it opens
      is extracted as its body: up to the end of the input, or up to the
      comma after the closing bracket when the body is balanced. */
  lemma ExtractGroup(body: string, tail: string)
    requires Stays(body, 0)
    requires tail == "" || (Net(body, 0) == 0 && tail[0] == ',')
    ensures ExtractSubString("(" + body + ")" + tail) == Ok(body)
  {
    var input := "(" + body + ")" + tail;
    var end := |body| + 1;
    assert input[1..end] == body;
    assert BracketScan(input, 0, 0) == BracketScan(input, 1, 1);
    ScanInside(input, 1, end, 1);
    NetShift(body, 0, 1);
    if tail == "" {
      assert |input| == end + 1;
      assert BracketScan(input, end, Net(body, 1)) == |input|;
      assert input[1..|input| - 1] == body;
    } else {
      assert input[end] == ')';
      assert BracketScan(input, end, 1) == BracketScan(input, end + 1, 0);
      assert input[end + 1] == ',';
      assert input[1..end] == body;
    }
  }

  lemma {:induction false} NetShift(s: string, depth: int, shift: int)
    ensures Net(s, depth + shift) == Net(s, depth) + shift
    decreases |s|
  {
    if |s| > 0 {
      NetShift(s[1..], depth + Delta(s[0]), shift);
    }
  }

  /** Format controls in brackets whose body never closes more brackets
      than it opens and needs no expansion are unwrapped to the body. */
  lemma ExpandBracketedPlain(body: string)
    requires Plain(body) && Stays(body, 0)
    ensures ExpandFormat("(" + body + ")") == Ok(body)
  {
    var fc := "(" + body + ")";
    assert fc == "(" + body + ")" + "";
    ExtractGroup(body, "");
    assert fc[0..] == fc;
    ExpandPlain(body);
    assert Clamp(|body| + 3, |fc|) == |fc|;
    assert ExpandFrom(fc, |fc|) == Ok("");
    assert body + "" == body;
  }

  /** Prefixes a successful expansion. */
  function Prefixed(prefix: string, r: Result<string>): Result<string>
  {
    if r.Ok? then Ok(prefix + r.value) else r
  }

  /** The repeat count of the expander: a run of digits from `src` up to,
      not including, `after`, at the start or just after a comma. */
  predicate CountAt(fc: string, src: nat, after: nat) {
    && src < after < |fc| && (src == 0 || fc[src - 1] == ',')
    && forall j :: src <= j < after ==> IsDigit(fc[j])
  }

  /** The digit skip stops at the first non-digit. */
  lemma {:induction false} SkipDigitsRun(s: string, src: nat, after: nat)
    requires src <= after < |s| && !IsDigit(s[after])
    requires forall j :: src <= j < after ==> IsDigit(s[j])
    ensures SkipDigits(s, src) == Ok(after)
    decreases after - src
  {
    if src < after {
      SkipDigitsRun(s, src + 1, after);
    }
  }

  /** A repeat count before a bracketed balanced item that needs no
      expansion repeats the item as many times as the count's first digit
      says; the count's other digits are skipped. The expansion resumes one
      character after the closing bracket, so the comma that separates the
      next item is dropped. */
  lemma ExpandRepeatedGroup(fc: string, src: nat, after: nat, body: string, tail: string)
    requires CountAt(fc, src, after)
    requires fc[after..] == "(" + body + ")" + tail
    requires Plain(body) && Stays(body, 0) && Net(body, 0) == 0
    requires tail == "" || tail[0] == ','
    ensures ExpandFrom(fc, src)
         == Prefixed(RepeatJoin(body, DigitValue(fc[src])), ExpandFrom(fc, Clamp(after + |body| + 3, |fc|)))
  {
    ExpandPlain(body);
    ExpandRepeatedExpansion(fc, src, after, body, tail, body);
  }

  /** Any character that starts neither a leading group nor a repeat count
      is copied. */
  lemma ExpandCopies(fc: string, src: nat)
    requires src < |fc|
    requires !(src == 0 && fc[src] == '(')
    requires !((src == 0 || fc[src - 1] == ',') && IsDigit(fc[src]))
    ensures ExpandFrom(fc, src) == Prefixed([fc[src]], ExpandFrom(fc, src + 1))
  {
  }

  /** `2(A,B)`: a one-digit count repeats the bracketed item. */
  lemma ExpandRepeatExample()
    ensures ExpandFormat("2(A,B)") == Ok("A,B,A,B")
  {
    var fc := "2(A,B)";
    assert fc[1..] == "(" + "A,B" + ")" + "";
    ExpandRepeatedGroup(fc, 0, 1, "A,B", "");
    assert fc[0] == '2' && DigitValue('2') == 2 && Clamp(7, 6) == 6;
    assert ExpandFrom(fc, 6) == Ok("");
    TwoCopies();
    assert "A,B,A,B" + "" == "A,B,A,B";
    assert ExpandFormat(fc) == ExpandFrom(fc, 0);
  }

  /** `(2(A,B))`: the outer group is unwrapped before the repeat count
      applies. */
  lemma ExpandGroupedRepeatExample()
    ensures ExpandFormat("(2(A,B))") == Ok("A,B,A,B")
  {
    var fc := "(2(A,B))";
    var inner := "2(A,B)";
    RepeatGroupStays();
    assert fc == "(" + inner + ")" + "";
    ExtractGroup(inner, "");
    assert fc[0..] == fc;
    ExpandRepeatExample();
    assert Clamp(9, 8) == 8;
    assert ExpandFrom(fc, 8) == Ok("");
    assert "A,B,A,B" + "" == "A,B,A,B";
    assert ExpandFormat(fc) == ExpandFrom(fc, 0);
  }

  lemma RepeatGroupStays()
    ensures Stays("2(A,B)", 0)
  {
    assert Stays(")", 1);
    assert Stays("B)", 1) by { assert "B)"[1..] == ")"; }
    assert Stays(",B)", 1) by { assert ",B)"[1..] == "B)"; }
    assert Stays("A,B)", 1) by { assert "A,B)"[1..] == ",B)"; }
    assert Stays("(A,B)", 0) by { assert "(A,B)"[1..] == "A,B)"; }
    assert "2(A,B)"[1..] == "(A,B)";
  }

  /** `2(A,B),I`: the comma after a parenthesised repeat is skipped, so the
      next format is glued to the last copy. */
  lemma ExpandSkipsCommaExample()
    ensures ExpandFormat("2(A,B),I") == Ok("A,B,A,BI")
  {
    var fc := "2(A,B),I";
    assert fc[1..] == "(" + "A,B" + ")" + ",I";
    ExpandRepeatedGroup(fc, 0, 1, "A,B", ",I");
    assert fc[0] == '2' && DigitValue('2') == 2 && Clamp(7, 8) == 7;
    TrailingFormatCopied();
    TwoCopies();
    assert ExpandFrom(fc, 0) == Prefixed("A,B,A,B", Ok("I"));
    assert "A,B,A,B" + "I" == "A,B,A,BI";
    assert ExpandFormat(fc) == ExpandFrom(fc, 0);
  }

  lemma TwoCopies()
    ensures RepeatJoin("A,B", 2) == "A,B,A,B"
  {
    assert RepeatJoin("A,B", 1) == "A,B";
  }

  lemma TrailingFormatCopied()
    ensures ExpandFrom("2(A,B),I", 7) == Ok("I")
  {
    var fc := "2(A,B),I";
    assert ExpandFrom(fc, 8) == Ok("");
    assert fc[6] == ',' && fc[7] == 'I';
    ExpandCopies(fc, 7);
    assert [fc[7]] + "" == "I";
  }

  lemma InnerGroupBody()
    ensures Stays("A,(I,R)", 0)
  {
    assert Stays(")", 1);
    assert Stays("R)", 1) by { assert "R)"[1..] == ")"; }
    assert Stays(",R)", 1) by { assert ",R)"[1..] == "R)"; }
    assert Stays("I,R)", 1) by { assert "I,R)"[1..] == ",R)"; }
    assert Stays("(I,R)", 0) by { assert "(I,R)"[1..] == "I,R)"; }
    assert Stays(",(I,R)", 0) by { assert ",(I,R)"[1..] == "(I,R)"; }
    assert "A,(I,R)"[1..] == ",(I,R)";
  }

  lemma InnerGroupPlain()
    ensures Plain("A,(I,R)")
  {
    var body := "A,(I,R)";
    assert body[0] == 'A' && body[1] == ',' && body[2] == '(' && body[3] == 'I';
    assert body[4] == ',' && body[5] == 'R' && body[6] == ')';
    forall k | 0 < k < |body| ensures body[k - 1] == ',' ==> !IsDigit(body[k]) {
      assert k in {1, 2, 3, 4, 5, 6};
    }
  }

  /** `(A,(I,R))`: a group that does not start the string is copied as it
      stands, brackets included. */
  lemma ExpandInnerGroupExample()
    ensures ExpandFormat("(A,(I,R))") == Ok("A,(I,R)")
  {
    InnerGroupBody();
    InnerGroupPlain();
    ExpandBracketedPlain("A,(I,R)");
    assert "(A,(I,R))" == "(" + "A,(I,R)" + ")";
  }

  /** `(2(3A))`: counts nest, whether or not the repeated item is in
      brackets, giving six copies of `A`. */
  lemma ExpandNestedRepeatExample()
    ensures ExpandFormat("(2(3A))") == Ok("A,A,A,A,A,A")
  {
    var fc := "(2(3A))";
    NestedRepeatStays();
    assert fc == "(" + "2(3A)" + ")" + "";
    ExtractGroup("2(3A)", "");
    assert fc[0..] == fc;
    ExpandTwoGroupsOfThree();
    assert Clamp(8, 7) == 7 && ExpandFrom(fc, 7) == Ok("");
    assert "A,A,A,A,A,A" + "" == "A,A,A,A,A,A";
    assert ExpandFormat(fc) == ExpandFrom(fc, 0);
  }

  lemma NestedRepeatStays()
    ensures Stays("2(3A)", 0)
  {
    assert Stays(")", 1);
    assert Stays("A)", 1) by { assert "A)"[1..] == ")"; }
    assert Stays("3A)", 1) by { assert "3A)"[1..] == "A)"; }
    assert Stays("(3A)", 0) by { assert "(3A)"[1..] == "3A)"; }
    assert "2(3A)"[1..] == "(3A)";
  }

  lemma ExpandTwoGroupsOfThree()
    ensures ExpandFormat("2(3A)") == Ok("A,A,A,A,A,A")
  {
    assert Stays("3A", 0) by { assert "3A"[1..] == "A" && "A"[1..] == ""; }
    ExpandThreeA();
    ExpandCountedGroup("2", "3A", "A,A,A");
    assert "2(3A)" == "2" + "(" + "3A" + ")";
    SixCopies();
  }

  /** Format controls that are a repeat count and a bracketed item expand
      to as many copies of the item's expansion as the count's first digit
      says. */
  lemma ExpandCountedGroup(count: string, body: string, expanded: string)
    requires |count| >= 1 && AllDigits(count)
    requires Stays(body, 0) && ExpandFormat(body) == Ok(expanded)
    ensures ExpandFormat(count + "(" + body + ")") == Ok(RepeatJoin(expanded, DigitValue(count[0])))
  {
    var fc := count + "(" + body + ")";
    assert fc[|count|..] == "(" + body + ")" + "";
    assert forall j :: 0 <= j < |count| ==> fc[j] == count[j];
    ExpandRepeatedExpansion(fc, 0, |count|, body, "", expanded);
    assert Clamp(|count| + |body| + 3, |fc|) == |fc|;
    assert ExpandFrom(fc, |fc|) == Ok("");
    assert RepeatJoin(expanded, DigitValue(count[0])) + "" == RepeatJoin(expanded, DigitValue(count[0]));
    assert ExpandFormat(fc) == ExpandFrom(fc, 0);
  }

  /** `12(A)`: only the first digit of a count is used, so the item is
      copied once. */
  lemma ExpandMultiDigitCountExample()
    ensures ExpandFormat("12(A)") == Ok("A")
  {
    assert Stays("A", 0) by { assert "A"[1..] == ""; }
    ExpandPlain("A");
    ExpandCountedGroup("12", "A", "A");
    assert "12(A)" == "12" + "(" + "A" + ")";
    assert DigitValue('1') == 1;
  }

  /** `30A`: the digit after the first is skipped, not multiplied in. */
  lemma ExpandSkippedDigitExample()
    ensures ExpandFormat("30A") == Ok("A,A,A")
  {
    var fc := "30A";
    assert fc[2..] == ['A'] + "";
    ExpandRepeatedChar(fc, 0, 2, 'A', "");
    assert fc[0] == '3' && DigitValue('3') == 3;
    assert ExpandFrom(fc, 3) == Ok("");
    ThreeCopies();
    assert "A,A,A" + "" == "A,A,A";
    assert ExpandFrom(fc, 0) == Prefixed("A,A,A", Ok(""));
    assert ExpandFormat(fc) == ExpandFrom(fc, 0);
  }

  lemma ThreeCopies()
    ensures RepeatJoin("A", 3) == "A,A,A"
  {
    assert RepeatJoin("A", 1) == "A" && RepeatJoin("A", 2) == "A,A";
  }

  lemma SixCopies()
    ensures RepeatJoin("A,A,A", 2) == "A,A,A,A,A,A"
  {
    var three := "A,A,A";
    assert RepeatJoin(three, 1) == three;
    var six := three + "," + three;
    assert |six| == 11;
    forall k | 0 <= k < 11 ensures six[k] == (if k % 2 == 0 then 'A' else ',') {
      if k < 5 { assert six[k] == three[k]; }
      else if k > 5 { assert six[k] == three[k - 6]; }
    }
  }

  lemma ExpandThreeA()
    ensures ExpandFormat("3A") == Ok("A,A,A")
  {
    var fc := "3A";
    assert fc[1..] == ['A'] + "";
    ExpandRepeatedChar(fc, 0, 1, 'A', "");
    assert fc[0] == '3' && DigitValue('3') == 3;
    assert ExpandFrom(fc, 2) == Ok("");
    ThreeCopies();
    assert "A,A,A" + "" == "A,A,A";
    assert ExpandFrom(fc, 0) == Prefixed("A,A,A", Ok(""));
    assert ExpandFormat(fc) == ExpandFrom(fc, 0);
  }

  /** A repeat count before a bracketed item repeats the item's own
      expansion as many times as the count's first digit says. */
  lemma ExpandRepeatedExpansion(fc: string, src: nat, after: nat, body: string, tail: string, expanded: string)
    requires CountAt(fc, src, after)
    requires fc[after..] == "(" + body + ")" + tail
    requires Stays(body, 0) && ExpandFormat(body) == Ok(expanded)
    requires tail == "" || (Net(body, 0) == 0 && tail[0] == ',')
    ensures ExpandFrom(fc, src)
         == Prefixed(RepeatJoin(expanded, DigitValue(fc[src])), ExpandFrom(fc, Clamp(after + |body| + 3, |fc|)))
  {
    assert fc[after] == '(';
    SkipDigitsRun(fc, src, after);
    ExtractGroup(body, tail);
  }

  /** A repeat count before a single plain character repeats the character
      as many times as the count's first digit says, and the expansion
      resumes right after it. */
  lemma ExpandRepeatedChar(fc: string, src: nat, after: nat, c: char, tail: string)
    requires CountAt(fc, src, after)
    requires fc[after..] == [c] + tail
    requires c != '(' && c != ')' && c != ',' && !IsDigit(c)
    requires tail == "" || tail[0] == ','
    ensures ExpandFrom(fc, src)
         == Prefixed(RepeatJoin([c], DigitValue(fc[src])), ExpandFrom(fc, after + 1))
  {
    var next := [c] + tail;
    assert fc[after] == c;
    SkipDigitsRun(fc, src, after);
    assert BracketScan(next, 0, 0) == BracketScan(next, 1, 0);
    assert BracketScan(next, 1, 0) == 1;
    assert next[..1] == [c];
    ExpandPlain([c]);
  }

  // ---------------------------------------------------------------------
  // Applying the formats
  // ---------------------------------------------------------------------

  /** Applies the k-th format token to the k-th subfield, in order; running
      out of tokens is an index error. */
  function SetFormats(subfields: seq<SubfieldDefinition>, tokens: seq<string>): (r: Result<seq<SubfieldDefinition>>)
    ensures r.Ok? ==> |r.value| == |subfields| && |subfields| <= |tokens|
    ensures r.Ok? ==> forall k :: 0 <= k < |subfields| ==> SetFormat(subfields[k], tokens[k]) == Ok(r.value[k])
    ensures |subfields| <= |tokens| && (forall k :: 0 <= k < |subfields| ==> SetFormat(subfields[k], tokens[k]).Ok?)
            ==> r.Ok?
    ensures |tokens| < |subfields| && (forall k :: 0 <= k < |tokens| ==> SetFormat(subfields[k], tokens[k]).Ok?)
            ==> r == Err(IndexOutOfRange)
    ensures r.Err? ==> r.error == IndexOutOfRange || FormatError(r.error)
    decreases |subfields|
  {
    if |subfields| == 0 then Ok([])
    else
      var token :- At(tokens, 0);
      var first :- SetFormat(subfields[0], token);
      var rest :- SetFormats(subfields[1..], tokens[1..]);
      Ok([first] + rest)
  }

  /** The fixed width as the loop over the subfields computes it: widths
      are added up until a subfield of width 0 sets the total to 0 and stops
      the loop. */
  function FixedWidthFrom(subfields: seq<SubfieldDefinition>, i: nat, total: int): int
    requires i <= |subfields|
    decreases |subfields| - i
  {
    if i == |subfields| then total
    else if subfields[i].formatWidth == 0 then 0
    else FixedWidthFrom(subfields, i + 1, total + subfields[i].formatWidth)
  }

  function FixedWidth(subfields: seq<SubfieldDefinition>): int
  {
    FixedWidthFrom(subfields, 0, 0)
  }

  function SumWidths(subfields: seq<SubfieldDefinition>): int
    decreases |subfields|
  {
    if |subfields| == 0 then 0 else subfields[0].formatWidth + SumWidths(subfields[1..])
  }

  predicate HasVariableWidth(subfields: seq<SubfieldDefinition>) {
    exists k :: 0 <= k < |subfields| && subfields[k].formatWidth == 0
  }

  lemma {:induction false} FixedWidthFromIsSum(subfields: seq<SubfieldDefinition>, i: nat, total: int)
    requires i <= |subfields|
    ensures FixedWidthFrom(subfields, i, total)
         == if HasVariableWidth(subfields[i..]) then 0 else total + SumWidths(subfields[i..])
    decreases |subfields| - i
  {
    var tail := subfields[i..];
    if i < |subfields| {
      assert tail[0] == subfields[i];
      assert tail[1..] == subfields[i + 1..];
      if subfields[i].formatWidth != 0 {
        FixedWidthFromIsSum(subfields, i + 1, total + subfields[i].formatWidth);
        if HasVariableWidth(tail) {
          var k :| 0 <= k < |tail| && tail[k].formatWidth == 0;
          assert tail[1..][k - 1] == tail[k];
        }
        if HasVariableWidth(tail[1..]) {
          var k :| 0 <= k < |tail[1..]| && tail[1..][k].formatWidth == 0;
          assert tail[k + 1] == tail[1..][k];
        }
      } else {
        assert tail[0].formatWidth == 0;
      }
    } else {
      assert tail == [];
    }
  }

  /** A field is fixed-width exactly when every subfield is: its width is
      then the sum of the subfield widths, and 0 otherwise. */
  lemma FixedWidthIsSum(subfields: seq<SubfieldDefinition>)
    ensures FixedWidth(subfields) == if HasVariableWidth(subfields) then 0 else SumWidths(subfields)
  {
    FixedWidthFromIsSum(subfields, 0, 0);
    assert subfields[0..] == subfields;
  }

  /** True when format controls are enclosed in brackets. */
  predicate Bracketed(formatControls: string) {
    |formatControls| >= 2 && formatControls[0] == '(' && formatControls[|formatControls| - 1] == ')'
  }

  /** The formatted subfields and the field's fixed width. */
  datatype Formatted = Formatted(subfields: seq<SubfieldDefinition>, fixedWidth: int)

  /** Checks the brackets, expands the format controls, splits them at
      commas and gives each subfield its token; there must be exactly one
      token per subfield. */
  function ApplyFormats(formatControls: string, subfields: seq<SubfieldDefinition>): (r: Result<Formatted>)
    ensures !Bracketed(formatControls) <==> r == Err(FormatControlsMissingBrackets)
    ensures r.Ok? ==> ExpandFormat(formatControls).Ok?
    ensures r.Ok? ==>
      var tokens := Split(ExpandFormat(formatControls).value, ',');
      && |tokens| == |subfields| == |r.value.subfields|
      && forall k :: 0 <= k < |subfields| ==> SetFormat(subfields[k], tokens[k]) == Ok(r.value.subfields[k])
    ensures (Bracketed(formatControls) && ExpandFormat(formatControls).Ok?
             && |Split(ExpandFormat(formatControls).value, ',')| > |subfields|) ==> r == Err(TooManyFormats)
    ensures r.Ok? ==> r.value.fixedWidth == FixedWidth(r.value.subfields)
  {
    if !Bracketed(formatControls) then Err(FormatControlsMissingBrackets)
    else
      var expanded :- ExpandFormat(formatControls);
      var tokens := Split(expanded, ',');
      if |tokens| > |subfields| then Err(TooManyFormats)
      else
        var formatted :- SetFormats(subfields, tokens);
        Ok(Formatted(formatted, FixedWidth(formatted)))
  }

  /** Format controls that list one plain token per subfield, in brackets,
      give each subfield its token. */
  lemma ApplyPlainFormats(tokens: seq<string>, subfields: seq<SubfieldDefinition>)
    requires |tokens| == |subfields| >= 1
    requires forall k :: 0 <= k < |tokens| ==> ',' !in tokens[k]
    requires Plain(Join(tokens, ',')) && Stays(Join(tokens, ','), 0)
    ensures ApplyFormats("(" + Join(tokens, ',') + ")", subfields)
         == (var f :- SetFormats(subfields, tokens); Ok(Formatted(f, FixedWidth(f))))
  {
    var body := Join(tokens, ',');
    ExpandBracketedPlain(body);
    SplitJoin(tokens, ',');
    var fc := "(" + body + ")";
    assert fc[0] == '(' && fc[|fc| - 1] == ')';
  }

  // ---------------------------------------------------------------------
  // The definition entry
  // ---------------------------------------------------------------------

  /** The three strings of a field-definition entry. */
  datatype EntryTexts = EntryTexts(name: string, description: string, formats: string)

  /** Reads the name, array descriptor and format controls that follow the
      field controls, each up to a unit or field terminator and within what
      is left of the entry's `size`. */
  function ReadEntryTexts(record: seq<char>, offset: int, size: int, start: int): (r: Result<EntryTexts>)
    ensures r.Ok? ==> Undelimited(r.value.name) && Undelimited(r.value.description) && Undelimited(r.value.formats)
    ensures r.Err? ==> r.error == IndexOutOfRange
  {
    var name :- ReadText(record, offset, size, start);
    var rest :- ReadDescriptionAndFormats(record, offset, size, start + name.consumed);
    Ok(EntryTexts(name.text, rest.0, rest.1))
  }

  /** The array descriptor and the format controls, from `at` on. */
  function ReadDescriptionAndFormats(record: seq<char>, offset: int, size: int, at: int): (r: Result<(string, string)>)
    ensures r.Ok? ==> Undelimited(r.value.0) && Undelimited(r.value.1)
    ensures r.Err? ==> r.error == IndexOutOfRange
  {
    var description :- ReadText(record, offset, size, at);
    var formats :- ReadText(record, offset, size, at + description.consumed);
    Ok((description.text, formats.text))
  }

  /** One terminated string of an entry, `at` characters into it. */
  function ReadText(record: seq<char>, offset: int, size: int, at: int): (r: Result<Scanned>)
    ensures r.Ok? ==> Undelimited(r.value.text)
    ensures r.Err? ==> r.error == IndexOutOfRange
  {
    ReadStringFromBuffer(record, offset + at, size - at, UnitTerminator, FieldTerminator)
  }

  /** Decodes one field definition from the data descriptive record: the
      two field-control codes at `offset`, then the field name, the array
      descriptor and the format controls, each ending at a unit or field
      terminator; subfields are built only for non-elementary fields. */
  function Initialize(leader: Leader, tag: string, size: int, record: seq<char>, offset: int): (r: Result<FieldDefinition>)
    ensures r.Ok? ==> r.value.tag == tag
    ensures r.Ok? ==> 0 <= offset && offset + 1 < |record|
    ensures r.Ok? ==> DataStructCodeOf(record[offset]) == Ok(r.value.dataStructCode)
    ensures r.Ok? ==> record[offset + 1] in " 0123456"
    ensures 0 <= offset < |record| && record[offset] !in " 0123" ==>
      r == Err(UnrecognisedDataStructCode(record[offset]))
    ensures r.Ok? ==> UnitTerminator !in r.value.fieldName && FieldTerminator !in r.value.fieldName
    ensures r.Ok? ==> UnitTerminator !in r.value.arrayDescription && FieldTerminator !in r.value.arrayDescription
    ensures r.Ok? ==> UnitTerminator !in r.value.formatControls && FieldTerminator !in r.value.formatControls
    ensures r.Ok? && r.value.dataStructCode == Elementary ==>
      r.value.subfieldDefinitions == [] && !r.value.repeatingSubfields && r.value.fixedWidth == 0
    ensures r.Ok? && r.value.dataStructCode != Elementary ==>
      && BuildSubfields(r.value.arrayDescription).Ok?
      && r.value.repeatingSubfields == ('*' in r.value.arrayDescription)
      && ApplyFormats(r.value.formatControls, BuildSubfields(r.value.arrayDescription).value.0)
         == Ok(Formatted(r.value.subfieldDefinitions, r.value.fixedWidth))
  {
    var structCode :- At(record, offset);
    var dataStructCode :- DataStructCodeOf(structCode);
    var typeCode :- At(record, offset + 1);
    var checked :- CheckDataTypeCode(typeCode);
    var texts :- ReadEntryTexts(record, offset, size, leader.fieldControlLength);
    var definition := FieldDefinition(tag, texts.name, texts.description, texts.formats, dataStructCode, [], 0, false);
    if dataStructCode == Elementary then Ok(definition)
    else
      var built :- BuildSubfields(texts.description);
      var formatted :- ApplyFormats(texts.formats, built.0);
      Ok(definition.(subfieldDefinitions := formatted.subfields, fixedWidth := formatted.fixedWidth,
                     repeatingSubfields := built.1))
  }

  predicate Undelimited(s: string) {
    UnitTerminator !in s && FieldTerminator !in s
  }

  /** `text` sits at `at` in `record`, closed by a unit or field
      terminator. */
  predicate TerminatedAt(record: seq<char>, at: int, text: string) {
    && 0 <= at && at + |text| < |record| && record[at..at + |text|] == text
    && (record[at + |text|] == UnitTerminator || record[at + |text|] == FieldTerminator)
  }

  /** A field-definition entry at `offset`: after `start` characters of
      field controls come the name, the array descriptor and the format
      controls, each closed by a terminator, all within `size`. */
  predicate EntryLayout(record: seq<char>, offset: int, size: int, start: int,
                        name: string, description: string, formats: string) {
    && 0 <= start
    && Undelimited(name) && Undelimited(description) && Undelimited(formats)
    && start + |name| + |description| + |formats| + 3 <= size
    && TerminatedAt(record, offset + start, name)
    && TerminatedAt(record, offset + start + |name| + 1, description)
    && TerminatedAt(record, offset + start + |name| + |description| + 2, formats)
  }

  /** A terminated string inside the budget reads back whole, its
      terminator consumed with it. */
  lemma ReadTerminated(record: seq<char>, offset: int, size: int, at: int, text: string)
    requires Undelimited(text) && TerminatedAt(record, offset + at, text) && |text| < size - at
    ensures ReadText(record, offset, size, at) == Ok(Scanned(text, |text| + 1))
  {
    forall j | 0 <= j < |text| ensures !IsDelimiter(text[j], UnitTerminator, FieldTerminator) {
      assert text[j] in text;
    }
    ReadStringFromBufferDelimited(record, offset + at, size - at, text, UnitTerminator, FieldTerminator);
  }

  lemma ReadEntryTail(record: seq<char>, offset: int, size: int, start: int,
                      name: string, description: string, formats: string)
    requires EntryLayout(record, offset, size, start, name, description, formats)
    ensures ReadDescriptionAndFormats(record, offset, size, start + |name| + 1) == Ok((description, formats))
  {
    ReadTailTexts(record, offset, size, start, name, description, formats);
    ReadDescriptionAndFormatsOf(record, offset, size, start + |name| + 1, description, formats);
  }

  /** The array descriptor and the format controls of a laid-out entry
      each read back whole. */
  lemma ReadTailTexts(record: seq<char>, offset: int, size: int, start: int,
                      name: string, description: string, formats: string)
    requires EntryLayout(record, offset, size, start, name, description, formats)
    ensures ReadText(record, offset, size, start + |name| + 1) == Ok(Scanned(description, |description| + 1))
    ensures ReadText(record, offset, size, start + |name| + 1 + (|description| + 1))
         == Ok(Scanned(formats, |formats| + 1))
  {
    ReadDescriptionText(record, offset, size, start, name, description, formats);
    ReadFormatsText(record, offset, size, start, name, description, formats);
  }

  lemma ReadDescriptionText(record: seq<char>, offset: int, size: int, start: int,
                            name: string, description: string, formats: string)
    requires EntryLayout(record, offset, size, start, name, description, formats)
    ensures ReadText(record, offset, size, start + |name| + 1) == Ok(Scanned(description, |description| + 1))
  {
    ReadTerminated(record, offset, size, start + |name| + 1, description);
  }

  lemma ReadFormatsText(record: seq<char>, offset: int, size: int, start: int,
                        name: string, description: string, formats: string)
    requires EntryLayout(record, offset, size, start, name, description, formats)
    ensures ReadText(record, offset, size, start + |name| + 1 + (|description| + 1))
         == Ok(Scanned(formats, |formats| + 1))
  {
    ReadTerminated(record, offset, size, start + |name| + 1 + (|description| + 1), formats);
  }

  lemma ReadDescriptionAndFormatsOf(record: seq<char>, offset: int, size: int, at: int,
                                    description: string, formats: string)
    requires ReadText(record, offset, size, at) == Ok(Scanned(description, |description| + 1))
    requires ReadText(record, offset, size, at + (|description| + 1)) == Ok(Scanned(formats, |formats| + 1))
    ensures ReadDescriptionAndFormats(record, offset, size, at) == Ok((description, formats))
  {
  }

  /** The three strings of a laid-out entry read back. */
  lemma ReadEntryLayout(record: seq<char>, offset: int, size: int, start: int,
                        name: string, description: string, formats: string)
    requires EntryLayout(record, offset, size, start, name, description, formats)
    ensures ReadEntryTexts(record, offset, size, start) == Ok(EntryTexts(name, description, formats))
  {
    ReadNameText(record, offset, size, start, name, description, formats);
    ReadEntryTail(record, offset, size, start, name, description, formats);
    ReadEntryTextsOf(record, offset, size, start, name, description, formats);
  }

  lemma ReadNameText(record: seq<char>, offset: int, size: int, start: int,
                     name: string, description: string, formats: string)
    requires EntryLayout(record, offset, size, start, name, description, formats)
    ensures ReadText(record, offset, size, start) == Ok(Scanned(name, |name| + 1))
  {
    ReadTerminated(record, offset, size, start, name);
  }

  lemma ReadEntryTextsOf(record: seq<char>, offset: int, size: int, start: int,
                         name: string, description: string, formats: string)
    requires ReadText(record, offset, size, start) == Ok(Scanned(name, |name| + 1))
    requires ReadDescriptionAndFormats(record, offset, size, start + |name| + 1) == Ok((description, formats))
    ensures ReadEntryTexts(record, offset, size, start) == Ok(EntryTexts(name, description, formats))
  {
  }

  /** A laid-out entry decodes to its name, array descriptor and format
      controls: with no subfields when the structure code is elementary,
      and otherwise exactly when its subfields can be built and formatted. */
  lemma InitializeLayout(leader: Leader, tag: string, size: int, record: seq<char>, offset: int,
                         name: string, description: string, formats: string)
    requires 0 <= offset && offset + 1 < |record|
    requires record[offset] in " 0123" && record[offset + 1] in " 0123456"
    requires EntryLayout(record, offset, size, leader.fieldControlLength, name, description, formats)
    ensures record[offset] in " 0" ==>
      Initialize(leader, tag, size, record, offset)
      == Ok(FieldDefinition(tag, name, description, formats, Elementary, [], 0, false))
    ensures record[offset] !in " 0" ==>
      (Initialize(leader, tag, size, record, offset).Ok?
       <==> |description| > 0 && ApplyFormats(formats, BuildSubfields(description).value.0).Ok?)
    ensures Initialize(leader, tag, size, record, offset).Ok? ==>
      var d := Initialize(leader, tag, size, record, offset).value;
      d.fieldName == name && d.arrayDescription == description && d.formatControls == formats
  {
    ReadEntryLayout(record, offset, size, leader.fieldControlLength, name, description, formats);
  }

  /** The text of a field-definition entry: field controls, then the name,
      array descriptor and format controls closed by unit terminators and a
      field terminator. */
  function DefinitionEntry(controls: string, name: string, description: string, formats: string): string
  {
    controls + name + [UnitTerminator] + description + [UnitTerminator] + formats + [FieldTerminator]
  }

  /** A written entry has the layout the decoder reads. */
  lemma DefinitionEntryLayout(controls: string, name: string, description: string, formats: string)
    requires Undelimited(name) && Undelimited(description) && Undelimited(formats)
    ensures var entry := DefinitionEntry(controls, name, description, formats);
      EntryLayout(entry, 0, |entry|, |controls|, name, description, formats)
  {
    var entry := DefinitionEntry(controls, name, description, formats);
    var a := |controls|;
    var b := a + |name| + 1;
    var c := b + |description| + 1;
    assert entry[a..a + |name|] == name;
    assert entry[a + |name|] == UnitTerminator;
    assert entry[b..b + |description|] == description;
    assert entry[b + |description|] == UnitTerminator;
    assert entry[c..c + |formats|] == formats;
    assert entry[c + |formats|] == FieldTerminator;
  }

  /** A written elementary field-definition entry decodes to its name, array
      descriptor and format controls. */
  lemma ElementaryEntryRoundTrip(leader: Leader, tag: string, controls: string, name: string,
                                 description: string, formats: string)
    requires |controls| == leader.fieldControlLength >= 2
    requires controls[0] in " 0" && controls[1] in " 0123456"
    requires Undelimited(name) && Undelimited(description) && Undelimited(formats)
    ensures var entry := DefinitionEntry(controls, name, description, formats);
      Initialize(leader, tag, |entry|, entry, 0)
      == Ok(FieldDefinition(tag, name, description, formats, Elementary, [], 0, false))
  {
    var entry := DefinitionEntry(controls, name, description, formats);
    DefinitionEntryLayout(controls, name, description, formats);
    assert entry[0] == controls[0] && entry[1] == controls[1];
    InitializeLayout(leader, tag, |entry|, entry, 0, name, description, formats);
  }
}
