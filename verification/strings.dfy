/** The pieces of the .NET string and LINQ libraries the decoder relies on,
    with their clamping and splitting behaviour spelt out. */
module Strings {
  import opened Results

  /** A checked array read: `s[i]`, or the `IndexOutOfRangeException` it raises. */
  function At<T>(s: seq<T>, i: int): (r: Result<T>)
    ensures r.Ok? <==> 0 <= i < |s|
    ensures r.Ok? ==> r.value == s[i]
    ensures r.Err? ==> r.error == IndexOutOfRange
  {
    if 0 <= i < |s| then Ok(s[i]) else Err(IndexOutOfRange)
  }

  /** `Enumerable.Skip`: a count at or below zero drops nothing, one past the
      end drops everything; it never fails. */
  function Skip<T>(s: seq<T>, n: int): seq<T>
  {
    if n <= 0 then s else if n >= |s| then [] else s[n..]
  }

  /** `Enumerable.Take`: a count at or below zero takes nothing, one past the
      end takes everything; it never fails. */
  function Take<T>(s: seq<T>, n: int): seq<T>
  {
    if n <= 0 then [] else if n >= |s| then s else s[..n]
  }

  /** `String.LastIndexOf(char)`: the last position of `c`, or -1. */
  function LastIndexOf(s: string, c: char): (r: int)
    ensures -1 <= r < |s|
    ensures r >= 0 ==> s[r] == c
    ensures forall j :: r < j < |s| ==> s[j] != c
    ensures r == -1 <==> c !in s
    decreases |s|
  {
    if |s| == 0 then -1
    else if s[|s| - 1] == c then |s| - 1
    else LastIndexOf(s[..|s| - 1], c)
  }

  /** `String.Split(char)`: the pieces between occurrences of `sep`, empty
      pieces included, so there is always at least one. */
  function Split(s: string, sep: char): (r: seq<string>)
    ensures |r| >= 1
    ensures forall k :: 0 <= k < |r| ==> sep !in r[k]
    ensures Join(r, sep) == s
    decreases |s|
  {
    if |s| == 0 then [""]
    else
      var rest := Split(s[1..], sep);
      if s[0] == sep then [""] + rest
      else [[s[0]] + rest[0]] + rest[1..]
  }

  /** `String.Join`: the pieces with one `sep` between neighbours. */
  function Join(parts: seq<string>, sep: char): string
    decreases |parts|
  {
    if |parts| == 0 then ""
    else if |parts| == 1 then parts[0]
    else parts[0] + [sep] + Join(parts[1..], sep)
  }

  /** Number of occurrences of `c` in `s`. */
  function Occurrences(s: string, c: char): nat
    decreases |s|
  {
    if |s| == 0 then 0
    else (if s[0] == c then 1 else 0) + Occurrences(s[1..], c)
  }

  /** Splitting the joined pieces gives the pieces back, provided none of
      them contains the separator. */
  lemma {:induction false} SplitJoin(parts: seq<string>, sep: char)
    requires |parts| >= 1
    requires forall k :: 0 <= k < |parts| ==> sep !in parts[k]
    ensures Split(Join(parts, sep), sep) == parts
    decreases |parts|, |parts[0]|
  {
    if |parts| == 1 {
      SplitWithoutSeparator(parts[0], sep);
    } else if |parts[0]| == 0 {
      var tail := Join(parts[1..], sep);
      assert Join(parts, sep) == [sep] + tail;
      SplitAtSeparator(tail, sep);
      SplitJoin(parts[1..], sep);
      assert [""] + parts[1..] == parts;
    } else {
      var first := parts[0];
      var shorter := [first[1..]] + parts[1..];
      JoinShift(parts, sep);
      SplitJoin(shorter, sep);
      SplitAtOther(first[0], Join(shorter, sep), sep);
      assert [first[0]] + first[1..] == first;
      assert [[first[0]] + shorter[0]] + shorter[1..] == parts;
    }
  }

  lemma SplitAtSeparator(tail: string, sep: char)
    ensures Split([sep] + tail, sep) == [""] + Split(tail, sep)
  {
    assert ([sep] + tail)[1..] == tail;
  }

  lemma SplitAtOther(c: char, tail: string, sep: char)
    requires c != sep
    ensures Split([c] + tail, sep) == [[c] + Split(tail, sep)[0]] + Split(tail, sep)[1..]
  {
    assert ([c] + tail)[1..] == tail;
  }

  /** Moving the first character of the first piece out of the join. */
  lemma JoinShift(parts: seq<string>, sep: char)
    requires |parts| >= 2 && |parts[0]| > 0
    ensures Join(parts, sep) == [parts[0][0]] + Join([parts[0][1..]] + parts[1..], sep)
  {
    var first := parts[0];
    var shorter := [first[1..]] + parts[1..];
    assert shorter[1..] == parts[1..];
    assert Join(shorter, sep) == first[1..] + [sep] + Join(parts[1..], sep);
    assert Join(parts, sep) == first + [sep] + Join(parts[1..], sep);
    assert first == [first[0]] + first[1..];
  }

  lemma {:induction false} SplitWithoutSeparator(s: string, sep: char)
    requires sep !in s
    ensures Split(s, sep) == [s]
    decreases |s|
  {
    if |s| > 0 {
      SplitWithoutSeparator(s[1..], sep);
      assert [s[0]] + s[1..] == s;
    }
  }

  /** Splitting yields one more piece than there are separators. */
  lemma {:induction false} SplitCount(s: string, sep: char)
    ensures |Split(s, sep)| == Occurrences(s, sep) + 1
    decreases |s|
  {
    if |s| > 0 {
      SplitCount(s[1..], sep);
    }
  }

  /** `s` padded on the right with NUL characters to length `n`: the content
      of a freshly allocated `char[n]` after the first `|s|` slots are
      written. */
  function PadWithNul(s: string, n: nat): (r: string)
    requires |s| <= n
    ensures |r| == n
    ensures r[..|s|] == s
    ensures forall j :: |s| <= j < n ==> r[j] == 0 as char
  {
    s + seq(n - |s|, _ => 0 as char)
  }

  /** The next `n` characters of `input`, NUL-padded if the input runs out,
      and the input that remains: a blocking read of `n` single-byte
      characters into a fresh buffer. */
  function ReadChars(input: string, n: nat): (r: (string, string))
    ensures |r.0| == n
    ensures n <= |input| ==> r.0 == input[..n] && r.1 == input[n..]
    ensures |input| < n ==> r.0[..|input|] == input && r.1 == []
  {
    var k := if n <= |input| then n else |input|;
    (PadWithNul(input[..k], n), input[k..])
  }
}
