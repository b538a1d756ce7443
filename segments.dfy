/**
  The UNA "service string advice" of a UN/EDIFACT interchange (ISO 9735-1):
  a 9-character header line whose characters 3 to 8 declare the six service
  characters used in the rest of the document.
 */
module Segments {

  /** The descriptor read from a UNA line: one field per service character. */
  datatype Una = Una(
    compositeElementDelimiter: char,
    dataElementDelimiter: char,
    decimalComma: char,
    escapeCharacter: char,
    reservedSpace: char,
    segmentDelimiter: char)

  datatype Result<+T, +E> = Ok(value: T) | Err(error: E)

  /** Why a string is refused as a UNA line (the Rust conversion panics in both cases). */
  datatype UnaError =
    | WrongByteLength(length: nat) // its UTF-8 encoding is not 9 bytes long
    | WrongCharCount(count: nat)   // 9 bytes, but fewer than 9 characters

  /** A fixed array of nine characters. */
  type HeaderLine = s: seq<char> | |s| == 9 witness "UNA:+.? '"

  /** The six service characters, in the order a UNA line declares them. */
  function ServiceChars(u: Una): (s: seq<char>)
    ensures |s| == 6
  {
    [u.compositeElementDelimiter, u.dataElementDelimiter, u.decimalComma,
     u.escapeCharacter, u.reservedSpace, u.segmentDelimiter]
  }

  /** The conventional default service characters (those of ISO 9735 syntax
      versions 1 to 3), used when a document has no UNA line. */
  function Default(): (u: Una)
    ensures ServiceChars(u) == ":+.? '"
  {
    Una(':', '+', '.', '?', ' ', '\'')
  }

  /** Reads the descriptor from positions 3 to 8; positions 0 to 2 (the
      "UNA" marker) are not looked at. */
  function Parse(line: HeaderLine): (u: Una)
    ensures ServiceChars(u) == line[3..]
  {
    Una(line[3], line[4], line[5], line[6], line[7], line[8])
  }

  predicate IsAscii(c: char) {
    c as int < 0x80
  }

  /** Number of bytes `c` takes in UTF-8. */
  function Utf8Width(c: char): (n: nat)
    ensures 1 <= n <= 4
    ensures n == 1 <==> IsAscii(c)
  {
    if c as int < 0x80 then 1
    else if c as int < 0x800 then 2
    else if c as int < 0x1_0000 then 3
    else 4
  }

  /** Length in bytes of the UTF-8 encoding of `s` (what a Rust `String`
      reports as its length). It is never below the number of characters,
      and equals it exactly when every character is ASCII. */
  function Utf8Length(s: string): (n: nat)
    ensures n >= |s|
    ensures n == |s| <==> forall i :: 0 <= i < |s| ==> IsAscii(s[i])
    decreases |s|
  {
    if s == [] then 0 else Utf8Width(s[0]) + Utf8Length(s[1..])
  }

  /** Conversion of a header line read from a file into a descriptor. It
      fails when the line is not 9 bytes long, and when it is 9 bytes long
      but holds fewer than 9 characters. */
  function FromString(value: string): (r: Result<Una, UnaError>)
    ensures r.Ok? <==> |value| == 9 && forall i :: 0 <= i < |value| ==> IsAscii(value[i])
    ensures r.Ok? ==> ServiceChars(r.value) == value[3..]
    ensures r.Err? && r.error.WrongByteLength? ==>
              r.error.length == Utf8Length(value) != 9
    ensures r.Err? && r.error.WrongCharCount? ==>
              Utf8Length(value) == 9 && r.error.count == |value| < 9
  {
    if Utf8Length(value) != 9 then Err(WrongByteLength(Utf8Length(value)))
    else if |value| != 9 then Err(WrongCharCount(|value|))
    else Ok(Parse(value))
  }

  /** The first three characters of a header line do not matter: two lines
      give the same descriptor exactly when their last six characters agree. */
  lemma ParseIgnoresMarker(a: HeaderLine, b: HeaderLine)
    ensures Parse(a) == Parse(b) <==> a[3..] == b[3..]
  {
    if a[3..] == b[3..] {
      assert a[3] == b[3] && a[4] == b[4] && a[5] == b[5];
      assert a[6] == b[6] && a[7] == b[7] && a[8] == b[8];
    }
  }

  /** Any descriptor written after any three-character marker reads back as itself. */
  lemma ParseRoundTrip(u: Una, marker: seq<char>)
    requires |marker| == 3
    ensures Parse(marker + ServiceChars(u)) == u
  {
  }

  /** The segment delimiter is the last character of the header line. */
  lemma SegmentDelimiterIsLast(line: HeaderLine)
    ensures Parse(line).segmentDelimiter == line[|line| - 1]
  {
  }

  /** The standard header line "UNA:+.? '" converts to the default descriptor. */
  lemma StandardHeaderIsDefault()
    ensures FromString("UNA:+.? '") == Ok(Default())
  {
    var line := "UNA:+.? '";
    assert forall i :: 0 <= i < |line| ==> IsAscii(line[i]);
  }

  /** A line of 9 bytes with a character outside ASCII has fewer than 9
      characters and is refused by the second check. */
  lemma NineBytesWithWideCharRefused(value: string)
    requires Utf8Length(value) == 9
    requires exists i :: 0 <= i < |value| && !IsAscii(value[i])
    ensures FromString(value) == Err(WrongCharCount(|value|)) && |value| < 9
  {
  }

  /** "UNA:+." followed by the euro sign is 9 bytes but only 7 characters. */
  lemma EuroSignHeaderRefused()
    ensures FromString("UNA:+.\U{20AC}") == Err(WrongCharCount(7))
  {
    var line := "UNA:+.\U{20AC}";
    assert !IsAscii(line[6]);
    assert Utf8Length(line[6..]) == 3;
    assert Utf8Length(line) == 9;
  }
}
