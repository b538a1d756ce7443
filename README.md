# edi-format: UNA descriptor and segment re-layout, in Dafny

`edi-format` rewrites a UN/EDIFACT interchange so that every segment sits on
its own line. Two parts of it are modelled here:

- `segments.dfy` (module `Segments`) holds the UNA service-string descriptor.
  It covers the default descriptor, reading a descriptor from the 9-character
  header line (`UNA` followed by six service characters), and converting a
  `String` into a descriptor. That conversion panics unless the string is
  9 bytes long and splits into exactly 9 characters. Here the panic is an
  `Err` value of a `Result`.
- `formatter.dfy` (module `Formatter`) holds the formatter.
  `EdiFormatter(una, fileContent)` is the descriptor plus the document text.
  `Format()` follows the same chain as the code:
  - split the text at every segment delimiter (`Pieces`);
  - turn every non-empty piece into that piece followed by the delimiter, and
    drop the empty pieces (`FormatSegment`, `FilterMap`, `Lines`);
  - join the results with a line feed (`Join`).

  `Split` behaves like Rust's `str::split` with a character pattern. It always
  yields at least one piece, and the empty text yields one empty piece.

Text is `seq<char>`, and a Dafny `char` is a Unicode scalar value. Rust's
`String::len` counts UTF-8 bytes, so `Utf8Length` computes that count to model
the length check.

Several behaviours one might expect of a canonical EDIFACT layout are not
what the code does. The model follows the code:

- The code does not drop line breaks already in the text. They stay inside
  the piece they belong to (`FormatNewlineCount`).
- The joining adds no line break before the first segment or after the
  last one (`FormatEnds`). A line feed at the start of the first non-empty
  piece makes the output start with a line feed. The output still ends with
  the delimiter, which is a line feed only when the delimiter is one.
- The header is not handled separately. It is the first piece of the split
  (`HeaderLineFirst`).
- There is no "changed" signal.
- Formatting is not idempotent when the segment delimiter is not the line
  feed and there are at least two segments. Formatting the output again adds
  one more line feed between each two segments (`ReformatAddsLineFeeds`).
- A string that is not a valid header makes the conversion panic. The code
  does not return a typed error.

## Model

| member | source | states |
|---|---|---|
| Segments.Default | src/segments.rs:12-23 | the default descriptor's service characters are `:` `+` `.` `?` space `'`, in field order |
| Segments.Parse | src/segments.rs:39-48 | the six fields of the descriptor are the characters at positions 3 to 8 of the line, in order |
| Segments.ParseIgnoresMarker | src/segments.rs:39-48 | two header lines give the same descriptor if and only if their characters 3 to 8 agree; the `UNA` marker is never inspected |
| Segments.ParseRoundTrip | src/segments.rs:39-48 | any descriptor written after any three-character marker parses back to itself |
| Segments.SegmentDelimiterIsLast | src/segments.rs:46 | the segment delimiter is the last character of the header line |
| Segments.Utf8Length | src/segments.rs:27 | the byte length that `len` reports is at least the character count, and equals it exactly when every character is ASCII |
| Segments.FromString | src/segments.rs:25-35 | conversion succeeds if and only if the string is 9 ASCII characters, and then yields the descriptor of characters 3 to 8; a byte length other than 9 is refused with that length; 9 bytes holding fewer than 9 characters is refused by the array conversion with the character count |
| Segments.NineBytesWithWideCharRefused | src/segments.rs:34 | every 9-byte string containing a non-ASCII character passes the length check and is refused by the array conversion |
| Segments.EuroSignHeaderRefused | src/segments.rs:27-34 | "UNA:+." followed by a euro sign is 9 bytes but 7 characters, and is refused with count 7 |
| Segments.StandardHeaderIsDefault | src/segments.rs:67-79 | converting "UNA:+.? '" gives exactly the default descriptor |
| Formatter.FormatSegment | src/formatter.rs:16-25 | an empty piece gives nothing; any other piece gives the piece unchanged followed by exactly one segment delimiter |
| Formatter.Split | src/formatter.rs:29 | a split yields at least one piece, and no piece contains the delimiter |
| Formatter.SplitJoin | src/formatter.rs:29 | joining the pieces with the delimiter gives the text back |
| Formatter.SplitCount | src/formatter.rs:29 | there is exactly one more piece than there are delimiters in the text |
| Formatter.SplitNoDelimiter | src/formatter.rs:29 | a text without the delimiter is a single piece |
| Formatter.SplitConcat | src/formatter.rs:29 | splitting `a + d + b` gives the pieces of `a` followed by the pieces of `b` |
| Formatter.SplitOfJoin | src/formatter.rs:29 | splitting a join of delimiter-free parts gives back exactly those parts |
| Formatter.JoinLength | src/formatter.rs:32 | a join is exactly as long as its parts together plus one separator between each two neighbours |
| Formatter.JoinEnds | src/formatter.rs:32 | a join starts with its first part and ends with its last |
| Formatter.JoinCount | src/formatter.rs:32 | the occurrences of a character in a join are those in the parts, plus one per separator if the separator is that character |
| Formatter.FilterMap | src/formatter.rs:30-31 | there are never more lines than pieces; there are no lines exactly when every piece is empty; every line is at least one character followed by the delimiter |
| Formatter.FilterMapFilters | src/formatter.rs:30-31 | the collected lines are the non-empty pieces, in order, each followed by the delimiter |
| Formatter.FilterMapAppend | src/formatter.rs:30-31 | filtering a concatenation is concatenating the filtered parts |
| Formatter.NonEmptyKeepsOrder | src/formatter.rs:30 | the kept pieces are exactly the non-empty ones, at strictly increasing positions, with none missing |
| Formatter.SegmentsFollowPieces | src/formatter.rs:28-31 | the i-th output segment is the i-th non-empty piece of the split with the delimiter appended; only empty pieces are dropped and order is kept |
| Formatter.SegmentsAreTerminatedPieces | src/formatter.rs:16-31 | no output segment is a bare delimiter or holds the delimiter before its end; each contains the delimiter exactly once, as its last character |
| Formatter.EdiFormatter.Format | src/formatter.rs:27-33 | the output is the non-empty pieces of the text split at the delimiter, in order, each closed by the delimiter, joined by line feeds |
| Formatter.FormatEmptyIff | src/formatter.rs:27-33 | the output is empty if and only if the text consists of delimiters only (including the empty text) |
| Formatter.FormatEnds | src/formatter.rs:27-33 | a non-empty output starts with the first segment and ends with the last, so it ends in the delimiter; the joining adds no line break before the first segment or after the last |
| Formatter.FormatDelimiterCount | src/formatter.rs:27-33 | with a delimiter other than the line feed, the output holds one delimiter per segment, and there is at most one more segment than there are delimiters in the text |
| Formatter.FormatNewlineCount | src/formatter.rs:27-33 | with a delimiter other than the line feed, the output holds every line feed of the text plus one between each two neighbouring segments |
| Formatter.TrailingFragmentEmitted | src/formatter.rs:16-33 | a non-empty final fragment without a delimiter after it becomes the last segment, with a delimiter appended, and ends the output |
| Formatter.FormatPacked | src/formatter.rs:27-33 | segments packed back to back, each closed by the delimiter, come out as those segments joined by line feeds |
| Formatter.FormatPrepend | src/formatter.rs:27-33 | a leading delimiter-free segment becomes the first output line, and the rest of the text lays out after it exactly as it would alone |
| Formatter.HeaderLineFirst | src/formatter.rs:27-33 | a text opening with its header line comes out opening with the same nine characters, provided the delimiter does not occur earlier in that line |
| Formatter.ReformatKeepsSegmentCount | src/formatter.rs:27-33 | with a delimiter other than the line feed, formatting the output again yields as many segments as the first pass |
| Formatter.ReformatAddsLineFeeds | src/formatter.rs:27-33 | with a delimiter other than the line feed and at least two segments, formatting the output again adds one line feed per segment boundary, so the result differs from the output |
| Formatter.PackedExample | src/main.rs:142-144 | the first three segments of the command-line example, packed without line breaks, come out one per line, each closed by the apostrophe |

## Left out

- `EDIFormatter::new` (src/formatter.rs:10-14) only reads the header and the text from a file. The model takes the descriptor and the text as values.
- src/io_helpers.rs is not part of this model. It covers opening and reading files, the lossy UTF-8 decoding of the 9 header bytes, `trim()` of the text, and writing files. The text given to `EdiFormatter` stands for the text after trimming.
- src/main.rs is not part of this model: command-line parsing, logging, stdin versus file input, dry run, and replacing the file through a temporary file. src/formatter.rs as modelled defines no streaming `format(reader, writer)`, although main.rs calls one.
- Panics are modelled as `Err` values. A failed file read or decode is not modelled at all.
- Splitting that honours the escape character, and checking that the header starts with `UNA`, are not done by the code, so they are not modelled.
- Formatter.PackedExample: covers only the first three segments of the example document at src/main.rs:142-157, because the general statement `Formatter.FormatPacked` already covers every packed document.
- Formatter.FormatDelimiterCount: assumes the segment delimiter is not the line feed. With a line-feed delimiter the joining line feeds become delimiters themselves.
- Formatter.FormatNewlineCount: assumes the segment delimiter is not the line feed. With a line-feed delimiter the joining line feeds become delimiters themselves.
- Formatter.ReformatKeepsSegmentCount: assumes the segment delimiter is not the line feed. With a line-feed delimiter the joining line feeds become delimiters themselves.
- Formatter.ReformatAddsLineFeeds: assumes the segment delimiter is not the line feed. With a line-feed delimiter the joining line feeds become delimiters themselves.
