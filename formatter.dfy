/**
  Segment re-layout of an EDIFACT document: the text is cut at every segment
  delimiter, empty pieces are dropped, every remaining piece gets its
  delimiter back, and the pieces are joined with line feeds, one segment per
  line.
 */
module Formatter {
  import opened Segments

  datatype Option<+T> = None | Some(value: T)

  /** Number of occurrences of `c` in `s`. */
  function Count(s: string, c: char): nat {
    multiset(s)[c]
  }

  /** Sum of the occurrences of `c` over all the strings of `ps`. */
  function SumCount(ps: seq<string>, c: char): nat
    decreases |ps|
  {
    if ps == [] then 0 else Count(ps[0], c) + SumCount(ps[1..], c)
  }

  /** Total length of the strings of `ps`. */
  function SumLength(ps: seq<string>): nat
    decreases |ps|
  {
    if ps == [] then 0 else |ps[0]| + SumLength(ps[1..])
  }

  /** The parts with `sep` between neighbours; no parts give the empty string. */
  function Join(parts: seq<string>, sep: string): string
    decreases |parts|
  {
    if |parts| == 0 then []
    else if |parts| == 1 then parts[0]
    else parts[0] + sep + Join(parts[1..], sep)
  }

  /** The pieces of `s` between occurrences of `d`, as splitting a string on
      a character does: at least one piece (the empty string gives one empty
      piece), none of them holding `d`. */
  function Split(s: string, d: char): (pieces: seq<string>)
    ensures |pieces| >= 1
    ensures forall i :: 0 <= i < |pieces| ==> d !in pieces[i]
    decreases |s|
  {
    if s == [] then [[]]
    else
      var rest := Split(s[1..], d);
      if s[0] == d then [[]] + rest
      else [[s[0]] + rest[0]] + rest[1..]
  }

  /** The pieces of `ps` that are not empty, in their order. */
  function NonEmpty(ps: seq<string>): seq<string>
    decreases |ps|
  {
    if ps == [] then []
    else (if ps[0] != [] then [ps[0]] else []) + NonEmpty(ps[1..])
  }

  /** The positions of the non-empty pieces of `ps`, in increasing order. */
  function KeptIndices(ps: seq<string>): seq<nat>
    decreases |ps|
  {
    if ps == [] then []
    else KeptIndices(ps[..|ps| - 1]) + (if ps[|ps| - 1] != [] then [|ps| - 1] else [])
  }

  /** Every string of `ps` with `d` appended. */
  function Terminated(ps: seq<string>, d: char): seq<string> {
    seq(|ps|, i requires 0 <= i < |ps| => ps[i] + [d])
  }

  /** Every string of `ps` with `c` put in front. */
  function Prefixed(ps: seq<string>, c: char): seq<string> {
    seq(|ps|, i requires 0 <= i < |ps| => [c] + ps[i])
  }

  /** A non-empty piece with the segment delimiter put back; nothing for an
      empty piece. */
  function FormatSegment(una: Una, segment: string): (r: Option<string>)
    ensures r.None? <==> segment == []
    ensures r.Some? ==>
              |r.value| == |segment| + 1 && r.value[..|segment|] == segment
              && r.value[|segment|] == una.segmentDelimiter
  {
    if segment != [] then Some(segment + [una.segmentDelimiter]) else None
  }

  /** FormatSegment over `pieces`, keeping only the results that exist.
      Every line kept is at least one character followed by the delimiter;
      there are none exactly when every piece is empty. */
  function FilterMap(una: Una, pieces: seq<string>): (lines: seq<string>)
    ensures |lines| <= |pieces|
    ensures lines == [] <==> forall i :: 0 <= i < |pieces| ==> pieces[i] == []
    ensures forall i :: 0 <= i < |lines| ==>
              |lines[i]| >= 2 && lines[i][|lines[i]| - 1] == una.segmentDelimiter
    decreases |pieces|
  {
    if pieces == [] then []
    else
      var rest := FilterMap(una, pieces[1..]);
      assert forall i :: 1 <= i < |pieces| ==> pieces[i] == pieces[1..][i - 1];
      match FormatSegment(una, pieces[0])
      case Some(line) => [line] + rest
      case None => rest
  }

  /** The formatter: the descriptor read from the document's UNA line and
      the document's text. */
  datatype EdiFormatter = EdiFormatter(una: Una, fileContent: string) {

    /** The document text cut at every segment delimiter. */
    function Pieces(): seq<string> {
      Split(fileContent, una.segmentDelimiter)
    }

    /** The output lines, one per non-empty piece. */
    function Lines(): seq<string> {
      FilterMap(una, Pieces())
    }

    /** The re-laid-out document: the non-empty pieces of the text, in
        order, each closed by the delimiter, joined by line feeds. */
    function Format(): (r: string)
      ensures r == Join(Terminated(NonEmpty(Pieces()), una.segmentDelimiter), "\n")
    {
      FilterMapFilters(una, Pieces());
      Join(Lines(), "\n")
    }
  }

  // ---------------------------------------------------------------------
  // Joining and splitting

  lemma JoinCons(x: string, ps: seq<string>, sep: string)
    requires |ps| >= 1
    ensures Join([x] + ps, sep) == x + sep + Join(ps, sep)
  {
    assert ([x] + ps)[1..] == ps;
  }

  /** Joining the pieces of a split with the delimiter gives the text back. */
  lemma {:induction false} SplitJoin(s: string, d: char)
    ensures Join(Split(s, d), [d]) == s
    decreases |s|
  {
    if s != [] {
      var rest := Split(s[1..], d);
      SplitJoin(s[1..], d);
      if s[0] == d {
        JoinCons([], rest, [d]);
      } else if |rest| == 1 {
        assert Split(s, d) == [[s[0]] + rest[0]];
      } else {
        JoinCons([s[0]] + rest[0], rest[1..], [d]);
        JoinCons(rest[0], rest[1..], [d]);
        assert [rest[0]] + rest[1..] == rest;
      }
    }
  }

  /** There is one piece more than there are delimiters. */
  lemma {:induction false} SplitCount(s: string, d: char)
    ensures |Split(s, d)| == Count(s, d) + 1
    decreases |s|
  {
    if s != [] {
      assert s == [s[0]] + s[1..];
      SplitCount(s[1..], d);
    }
  }

  /** A text without the delimiter is a single piece. */
  lemma SplitNoDelimiter(s: string, d: char)
    requires d !in s
    ensures Split(s, d) == [s]
  {
    SplitJoin(s, d);
  }

  /** A string that starts with the delimiter splits into an empty piece
      followed by the pieces of the rest. */
  lemma SplitConsDelimiter(t: string, d: char)
    ensures Split([d] + t, d) == [[]] + Split(t, d)
  {
    assert ([d] + t)[0] == d && ([d] + t)[1..] == t;
  }

  /** Any other first character joins the first piece of the rest. */
  lemma SplitConsOther(c: char, t: string, d: char)
    requires c != d
    ensures Split([c] + t, d) == [[c] + Split(t, d)[0]] + Split(t, d)[1..]
  {
    assert ([c] + t)[0] == c && ([c] + t)[1..] == t;
  }

  /** Putting a string in front of a concatenation. */
  lemma ConsAppend(x: string, ra: seq<string>, rb: seq<string>)
    ensures [x] + (ra + rb) == ([x] + ra) + rb
  {
  }

  /** Extending the first string of a list that has one. */
  lemma ExtendFirst(c: char, ra: seq<string>, rb: seq<string>)
    requires |ra| >= 1
    ensures [[c] + (ra + rb)[0]] + (ra + rb)[1..] == ([[c] + ra[0]] + ra[1..]) + rb
  {
    assert (ra + rb)[0] == ra[0];
    assert (ra + rb)[1..] == ra[1..] + rb;
  }

  /** The inductive step of SplitConcat for a leading delimiter. */
  lemma SplitConcatDelimiterStep(rest: string, b: string, d: char)
    requires Split(rest + [d] + b, d) == Split(rest, d) + Split(b, d)
    ensures Split([d] + rest + [d] + b, d) == Split([d] + rest, d) + Split(b, d)
  {
    assert [d] + rest + [d] + b == [d] + (rest + [d] + b);
    SplitConsDelimiter(rest + [d] + b, d);
    SplitConsDelimiter(rest, d);
    ConsAppend([], Split(rest, d), Split(b, d));
  }

  /** The inductive step of SplitConcat for a leading non-delimiter. */
  lemma SplitConcatOtherStep(c: char, rest: string, b: string, d: char)
    requires c != d
    requires Split(rest + [d] + b, d) == Split(rest, d) + Split(b, d)
    ensures Split([c] + rest + [d] + b, d) == Split([c] + rest, d) + Split(b, d)
  {
    assert [c] + rest + [d] + b == [c] + (rest + [d] + b);
    SplitConsOther(c, rest + [d] + b, d);
    ExtendFirst(c, Split(rest, d), Split(b, d));
    SplitConsOther(c, rest, d);
  }

  /** Splitting at a delimiter is splitting either side of it. */
  lemma {:induction false} SplitConcat(a: string, b: string, d: char)
    ensures Split(a + [d] + b, d) == Split(a, d) + Split(b, d)
    decreases |a|
  {
    if a == [] {
      assert a + [d] + b == [d] + b;
      SplitConsDelimiter(b, d);
    } else {
      var c, rest := a[0], a[1..];
      assert a == [c] + rest;
      SplitConcat(rest, b, d);
      if c == d {
        SplitConcatDelimiterStep(rest, b, d);
      } else {
        SplitConcatOtherStep(c, rest, b, d);
      }
    }
  }

  /** Splitting undoes joining with the delimiter, for pieces free of it. */
  lemma {:induction false} SplitOfJoin(q: seq<string>, d: char)
    requires |q| >= 1
    requires forall i :: 0 <= i < |q| ==> d !in q[i]
    ensures Split(Join(q, [d]), d) == q
    decreases |q|
  {
    if |q| == 1 {
      SplitNoDelimiter(q[0], d);
    } else {
      var t := Join(q[1..], [d]);
      assert Join(q, [d]) == q[0] + [d] + t;
      assert forall i :: 0 <= i < |q[1..]| ==> d !in q[1..][i] by {
        forall i | 0 <= i < |q[1..]| ensures d !in q[1..][i] {
          assert q[1..][i] == q[i + 1];
        }
      }
      SplitOfJoin(q[1..], d);
      SplitConcat(q[0], t, d);
      SplitNoDelimiter(q[0], d);
      assert [q[0]] + q[1..] == q;
    }
  }

  /** Occurrences of a character in a join: those in the parts, plus one per
      separator when the separator is that character. */
  lemma {:induction false} JoinCount(ps: seq<string>, s: char, x: char)
    ensures Count(Join(ps, [s]), x) == SumCount(ps, x) + (if |ps| > 0 && x == s then |ps| - 1 else 0)
    decreases |ps|
  {
    if |ps| > 1 {
      JoinCount(ps[1..], s, x);
    }
  }

  /** A join is as long as its parts together plus one separator between
      each two neighbours. */
  lemma {:induction false} JoinLength(parts: seq<string>, sep: string)
    ensures |Join(parts, sep)| ==
              SumLength(parts) + (if parts == [] then 0 else (|parts| - 1) * |sep|)
    decreases |parts|
  {
    if |parts| > 1 {
      JoinLength(parts[1..], sep);
      assert (|parts| - 1) * |sep| == |sep| + (|parts| - 2) * |sep|;
    }
  }

  /** A join of at least one part starts with the first part and ends with the last. */
  lemma {:induction false} JoinEnds(ps: seq<string>, sep: string)
    requires |ps| >= 1
    ensures |Join(ps, sep)| >= |ps[0]| && |Join(ps, sep)| >= |ps[|ps| - 1]|
    ensures Join(ps, sep)[..|ps[0]|] == ps[0]
    ensures Join(ps, sep)[|Join(ps, sep)| - |ps[|ps| - 1]|..] == ps[|ps| - 1]
    decreases |ps|
  {
    if |ps| > 1 {
      JoinEnds(ps[1..], sep);
      var j := Join(ps, sep);
      var t := Join(ps[1..], sep);
      assert j == ps[0] + sep + t;
      assert j[|j| - |t|..] == t;
      assert j[|j| - |ps[|ps| - 1]|..] == t[|t| - |ps[|ps| - 1]|..];
    }
  }

  /** Every character of a part occurs in the join. */
  lemma {:induction false} JoinContainsParts(ps: seq<string>, sep: string, i: nat)
    requires i < |ps|
    ensures multiset(ps[i]) <= multiset(Join(ps, sep))
    decreases |ps|
  {
    if |ps| > 1 && i > 0 {
      JoinContainsParts(ps[1..], sep, i - 1);
    }
  }

  /** A join of empty parts consists of separator characters only. */
  lemma {:induction false} JoinOfEmpties(ps: seq<string>, sep: string)
    requires forall i :: 0 <= i < |ps| ==> ps[i] == []
    ensures forall k :: 0 <= k < |Join(ps, sep)| ==> Join(ps, sep)[k] in sep
    decreases |ps|
  {
    if |ps| > 1 {
      JoinOfEmpties(ps[1..], sep);
      assert Join(ps, sep) == sep + Join(ps[1..], sep);
    }
  }

  // ---------------------------------------------------------------------
  // Filtering

  lemma {:induction false} NonEmptyAppend(a: seq<string>, b: seq<string>)
    ensures NonEmpty(a + b) == NonEmpty(a) + NonEmpty(b)
    decreases |a|
  {
    if a != [] {
      var head := if a[0] != [] then [a[0]] else [];
      assert (a + b)[0] == a[0] && (a + b)[1..] == a[1..] + b;
      NonEmptyAppend(a[1..], b);
      calc {
        NonEmpty(a + b);
        head + NonEmpty(a[1..] + b);
        head + (NonEmpty(a[1..]) + NonEmpty(b));
        (head + NonEmpty(a[1..])) + NonEmpty(b);
      }
    } else {
      assert a + b == b;
    }
  }

  /** `kept` is the list of non-empty pieces of `ps` taken at the positions
      `at`: the positions increase, and every non-empty piece's position is
      among them. */
  ghost predicate Selects(ps: seq<string>, kept: seq<string>, at: seq<nat>) {
    && |kept| == |at|
    && (forall i :: 0 <= i < |at| ==> at[i] < |ps| && kept[i] == ps[at[i]] != [])
    && (forall i, j :: 0 <= i < j < |at| ==> at[i] < at[j])
    && (forall j :: 0 <= j < |ps| && ps[j] != [] ==> j in at)
  }

  /** One more piece: a non-empty one is kept at the new last position. */
  lemma SelectsStep(a: seq<string>, x: string, kept: seq<string>, at: seq<nat>)
    requires Selects(a, kept, at)
    ensures Selects(a + [x], kept + (if x != [] then [x] else []),
                    at + (if x != [] then [|a|] else []))
  {
    var ps := a + [x];
    forall j | 0 <= j < |ps| && ps[j] != []
      ensures j in at + (if x != [] then [|a|] else [])
    {
      if j < |a| {
        assert a[j] == ps[j];
      }
    }
  }

  /** NonEmpty keeps exactly the non-empty pieces, in order: its i-th element
      is the piece at the i-th kept position, the kept positions increase,
      and every non-empty piece's position is kept. */
  lemma {:induction false} NonEmptyKeepsOrder(ps: seq<string>)
    ensures Selects(ps, NonEmpty(ps), KeptIndices(ps))
    decreases |ps|
  {
    if ps != [] {
      var n := |ps|;
      var a, x := ps[..n - 1], ps[n - 1];
      assert ps == a + [x];
      assert NonEmpty(ps) == NonEmpty(a) + (if x != [] then [x] else []) by {
        NonEmptyAppend(a, [x]);
        assert [x][1..] == [];
      }
      NonEmptyKeepsOrder(a);
      SelectsStep(a, x, NonEmpty(a), KeptIndices(a));
    }
  }

  lemma {:induction false} SumCountNonEmpty(ps: seq<string>, x: char)
    ensures SumCount(NonEmpty(ps), x) == SumCount(ps, x)
    decreases |ps|
  {
    if ps != [] {
      SumCountNonEmpty(ps[1..], x);
      SumCountAppend(if ps[0] != [] then [ps[0]] else [], NonEmpty(ps[1..]), x);
    }
  }

  lemma {:induction false} SumCountAppend(a: seq<string>, b: seq<string>, x: char)
    ensures SumCount(a + b, x) == SumCount(a, x) + SumCount(b, x)
    decreases |a|
  {
    if a != [] {
      assert (a + b)[0] == a[0] && (a + b)[1..] == a[1..] + b;
      SumCountAppend(a[1..], b, x);
    } else {
      assert a + b == b;
    }
  }

  lemma {:induction false} SumCountTerminated(ps: seq<string>, d: char, x: char)
    ensures SumCount(Terminated(ps, d), x) == SumCount(ps, x) + (if x == d then |ps| else 0)
    decreases |ps|
  {
    if ps != [] {
      assert Terminated(ps, d)[1..] == Terminated(ps[1..], d);
      SumCountTerminated(ps[1..], d, x);
    }
  }

  lemma {:induction false} SumCountAbsent(ps: seq<string>, x: char)
    requires forall i :: 0 <= i < |ps| ==> x !in ps[i]
    ensures SumCount(ps, x) == 0
    decreases |ps|
  {
    if ps != [] {
      SumCountAbsent(ps[1..], x);
    }
  }

  /** filter_map with FormatSegment is: keep the non-empty pieces, then put
      the delimiter back on each. */
  lemma {:induction false} FilterMapFilters(una: Una, ps: seq<string>)
    ensures FilterMap(una, ps) == Terminated(NonEmpty(ps), una.segmentDelimiter)
    decreases |ps|
  {
    if ps != [] {
      FilterMapFilters(una, ps[1..]);
      var d := una.segmentDelimiter;
      if ps[0] != [] {
        assert Terminated(NonEmpty(ps), d) == [ps[0] + [d]] + Terminated(NonEmpty(ps[1..]), d);
      } else {
        assert NonEmpty(ps) == NonEmpty(ps[1..]);
      }
    }
  }

  lemma {:induction false} FilterMapAppend(una: Una, a: seq<string>, b: seq<string>)
    ensures FilterMap(una, a + b) == FilterMap(una, a) + FilterMap(una, b)
    decreases |a|
  {
    if a != [] {
      assert (a + b)[0] == a[0] && (a + b)[1..] == a[1..] + b;
      FilterMapAppend(una, a[1..], b);
      match FormatSegment(una, a[0])
      case Some(line) =>
        calc {
          FilterMap(una, a + b);
          [line] + FilterMap(una, a[1..] + b);
          [line] + (FilterMap(una, a[1..]) + FilterMap(una, b));
          ([line] + FilterMap(una, a[1..])) + FilterMap(una, b);
        }
      case None =>
    } else {
      assert a + b == b;
    }
  }

  // ---------------------------------------------------------------------
  // Properties of the re-laid-out document

  /** The i-th output segment is the i-th non-empty piece of the split with
      the delimiter appended: order is kept, and only empty pieces are dropped. */
  lemma SegmentsFollowPieces(f: EdiFormatter)
    ensures |f.Lines()| == |KeptIndices(f.Pieces())|
    ensures forall i :: 0 <= i < |f.Lines()| ==>
              var k := KeptIndices(f.Pieces())[i];
              k < |f.Pieces()| && f.Pieces()[k] != []
              && f.Lines()[i] == f.Pieces()[k] + [f.una.segmentDelimiter]
    ensures forall i, j :: 0 <= i < j < |f.Lines()| ==>
              KeptIndices(f.Pieces())[i] < KeptIndices(f.Pieces())[j]
    ensures forall j :: 0 <= j < |f.Pieces()| && f.Pieces()[j] != [] ==> j in KeptIndices(f.Pieces())
  {
    FilterMapFilters(f.una, f.Pieces());
    NonEmptyKeepsOrder(f.Pieces());
  }

  /** No output segment is a bare delimiter or contains a delimiter before
      its end: each is one non-empty, delimiter-free piece followed by
      exactly one delimiter. */
  lemma SegmentsAreTerminatedPieces(f: EdiFormatter)
    ensures forall i :: 0 <= i < |f.Lines()| ==>
              var line := f.Lines()[i];
              |line| >= 2 && line[|line| - 1] == f.una.segmentDelimiter
              && f.una.segmentDelimiter !in line[..|line| - 1]
              && Count(line, f.una.segmentDelimiter) == 1
  {
    SegmentsFollowPieces(f);
    var d := f.una.segmentDelimiter;
    forall i | 0 <= i < |f.Lines()|
      ensures var line := f.Lines()[i];
              d !in line[..|line| - 1] && Count(line, d) == 1
    {
      var line := f.Lines()[i];
      var p := f.Pieces()[KeptIndices(f.Pieces())[i]];
      assert line == p + [d];
      assert line[..|line| - 1] == p;
    }
  }

  /** The output is empty exactly when the text holds nothing but delimiters
      (including when it is empty). */
  lemma FormatEmptyIff(f: EdiFormatter)
    ensures f.Format() == [] <==>
              forall k :: 0 <= k < |f.fileContent| ==> f.fileContent[k] == f.una.segmentDelimiter
  {
    var d := f.una.segmentDelimiter;
    var c := f.fileContent;
    var ps := f.Pieces();
    SplitJoin(c, d);
    if f.Lines() != [] {
      JoinEnds(f.Lines(), "\n");
      assert f.Format() != [];
      var i :| 0 <= i < |ps| && ps[i] != [];
      JoinContainsParts(ps, [d], i);
      assert ps[i][0] in multiset(c);
      assert exists k :: 0 <= k < |c| && c[k] != d;
    } else {
      JoinOfEmpties(ps, [d]);
    }
  }

  /** Lines that all end in `d`, joined: a non-empty join starts with the
      first line and ends with the last, hence with `d`. */
  lemma JoinedLinesEnd(lines: seq<string>, sep: string, d: char)
    requires Join(lines, sep) != []
    requires forall i :: 0 <= i < |lines| ==> |lines[i]| >= 1 && lines[i][|lines[i]| - 1] == d
    ensures lines != []
    ensures lines[0] <= Join(lines, sep)
    ensures var last := lines[|lines| - 1];
            |last| <= |Join(lines, sep)| && Join(lines, sep)[|Join(lines, sep)| - |last|..] == last
    ensures Join(lines, sep)[|Join(lines, sep)| - 1] == d
  {
    var out := Join(lines, sep);
    JoinEnds(lines, sep);
    var last := lines[|lines| - 1];
    assert out[|out| - |last|..] == last;
    assert out[|out| - 1] == last[|last| - 1];
  }

  /** The joining adds nothing at either end: a non-empty output starts with
      the first segment and ends with the last, hence with the delimiter. */
  lemma FormatEnds(f: EdiFormatter)
    requires f.Format() != []
    ensures f.Lines() != []
    ensures f.Lines()[0] <= f.Format()
    ensures var last := f.Lines()[|f.Lines()| - 1];
            |last| <= |f.Format()| && f.Format()[|f.Format()| - |last|..] == last
    ensures f.Format()[|f.Format()| - 1] == f.una.segmentDelimiter
  {
    JoinedLinesEnd(f.Lines(), "\n", f.una.segmentDelimiter);
  }

  /** With a delimiter other than the line feed, the output holds one
      delimiter per segment, and there is at most one more segment than there
      are delimiters in the text. */
  lemma FormatDelimiterCount(f: EdiFormatter)
    requires f.una.segmentDelimiter != '\n'
    ensures Count(f.Format(), f.una.segmentDelimiter) == |f.Lines()|
    ensures |f.Lines()| <= Count(f.fileContent, f.una.segmentDelimiter) + 1
  {
    var d := f.una.segmentDelimiter;
    var ps := f.Pieces();
    SplitCount(f.fileContent, d);
    JoinCount(f.Lines(), '\n', d);
    FilterMapFilters(f.una, ps);
    SumCountTerminated(NonEmpty(ps), d, d);
    SumCountNonEmpty(ps, d);
    SumCountAbsent(ps, d);
  }

  /** With a delimiter other than the line feed, the output holds the line
      feeds already in the text, kept inside their segments, plus one
      between each two neighbouring segments. */
  lemma FormatNewlineCount(f: EdiFormatter)
    requires f.una.segmentDelimiter != '\n'
    ensures Count(f.Format(), '\n') ==
              Count(f.fileContent, '\n') + (if f.Lines() == [] then 0 else |f.Lines()| - 1)
  {
    var d := f.una.segmentDelimiter;
    var ps := f.Pieces();
    JoinCount(f.Lines(), '\n', '\n');
    FilterMapFilters(f.una, ps);
    SumCountTerminated(NonEmpty(ps), d, '\n');
    SumCountNonEmpty(ps, '\n');
    SplitJoin(f.fileContent, d);
    JoinCount(ps, d, '\n');
  }

  /** A trailing fragment with no delimiter after it is still emitted, as
      the last segment, with a delimiter appended. */
  lemma TrailingFragmentEmitted(f: EdiFormatter, rest: string, fragment: string)
    requires f.fileContent == rest + fragment
    requires fragment != [] && f.una.segmentDelimiter !in fragment
    requires rest == [] || rest[|rest| - 1] == f.una.segmentDelimiter
    ensures f.Lines() != []
    ensures f.Lines()[|f.Lines()| - 1] == fragment + [f.una.segmentDelimiter]
    ensures var out, tail := f.Format(), fragment + [f.una.segmentDelimiter];
            |tail| <= |out| && out[|out| - |tail|..] == tail
  {
    var d := f.una.segmentDelimiter;
    var before := if rest == [] then [] else Split(rest[..|rest| - 1], d);
    SplitTrailing(rest, fragment, d);
    var line := fragment + [d];
    var segs := f.Lines();
    assert segs == FilterMap(f.una, before) + [line] by {
      FilterMapAppend(f.una, before, [fragment]);
      assert FilterMap(f.una, [fragment]) == [line];
    }
    assert segs[|segs| - 1] == line;
    assert f.Format() == Join(segs, "\n");
    JoinEnds(segs, "\n");
  }

  /** Text that ends in a delimiter-free fragment (after a delimiter, or
      alone) splits with that fragment as its last piece. */
  lemma SplitTrailing(rest: string, fragment: string, d: char)
    requires d !in fragment
    requires rest == [] || rest[|rest| - 1] == d
    ensures Split(rest + fragment, d) ==
              (if rest == [] then [] else Split(rest[..|rest| - 1], d)) + [fragment]
  {
    SplitNoDelimiter(fragment, d);
    if rest == [] {
      assert rest + fragment == fragment;
    } else {
      assert rest + fragment == rest[..|rest| - 1] + [d] + fragment;
      SplitConcat(rest[..|rest| - 1], fragment, d);
    }
  }

  /** A document whose segments are packed back to back, each closed by the
      delimiter, comes out with one segment per line. */
  lemma FormatPacked(f: EdiFormatter, segs: seq<string>)
    requires forall i :: 0 <= i < |segs| ==> segs[i] != [] && f.una.segmentDelimiter !in segs[i]
    requires f.fileContent == Join(Terminated(segs, f.una.segmentDelimiter), [])
    ensures f.Lines() == Terminated(segs, f.una.segmentDelimiter)
    ensures f.Format() == Join(Terminated(segs, f.una.segmentDelimiter), "\n")
  {
    var d := f.una.segmentDelimiter;
    PackedIsJoin(segs, d);
    SplitOfJoin(segs + [[]], d);
    FilterMapFilters(f.una, segs + [[]]);
    NonEmptyAppend(segs, [[]]);
    NonEmptyOfNonEmpty(segs);
  }

  lemma {:induction false} PackedIsJoin(segs: seq<string>, d: char)
    ensures Join(Terminated(segs, d), []) == Join(segs + [[]], [d])
    decreases |segs|
  {
    if segs != [] {
      PackedIsJoin(segs[1..], d);
      assert Terminated(segs, d) == [segs[0] + [d]] + Terminated(segs[1..], d);
      assert segs + [[]] == [segs[0]] + (segs[1..] + [[]]);
      JoinCons(segs[0], segs[1..] + [[]], [d]);
      if |segs| > 1 {
        JoinCons(segs[0] + [d], Terminated(segs[1..], d), []);
      }
    }
  }

  lemma {:induction false} NonEmptyOfNonEmpty(ps: seq<string>)
    requires forall i :: 0 <= i < |ps| ==> ps[i] != []
    ensures NonEmpty(ps) == ps
    decreases |ps|
  {
    if ps != [] {
      NonEmptyOfNonEmpty(ps[1..]);
    }
  }

  // ---------------------------------------------------------------------
  // Formatting the output again

  /** How the output splits: the first segment's piece, then every later
      piece behind the line feed that joined it on, then an empty piece
      after the final delimiter. */
  lemma {:induction false} OutputPieces(segs: seq<string>, pre: string, d: char)
    requires |segs| >= 1 && d != '\n' && d !in pre
    requires forall i :: 0 <= i < |segs| ==> d !in segs[i]
    ensures Split(pre + Join(Terminated(segs, d), "\n"), d)
              == [pre + segs[0]] + Prefixed(segs[1..], '\n') + [[]]
    decreases |segs|
  {
    var lines := Terminated(segs, d);
    var head := pre + segs[0];
    assert d !in head;
    SplitNoDelimiter(head, d);
    if |segs| == 1 {
      assert pre + Join(lines, "\n") == head + [d] + [];
      SplitConcat(head, [], d);
    } else {
      var rest := segs[1..];
      var tail := Join(Terminated(rest, d), "\n");
      assert pre + Join(lines, "\n") == head + [d] + ("\n" + tail) by {
        assert lines == [segs[0] + [d]] + Terminated(rest, d);
        JoinCons(segs[0] + [d], Terminated(rest, d), "\n");
      }
      SplitConcat(head, "\n" + tail, d);
      assert forall i :: 0 <= i < |rest| ==> d !in rest[i] by {
        forall i | 0 <= i < |rest| ensures d !in rest[i] {
          assert rest[i] == segs[i + 1];
        }
      }
      OutputPieces(rest, "\n", d);
      PrefixedCons(rest, '\n');
      ConsAppend(head, Prefixed(rest, '\n'), [[]]);
    }
  }

  lemma PrefixedCons(ps: seq<string>, c: char)
    requires |ps| >= 1
    ensures Prefixed(ps, c) == [[c] + ps[0]] + Prefixed(ps[1..], c)
  {
  }

  /** The kept pieces of the text are non-empty and free of the delimiter,
      and the segments are those pieces with the delimiter appended. */
  lemma KeptPieces(f: EdiFormatter)
    ensures f.Lines() == Terminated(NonEmpty(f.Pieces()), f.una.segmentDelimiter)
    ensures forall i :: 0 <= i < |NonEmpty(f.Pieces())| ==>
              NonEmpty(f.Pieces())[i] != [] && f.una.segmentDelimiter !in NonEmpty(f.Pieces())[i]
  {
    FilterMapFilters(f.una, f.Pieces());
    NonEmptyFree(f.Pieces(), f.una.segmentDelimiter);
  }

  lemma {:induction false} NonEmptyFree(ps: seq<string>, x: char)
    requires forall i :: 0 <= i < |ps| ==> x !in ps[i]
    ensures forall i :: 0 <= i < |NonEmpty(ps)| ==> NonEmpty(ps)[i] != [] && x !in NonEmpty(ps)[i]
    decreases |ps|
  {
    if ps != [] {
      assert forall i :: 0 <= i < |ps[1..]| ==> x !in ps[1..][i] by {
        forall i | 0 <= i < |ps[1..]| ensures x !in ps[1..][i] {
          assert ps[1..][i] == ps[i + 1];
        }
      }
      NonEmptyFree(ps[1..], x);
    }
  }

  /** Segments laid out one per line split back into as many segments. */
  lemma LaidOutSegmentCount(una: Una, segs: seq<string>)
    requires una.segmentDelimiter != '\n'
    requires forall i :: 0 <= i < |segs| ==> segs[i] != [] && una.segmentDelimiter !in segs[i]
    ensures |EdiFormatter(una, Join(Terminated(segs, una.segmentDelimiter), "\n")).Lines()| == |segs|
  {
    var d := una.segmentDelimiter;
    var out := Join(Terminated(segs, d), "\n");
    var g := EdiFormatter(una, out);
    if segs == [] {
      assert out == [];
      assert g.Pieces() == [[]];
    } else {
      OutputPieces(segs, [], d);
      assert [] + out == out && [] + segs[0] == segs[0];
      var q := [segs[0]] + Prefixed(segs[1..], '\n');
      assert g.Pieces() == q + [[]];
      FilterMapAppend(una, q, [[]]);
      assert FilterMap(una, [[]]) == [];
      assert forall i :: 0 <= i < |q| ==> q[i] != [] by {
        forall i | 0 <= i < |q| ensures q[i] != [] {
          if i > 0 {
            assert q[i] == ['\n'] + segs[i];
          }
        }
      }
      FilterMapFilters(una, q);
      NonEmptyOfNonEmpty(q);
    }
  }

  /** Formatting the output again yields as many segments as the first
      pass did. */
  lemma ReformatKeepsSegmentCount(f: EdiFormatter)
    requires f.una.segmentDelimiter != '\n'
    ensures |EdiFormatter(f.una, f.Format()).Lines()| == |f.Lines()|
  {
    KeptPieces(f);
    LaidOutSegmentCount(f.una, NonEmpty(f.Pieces()));
  }

  /** The re-layout is not idempotent: with a delimiter other than the line
      feed and at least two segments, formatting the output again inserts
      one more line feed between each two segments. */
  lemma ReformatAddsLineFeeds(f: EdiFormatter)
    requires f.una.segmentDelimiter != '\n'
    requires |f.Lines()| >= 2
    ensures var again := EdiFormatter(f.una, f.Format()).Format();
            Count(again, '\n') == Count(f.Format(), '\n') + |f.Lines()| - 1
            && again != f.Format()
  {
    var g := EdiFormatter(f.una, f.Format());
    ReformatKeepsSegmentCount(f);
    FormatNewlineCount(g);
  }

  /** A first segment closed by its delimiter becomes the first output line,
      ahead of whatever the rest of the text lays out to. */
  lemma FormatPrepend(una: Una, x: string, rest: string)
    requires x != [] && una.segmentDelimiter !in x
    ensures var d, tail := una.segmentDelimiter, EdiFormatter(una, rest).Format();
            EdiFormatter(una, x + [d] + rest).Format()
              == if tail == [] then x + [d] else x + [d] + "\n" + tail
  {
    var d := una.segmentDelimiter;
    var f, g := EdiFormatter(una, x + [d] + rest), EdiFormatter(una, rest);
    SplitConcat(x, rest, d);
    SplitNoDelimiter(x, d);
    assert f.Pieces() == [x] + g.Pieces();
    assert ([x] + g.Pieces())[1..] == g.Pieces();
    assert f.Lines() == [x + [d]] + g.Lines();
    if g.Lines() != [] {
      JoinCons(x + [d], g.Lines(), "\n");
    }
  }

  /** A document that opens with its header line (whose segment delimiter
      does not occur earlier in the line) comes out opening with the same
      nine characters. */
  lemma HeaderLineFirst(line: HeaderLine, rest: string)
    requires Parse(line).segmentDelimiter !in line[..8]
    ensures var out := EdiFormatter(Parse(line), line + rest).Format();
            |out| >= 9 && out[..9] == line
  {
    var una, x := Parse(line), line[..8];
    var d := una.segmentDelimiter;
    assert x + [d] == line;
    assert line + rest == x + [d] + rest;
    FormatPrepend(una, x, rest);
    LaidOutPrefix(x + [d], EdiFormatter(una, rest).Format(), EdiFormatter(una, line + rest).Format());
  }

  /** A first line, alone or followed by a line feed and more, is a prefix. */
  lemma LaidOutPrefix(first: string, tail: string, out: string)
    requires out == if tail == [] then first else first + "\n" + tail
    ensures |out| >= |first| && out[..|first|] == first
  {
    if tail != [] {
      assert out == first + ("\n" + tail);
    }
  }

  /** The opening of the command-line example (header, interchange header,
      message header), packed without line breaks, comes out one segment per
      line, each ending in the apostrophe. */
  lemma PackedExample()
    ensures var segs := ["UNA:+.? ", "UNB+IATB:1+6XPPC:ZZ+LHPPC:ZZ+940101:0950+1", "UNH+1+PAORES:93:1:IA"];
            EdiFormatter(Default(), Join(Terminated(segs, '\''), [])).Format()
              == Join(Terminated(segs, '\''), "\n")
  {
    var segs := ["UNA:+.? ", "UNB+IATB:1+6XPPC:ZZ+LHPPC:ZZ+940101:0950+1", "UNH+1+PAORES:93:1:IA"];
    FormatPacked(EdiFormatter(Default(), Join(Terminated(segs, '\''), [])), segs);
  }
}
