/**
  `RxSTOMPFrame`: a command, a set of headers and an optional body, with the
  text form the library writes (`description`) and the parser it reads with
  (`init(text:)`).

  The Swift frame keeps its headers in a `Set<RxSTOMPHeader>`.  Here they are a
  sequence standing for the set's iteration order: the parser adds a header only
  when no header with the same (key, value) pair is present, so parsed frames
  never hold two equal pairs, and the properties below compare header sets
  (`PairSet`) wherever the Swift order is unspecified.
 */
module Frames {
  import opened Wrappers
  import opened Text
  import opened Commands
  import opened Headers

  const LineFeed: char := '\n'
  const NullChar: char := '\0'

  datatype Frame = Frame(command: Command, headers: seq<Header>, body: Option<string>)
  {
    /** `message`: the value of the first message header, or "" when there is none. */
    function Message(): (r: string)
      ensures (forall i :: 0 <= i < |headers| ==> !headers[i].IsMessage()) ==> r == ""
      ensures (exists i :: 0 <= i < |headers| && headers[i].IsMessage()) ==>
        exists i :: 0 <= i < |headers| && headers[i].IsMessage() && r == headers[i].Value() &&
          forall j :: 0 <= j < i ==> !headers[j].IsMessage()
    {
      FirstValueWhere(headers, (h: Header) => h.IsMessage())
    }

    /** `destination`: the value of the first destination header, or "" when there is none. */
    function Destination(): (r: string)
      ensures (forall i :: 0 <= i < |headers| ==> !headers[i].IsDestination()) ==> r == ""
      ensures (exists i :: 0 <= i < |headers| && headers[i].IsDestination()) ==>
        exists i :: 0 <= i < |headers| && headers[i].IsDestination() && r == headers[i].Value() &&
          forall j :: 0 <= j < i ==> !headers[j].IsDestination()
    {
      FirstValueWhere(headers, (h: Header) => h.IsDestination())
    }
  }

  /** `headers.filter(p).first?.value ?? ""`. */
  function FirstValueWhere(hs: seq<Header>, p: Header -> bool): (r: string)
    ensures (forall i :: 0 <= i < |hs| ==> !p(hs[i])) ==> r == ""
    ensures (exists i :: 0 <= i < |hs| && p(hs[i])) ==>
      exists i :: 0 <= i < |hs| && p(hs[i]) && r == hs[i].Value() && forall j :: 0 <= j < i ==> !p(hs[j])
  {
    if |hs| == 0 then ""
    else if p(hs[0]) then hs[0].Value()
    else
      assert forall i :: 1 <= i < |hs| ==> hs[i] == hs[1..][i - 1];
      FirstValueWhere(hs[1..], p)
  }

  // ---------------------------------------------------------------------------
  // Header sets

  /** The header set as the wire sees it: the set of (key, value) pairs. */
  function PairSet(hs: seq<Header>): set<(string, string)>
  {
    if |hs| == 0 then {} else {hs[0].Pair()} + PairSet(hs[1..])
  }

  /** A pair is in the header set exactly when some header carries it. */
  lemma {:induction false} PairSetMember(hs: seq<Header>, p: (string, string))
    ensures p in PairSet(hs) <==> exists i :: 0 <= i < |hs| && hs[i].Pair() == p
    decreases |hs|
  {
    if |hs| > 0 {
      PairSetMember(hs[1..], p);
      if exists i :: 1 <= i < |hs| && hs[i].Pair() == p {
        var i :| 1 <= i < |hs| && hs[i].Pair() == p;
        assert hs[1..][i - 1].Pair() == p;
      }
      if exists i :: 0 <= i < |hs[1..]| && hs[1..][i].Pair() == p {
        var i :| 0 <= i < |hs[1..]| && hs[1..][i].Pair() == p;
        assert hs[i + 1].Pair() == p;
      }
    }
  }

  /** Appending a header adds its pair. */
  lemma {:induction false} PairSetAppend(hs: seq<Header>, h: Header)
    ensures PairSet(hs + [h]) == PairSet(hs) + {h.Pair()}
    decreases |hs|
  {
    if |hs| == 0 {
      assert hs + [h] == [h];
    } else {
      PairSetAppend(hs[1..], h);
      assert (hs + [h])[1..] == hs[1..] + [h];
    }
  }

  /** No two headers carry the same (key, value) pair. */
  predicate Distinct(hs: seq<Header>)
  {
    forall i, j :: 0 <= i < j < |hs| ==> hs[i].Pair() != hs[j].Pair()
  }

  /** `headers.insert(h)`: the header is added unless its pair is already present. */
  function Insert(hs: seq<Header>, h: Header): seq<Header>
  {
    if h.Pair() in PairSet(hs) then hs else hs + [h]
  }

  /** Inserting adds the pair to the header set, keeps the pairs distinct, and changes nothing when the pair is present. */
  lemma InsertLaws(hs: seq<Header>, h: Header)
    ensures PairSet(Insert(hs, h)) == PairSet(hs) + {h.Pair()}
    ensures Distinct(hs) ==> Distinct(Insert(hs, h))
    ensures h.Pair() in PairSet(hs) <==> Insert(hs, h) == hs
  {
    PairSetAppend(hs, h);
    if h.Pair() !in PairSet(hs) {
      PairSetMember(hs, h.Pair());
      assert |hs + [h]| != |hs|;
    }
  }

  // ---------------------------------------------------------------------------
  // Serialisation

  /** One header line without its line feed. */
  function HeaderLine(h: Header): string
  {
    h.Key() + ":" + h.Value()
  }

  /** Every header line, each followed by a line feed. */
  function HeaderLines(hs: seq<Header>): string
  {
    if |hs| == 0 then "" else HeaderLine(hs[0]) + [LineFeed] + HeaderLines(hs[1..])
  }

  /** The text of a frame up to its terminating NUL: the command, a line feed, the header lines, a blank line and the body. */
  function FrameText(f: Frame): string
  {
    f.command.RawValue() + [LineFeed] + HeaderLines(f.headers) + [LineFeed] + f.body.GetOr("")
  }

  /** `description`: the frame text followed by a NUL, the only NUL when no key, value or body holds one. */
  function Serialize(f: Frame): (r: string)
    ensures EndsWith(r, NullChar)
    ensures r[..|r| - 1] == FrameText(f)
  {
    FrameText(f) + [NullChar]
  }

  // ---------------------------------------------------------------------------
  // Parsing

  /** The key of a header line: the first part when the line is split at colons. */
  function KeyOfLine(line: string): string
  {
    Split(line, ':')[0]
  }

  /** The value of a header line: the last part when the line is split at colons. */
  function ValueOfLine(line: string): string
  {
    Last(Split(line, ':'))
  }

  /** The key is the text before the first colon, the value the text after the last one; without a colon both are the whole line. */
  lemma HeaderLineParts(line: string)
    ensures var k := KeyOfLine(line);
      ':' !in k && |k| <= |line| && line[..|k|] == k && (|k| == |line| || line[|k|] == ':')
    ensures var v := ValueOfLine(line);
      ':' !in v && |v| <= |line| && line[|line| - |v|..] == v && (|v| == |line| || line[|line| - |v| - 1] == ':')
    ensures ':' !in line ==> KeyOfLine(line) == line && ValueOfLine(line) == line
  {
    SplitFirst(line, ':');
    SplitLast(line, ':');
    SplitPartsFree(line, ':');
    if ':' !in line {
      SplitNoSeparator(line, ':');
    }
  }

  /** The header a header line yields. */
  function HeaderFromLine(line: string): Header
  {
    MakeHeader(KeyOfLine(line), ValueOfLine(line))
  }

  /** The parser's loop state: headers so far, body so far, and whether the blank line was seen. */
  datatype ParseState = ParseState(headers: seq<Header>, body: string, isBody: bool)

  /** Appending a body line; once the body ends in NUL, every NUL is removed from it. */
  function AppendBody(body: string, line: string): string
  {
    var b := body + line;
    if EndsWith(b, NullChar) then RemoveAll(b, NullChar) else b
  }

  /** An appended body never ends in NUL and differs from the plain concatenation only in NULs. */
  lemma AppendBodyLaws(body: string, line: string)
    ensures !EndsWith(AppendBody(body, line), NullChar)
    ensures RemoveAll(AppendBody(body, line), NullChar) == RemoveAll(body + line, NullChar)
    ensures forall d :: d != NullChar ==> (d in AppendBody(body, line) <==> d in body + line)
  {
    var b := body + line;
    RemoveAllIdempotent(b, NullChar);
    RemoveAllKeeps(b, NullChar);
    if EndsWith(b, NullChar) {
      assert NullChar !in RemoveAll(b, NullChar);
    }
  }

  /** One iteration of the loop over the lines after the first. */
  function LineStep(st: ParseState, line: string): ParseState
  {
    if st.isBody then st.(body := AppendBody(st.body, line))
    else if line == "" then st.(isBody := true)
    else st.(headers := Insert(st.headers, HeaderFromLine(line)))
  }

  /** The loop over `lines`. */
  function Fold(st: ParseState, lines: seq<string>): ParseState
    decreases |lines|
  {
    if |lines| == 0 then st else Fold(LineStep(st, lines[0]), lines[1..])
  }

  /** The loop keeps the headers distinct, adds no line feed to the body, and once in the body leaves the headers alone. */
  lemma {:induction false} FoldLaws(st: ParseState, lines: seq<string>)
    ensures Distinct(st.headers) ==> Distinct(Fold(st, lines).headers)
    ensures LineFeed !in st.body && (forall k :: 0 <= k < |lines| ==> LineFeed !in lines[k]) ==>
      LineFeed !in Fold(st, lines).body
    ensures st.isBody ==> Fold(st, lines).isBody && Fold(st, lines).headers == st.headers
    decreases |lines|
  {
    if |lines| > 0 {
      var st' := LineStep(st, lines[0]);
      InsertLaws(st.headers, HeaderFromLine(lines[0]));
      AppendBodyLaws(st.body, lines[0]);
      FoldLaws(st', lines[1..]);
      if LineFeed !in st.body && (forall k :: 0 <= k < |lines| ==> LineFeed !in lines[k]) {
        assert LineFeed !in lines[0];
        assert forall k :: 0 <= k < |lines[1..]| ==> lines[1..][k] == lines[k + 1];
      }
    }
  }

  /** `RxSTOMPFrame(text:)`. */
  function Parse(text: string): (r: Result<Frame, StompError>)
    ensures |text| == 0 ==> r == Failure(EmptyFrame)
    ensures text == [LineFeed] ==> r == Success(Frame(Ping, [], Some("")))
    ensures |text| > 0 && text != [LineFeed] ==>
      var first := Split(text, LineFeed)[0];
      (r.Success? <==> CommandFromText(first).Success?) &&
      (r.Success? ==> r.value.command.RawValue() == first && r.value.command != Ping) &&
      (r.Failure? ==> r.error == UndefinedCommand && r.error.Code() == 1002)
    ensures r.Success? ==> r.value.body.Some? && LineFeed !in r.value.body.value
    ensures r.Success? ==> Distinct(r.value.headers)
  {
    if |text| == 0 then Failure(EmptyFrame)
    else
      var lines := Split(text, LineFeed);
      var command :- if text == [LineFeed] then Success(Ping) else CommandFromText(lines[0]);
      var st := Fold(ParseState([], "", false), lines[1..]);
      assert LineFeed !in st.body && Distinct(st.headers) by {
        SplitPartsFree(text, LineFeed);
        FoldLaws(ParseState([], "", false), lines[1..]);
      }
      if text == [LineFeed] then
        assert lines == ["", ""] by {
          assert text == "" + [LineFeed] + "";
          SplitCons("", "", LineFeed);
        }
        assert st == ParseState([], "", true) by {
          assert lines[1..] == [""];
          assert LineStep(ParseState([], "", false), "") == ParseState([], "", true);
          assert Fold(ParseState([], "", true), [""][1..]) == ParseState([], "", true);
        }
        Success(Frame(command, st.headers, Some(st.body)))
      else
        assert LineFeed in Ping.RawValue();
        Success(Frame(command, st.headers, Some(st.body)))
  }
}
