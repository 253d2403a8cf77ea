/**
  What `RxSTOMPFrame(text:)` makes of a text: the header section, the body
  section, and the round trip through `description`.
 */
module FrameLaws {
  import opened Wrappers
  import opened Text
  import opened Commands
  import opened Headers
  import opened Frames

  // ---------------------------------------------------------------------------
  // Sections of a frame text

  /** The index of the first empty line (the blank line ending the headers), or |lines| when there is none. */
  function FirstEmpty(lines: seq<string>): (j: nat)
    ensures j <= |lines|
    ensures forall k :: 0 <= k < j ==> lines[k] != ""
    ensures j < |lines| ==> lines[j] == ""
  {
    if |lines| == 0 || lines[0] == "" then 0
    else
      var j := FirstEmpty(lines[1..]);
      assert forall k :: 1 <= k < j + 1 ==> lines[k] == lines[1..][k - 1];
      1 + j
  }

  /** The header each line yields, in order. */
  function ParsedHeaders(lines: seq<string>): (hs: seq<Header>)
    ensures |hs| == |lines|
  {
    if |lines| == 0 then [] else [HeaderFromLine(lines[0])] + ParsedHeaders(lines[1..])
  }

  /** Inserting the headers one by one. */
  function InsertAll(acc: seq<Header>, hs: seq<Header>): seq<Header>
    decreases |hs|
  {
    if |hs| == 0 then acc else InsertAll(Insert(acc, hs[0]), hs[1..])
  }

  /** Adding the headers of `lines` one by one, as the parser does before the blank line. */
  function InsertLines(acc: seq<Header>, lines: seq<string>): seq<Header>
  {
    InsertAll(acc, ParsedHeaders(lines))
  }

  /** Inserting headers adds exactly their pairs to the header set and keeps the pairs distinct. */
  lemma {:induction false} InsertAllLaws(acc: seq<Header>, hs: seq<Header>)
    ensures PairSet(InsertAll(acc, hs)) == PairSet(acc) + PairSet(hs)
    ensures Distinct(acc) ==> Distinct(InsertAll(acc, hs))
    decreases |hs|
  {
    if |hs| > 0 {
      InsertLaws(acc, hs[0]);
      InsertAllLaws(Insert(acc, hs[0]), hs[1..]);
    }
  }

  /** Distinct headers none of whose pairs is present are appended as they are. */
  lemma {:induction false} InsertAllFresh(acc: seq<Header>, hs: seq<Header>)
    requires Distinct(hs)
    requires forall i :: 0 <= i < |hs| ==> hs[i].Pair() !in PairSet(acc)
    ensures InsertAll(acc, hs) == acc + hs
    decreases |hs|
  {
    if |hs| > 0 {
      var acc' := acc + [hs[0]];
      PairSetAppend(acc, hs[0]);
      forall i | 0 <= i < |hs[1..]|
        ensures hs[1..][i].Pair() !in PairSet(acc')
      {
        assert hs[1..][i] == hs[i + 1];
      }
      InsertAllFresh(acc', hs[1..]);
      assert acc' + hs[1..] == acc + hs;
    } else {
      assert acc + hs == acc;
    }
  }

  /** Before the blank line every line is a header line; the blank line switches to the body. */
  lemma {:induction false} FoldHeaderSection(st: ParseState, lines: seq<string>)
    requires !st.isBody
    ensures var j := FirstEmpty(lines);
      && (j == |lines| ==> Fold(st, lines) == st.(headers := InsertLines(st.headers, lines)))
      && (j < |lines| ==>
            Fold(st, lines) == Fold(ParseState(InsertLines(st.headers, lines[..j]), st.body, true), lines[j + 1..]))
    decreases |lines|
  {
    if |lines| > 0 && lines[0] != "" {
      var st' := st.(headers := Insert(st.headers, HeaderFromLine(lines[0])));
      assert Fold(st, lines) == Fold(st', lines[1..]);
      FoldHeaderSection(st', lines[1..]);
      var j := FirstEmpty(lines[1..]);
      assert FirstEmpty(lines) == j + 1;
      InsertLinesFirst(st.headers, lines, j + 1);
      if j == |lines| - 1 {
        assert lines[1..][..j] == lines[1..];
        assert lines[..j + 1] == lines;
      } else {
        assert lines[1..][j + 1..] == lines[j + 2..];
      }
    } else if |lines| > 0 {
      assert lines[..0] == [];
      assert Fold(st, lines) == Fold(st.(isBody := true), lines[1..]);
    }
  }

  /** Adding the first `k` lines starts with the first line. */
  lemma InsertLinesFirst(acc: seq<Header>, lines: seq<string>, k: nat)
    requires 1 <= k <= |lines|
    ensures InsertLines(acc, lines[..k]) == InsertLines(Insert(acc, HeaderFromLine(lines[0])), lines[1..][..k - 1])
  {
    assert lines[..k][0] == lines[0];
    assert lines[..k][1..] == lines[1..][..k - 1];
    var ps := ParsedHeaders(lines[..k]);
    assert ps[0] == HeaderFromLine(lines[0]) && ps[1..] == ParsedHeaders(lines[1..][..k - 1]);
  }

  // ---------------------------------------------------------------------------
  // The body section

  /** Up to NULs, the body is the body lines concatenated with no separator. */
  lemma {:induction false} FoldBodyUpToNul(hs: seq<Header>, b: string, lines: seq<string>)
    ensures RemoveAll(Fold(ParseState(hs, b, true), lines).body, NullChar) == RemoveAll(b + Concat(lines), NullChar)
    decreases |lines|
  {
    if |lines| > 0 {
      var b' := AppendBody(b, lines[0]);
      var rest := Concat(lines[1..]);
      assert RemoveAll(b' + rest, NullChar) == RemoveAll(b + Concat(lines), NullChar) by {
        AppendBodyLaws(b, lines[0]);
        RemoveAllAppend(b', rest, NullChar);
        RemoveAllAppend(b + lines[0], rest, NullChar);
        assert b + Concat(lines) == (b + lines[0]) + rest;
      }
      FoldBodyUpToNul(hs, b', lines[1..]);
    } else {
      assert b + Concat(lines) == b;
    }
  }

  /** Without any NUL, the body is exactly the body lines concatenated with no separator. */
  lemma {:induction false} FoldBodyWithoutNul(hs: seq<Header>, b: string, lines: seq<string>)
    requires NullChar !in b + Concat(lines)
    ensures Fold(ParseState(hs, b, true), lines).body == b + Concat(lines)
    decreases |lines|
  {
    if |lines| > 0 {
      assert b + Concat(lines) == (b + lines[0]) + Concat(lines[1..]);
      assert !EndsWith(b + lines[0], NullChar);
      FoldBodyWithoutNul(hs, b + lines[0], lines[1..]);
    } else {
      assert b + Concat(lines) == b;
    }
  }

  /** Empty lines leave a body that does not end in NUL unchanged. */
  lemma {:induction false} FoldBodyEmptyLines(hs: seq<Header>, b: string, lines: seq<string>)
    requires Concat(lines) == "" && !EndsWith(b, NullChar)
    ensures Fold(ParseState(hs, b, true), lines).body == b
    decreases |lines|
  {
    if |lines| > 0 {
      assert lines[0] == "";
      assert b + lines[0] == b;
      FoldBodyEmptyLines(hs, b, lines[1..]);
    }
  }

  /** When the concatenated body ends in NUL, every NUL has been removed from it. */
  lemma {:induction false} FoldBodyEndingInNul(hs: seq<Header>, b: string, lines: seq<string>)
    requires !EndsWith(b, NullChar) && EndsWith(b + Concat(lines), NullChar)
    ensures Fold(ParseState(hs, b, true), lines).body == RemoveAll(b + Concat(lines), NullChar)
    decreases |lines|
  {
    var b' := AppendBody(b, lines[0]);
    AppendBodyLaws(b, lines[0]);
    var rest := Concat(lines[1..]);
    assert b + Concat(lines) == (b + lines[0]) + rest;
    if EndsWith(b' + rest, NullChar) {
      FoldBodyEndingInNul(hs, b', lines[1..]);
      RemoveAllAppend(b', rest, NullChar);
      RemoveAllAppend(b + lines[0], rest, NullChar);
    } else {
      assert rest == "";
      assert b + Concat(lines) == b + lines[0];
      FoldBodyEmptyLines(hs, b', lines[1..]);
    }
  }

  // ---------------------------------------------------------------------------
  // Parsing, section by section

  /** The lines after the command line. */
  function RestLines(text: string): seq<string>
  {
    Split(text, LineFeed)[1..]
  }

  /** A parsed frame other than the heartbeat holds what the loop over the lines after the first leaves. */
  lemma ParseFold(text: string)
    requires Parse(text).Success? && text != [LineFeed]
    ensures var st := Fold(ParseState([], "", false), RestLines(text));
      Parse(text).value.headers == st.headers && Parse(text).value.body == Some(st.body)
  {
  }

  /** The headers the loop leaves: one per line before the first blank line, as a set of pairs. */
  lemma FoldHeaders(rest: seq<string>)
    ensures PairSet(Fold(ParseState([], "", false), rest).headers) == PairSet(ParsedHeaders(rest[..FirstEmpty(rest)]))
  {
    var j := FirstEmpty(rest);
    FoldHeaderSection(ParseState([], "", false), rest);
    InsertAllLaws([], ParsedHeaders(rest[..j]));
    if j == |rest| {
      assert rest[..j] == rest;
    } else {
      FoldLaws(ParseState(InsertLines([], rest[..j]), "", true), rest[j + 1..]);
    }
  }

  /**
    The body the loop leaves: empty when there is no blank line; otherwise the
    lines after it concatenated up to NULs, exactly when they hold no NUL, and
    without NULs when they end in NUL.
   */
  lemma FoldBody(st: ParseState, rest: seq<string>)
    requires !st.isBody && st.body == ""
    ensures var j := FirstEmpty(rest); var b := Fold(st, rest).body;
      && (j == |rest| ==> b == "")
      && (j < |rest| ==> RemoveAll(b, NullChar) == RemoveAll(Concat(rest[j + 1..]), NullChar))
      && (j < |rest| && NullChar !in Concat(rest[j + 1..]) ==> b == Concat(rest[j + 1..]))
      && (j < |rest| && EndsWith(Concat(rest[j + 1..]), NullChar) ==> b == RemoveAll(Concat(rest[j + 1..]), NullChar))
  {
    var j := FirstEmpty(rest);
    var b := Fold(st, rest).body;
    if j < |rest| {
      var hs := InsertLines(st.headers, rest[..j]);
      assert b == Fold(ParseState(hs, "", true), rest[j + 1..]).body by {
        FoldHeaderSection(st, rest);
      }
      BodySection(hs, rest[j + 1..]);
    } else {
      assert b == "" by {
        FoldHeaderSection(st, rest);
      }
    }
  }

  /** The body read from the lines after the blank line, starting from an empty body. */
  lemma BodySection(hs: seq<Header>, body: seq<string>)
    ensures var b := Fold(ParseState(hs, "", true), body).body;
      && RemoveAll(b, NullChar) == RemoveAll(Concat(body), NullChar)
      && (NullChar !in Concat(body) ==> b == Concat(body))
      && (EndsWith(Concat(body), NullChar) ==> b == RemoveAll(Concat(body), NullChar))
  {
    assert "" + Concat(body) == Concat(body);
    FoldBodyUpToNul(hs, "", body);
    if NullChar !in Concat(body) {
      FoldBodyWithoutNul(hs, "", body);
    }
    if EndsWith(Concat(body), NullChar) {
      FoldBodyEndingInNul(hs, "", body);
    }
  }

  /**
    A parsed frame holds one header per line before the first blank line (as a
    set of pairs), and a body built from the lines after it: empty when there is
    no blank line, the concatenation when it holds no NUL, the concatenation
    without its NULs when it ends in NUL, and in every case the concatenation up
    to NULs.
   */
  lemma ParseSections(text: string)
    requires Parse(text).Success? && text != [LineFeed]
    ensures var rest := RestLines(text); var j := FirstEmpty(rest); var f := Parse(text).value;
      && PairSet(f.headers) == PairSet(ParsedHeaders(rest[..j]))
      && (j == |rest| ==> f.body == Some(""))
      && (j < |rest| ==> RemoveAll(f.body.value, NullChar) == RemoveAll(Concat(rest[j + 1..]), NullChar))
      && (j < |rest| && NullChar !in Concat(rest[j + 1..]) ==> f.body == Some(Concat(rest[j + 1..])))
      && (j < |rest| && EndsWith(Concat(rest[j + 1..]), NullChar) ==>
            f.body == Some(RemoveAll(Concat(rest[j + 1..]), NullChar)))
  {
    ParseFold(text);
    FoldHeaders(RestLines(text));
    FoldBody(ParseState([], "", false), RestLines(text));
  }

  // ---------------------------------------------------------------------------
  // Round trip

  /** The header lines of `hs`, one per header, without line feeds. */
  function Lines(hs: seq<Header>): (ls: seq<string>)
    ensures |ls| == |hs|
  {
    if |hs| == 0 then [] else [HeaderLine(hs[0])] + Lines(hs[1..])
  }

  /** Every header in the form the parser builds it. */
  function NormalizeAll(hs: seq<Header>): (ns: seq<Header>)
    ensures |ns| == |hs|
  {
    if |hs| == 0 then [] else [Normalize(hs[0])] + NormalizeAll(hs[1..])
  }

  /** No key or value contains a colon or a line feed. */
  predicate PlainHeaders(hs: seq<Header>)
  {
    forall i :: 0 <= i < |hs| ==>
      ':' !in hs[i].Key() && ':' !in hs[i].Value() &&
      LineFeed !in hs[i].Key() && LineFeed !in hs[i].Value()
  }

  /** The frames whose text form parses back: not a ping, plain headers, a body without line feed or NUL. */
  predicate Serializable(f: Frame)
  {
    && f.command != Ping
    && PlainHeaders(f.headers)
    && (f.body.Some? ==> LineFeed !in f.body.value && NullChar !in f.body.value)
  }

  /** A plain header line reads back as the header's normal form. */
  lemma HeaderLineRoundTrip(h: Header)
    requires ':' !in h.Key() && ':' !in h.Value()
    ensures HeaderFromLine(HeaderLine(h)) == Normalize(h)
  {
    var line := HeaderLine(h);
    assert line == h.Key() + [':'] + h.Value();
    SplitCons(h.Key(), h.Value(), ':');
    SplitNoSeparator(h.Value(), ':');
    assert Split(line, ':') == [h.Key(), h.Value()];
  }

  /** A header line is never empty, so it never ends the header section. */
  lemma {:induction false} LinesNonEmpty(hs: seq<Header>)
    ensures forall k :: 0 <= k < |Lines(hs)| ==> Lines(hs)[k] != ""
    decreases |hs|
  {
    if |hs| > 0 {
      LinesNonEmpty(hs[1..]);
      assert ':' in HeaderLine(hs[0]);
    }
  }

  /** The plain headers after the first are plain. */
  lemma PlainTail(hs: seq<Header>)
    requires |hs| > 0 && PlainHeaders(hs)
    ensures PlainHeaders(hs[1..])
    ensures LineFeed !in HeaderLine(hs[0]) && ':' !in hs[0].Key() && ':' !in hs[0].Value()
  {
    assert forall i :: 0 <= i < |hs[1..]| ==> hs[1..][i] == hs[i + 1];
  }

  /** Splitting the header block gives one line per header. */
  lemma {:induction false} SplitHeaderLines(hs: seq<Header>, tail: string)
    requires PlainHeaders(hs)
    ensures Split(HeaderLines(hs) + tail, LineFeed) == Lines(hs) + Split(tail, LineFeed)
    decreases |hs|
  {
    if |hs| > 0 {
      var line, more := HeaderLine(hs[0]), HeaderLines(hs[1..]) + tail;
      assert Split(HeaderLines(hs) + tail, LineFeed) == [line] + Split(more, LineFeed) by {
        PlainTail(hs);
        assert HeaderLines(hs) + tail == line + [LineFeed] + more;
        SplitCons(line, more, LineFeed);
      }
      assert PlainHeaders(hs[1..]) by {
        PlainTail(hs);
      }
      SplitHeaderLines(hs[1..], tail);
    } else {
      assert HeaderLines(hs) + tail == tail;
    }
  }

  /** The lines of a frame text, with or without its NUL: command, one per header, the blank line, and the body. */
  lemma SplitFrameText(f: Frame, end: string)
    requires Serializable(f) && (end == "" || end == [NullChar])
    ensures Split(FrameText(f) + end, LineFeed) ==
      [f.command.RawValue()] + Lines(f.headers) + ["", f.body.GetOr("") + end]
  {
    RawValueShape(f.command);
    SplitLayout(f.command.RawValue(), f.headers, f.body.GetOr("") + end);
    assert FrameText(f) + end == f.command.RawValue() + [LineFeed] + HeaderLines(f.headers) + [LineFeed] + (f.body.GetOr("") + end);
  }

  /** SplitFrameText on the parts of the text. */
  lemma SplitLayout(raw: string, hs: seq<Header>, b: string)
    requires LineFeed !in raw && PlainHeaders(hs) && LineFeed !in b
    ensures Split(raw + [LineFeed] + HeaderLines(hs) + [LineFeed] + b, LineFeed) == [raw] + Lines(hs) + ["", b]
  {
    var hl := HeaderLines(hs);
    assert raw + [LineFeed] + hl + [LineFeed] + b == raw + [LineFeed] + (hl + ([LineFeed] + b));
    SplitCommandLine(raw, hl + ([LineFeed] + b));
    SplitHeaderLines(hs, [LineFeed] + b);
    SplitBlankThenBody(b);
  }

  /** A line feed followed by a line: an empty line, then that line. */
  lemma SplitBlankThenBody(b: string)
    requires LineFeed !in b
    ensures Split([LineFeed] + b, LineFeed) == ["", b]
  {
    assert [LineFeed] + b == "" + [LineFeed] + b;
    SplitCons("", b, LineFeed);
    SplitNoSeparator(b, LineFeed);
  }

  /** Plain header lines read back as the headers' normal forms. */
  lemma {:induction false} ParsedLines(hs: seq<Header>)
    requires PlainHeaders(hs)
    ensures ParsedHeaders(Lines(hs)) == NormalizeAll(hs)
    decreases |hs|
  {
    if |hs| > 0 {
      PlainTail(hs);
      HeaderLineRoundTrip(hs[0]);
      ParsedLines(hs[1..]);
      assert Lines(hs)[1..] == Lines(hs[1..]);
    }
  }

  /** Normal forms carry the same pairs, position by position. */
  lemma {:induction false} NormalizeAllPairs(hs: seq<Header>)
    ensures forall i :: 0 <= i < |hs| ==> NormalizeAll(hs)[i].Pair() == hs[i].Pair()
    ensures PairSet(NormalizeAll(hs)) == PairSet(hs)
    ensures Distinct(hs) ==> Distinct(NormalizeAll(hs))
    decreases |hs|
  {
    if |hs| > 0 {
      NormalizeAllPairs(hs[1..]);
      var ns := NormalizeAll(hs);
      assert ns[1..] == NormalizeAll(hs[1..]);
      forall i | 1 <= i < |hs|
        ensures ns[i].Pair() == hs[i].Pair()
      {
        assert ns[i] == ns[1..][i - 1] && hs[i] == hs[1..][i - 1];
      }
    }
  }

  lemma {:induction false} FirstEmptyAfterHeaders(ls: seq<string>, tail: seq<string>)
    requires forall k :: 0 <= k < |ls| ==> ls[k] != ""
    requires |tail| > 0 && tail[0] == ""
    ensures FirstEmpty(ls + tail) == |ls|
    decreases |ls|
  {
    if |ls| > 0 {
      assert (ls + tail)[1..] == ls[1..] + tail;
      FirstEmptyAfterHeaders(ls[1..], tail);
    }
  }

  /** The body line of a frame text, with or without its NUL, reads back as the body. */
  lemma BodyLine(hs: seq<Header>, b: string, end: string)
    requires NullChar !in b && (end == "" || end == [NullChar])
    ensures Fold(ParseState(hs, "", true), [b + end]) == ParseState(hs, b, true)
  {
    RemoveAllAppend(b, end, NullChar);
    RemoveAllAbsent(b, NullChar);
    assert "" + (b + end) == b + end;
    assert end == "" ==> b + end == b;
    assert AppendBody("", b + end) == b;
    assert [b + end][1..] == [];
  }

  /** The command line is split off at the first line feed. */
  lemma SplitCommandLine(raw: string, more: string)
    requires LineFeed !in raw
    ensures Split(raw + [LineFeed] + more, LineFeed) == [raw] + Split(more, LineFeed)
  {
    SplitCons(raw, more, LineFeed);
  }

  /** A text whose first line names a command parses to that command and what the loop over the other lines leaves. */
  lemma ParseCommandLine(text: string, c: Command)
    requires |text| > 0 && text != [LineFeed] && CommandFromText(Split(text, LineFeed)[0]) == Success(c)
    ensures var st := Fold(ParseState([], "", false), RestLines(text));
      Parse(text) == Success(Frame(c, st.headers, Some(st.body)))
  {
  }

  /** Parsing a frame text, with or without its NUL, reads the command, adds the header lines in order, and reads the body. */
  lemma ParseFrameText(f: Frame, end: string)
    requires Serializable(f) && (end == "" || end == [NullChar])
    ensures Parse(FrameText(f) + end) == Success(Frame(f.command, InsertLines([], Lines(f.headers)), Some(f.body.GetOr(""))))
  {
    var text := FrameText(f) + end;
    FrameTextLines(f, end);
    FrameTextFold(f, end);
    ParseCommandLine(text, f.command);
  }

  /** The lines of a frame text: the command line, then the header lines, the blank line and the body line. */
  lemma FrameTextLines(f: Frame, end: string)
    requires Serializable(f) && (end == "" || end == [NullChar])
    ensures var text := FrameText(f) + end;
      && |text| > 0 && text != [LineFeed]
      && RestLines(text) == Lines(f.headers) + ["", f.body.GetOr("") + end]
      && CommandFromText(Split(text, LineFeed)[0]) == Success(f.command)
  {
    var text := FrameText(f) + end;
    assert RestLines(text) == Lines(f.headers) + ["", f.body.GetOr("") + end] by {
      SplitFrameText(f, end);
    }
    assert CommandFromText(Split(text, LineFeed)[0]) == Success(f.command) by {
      SplitFrameText(f, end);
      CommandFromRawValue(f.command);
    }
    RawValueShape(f.command);
    assert text[0] == f.command.RawValue()[0];
  }

  /** The loop over those lines adds the header lines in order and reads the body. */
  lemma FrameTextFold(f: Frame, end: string)
    requires Serializable(f) && (end == "" || end == [NullChar])
    ensures var b := f.body.GetOr("");
      Fold(ParseState([], "", false), Lines(f.headers) + ["", b + end]) == ParseState(InsertLines([], Lines(f.headers)), b, true)
  {
    var b := f.body.GetOr("");
    var ls := Lines(f.headers);
    var rest := ls + ["", b + end];
    assert FirstEmpty(rest) == |ls| by {
      LinesNonEmpty(f.headers);
      FirstEmptyAfterHeaders(ls, ["", b + end]);
    }
    var hs := InsertLines([], ls);
    FoldHeaderSection(ParseState([], "", false), rest);
    assert rest[..|ls|] == ls;
    assert rest[|ls| + 1..] == [b + end];
    BodyLine(hs, b, end);
  }

  /**
    Parsing a serialised frame gives back its command, its header set and its
    body (an absent body comes back empty); with distinct headers the header
    sequence comes back in order, each header in its normal form.
   */
  lemma {:induction false} RoundTrip(f: Frame)
    requires Serializable(f)
    ensures var r := Parse(Serialize(f));
      && r.Success?
      && r.value.command == f.command
      && PairSet(r.value.headers) == PairSet(f.headers)
      && r.value.body == Some(f.body.GetOr(""))
      && (Distinct(f.headers) ==> r.value.headers == NormalizeAll(f.headers))
  {
    ParseFrameText(f, [NullChar]);
    ParsedLines(f.headers);
    var ns := NormalizeAll(f.headers);
    NormalizeAllPairs(f.headers);
    InsertAllLaws([], ns);
    if Distinct(f.headers) {
      InsertAllFresh([], ns);
      assert [] + ns == ns;
    }
  }

  /** A frame without a body and one with an empty body have the same text form. */
  lemma AbsentBodyIsEmptyBody(f: Frame)
    ensures Serialize(f.(body := None)) == Serialize(f.(body := Some("")))
  {
  }
}
