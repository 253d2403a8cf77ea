/**
  The equality `RxSTOMPHeader` declares: two headers are equal when their
  hash values are, and a header's hash value is the XOR of the hash values of
  its key and of its value.  Swift seeds its string hash per process, so the
  string hash is a parameter here and every property below holds for all of
  them.

  The rest of the model compares headers by their (key, value) pair; this
  module states what the written equality does instead and where the two part.
 */
module HeaderEquality {
  import opened Wrappers
  import opened Headers
  import opened Frames
  import opened FrameLaws
  import opened Framer
  import Commands

  /** A string hash, as `String.hashValue` computes it on a 64-bit platform. */
  type StringHash = string -> bv64

  /** `hashValue`: the key's hash XOR the value's hash. */
  function HashValue(h: Header, hash: StringHash): bv64
  {
    hash(h.Key()) ^ hash(h.Value())
  }

  /** `==`: equal hash values. */
  predicate HashEqual(a: Header, b: Header, hash: StringHash)
  {
    HashValue(a, hash) == HashValue(b, hash)
  }

  /** `Set.insert` under the written equality: the header is dropped when an equal one is present. */
  function InsertAsWritten(hs: seq<Header>, h: Header, hash: StringHash): seq<Header>
  {
    if exists i :: 0 <= i < |hs| && HashEqual(hs[i], h, hash) then hs else hs + [h]
  }

  /** Inserting the headers one by one under the written equality. */
  function InsertAllAsWritten(acc: seq<Header>, hs: seq<Header>, hash: StringHash): seq<Header>
    decreases |hs|
  {
    if |hs| == 0 then acc else InsertAllAsWritten(InsertAsWritten(acc, hs[0], hash), hs[1..], hash)
  }

  /** The headers `init(text:)` collects from the header lines, as written. */
  function ParsedHeadersAsWritten(lines: seq<string>, hash: StringHash): seq<Header>
  {
    InsertAllAsWritten([], ParsedHeaders(lines), hash)
  }

  /** Headers with the same pair are equal under every hash. */
  lemma PairEqualIsHashEqual(a: Header, b: Header, hash: StringHash)
    requires a.Pair() == b.Pair()
    ensures HashEqual(a, b, hash)
  {
    assert a.Key() == b.Key() && a.Value() == b.Value();
  }

  /**
    The written insertion drops at least what the pair insertion drops: a
    header whose pair is present is never added twice.
   */
  lemma AsWrittenDropsPresentPairs(hs: seq<Header>, h: Header, hash: StringHash)
    ensures Insert(hs, h) == hs ==> InsertAsWritten(hs, h, hash) == hs
    ensures InsertAsWritten(hs, h, hash) != hs ==> InsertAsWritten(hs, h, hash) == Insert(hs, h)
  {
    InsertLaws(hs, h);
    if h.Pair() in PairSet(hs) {
      PairSetMember(hs, h.Pair());
      var i :| 0 <= i < |hs| && hs[i].Pair() == h.Pair();
      PairEqualIsHashEqual(hs[i], h, hash);
    }
  }

  /** A header and its mirror image, key and value swapped, are equal under every hash. */
  lemma SwappedHeadersEqual(k: string, v: string, hash: StringHash)
    ensures HashEqual(MakeHeader(k, v), MakeHeader(v, k), hash)
    ensures k != v ==> MakeHeader(k, v).Pair() != MakeHeader(v, k).Pair()
  {
  }

  /** Any two headers whose value repeats their key are equal under every hash: both hash to zero. */
  lemma EchoHeadersEqual(a: string, b: string, hash: StringHash)
    ensures HashValue(MakeHeader(a, a), hash) == 0
    ensures HashEqual(MakeHeader(a, a), MakeHeader(b, b), hash)
  {
  }

  /** A SEND frame carrying "a:b" and "b:a". */
  const SwappedFrame: Frame := Frame(Commands.Send, [MakeHeader("a", "b"), MakeHeader("b", "a")], None)

  /** The two header lines read back as the two headers. */
  lemma SwappedFrameLines()
    ensures ParsedHeaders(Lines(SwappedFrame.headers)) == SwappedFrame.headers
  {
    var hs := SwappedFrame.headers;
    HeaderLineRoundTrip(hs[0]);
    HeaderLineRoundTrip(hs[1]);
    assert Lines(hs) == [HeaderLine(hs[0]), HeaderLine(hs[1])] by {
      assert hs[1..][1..] == [];
    }
    var ls := Lines(hs);
    assert ls[1..][1..] == [];
  }

  /**
    Sent, the frame carries both headers.  Read back as written, the header
    set keeps only one of them, whatever the string hash; with pair equality
    it keeps both.
   */
  lemma SwappedHeaderLost(hash: StringHash)
    ensures Serializable(SwappedFrame) && |SwappedFrame.headers| == 2
    ensures |ParsedHeadersAsWritten(Lines(SwappedFrame.headers), hash)| == 1
    ensures |Delivered(SwappedFrame).headers| == 2
  {
    var hs := SwappedFrame.headers;
    assert PlainHeaders(hs) by {
      assert forall i :: 0 <= i < 2 ==> ':' !in hs[i].Key() && ':' !in hs[i].Value();
    }
    SwappedFrameLines();
    SwappedHeadersEqual("a", "b", hash);
    var one := InsertAsWritten([], hs[0], hash);
    assert one == [hs[0]];
    assert InsertAsWritten(one, hs[1], hash) == one;
    assert hs[1..][1..] == [];
    assert ParsedHeadersAsWritten(Lines(hs), hash) == InsertAllAsWritten(one, hs[1..], hash);
    var two := Insert(Insert([], hs[0]), hs[1]);
    assert Insert([], hs[0]) == [hs[0]];
    assert PairSet([hs[0]]) == {("a", "b")};
    assert two == hs;
    assert InsertLines([], Lines(hs)) == InsertAll(Insert([], hs[0]), hs[1..]);
  }

  /** With pair equality the frame reads back with both pairs. */
  lemma SwappedFrameReadsBack()
    ensures var r := Parse(Serialize(SwappedFrame));
      r.Success? && PairSet(r.value.headers) == {("a", "b"), ("b", "a")}
  {
    var hs := SwappedFrame.headers;
    assert PlainHeaders(hs) by {
      assert forall i :: 0 <= i < 2 ==> ':' !in hs[i].Key() && ':' !in hs[i].Value();
    }
    DeliveredMatchesSent(SwappedFrame);
    assert PairSet(hs) == {("a", "b"), ("b", "a")} by {
      assert hs[1..][1..] == [];
    }
  }
}
