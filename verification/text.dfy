/**
  Character-sequence utilities standing in for the Foundation string calls the
  library relies on: `components(separatedBy:)`, `joined(separator:)`,
  `replacingOccurrences(of:with:)` and `hasSuffix`.  Strings are `seq<char>`;
  `components(separatedBy:)` is only ever called with a one-character separator.
 */
module Text {

  /** `parts.joined(separator: String(c))`. */
  function Join(parts: seq<string>, c: char): string
  {
    if |parts| == 0 then ""
    else if |parts| == 1 then parts[0]
    else parts[0] + [c] + Join(parts[1..], c)
  }

  /** `s.components(separatedBy: String(c))`: never empty; "" splits into [""]. */
  function Split(s: string, c: char): (parts: seq<string>)
    ensures |parts| >= 1
    decreases |s|
  {
    if |s| == 0 then [""]
    else
      var rest := Split(s[1..], c);
      if s[0] == c then [""] + rest else [[s[0]] + rest[0]] + rest[1..]
  }

  function Last<T>(xs: seq<T>): T
    requires |xs| > 0
  {
    xs[|xs| - 1]
  }

  /** The parts concatenated with no separator (`body += component` in a loop). */
  function Concat(parts: seq<string>): string
  {
    if |parts| == 0 then "" else parts[0] + Concat(parts[1..])
  }

  /** `s.replacingOccurrences(of: String(c), with: "")`. */
  function RemoveAll(s: string, c: char): (r: string)
    ensures c !in r
    ensures |r| <= |s|
  {
    if |s| == 0 then ""
    else if s[0] == c then RemoveAll(s[1..], c)
    else [s[0]] + RemoveAll(s[1..], c)
  }

  predicate EndsWith(s: string, c: char)
  {
    |s| > 0 && s[|s| - 1] == c
  }

  /** `s` with every leading `c` removed. */
  function StripLeading(s: string, c: char): (r: string)
    ensures |r| == 0 || r[0] != c
    ensures |r| <= |s| && r == s[|s| - |r|..]
    ensures forall k :: 0 <= k < |s| - |r| ==> s[k] == c
  {
    if |s| > 0 && s[0] == c then StripLeading(s[1..], c) else s
  }

  /** Removes leading empty parts (`while msg.first == "" { msg.remove(at: 0) }`). */
  function DropLeadingEmpty(parts: seq<string>): (r: seq<string>)
    ensures |r| <= |parts| && r == parts[|parts| - |r|..]
    ensures |r| == 0 || r[0] != ""
  {
    if |parts| > 0 && parts[0] == "" then DropLeadingEmpty(parts[1..]) else parts
  }

  // ---------------------------------------------------------------------------
  // Splitting and joining

  /** Splitting at a separator that does not occur yields the whole text. */
  lemma {:induction false} SplitNoSeparator(s: string, c: char)
    requires c !in s
    ensures Split(s, c) == [s]
    decreases |s|
  {
    if |s| > 0 {
      SplitNoSeparator(s[1..], c);
      assert [s[0]] + s[1..] == s;
    }
  }

  /** The split has a single part exactly when the separator does not occur. */
  lemma {:induction false} SplitSingle(s: string, c: char)
    ensures |Split(s, c)| == 1 <==> c !in s
    decreases |s|
  {
    if |s| > 0 {
      SplitSingle(s[1..], c);
      assert c in s <==> s[0] == c || c in s[1..];
    }
  }

  /** Splitting peels off everything before the first separator. */
  lemma {:induction false} SplitCons(x: string, y: string, c: char)
    requires c !in x
    ensures Split(x + [c] + y, c) == [x] + Split(y, c)
    decreases |x|
  {
    var s := x + [c] + y;
    if |x| == 0 {
      assert s[0] == c && s[1..] == y;
    } else {
      assert s[0] == x[0] && s[1..] == x[1..] + [c] + y;
      SplitCons(x[1..], y, c);
      assert [x[0]] + x[1..] == x;
    }
  }

  /** No part contains the separator. */
  lemma {:induction false} SplitPartsFree(s: string, c: char)
    ensures forall k :: 0 <= k < |Split(s, c)| ==> c !in Split(s, c)[k]
    decreases |s|
  {
    if |s| > 0 {
      SplitPartsFree(s[1..], c);
    }
  }

  /** Prepending text to the first part prepends it to the joined text. */
  lemma JoinPrepend(p: string, parts: seq<string>, c: char)
    requires |parts| >= 1
    ensures Join([p + parts[0]] + parts[1..], c) == p + Join(parts, c)
  {
    var ps := [p + parts[0]] + parts[1..];
    if |parts| > 1 {
      assert ps[1..] == parts[1..];
    }
  }

  /** Joining the parts gives back the text. */
  lemma {:induction false} JoinSplit(s: string, c: char)
    ensures Join(Split(s, c), c) == s
    decreases |s|
  {
    if |s| > 0 {
      var rest := Split(s[1..], c);
      JoinSplit(s[1..], c);
      if s[0] == c {
        assert ([""] + rest)[1..] == rest;
        assert s == [c] + s[1..];
      } else {
        JoinPrepend([s[0]], rest, c);
        assert s == [s[0]] + s[1..];
      }
    }
  }

  /** Split is a left inverse of Join on separator-free parts. */
  lemma {:induction false} SplitJoin(parts: seq<string>, c: char)
    requires |parts| >= 1
    requires forall k :: 0 <= k < |parts| ==> c !in parts[k]
    ensures Split(Join(parts, c), c) == parts
    decreases |parts|
  {
    if |parts| == 1 {
      SplitNoSeparator(parts[0], c);
    } else {
      SplitJoin(parts[1..], c);
      SplitCons(parts[0], Join(parts[1..], c), c);
    }
  }

  /** Split of a concatenation: the last part of `x` merges with the first part of `y`. */
  lemma {:induction false} SplitAppend(x: string, y: string, c: char)
    ensures var sx, sy := Split(x, c), Split(y, c);
      Split(x + y, c) == sx[..|sx| - 1] + [Last(sx) + sy[0]] + sy[1..]
    decreases |x|
  {
    if |x| == 0 {
      assert x + y == y;
      var sy := Split(y, c);
      assert Split(x, c) == [""];
      assert "" + sy[0] == sy[0];
      assert [sy[0]] + sy[1..] == sy;
    } else {
      assert (x + y)[0] == x[0] && (x + y)[1..] == x[1..] + y;
      SplitAppend(x[1..], y, c);
      SplitAppendStep(x[0], Split(x[1..], c), Split(y, c), Split(x[1..] + y, c), c);
    }
  }

  /** The inductive step of SplitAppend, on the parts alone. */
  lemma SplitAppendStep(a: char, st: seq<string>, sy: seq<string>, r: seq<string>, c: char)
    requires |st| >= 1 && |sy| >= 1
    requires r == st[..|st| - 1] + [Last(st) + sy[0]] + sy[1..]
    ensures var sx := if a == c then [""] + st else [[a] + st[0]] + st[1..];
      (if a == c then [""] + r else [[a] + r[0]] + r[1..]) == sx[..|sx| - 1] + [Last(sx) + sy[0]] + sy[1..]
  {
    if a == c {
      var sx := [""] + st;
      assert sx[..|sx| - 1] == [""] + st[..|st| - 1];
    } else if |st| == 1 {
      assert r == [st[0] + sy[0]] + sy[1..];
      assert [a] + (st[0] + sy[0]) == ([a] + st[0]) + sy[0];
    } else {
      var sx := [[a] + st[0]] + st[1..];
      assert r[0] == st[0];
      assert sx[..|sx| - 1] == [[a] + st[0]] + st[1..|st| - 1];
      assert r[1..] == st[1..|st| - 1] + [Last(st) + sy[0]] + sy[1..];
    }
  }

  // ---------------------------------------------------------------------------
  // First and last part of a split

  /** The first part is the text before the first separator, or all of it when there is none. */
  lemma {:induction false} SplitFirst(s: string, c: char)
    ensures var p := Split(s, c)[0];
      c !in p && |p| <= |s| && s[..|p|] == p && (|p| == |s| || s[|p|] == c)
    decreases |s|
  {
    if |s| > 0 && s[0] != c {
      SplitFirst(s[1..], c);
      var r := Split(s[1..], c)[0];
      assert s[..1 + |r|] == [s[0]] + s[1..][..|r|];
    }
  }

  /** The last part is the text after the last separator, or all of it when there is none. */
  lemma {:induction false} SplitLast(s: string, c: char)
    ensures |Last(Split(s, c))| <= |s|
    ensures s[|s| - |Last(Split(s, c))|..] == Last(Split(s, c))
    ensures |Last(Split(s, c))| == |s| || s[|s| - |Last(Split(s, c))| - 1] == c
    ensures |Split(s, c)| > 1 ==> |Last(Split(s, c))| < |s|
    decreases |s|
  {
    if |s| > 0 {
      var t := s[1..];
      var rest := Split(t, c);
      SplitLast(t, c);
      if s[0] != c && |rest| == 1 {
        assert Last(Split(s, c)) == s by {
          SplitSingle(t, c);
          SplitNoSeparator(t, c);
          assert [s[0]] + t == s;
        }
      } else {
        assert Last(Split(s, c)) == Last(rest);
        SplitLastStep(s, c, t, Last(rest));
      }
    }
  }

  /** The inductive step of SplitLast: a proper suffix of `s[1..]` after a separator, or `s[1..]` itself after a leading separator. */
  lemma SplitLastStep(s: string, c: char, t: string, p: string)
    requires |s| > 0 && t == s[1..]
    requires |p| <= |t| && t[|t| - |p|..] == p
    requires (|p| == |t| && s[0] == c) || (|p| < |t| && t[|t| - |p| - 1] == c)
    ensures |p| < |s| && s[|s| - |p|..] == p && s[|s| - |p| - 1] == c
  {
    var k := |t| - |p|;
    assert |s| - |p| == k + 1;
    assert s[k + 1..] == p by {
      assert s[1..][k..] == s[k + 1..];
    }
    if k > 0 {
      assert t[k - 1] == s[k];
    }
  }

  // ---------------------------------------------------------------------------
  // Leading line removal

  /** Dropping the leading empty lines and joining the rest strips the leading separators. */
  lemma {:induction false} DropLeadingEmptyStrips(s: string, c: char)
    ensures Join(DropLeadingEmpty(Split(s, c)), c) == StripLeading(s, c)
    decreases |s|
  {
    if |s| > 0 && s[0] == c {
      assert s == [] + [c] + s[1..];
      SplitCons([], s[1..], c);
      DropLeadingEmptyStrips(s[1..], c);
    } else if |s| > 0 {
      SplitFirst(s, c);
      JoinSplit(s, c);
      assert Split(s, c)[0] != "";
    }
  }

  /** Stripping twice is stripping once, across a concatenation. */
  lemma {:induction false} StripLeadingAppend(x: string, y: string, c: char)
    ensures StripLeading(StripLeading(x, c) + y, c) == StripLeading(x + y, c)
    decreases |x|
  {
    if |x| > 0 && x[0] == c {
      assert (x + y)[1..] == x[1..] + y;
      StripLeadingAppend(x[1..], y, c);
    } else if |x| > 0 {
      assert (x + y)[0] == x[0];
    }
  }

  // ---------------------------------------------------------------------------
  // Removing a character

  lemma {:induction false} RemoveAllAppend(x: string, y: string, c: char)
    ensures RemoveAll(x + y, c) == RemoveAll(x, c) + RemoveAll(y, c)
    decreases |x|
  {
    if |x| > 0 {
      assert (x + y)[1..] == x[1..] + y;
      RemoveAllAppend(x[1..], y, c);
    } else {
      assert x + y == y;
    }
  }

  /** Removing `c` keeps every other character. */
  lemma {:induction false} RemoveAllKeeps(s: string, c: char)
    ensures forall d :: d != c ==> (d in RemoveAll(s, c) <==> d in s)
    decreases |s|
  {
    if |s| > 0 {
      RemoveAllKeeps(s[1..], c);
      assert forall d :: d in s <==> d == s[0] || d in s[1..];
    }
  }

  lemma {:induction false} RemoveAllIdempotent(s: string, c: char)
    ensures RemoveAll(RemoveAll(s, c), c) == RemoveAll(s, c)
    decreases |s|
  {
    if |s| > 0 {
      RemoveAllIdempotent(s[1..], c);
      if s[0] != c {
        assert ([s[0]] + RemoveAll(s[1..], c))[1..] == RemoveAll(s[1..], c);
      }
    }
  }

  lemma {:induction false} RemoveAllAbsent(s: string, c: char)
    requires c !in s
    ensures RemoveAll(s, c) == s
    decreases |s|
  {
    if |s| > 0 {
      RemoveAllAbsent(s[1..], c);
    }
  }

  /** A concatenation contains a character exactly when one of the parts does. */
  lemma {:induction false} ConcatContains(parts: seq<string>, d: char)
    ensures d in Concat(parts) <==> exists k :: 0 <= k < |parts| && d in parts[k]
    decreases |parts|
  {
    if |parts| > 0 {
      ConcatContains(parts[1..], d);
      assert forall k :: 1 <= k < |parts| ==> parts[k] == parts[1..][k - 1];
      if exists k :: 0 <= k < |parts| && d in parts[k] {
        var k :| 0 <= k < |parts| && d in parts[k];
        if k > 0 {
          assert d in parts[1..][k - 1];
        }
      }
    }
  }
}
