/** The pieces of the C++ standard library that the row engine relies on,
    as functions on values: std::string::find, substr and erase with size_t
    wrap-around, and std::getline on an input stream whose remaining content
    is a string and whose read position is an index into it. */
module StdText {

  datatype Option<T> = None | Some(value: T)

  /** std::string::npos: the largest 64-bit size_t. */
  const NPOS: nat := 0xFFFF_FFFF_FFFF_FFFF

  /** n + 1 in size_t arithmetic, which is modulo 2^64: npos + 1 wraps around to 0
      (the only size_t sum of this kind the row engine forms). */
  function SizeSucc(n: nat): nat
  {
    if n == NPOS then 0 else n + 1
  }

  /** The index of the first occurrence of c in s at or after from, or |s| when
      there is none (IndexFromFirst: no earlier index holds c). */
  function IndexFrom(s: string, c: char, from: nat): (r: nat)
    requires from <= |s|
    ensures from <= r <= |s|
    ensures r < |s| ==> s[r] == c
    decreases |s| - from
  {
    if from == |s| then |s|
    else if s[from] == c then from
    else IndexFrom(s, c, from + 1)
  }

  /** No index between from and IndexFrom holds c. */
  lemma {:induction false} IndexFromFirst(s: string, c: char, from: nat)
    requires from <= |s|
    ensures forall j :: from <= j < IndexFrom(s, c, from) ==> s[j] != c
    decreases |s| - from
  {
    if from < |s| && s[from] != c {
      IndexFromFirst(s, c, from + 1);
    }
  }

  /** The index of the first occurrence of c in s, or |s| when c is not in s
      (IndexFirst: no earlier index holds c). */
  function Index(s: string, c: char): (r: nat)
    ensures r <= |s|
    ensures r < |s| ==> s[r] == c
  {
    IndexFrom(s, c, 0)
  }

  /** No index before Index holds c: it is the first occurrence, and c is not in s
      when it is |s|. */
  lemma IndexFirst(s: string, c: char)
    ensures forall j :: 0 <= j < Index(s, c) ==> s[j] != c
    ensures Index(s, c) == |s| <==> c !in s
  {
    IndexFromFirst(s, c, 0);
  }

  /** s.find(c): the first index of c in s, or npos when there is none. */
  function Find(s: string, c: char): nat
  {
    var k := Index(s, c);
    if k < |s| then k else NPOS
  }

  /** find gives the first occurrence of c when s holds one, and npos otherwise. */
  lemma FindMeaning(s: string, c: char)
    ensures c in s ==> Find(s, c) < |s| && s[Find(s, c)] == c && forall j :: 0 <= j < Find(s, c) ==> s[j] != c
    ensures c !in s ==> Find(s, c) == NPOS
  {
    IndexFirst(s, c);
  }

  /** s.substr(0, count): the first count characters, or all of s when it is shorter. */
  function Substr(s: string, count: nat): string
  {
    s[..if count < |s| then count else |s|]
  }

  /** s.erase(0, count): s without its first count characters (all of them when it is shorter). */
  function Erase(s: string, count: nat): string
  {
    s[if count < |s| then count else |s|..]
  }

  /** The result of one successful std::getline: the line and the new read position. */
  datatype Got = Got(line: string, next: nat)

  /** std::getline(input, line, delim) on a stream holding s, read position pos.
      It fails only when nothing at all is left; otherwise it extracts up to and
      including the next delim (which is not stored), or everything that is left. */
  function GetLine(s: string, pos: nat, delim: char): (r: Option<Got>)
    requires pos <= |s|
    ensures r.None? <==> pos == |s|
    ensures r.Some? ==> pos < r.value.next <= |s| && delim !in r.value.line
    ensures r.Some? ==>
      s[pos..r.value.next] == r.value.line + [delim] ||
      (r.value.next == |s| && s[pos..] == r.value.line)
  {
    if pos == |s| then None
    else
      var k := IndexFrom(s, delim, pos);
      IndexFromFirst(s, delim, pos);
      if k < |s| then
        assert delim !in s[pos..k] by {
          forall i | 0 <= i < k - pos ensures s[pos..k][i] != delim {
            assert s[pos..k][i] == s[pos + i];
          }
        }
        assert s[pos..k + 1] == s[pos..k] + [delim];
        Some(Got(s[pos..k], k + 1))
      else
        assert delim !in s[pos..] by {
          forall i | 0 <= i < |s| - pos ensures s[pos..][i] != delim {
            assert s[pos..][i] == s[pos + i];
          }
        }
        Some(Got(s[pos..], |s|))
  }

  /** A first occurrence of c at or after from is what IndexFrom finds. */
  lemma IndexFromAt(s: string, c: char, from: nat, k: nat)
    requires from <= k < |s| && s[k] == c
    requires forall j :: from <= j < k ==> s[j] != c
    ensures IndexFrom(s, c, from) == k
  {
    IndexFromFirst(s, c, from);
  }

  /** std::getline stops at the first delimiter after the read position: the
      line is the text before it and reading goes on after it. */
  lemma GetLineAt(s: string, pos: nat, delim: char, k: nat)
    requires pos <= k < |s| && s[k] == delim
    requires forall j :: pos <= j < k ==> s[j] != delim
    ensures GetLine(s, pos, delim) == Some(Got(s[pos..k], k + 1))
  {
    IndexFromAt(s, delim, pos, k);
  }

  /** Every line std::getline delivers from position pos until it fails. */
  function LinesFrom(s: string, pos: nat, delim: char): seq<string>
    requires pos <= |s|
    decreases |s| - pos
  {
    match GetLine(s, pos, delim)
    case None => []
    case Some(got) => [got.line] + LinesFrom(s, got.next, delim)
  }

  /** The lines of a whole stream. */
  function Lines(s: string, delim: char): seq<string>
  {
    LinesFrom(s, 0, delim)
  }

  /** xs without its first k elements; empty when k reaches its length. */
  function Drop<T>(xs: seq<T>, k: nat): (r: seq<T>)
    ensures |r| == if k < |xs| then |xs| - k else 0
    ensures forall i :: 0 <= i < |r| ==> r[i] == xs[k + i]
  {
    if k < |xs| then xs[k..] else []
  }

  /** Every line followed by the delimiter: the text that a stream of these lines holds. */
  function Terminated(lines: seq<string>, delim: char): string
  {
    if lines == [] then [] else lines[0] + [delim] + Terminated(lines[1..], delim)
  }

  /** The segments of s between occurrences of delim (at least one, possibly empty). */
  function Segments(s: string, delim: char): (r: seq<string>)
    ensures |r| >= 1
    decreases |s|
  {
    var k := Index(s, delim);
    if k < |s| then [s[..k]] + Segments(s[k + 1..], delim)
    else [s]
  }

  /** The parts, with sep between each two neighbours. */
  function JoinWith(parts: seq<string>, sep: string): string
  {
    if |parts| == 0 then []
    else if |parts| == 1 then parts[0]
    else parts[0] + sep + JoinWith(parts[1..], sep)
  }

  /** The getline lines partition the stream: none holds the delimiter, and each
      followed by the delimiter gives back what was left of the stream, plus one
      delimiter when the stream did not end with one. So an empty text between
      two delimiters is a line, and a last unterminated text is a line when it
      is not empty. */
  lemma {:induction false} LinesFromPartition(s: string, pos: nat, delim: char)
    requires pos <= |s|
    ensures forall i :: 0 <= i < |LinesFrom(s, pos, delim)| ==> delim !in LinesFrom(s, pos, delim)[i]
    ensures Terminated(LinesFrom(s, pos, delim), delim) ==
      if pos == |s| || s[|s| - 1] == delim then s[pos..] else s[pos..] + [delim]
    decreases |s| - pos
  {
    var got := GetLine(s, pos, delim);
    if got.Some? {
      var line, next := got.value.line, got.value.next;
      LinesFromPartition(s, next, delim);
      var rest := LinesFrom(s, next, delim);
      var lines := LinesFrom(s, pos, delim);
      assert lines == [line] + rest;
      assert lines[1..] == rest;
      assert Terminated(lines, delim) == line + [delim] + Terminated(rest, delim);
      if s[pos..next] == line + [delim] {
        LinesTerminatedStep(s, pos, next, delim, line, Terminated(rest, delim));
      } else {
        assert next == |s|;
        assert rest == [];
        assert s[|s| - 1] in s[pos..];
      }
    }
  }

  /** The step of LinesFromPartition for a line that ended at a delimiter. */
  lemma LinesTerminatedStep(s: string, pos: nat, next: nat, delim: char, line: string, tail: string)
    requires pos < next <= |s| && s[pos..next] == line + [delim]
    requires tail == if next == |s| || s[|s| - 1] == delim then s[next..] else s[next..] + [delim]
    ensures line + [delim] + tail == if s[|s| - 1] == delim then s[pos..] else s[pos..] + [delim]
  {
    assert s[pos..] == s[pos..next] + s[next..];
    if next == |s| {
      assert s[|s| - 1] == s[pos..next][next - 1 - pos];
    }
  }

  /** Segments, unfolded once: the text before the first delimiter, then the
      segments after it; the whole of s when it holds no delimiter. */
  lemma SegmentsStep(s: string, delim: char)
    ensures Index(s, delim) < |s| ==>
      Segments(s, delim) == [s[..Index(s, delim)]] + Segments(s[Index(s, delim) + 1..], delim)
    ensures Index(s, delim) == |s| ==> Segments(s, delim) == [s]
  {
  }

  /** Segments on a text whose first delimiter is at k: the text before it, then
      the segments after it. */
  lemma SegmentsCut(s: string, delim: char, k: nat)
    requires k == Index(s, delim) && k < |s|
    ensures Segments(s, delim) == [s[..k]] + Segments(s[k + 1..], delim)
  {
  }

  /** Segments and JoinWith are inverse: joining the segments with the delimiter
      gives s back. */
  lemma {:induction false} SegmentsJoin(s: string, delim: char)
    ensures JoinWith(Segments(s, delim), [delim]) == s
    decreases |s|
  {
    SegmentsStep(s, delim);
    var k := Index(s, delim);
    if k < |s| {
      var head, tail := s[..k], s[k + 1..];
      var segs, rest := Segments(s, delim), Segments(tail, delim);
      SegmentsJoin(tail, delim);
      assert segs[1..] == rest;
      assert JoinWith(segs, [delim]) == head + [delim] + JoinWith(rest, [delim]);
      assert s == head + [delim] + tail;
    }
  }

  /** No segment holds the delimiter. */
  lemma {:induction false} SegmentsFree(s: string, delim: char)
    ensures forall i :: 0 <= i < |Segments(s, delim)| ==> delim !in Segments(s, delim)[i]
    decreases |s|
  {
    SegmentsStep(s, delim);
    IndexFirst(s, delim);
    var k := Index(s, delim);
    if k < |s| {
      var head, tail := s[..k], s[k + 1..];
      var segs, rest := Segments(s, delim), Segments(tail, delim);
      SegmentsFree(tail, delim);
      assert delim !in head;
      forall i | 0 <= i < |segs| ensures delim !in segs[i] {
        if i > 0 {
          assert segs[i] == rest[i - 1];
        }
      }
    } else {
      assert delim !in s;
    }
  }

  /** There is one segment more than s has delimiters. */
  lemma {:induction false} SegmentsCount(s: string, delim: char)
    ensures |Segments(s, delim)| == multiset(s)[delim] + 1
    decreases |s|
  {
    SegmentsStep(s, delim);
    IndexFirst(s, delim);
    var k := Index(s, delim);
    if k < |s| {
      var head, tail := s[..k], s[k + 1..];
      SegmentsCount(tail, delim);
      assert s == head + [delim] + tail;
      assert delim !in head;
      assert multiset(s) == multiset(head) + multiset([delim]) + multiset(tail);
      assert multiset(head)[delim] == 0;
    } else {
      assert delim !in s;
      assert multiset(s)[delim] == 0;
    }
  }

  /** JoinWith built from the back: the last part is appended after a separator. */
  lemma {:induction false} JoinWithSnoc(parts: seq<string>, last: string, sep: string)
    ensures JoinWith(parts + [last], sep) ==
      if parts == [] then last else JoinWith(parts, sep) + sep + last
    decreases |parts|
  {
    if |parts| >= 2 {
      JoinWithSnoc(parts[1..], last, sep);
      assert (parts + [last])[1..] == parts[1..] + [last];
    } else if |parts| == 1 {
      assert (parts + [last])[1..] == [last];
    }
  }
}
