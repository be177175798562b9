// message_mapper: the per-queue log file `<queue>.mqd` and its temporary twin
// `<queue>.mqd.tmp`. The files are values (their bytes, or None when the file
// does not exist); each write, create, remove or rename takes a flag saying
// whether the operating system let it succeed.

module Mapper {
  import opened Wrappers
  import opened Codec

  /** A file: its bytes, or None when it does not exist. */
  type File = Option<seq<Byte>>

  /** The data file and the temporary file of one queue. */
  datatype LogFiles = LogFiles(data: File, tmp: File)

  /** The bytes of a file; a missing file has size 0, as file_helper::size says. */
  function Contents(f: File): (bs: seq<Byte>)
    ensures f.None? ==> bs == []
  {
    if f.Some? then f.value else []
  }

  function Zeros(n: nat): (z: seq<Byte>)
    ensures |z| == n
    ensures forall i :: 0 <= i < n ==> z[i] == 0
  {
    if n == 0 then [] else [0] + Zeros(n - 1)
  }

  /** The file after writing bytes at offset: a write past the end leaves a hole
      of zero bytes, and the file grows when the write reaches beyond it. */
  function Overwrite(data: seq<Byte>, offset: nat, bytes: seq<Byte>): (r: seq<Byte>)
    ensures |r| == if offset + |bytes| <= |data| then |data| else offset + |bytes|
    ensures r[offset..offset + |bytes|] == bytes
    ensures offset <= |data| ==> r[..offset] == data[..offset]
    ensures offset + |bytes| <= |data| ==> r[offset + |bytes|..] == data[offset + |bytes|..]
  {
    var head := if offset <= |data| then data[..offset] else data + Zeros(offset - |data|);
    var tail := if offset + |bytes| <= |data| then data[offset + |bytes|..] else [];
    assert (head + bytes + tail)[offset..offset + |bytes|] == bytes;
    head + bytes + tail
  }

  /** Writing at the end of a file appends. */
  lemma OverwriteAtEnd(data: seq<Byte>, bytes: seq<Byte>)
    ensures Overwrite(data, |data|, bytes) == data + bytes
  {
  }

  /** file_helper::write: it fails on a missing file, since the stream is opened
      for reading and writing, and when the system refuses the write. */
  function Write(f: File, offset: nat, bytes: seq<Byte>, ok: bool): (r: (bool, File))
    ensures r.0 <==> f.Some? && ok
    ensures r.0 ==> r.1 == Some(Overwrite(f.value, offset, bytes))
    ensures !r.0 ==> r.1 == f
  {
    if f.Some? && ok then (true, Some(Overwrite(f.value, offset, bytes))) else (false, f)
  }

  /** file_helper::create: an output stream truncates the file or creates it. */
  function Create(f: File, ok: bool): (r: File)
    ensures ok ==> r == Some([])
    ensures !ok ==> r == f
  {
    if ok then Some([]) else f
  }

  /** file_helper::remove: removing a missing file fails. */
  function RemoveFile(f: File, ok: bool): (r: (bool, File))
    ensures r.0 <==> f.Some? && ok
    ensures r.1 == if r.0 then None else f
  {
    if f.Some? && ok then (true, None) else (false, f)
  }

  // ---------------------------------------------------------------------------
  // Framing and the scan of message_mapper::__load
  // ---------------------------------------------------------------------------

  /** A payload fits the log when the length of its serialisation fits the
      `size_t` length word. */
  predicate Fits(p: Payload)
  {
    3 * (|p.props.id| + |p.props.routingKey| + |p.body|) + 5 < WordLimit
  }

  /** One record of the log: the length word, then the serialised payload. */
  function Frame(body: seq<Byte>): (bs: seq<Byte>)
    requires |body| < WordLimit
    ensures |bs| == WordSize + |body|
  {
    LengthWord(|body|) + body
  }

  /** Where a record's serialised payload sits in the log: its offset (just after
      its length word) and its length. */
  datatype Span = Span(offset: nat, length: nat)

  /** A span read from data: its length word is just before it and says its length. */
  ghost predicate Framed(data: seq<Byte>, s: Span)
  {
    WordSize <= s.offset && s.offset + s.length <= |data| &&
    WordValue(data[s.offset - WordSize..s.offset]) == s.length
  }

  /** The bytes of a span; none when it reaches past the end of the file. */
  function Body(data: seq<Byte>, s: Span): seq<Byte>
  {
    if s.offset + s.length <= |data| then data[s.offset..s.offset + s.length] else []
  }

  /** One read of the loop of __load at pos: the end of the file, a length word
      or a body cut short, or a record of n bytes starting after its word. */
  datatype Read = End | Torn | Record(start: nat, length: nat)

  function ReadAt(data: seq<Byte>, pos: nat): (f: Read)
    requires pos <= |data|
    ensures f.End? <==> pos == |data|
    ensures f.Record? ==> f.start == pos + WordSize && f.start + f.length <= |data|
                          && f.length == WordValue(data[pos..pos + WordSize])
  {
    if pos == |data| then End
    else if |data| - pos < WordSize then Torn
    else
      var n := WordValue(data[pos..pos + WordSize]);
      if |data| - (pos + WordSize) < n then Torn else Record(pos + WordSize, n)
  }

  /** What the framing of a log yields: whether it reached the end of the file, and
      the spans read before it stopped. */
  datatype ScanResult = ScanResult(complete: bool, spans: seq<Span>)

  /** The framing of the loop of __load from pos: read the length word, then that
      many bytes; stop at the end of the file, or with failure when a read runs
      past the end. Each span starts right after the one before and its length
      word. */
  function Scan(data: seq<Byte>, pos: nat): (r: ScanResult)
    requires pos <= |data|
    decreases |data| - pos
  {
    match ReadAt(data, pos)
    case End => ScanResult(true, [])
    case Torn => ScanResult(false, [])
    case Record(start, n) =>
      var rest := Scan(data, start + n);
      ScanResult(rest.complete, [Span(start, n)] + rest.spans)
  }

  /** Each span of a scan lies in the file after its length word, starts right
      after the one before and its length word, and a complete scan ends with the
      last span at the end of the file. */
  lemma {:induction false} ScanShape(data: seq<Byte>, pos: nat)
    requires pos <= |data|
    ensures Shaped(data, pos, Scan(data, pos))
    decreases |data| - pos
  {
    if pos < |data| && |data| - pos >= WordSize {
      var n := WordValue(data[pos..pos + WordSize]);
      var start := pos + WordSize;
      if |data| - start >= n {
        var next := start + n;
        ScanShape(data, next);
        var rest := Scan(data, next);
        ShapeCons(data, pos, start, n, next, rest);
        ScanRecord(data, pos, start, n, next);
      }
    }
  }

  /** The facts of ScanShape about a scan result r of data from pos. */
  ghost predicate Shaped(data: seq<Byte>, pos: nat, r: ScanResult)
  {
    (forall i :: 0 <= i < |r.spans| ==> Framed(data, r.spans[i])) &&
    (|r.spans| > 0 ==> r.spans[0].offset == pos + WordSize) &&
    (forall i :: 0 <= i < |r.spans| - 1 ==> r.spans[i + 1].offset == r.spans[i].offset + r.spans[i].length + WordSize) &&
    (r.complete ==> |data| == if |r.spans| == 0 then pos else Last(r.spans).offset + Last(r.spans).length)
  }

  /** A record read at pos in front of a shaped scan from just after it gives a
      shaped scan from pos. */
  lemma ShapeCons(data: seq<Byte>, pos: nat, start: nat, n: nat, next: nat, r: ScanResult)
    requires start == pos + WordSize && next == start + n <= |data|
    requires WordValue(data[pos..start]) == n
    requires Shaped(data, next, r)
    ensures Shaped(data, pos, ScanResult(r.complete, [Span(start, n)] + r.spans))
  {
    ConsFramed(data, pos, Span(start, n), r.spans);
    ConsChained(Span(start, n), r.spans, next);
    ConsLast(Span(start, n), r.spans);
  }

  /** The last of a span in front of spans: that span when there are no others,
      else the last of the others. */
  lemma ConsLast(s: Span, rest: seq<Span>)
    ensures Last([s] + rest) == if |rest| == 0 then s else Last(rest)
  {
  }

  /** A span framed at pos in front of framed spans: all of them are framed. */
  lemma ConsFramed(data: seq<Byte>, pos: nat, s: Span, rest: seq<Span>)
    requires s.offset == pos + WordSize && s.offset + s.length <= |data|
    requires WordValue(data[pos..s.offset]) == s.length
    requires forall i :: 0 <= i < |rest| ==> Framed(data, rest[i])
    ensures forall i :: 0 <= i < |[s] + rest| ==> Framed(data, ([s] + rest)[i])
  {
    var spans := [s] + rest;
    forall i | 0 <= i < |spans|
      ensures Framed(data, spans[i])
    {
      if i > 0 {
        assert spans[i] == rest[i - 1];
      } else {
        assert s.offset - WordSize == pos;
      }
    }
  }

  /** A span ending at next in front of spans that start after next and each
      follow the one before: they all follow the one before. */
  lemma ConsChained(s: Span, rest: seq<Span>, next: nat)
    requires s.offset + s.length == next
    requires |rest| > 0 ==> rest[0].offset == next + WordSize
    requires forall i :: 0 <= i < |rest| - 1 ==> rest[i + 1].offset == rest[i].offset + rest[i].length + WordSize
    ensures forall i :: 0 <= i < |[s] + rest| - 1 ==>
      ([s] + rest)[i + 1].offset == ([s] + rest)[i].offset + ([s] + rest)[i].length + WordSize
  {
    var spans := [s] + rest;
    forall i | 0 <= i < |spans| - 1
      ensures spans[i + 1].offset == spans[i].offset + spans[i].length + WordSize
    {
      assert spans[i + 1] == rest[i];
      if i > 0 {
        assert spans[i] == rest[i - 1];
      }
    }
  }

  function Last<T>(xs: seq<T>): T
    requires |xs| > 0
  {
    xs[|xs| - 1]
  }

  /** Spans of a scan do not overlap, nor overlap the length words between them. */
  lemma {:induction false} SpansOrdered(data: seq<Byte>, pos: nat, i: nat, j: nat)
    requires pos <= |data| && i < j < |Scan(data, pos).spans|
    ensures Scan(data, pos).spans[i].offset + Scan(data, pos).spans[i].length + WordSize
         <= Scan(data, pos).spans[j].offset
    decreases j - i
  {
    ScanShape(data, pos);
    if i + 1 < j {
      SpansOrdered(data, pos, i + 1, j);
    }
  }

  /** The scan only depends on the bytes from where it starts. */
  lemma {:induction false} ScanSuffix(d1: seq<Byte>, d2: seq<Byte>, pos: nat)
    requires pos <= |d1| == |d2| && d1[pos..] == d2[pos..]
    ensures Scan(d1, pos) == Scan(d2, pos)
    decreases |d1| - pos
  {
    if pos < |d1| && |d1| - pos >= WordSize {
      assert d1[pos..pos + WordSize] == d1[pos..][..WordSize] == d2[pos..pos + WordSize];
      var n := WordValue(d1[pos..pos + WordSize]);
      var start := pos + WordSize;
      if |d1| - start >= n {
        assert d1[start + n..] == d1[pos..][WordSize + n..] == d2[start + n..];
        ScanSuffix(d1, d2, start + n);
      }
    }
  }

  /** Appending a record to a log that frames completely: the scan then also finds
      the new span, just after its length word. */
  lemma {:induction false} ScanAppend(data: seq<Byte>, pos: nat, body: seq<Byte>)
    requires pos <= |data| && Scan(data, pos).complete && |body| < WordLimit
    ensures pos <= |data + Frame(body)|
    ensures Scan(data + Frame(body), pos)
         == ScanResult(true, Scan(data, pos).spans + [Span(|data| + WordSize, |body|)])
    decreases |data| - pos
  {
    var d := data + Frame(body);
    var w := LengthWord(|body|);
    assert d == data + w + body;
    if pos == |data| {
      assert d[pos..pos + WordSize] == w;
      assert Scan(d, pos + WordSize + |body|) == ScanResult(true, []);
    } else {
      var n := WordValue(data[pos..pos + WordSize]);
      var start := pos + WordSize;
      assert d[pos..pos + WordSize] == data[pos..pos + WordSize];
      ScanAppend(data, start + n, body);
      var rest := Scan(data, start + n).spans;
      assert [Span(start, n)] + (rest + [Span(|data| + WordSize, |body|)])
          == ([Span(start, n)] + rest) + [Span(|data| + WordSize, |body|)];
    }
  }

  /** A span of a scan lies in the file, after the position the scan started at. */
  lemma SpanInFile(data: seq<Byte>, pos: nat, k: nat)
    requires pos <= |data| && k < |Scan(data, pos).spans|
    ensures pos + WordSize <= Scan(data, pos).spans[k].offset
    ensures Scan(data, pos).spans[k].offset + Scan(data, pos).spans[k].length <= |data|
  {
    ScanShape(data, pos);
    if k > 0 {
      SpansOrdered(data, pos, 0, k);
    }
  }

  /** Writing at o leaves the bytes before o as they were. */
  lemma OverwritePrefix(data: seq<Byte>, o: nat, bytes: seq<Byte>, a: nat, b: nat)
    requires a <= b <= o <= |data|
    ensures b <= |Overwrite(data, o, bytes)|
    ensures Overwrite(data, o, bytes)[a..b] == data[a..b]
  {
    var d := Overwrite(data, o, bytes);
    assert d[..o] == data[..o];
    forall i | a <= i < b
      ensures d[i] == data[i]
    {
      assert d[i] == d[..o][i];
    }
  }

  /** Rewriting one span in place with as many bytes keeps the framing. */
  lemma {:induction false} ScanOverwrite(data: seq<Byte>, pos: nat, k: nat, bytes: seq<Byte>)
    requires pos <= |data| && k < |Scan(data, pos).spans|
    requires |bytes| == Scan(data, pos).spans[k].length
    ensures |Overwrite(data, Scan(data, pos).spans[k].offset, bytes)| == |data|
    ensures Scan(Overwrite(data, Scan(data, pos).spans[k].offset, bytes), pos) == Scan(data, pos)
    decreases |data| - pos
  {
    var o := Scan(data, pos).spans[k].offset;
    SpanInFile(data, pos, k);
    var d := Overwrite(data, o, bytes);
    ScanSameOutside(data, d, pos, k, o, |bytes|);
  }

  /** A file that agrees with data outside the bytes of one span scans alike. */
  lemma {:induction false} ScanSameOutside(data: seq<Byte>, d: seq<Byte>, pos: nat, k: nat, o: nat, len: nat)
    requires pos <= |data| == |d| && k < |Scan(data, pos).spans|
    requires o == Scan(data, pos).spans[k].offset && len == Scan(data, pos).spans[k].length
    requires o + len <= |data| && d[..o] == data[..o] && d[o + len..] == data[o + len..]
    ensures Scan(d, pos) == Scan(data, pos)
    decreases |data| - pos
  {
    var n, next := ScanFirst(data, pos);
    var spans := Scan(data, pos).spans;
    var rest := Scan(data, next).spans;
    SpanInFile(data, pos, k);
    SameBytesBefore(d, data, o, pos, pos + WordSize);
    if k == 0 {
      ScanSuffix(d, data, next);
    } else {
      assert spans[1..] == rest;
      assert rest[k - 1] == spans[k];
      SpansOrdered(data, pos, 0, k);
      ScanSameOutside(data, d, next, k - 1, o, len);
    }
    ReadAtSame(d, data, pos);
    ScanSameHead(d, data, pos, pos + WordSize, n, next);
  }

  /** A scan that finds a span read a length word at pos and that many bytes after
      it, then went on after them. */
  lemma ScanFirst(data: seq<Byte>, pos: nat) returns (n: nat, next: nat)
    requires pos <= |data| && |Scan(data, pos).spans| > 0
    ensures pos + WordSize <= |data| && n == WordValue(data[pos..pos + WordSize])
    ensures next == pos + WordSize + n <= |data| && ReadAt(data, pos) == Record(pos + WordSize, n)
    ensures Scan(data, pos).spans == [Span(pos + WordSize, n)] + Scan(data, next).spans
  {
    match ReadAt(data, pos)
    case Record(start, m) =>
      n, next := m, start + m;
  }

  /** Two files that agree before o agree on every slice before o. */
  lemma SameBytesBefore(d: seq<Byte>, data: seq<Byte>, o: nat, a: nat, b: nat)
    requires a <= b <= o <= |d| && o <= |data| && d[..o] == data[..o]
    ensures d[a..b] == data[a..b]
  {
    forall i | a <= i < b
      ensures d[i] == data[i]
    {
      assert d[i] == d[..o][i] && data[i] == data[..o][i];
    }
  }

  /** Two files of the same length with the same length word at pos, and the same
      scan after the record it frames, scan alike from pos. */
  lemma ScanSameHead(d: seq<Byte>, data: seq<Byte>, pos: nat, start: nat, n: nat, next: nat)
    requires pos <= |d| && pos <= |data| && next == start + n
    requires ReadAt(d, pos) == Record(start, n) && ReadAt(data, pos) == Record(start, n)
    requires Scan(d, next) == Scan(data, next)
    ensures Scan(d, pos) == Scan(data, pos)
  {
    ScanRecord(d, pos, start, n, next);
    ScanRecord(data, pos, start, n, next);
  }

  /** Two files of the same length with the same length word at pos read the
      same frame there. */
  lemma ReadAtSame(d: seq<Byte>, data: seq<Byte>, pos: nat)
    requires |d| == |data| && pos + WordSize <= |data|
    requires d[pos..pos + WordSize] == data[pos..pos + WordSize]
    ensures ReadAt(d, pos) == ReadAt(data, pos)
  {
  }

  /** A scan that reads a record at pos: its span, then the scan after it. */
  lemma ScanRecord(data: seq<Byte>, pos: nat, start: nat, n: nat, next: nat)
    requires pos <= |data| && ReadAt(data, pos) == Record(start, n) && next == start + n
    ensures next <= |data|
    ensures Scan(data, pos) == ScanResult(Scan(data, next).complete, [Span(start, n)] + Scan(data, next).spans)
  {
  }

  /** Rewriting one span in place leaves the bytes of every other span as they
      were. */
  lemma OverwriteOtherBody(data: seq<Byte>, k: nat, j: nat, bytes: seq<Byte>)
    requires k < |Scan(data, 0).spans| && j < |Scan(data, 0).spans| && j != k
    requires |bytes| == Scan(data, 0).spans[k].length
    ensures |Overwrite(data, Scan(data, 0).spans[k].offset, bytes)| == |data|
    ensures Body(Overwrite(data, Scan(data, 0).spans[k].offset, bytes), Scan(data, 0).spans[j])
         == Body(data, Scan(data, 0).spans[j])
  {
    var spans := Scan(data, 0).spans;
    SpanInFile(data, 0, k);
    SpanInFile(data, 0, j);
    if j < k {
      SpansOrdered(data, 0, j, k);
      BodyBeforeWrite(data, spans[k].offset, bytes, spans[j]);
    } else {
      SpansOrdered(data, 0, k, j);
      BodyAfterWrite(data, spans[k].offset, bytes, spans[j]);
    }
  }

  /** A write leaves the bytes of a span that ends before it as they were. */
  lemma BodyBeforeWrite(data: seq<Byte>, o: nat, bytes: seq<Byte>, s: Span)
    requires s.offset + s.length <= o && o + |bytes| <= |data|
    ensures Body(Overwrite(data, o, bytes), s) == Body(data, s)
  {
    OverwritePrefix(data, o, bytes, s.offset, s.offset + s.length);
  }

  /** A write within the file leaves the bytes of a span that starts after it as
      they were. */
  lemma BodyAfterWrite(data: seq<Byte>, o: nat, bytes: seq<Byte>, s: Span)
    requires o + |bytes| <= s.offset && s.offset + s.length <= |data|
    ensures Body(Overwrite(data, o, bytes), s) == Body(data, s)
  {
    var d := Overwrite(data, o, bytes);
    var e := o + |bytes|;
    assert d[e..] == data[e..];
    forall i | s.offset <= i < s.offset + s.length
      ensures d[i] == data[i]
    {
      assert d[i] == d[e..][i - e] && data[i] == data[e..][i - e];
    }
  }

  // ---------------------------------------------------------------------------
  // Decoding: the records of a log
  // ---------------------------------------------------------------------------

  /** What each span of data parses to. */
  function Parsed(data: seq<Byte>, spans: seq<Span>): (ps: seq<Option<Payload>>)
    ensures |ps| == |spans|
  {
    if |spans| == 0 then [] else Parsed(data, spans[..|spans| - 1]) + [Parse(Body(data, Last(spans)))]
  }

  lemma {:induction false} ParsedAt(data: seq<Byte>, spans: seq<Span>, i: nat)
    requires i < |spans|
    ensures Parsed(data, spans)[i] == Parse(Body(data, spans[i]))
    decreases |spans|
  {
    if i < |spans| - 1 {
      ParsedAt(data, spans[..|spans| - 1], i);
    }
  }

  lemma ParsedSnoc(data: seq<Byte>, spans: seq<Span>, s: Span)
    ensures Parsed(data, spans + [s]) == Parsed(data, spans) + [Parse(Body(data, s))]
  {
    assert (spans + [s])[..|spans|] == spans;
  }

  /** Parsing only looks at the bytes of the spans. */
  lemma {:induction false} ParsedSameBodies(d1: seq<Byte>, d2: seq<Byte>, spans: seq<Span>)
    requires forall i :: 0 <= i < |spans| ==> Body(d1, spans[i]) == Body(d2, spans[i])
    ensures Parsed(d1, spans) == Parsed(d2, spans)
    decreases |spans|
  {
    if |spans| > 0 {
      ParsedSameBodies(d1, d2, spans[..|spans| - 1]);
    }
  }

  /** The messages of the first n of the spans whose parses are ps, located where
      they were read; None when one of them does not parse. */
  function DecodedPrefix(ps: seq<Option<Payload>>, spans: seq<Span>, n: nat): (r: Option<seq<Message>>)
    requires n <= |ps| && n <= |spans|
    ensures r.Some? ==> |r.value| == n
  {
    if n == 0 then Some([])
    else
      match DecodedPrefix(ps, spans, n - 1)
      case None => None
      case Some(ms) =>
        match ps[n - 1]
        case None => None
        case Some(p) => Some(ms + [Message(p, spans[n - 1].offset, spans[n - 1].length)])
  }

  /** The messages of the spans of a log, or None when one does not parse. */
  function Decoded(data: seq<Byte>): (r: Option<seq<Message>>)
  {
    var spans := Scan(data, 0).spans;
    DecodedPrefix(Parsed(data, spans), spans, |spans|)
  }

  /** A log every span of which parses. */
  predicate Decodes(data: seq<Byte>)
  {
    Decoded(data).Some?
  }

  /** The messages of a log that frames and decodes completely. */
  function Records(data: seq<Byte>): (ms: seq<Message>)
    requires Decodes(data)
    ensures |ms| == |Scan(data, 0).spans|
  {
    Decoded(data).value
  }

  /** Each decoded message is its span's payload, at its span. */
  lemma {:induction false} DecodedAt(ps: seq<Option<Payload>>, spans: seq<Span>, n: nat, i: nat)
    requires n <= |ps| && n <= |spans| && DecodedPrefix(ps, spans, n).Some? && i < n
    ensures ps[i].Some?
    ensures DecodedPrefix(ps, spans, n).value[i] == Message(ps[i].value, spans[i].offset, spans[i].length)
    decreases n
  {
    if i < n - 1 {
      DecodedAt(ps, spans, n - 1, i);
    }
  }

  /** Decoding only looks at the first n spans and their parses. */
  lemma {:induction false} DecodedAgree(p1: seq<Option<Payload>>, s1: seq<Span>, p2: seq<Option<Payload>>, s2: seq<Span>, n: nat)
    requires n <= |p1| && n <= |s1| && n <= |p2| && n <= |s2|
    requires forall j :: 0 <= j < n ==> p1[j] == p2[j] && s1[j] == s2[j]
    ensures DecodedPrefix(p1, s1, n) == DecodedPrefix(p2, s2, n)
    decreases n
  {
    if n > 0 {
      DecodedAgree(p1, s1, p2, s2, n - 1);
    }
  }

  /** Decoding one more span, one that parses, adds its message. */
  lemma DecodedSnoc(ps: seq<Option<Payload>>, spans: seq<Span>, n: nat, p: Payload)
    requires n < |ps| && n < |spans| && DecodedPrefix(ps, spans, n).Some? && ps[n] == Some(p)
    ensures DecodedPrefix(ps, spans, n + 1)
         == Some(DecodedPrefix(ps, spans, n).value + [Message(p, spans[n].offset, spans[n].length)])
  {
  }

  /** Decoding one more span at the end, one that parses, adds its message. */
  lemma DecodedAppend(ps: seq<Option<Payload>>, spans: seq<Span>, s: Span, p: Payload)
    requires |ps| == |spans| && DecodedPrefix(ps, spans, |spans|).Some?
    ensures DecodedPrefix(ps + [Some(p)], spans + [s], |spans| + 1)
         == Some(DecodedPrefix(ps, spans, |spans|).value + [Message(p, s.offset, s.length)])
  {
    var ps', spans' := ps + [Some(p)], spans + [s];
    forall i | 0 <= i < |spans|
      ensures ps'[i] == ps[i] && spans'[i] == spans[i]
    {
    }
    DecodedAgree(ps', spans', ps, spans, |spans|);
    DecodedSnoc(ps', spans', |spans|, p);
  }

  /** Decoding with span k parsing to q instead. */
  lemma {:induction false} DecodedUpdate(ps: seq<Option<Payload>>, spans: seq<Span>, n: nat, k: nat, q: Payload)
    requires n <= |ps| && n <= |spans| && DecodedPrefix(ps, spans, n).Some? && k < n
    ensures DecodedPrefix(ps[k := Some(q)], spans, n)
         == Some(DecodedPrefix(ps, spans, n).value[k := Message(q, spans[k].offset, spans[k].length)])
    decreases n
  {
    var ms := DecodedPrefix(ps, spans, n - 1).value;
    var m := DecodedPrefix(ps, spans, n).value[n - 1];
    var mq := Message(q, spans[k].offset, spans[k].length);
    var p2 := ps[k := Some(q)];
    assert DecodedPrefix(ps, spans, n).value == ms + [m];
    if k == n - 1 {
      DecodedAgree(ps, spans, p2, spans, n - 1);
      assert (ms + [m])[k := mq] == ms + [mq];
    } else {
      DecodedUpdate(ps, spans, n - 1, k, q);
      assert (ms + [m])[k := mq] == ms[k := mq] + [m];
    }
  }

  /** The payloads of the records still marked valid, in log order. */
  function Kept(ms: seq<Message>): (ps: seq<Payload>)
    ensures |ps| <= |ms|
    ensures forall i :: 0 <= i < |ps| ==> ps[i].valid
  {
    if |ms| == 0 then []
    else Kept(ms[..|ms| - 1]) + (if Last(ms).payload.valid then [Last(ms).payload] else [])
  }

  lemma KeptSnoc(ms: seq<Message>, m: Message)
    ensures Kept(ms + [m]) == Kept(ms) + (if m.payload.valid then [m.payload] else [])
  {
    assert (ms + [m])[..|ms|] == ms;
  }

  /** The payloads of the parses that succeeded and are marked valid, in order. */
  function KeptParsed(ps: seq<Option<Payload>>): (r: seq<Payload>)
    ensures |r| <= |ps|
  {
    if |ps| == 0 then []
    else KeptParsed(ps[..|ps| - 1]) + (if Last(ps).Some? && Last(ps).value.valid then [Last(ps).value] else [])
  }

  lemma KeptParsedSnoc(ps: seq<Option<Payload>>, x: Option<Payload>)
    ensures KeptParsed(ps + [x]) == KeptParsed(ps) + (if x.Some? && x.value.valid then [x.value] else [])
  {
    assert (ps + [x])[..|ps|] == ps;
  }

  /** The records kept from a decoding are the valid payloads of its parses. */
  lemma {:induction false} KeptDecoded(ps: seq<Option<Payload>>, spans: seq<Span>, n: nat)
    requires n <= |ps| && n <= |spans| && DecodedPrefix(ps, spans, n).Some?
    ensures Kept(DecodedPrefix(ps, spans, n).value) == KeptParsed(ps[..n])
    decreases n
  {
    if n > 0 {
      KeptDecoded(ps, spans, n - 1);
      var ms := DecodedPrefix(ps, spans, n - 1).value;
      var m := DecodedPrefix(ps, spans, n).value[n - 1];
      assert DecodedPrefix(ps, spans, n).value == ms + [m];
      KeptSnoc(ms, m);
      assert ps[..n] == ps[..n - 1] + [ps[n - 1]];
      KeptParsedSnoc(ps[..n - 1], ps[n - 1]);
    }
  }

  /** A span inside data reads the same bytes once more bytes are appended. */
  lemma BodyAppend(data: seq<Byte>, more: seq<Byte>, s: Span)
    requires s.offset + s.length <= |data|
    ensures Body(data + more, s) == Body(data, s)
  {
    assert (data + more)[s.offset..s.offset + s.length] == data[s.offset..s.offset + s.length];
  }

  /** The last span of a log with one more record holds that record's bytes. */
  lemma BodyOfFrame(data: seq<Byte>, body: seq<Byte>)
    requires |body| < WordLimit
    ensures Body(data + Frame(body), Span(|data| + WordSize, |body|)) == body
  {
    var w := LengthWord(|body|);
    assert data + Frame(body) == (data + w) + body;
  }

  /** Appending a frame keeps the parses of the spans before it and adds the
      parse of its body. */
  lemma ParsedAppendFrame(data: seq<Byte>, body: seq<Byte>, p: Payload)
    requires |body| < WordLimit && Parse(body) == Some(p)
    ensures Parsed(data + Frame(body), Scan(data, 0).spans + [Span(|data| + WordSize, |body|)])
         == Parsed(data, Scan(data, 0).spans) + [Some(p)]
  {
    var d := data + Frame(body);
    var spans := Scan(data, 0).spans;
    ScanShape(data, 0);
    forall i | 0 <= i < |spans|
      ensures Body(d, spans[i]) == Body(data, spans[i])
    {
      assert Framed(data, spans[i]);
      BodyAppend(data, Frame(body), spans[i]);
    }
    ParsedSameBodies(d, data, spans);
    ParsedSnoc(d, spans, Span(|data| + WordSize, |body|));
    BodyOfFrame(data, body);
  }

  /** Appending a record that parses to a log that frames and decodes completely
      adds exactly one record, at the old size plus the length word. */
  lemma RecordsAppendBody(data: seq<Byte>, body: seq<Byte>, p: Payload)
    requires Scan(data, 0).complete && Decodes(data) && |body| < WordLimit
    requires Parse(body) == Some(p)
    ensures Scan(data + Frame(body), 0).complete
    ensures Decodes(data + Frame(body))
    ensures Records(data + Frame(body)) == Records(data) + [Message(p, |data| + WordSize, |body|)]
  {
    ScanAppend(data, 0, body);
    ParsedAppendFrame(data, body, p);
    DecodedAppendLog(data, data + Frame(body), Span(|data| + WordSize, |body|), p);
  }

  /** A log d that frames as data with one more span, whose parses are those of
      data followed by p, decodes to the messages of data followed by p's. */
  lemma DecodedAppendLog(data: seq<Byte>, d: seq<Byte>, last: Span, p: Payload)
    requires Decodes(data)
    requires Scan(d, 0).spans == Scan(data, 0).spans + [last]
    requires Parsed(d, Scan(data, 0).spans + [last]) == Parsed(data, Scan(data, 0).spans) + [Some(p)]
    ensures Decoded(d) == Some(Decoded(data).value + [Message(p, last.offset, last.length)])
  {
    var spans := Scan(data, 0).spans;
    var ps := Parsed(data, spans);
    assert Decoded(data) == DecodedPrefix(ps, spans, |spans|);
    DecodedAppend(ps, spans, last, p);
    assert Decoded(d) == DecodedPrefix(ps + [Some(p)], spans + [last], |spans| + 1);
  }

  /** Appending the record of a payload that fits to a log that frames and decodes
      completely adds exactly one record, the payload at the old size plus the
      length word. */
  lemma RecordsAppend(data: seq<Byte>, p: Payload)
    requires Scan(data, 0).complete && Decodes(data) && Fits(p)
    ensures Scan(data + Frame(Serialize(p)), 0).complete
    ensures Decodes(data + Frame(Serialize(p)))
    ensures Records(data + Frame(Serialize(p)))
         == Records(data) + [Message(p, |data| + WordSize, |Serialize(p)|)]
  {
    ParseSerialize(p);
    RecordsAppendBody(data, Serialize(p), p);
  }

  /** Rewriting record k in place with bytes of its length that parse to q changes
      that record only. */
  lemma RecordsOverwriteBody(data: seq<Byte>, k: nat, bytes: seq<Byte>, q: Payload)
    requires Scan(data, 0).complete && Decodes(data) && k < |Scan(data, 0).spans|
    requires |bytes| == Scan(data, 0).spans[k].length && Parse(bytes) == Some(q)
    ensures Scan(Overwrite(data, Scan(data, 0).spans[k].offset, bytes), 0) == Scan(data, 0)
    ensures Decodes(Overwrite(data, Scan(data, 0).spans[k].offset, bytes))
    ensures Records(Overwrite(data, Scan(data, 0).spans[k].offset, bytes))
         == Records(data)[k := Message(q, Scan(data, 0).spans[k].offset, |bytes|)]
  {
    var spans := Scan(data, 0).spans;
    var d := Overwrite(data, spans[k].offset, bytes);
    ScanOverwrite(data, 0, k, bytes);
    SpanInFile(data, 0, k);
    var p1, p2 := Parsed(data, spans), Parsed(d, spans);
    forall j | 0 <= j < |spans|
      ensures p2[j] == p1[k := Some(q)][j]
    {
      ParsedAt(data, spans, j);
      ParsedAt(d, spans, j);
      if j != k {
        OverwriteOtherBody(data, k, j, bytes);
      }
    }
    assert p2 == p1[k := Some(q)];
    DecodedUpdate(p1, spans, |spans|, k, q);
  }

  /** Rewriting the record of a message in place with a payload of the same
      serialised length changes that record's payload only. */
  lemma RecordsOverwrite(data: seq<Byte>, k: nat, q: Payload)
    requires Scan(data, 0).complete && Decodes(data) && k < |Scan(data, 0).spans|
    requires |Serialize(q)| == Scan(data, 0).spans[k].length
    ensures Scan(Overwrite(data, Scan(data, 0).spans[k].offset, Serialize(q)), 0) == Scan(data, 0)
    ensures Decodes(Overwrite(data, Scan(data, 0).spans[k].offset, Serialize(q)))
    ensures Records(Overwrite(data, Scan(data, 0).spans[k].offset, Serialize(q)))
         == Records(data)[k := Records(data)[k].(payload := q)]
  {
    ParseSerialize(q);
    var spans := Scan(data, 0).spans;
    DecodedAt(Parsed(data, spans), spans, |spans|, k);
    RecordsOverwriteBody(data, k, Serialize(q), q);
  }

  // ---------------------------------------------------------------------------
  // message_mapper::__load
  // ---------------------------------------------------------------------------

  /** What loading a log from pos yields: whether every record was read and
      parsed, and the payloads marked valid that were read before the first
      failure. A record that does not parse ends the load with failure. */
  function LoadFrom(data: seq<Byte>, pos: nat): (r: (bool, seq<Payload>))
    requires pos <= |data|
    decreases |data| - pos
  {
    match ReadAt(data, pos)
    case End => (true, [])
    case Torn => (false, [])
    case Record(start, n) => LoadOne(Parse(data[start..start + n]), LoadFrom(data, start + n))
  }

  /** One record of the load: a body that does not parse ends it with failure;
      one that parses is kept when valid, in front of what the load reads after it. */
  function LoadOne(x: Option<Payload>, rest: (bool, seq<Payload>)): (r: (bool, seq<Payload>))
    ensures x.None? ==> r == (false, [])
    ensures x.Some? ==> r.0 == rest.0 && r.1 == (if x.value.valid then [x.value] else []) + rest.1
  {
    match x
    case None => (false, [])
    case Some(p) => (rest.0, (if p.valid then [p] else []) + rest.1)
  }

  /** A load that stops at pos, short of the end: the failure it reports. */
  lemma LoadFromStops(data: seq<Byte>, pos: nat)
    requires pos < |data|
    requires |data| - pos < WordSize
          || |data| - (pos + WordSize) < WordValue(data[pos..pos + WordSize])
          || Parse(data[pos + WordSize..pos + WordSize + WordValue(data[pos..pos + WordSize])]).None?
    ensures LoadFrom(data, pos) == (false, [])
  {
  }

  /** A load that reads one record at pos and goes on after it. */
  lemma LoadFromNext(data: seq<Byte>, pos: nat, n: nat, next: nat, body: seq<Byte>, p: Payload)
    requires pos + WordSize <= |data| && n == WordValue(data[pos..pos + WordSize])
    requires next == pos + WordSize + n <= |data| && body == data[pos + WordSize..next]
    requires Parse(body) == Some(p)
    ensures LoadFrom(data, pos) == (LoadFrom(data, next).0, (if p.valid then [p] else []) + LoadFrom(data, next).1)
  {
    assert ReadAt(data, pos) == Record(pos + WordSize, n);
  }

  /** The bookkeeping of one loop step: what was read so far, then the rest. */
  lemma LoadSoFar(whole: (bool, seq<Payload>), here: (bool, seq<Payload>), next: (bool, seq<Payload>),
                  ps: seq<Payload>, kept: seq<Payload>)
    requires whole == (here.0, ps + here.1)
    requires here == (next.0, kept + next.1)
    ensures whole == (next.0, (ps + kept) + next.1)
  {
    assert ps + (kept + next.1) == (ps + kept) + next.1;
  }

  /** One pass of the loop of __load: read the length word at offset, then that
      many bytes, and parse them. None when the word or the body is cut short or
      the body does not parse; the load then ends with failure. */
  method ReadRecord(data: seq<Byte>, offset: nat) returns (p: Option<Payload>, next: nat)
    requires offset < |data|
    ensures p.None? ==> LoadFrom(data, offset) == (false, [])
    ensures p.Some? ==> offset < next <= |data|
    ensures p.Some? ==> LoadFrom(data, offset) == (LoadFrom(data, next).0,
                                                   (if p.value.valid then [p.value] else []) + LoadFrom(data, next).1)
  {
    next := offset;
    if |data| - offset < WordSize {
      LoadFromStops(data, offset);
      return None, next;
    }
    var n := WordValue(data[offset..offset + WordSize]);
    if |data| - (offset + WordSize) < n {
      LoadFromStops(data, offset);
      return None, next;
    }
    var body := data[offset + WordSize..offset + WordSize + n];
    p := Parse(body);
    if p.None? {
      LoadFromStops(data, offset);
      return;
    }
    next := offset + WordSize + n;
    LoadFromNext(data, offset, n, next, body, p.value);
  }

  /** __load: read records one after another from the start of the file, keeping
      the payloads marked valid; a missing file reads as empty. */
  method Load(f: File) returns (ok: bool, ps: seq<Payload>)
    ensures (ok, ps) == LoadFrom(Contents(f), 0)
  {
    var data := Contents(f);
    var offset: nat := 0;
    ps := [];
    assert ps + LoadFrom(data, 0).1 == LoadFrom(data, 0).1;
    while offset < |data|
      invariant offset <= |data|
      invariant LoadFrom(data, 0) == (LoadFrom(data, offset).0, ps + LoadFrom(data, offset).1)
      decreases |data| - offset
    {
      var r, next := ReadRecord(data, offset);
      if r.None? {
        assert ps + [] == ps;
        return false, ps;
      }
      var kept := if r.value.valid then [r.value] else [];
      LoadSoFar(LoadFrom(data, 0), LoadFrom(data, offset), LoadFrom(data, next), ps, kept);
      ps := ps + kept;
      offset := next;
    }
    assert ps + [] == ps;
    ok := true;
  }

  lemma ParsedCons(data: seq<Byte>, s: Span, spans: seq<Span>)
    ensures Parsed(data, [s] + spans) == [Parse(Body(data, s))] + Parsed(data, spans)
    decreases |spans|
  {
    if |spans| > 0 {
      var init := spans[..|spans| - 1];
      assert ([s] + spans)[..|spans|] == [s] + init;
      ParsedCons(data, s, init);
    }
  }

  lemma KeptParsedCons(x: Option<Payload>, ps: seq<Option<Payload>>)
    ensures KeptParsed([x] + ps) == (if x.Some? && x.value.valid then [x.value] else []) + KeptParsed(ps)
    decreases |ps|
  {
    if |ps| > 0 {
      var init := ps[..|ps| - 1];
      assert ([x] + ps)[..|ps|] == [x] + init;
      KeptParsedCons(x, init);
    }
  }

  /** The load from pos read as its framing, then a parse of each span in turn,
      stopping with failure at the first span that does not parse. */
  function LoadSpans(data: seq<Byte>, spans: seq<Span>, complete: bool): (r: (bool, seq<Payload>))
    ensures |r.1| <= |spans|
  {
    if |spans| == 0 then (complete, [])
    else LoadOne(Parse(Body(data, spans[0])), LoadSpans(data, spans[1..], complete))
  }

  /** The load from pos is its framing followed by the parse of each span. */
  lemma {:induction false} LoadFromSpans(data: seq<Byte>, pos: nat)
    requires pos <= |data|
    ensures LoadFrom(data, pos) == LoadSpans(data, Scan(data, pos).spans, Scan(data, pos).complete)
    decreases |data| - pos, 1
  {
    var f := ReadAt(data, pos);
    if f.Record? {
      LoadFromSpansStep(data, pos, f.start, f.length);
    } else {
      LoadSpansAtEnd(data, pos);
    }
  }

  /** Where a record is read, the load and the load over the framed records
      agree, as they do after it. */
  lemma {:induction false} LoadFromSpansStep(data: seq<Byte>, pos: nat, start: nat, n: nat)
    requires pos <= |data| && ReadAt(data, pos) == Record(start, n)
    ensures LoadFrom(data, pos) == LoadSpans(data, Scan(data, pos).spans, Scan(data, pos).complete)
    decreases |data| - pos, 0
  {
    var next := start + n;
    LoadFromRecord(data, pos, start, n, next);
    LoadSpansRecord(data, pos, start, n, next);
    LoadFromSpans(data, next);
  }

  /** Where no record is read, the load and the load over the framed records
      agree: both succeed at the end of the file and fail on a torn record. */
  lemma LoadSpansAtEnd(data: seq<Byte>, pos: nat)
    requires pos <= |data| && !ReadAt(data, pos).Record?
    ensures LoadFrom(data, pos) == LoadSpans(data, Scan(data, pos).spans, Scan(data, pos).complete)
  {
    assert Scan(data, pos).spans == [];
  }

  /** The load at a record: that record's parse, then the load after it. */
  lemma LoadFromRecord(data: seq<Byte>, pos: nat, start: nat, n: nat, next: nat)
    requires pos <= |data| && ReadAt(data, pos) == Record(start, n) && next == start + n
    ensures next <= |data|
    ensures LoadFrom(data, pos) == LoadOne(Parse(Body(data, Span(start, n))), LoadFrom(data, next))
  {
    assert Body(data, Span(start, n)) == data[start..start + n];
  }

  /** The load over the records framed from a record: that record's parse, then
      the load over the records framed after it. */
  lemma LoadSpansRecord(data: seq<Byte>, pos: nat, start: nat, n: nat, next: nat)
    requires pos <= |data| && ReadAt(data, pos) == Record(start, n) && next == start + n
    ensures next <= |data|
    ensures LoadSpans(data, Scan(data, pos).spans, Scan(data, pos).complete)
         == LoadOne(Parse(Body(data, Span(start, n))),
                    LoadSpans(data, Scan(data, next).spans, Scan(data, next).complete))
  {
    ScanRecord(data, pos, start, n, next);
    var r := Scan(data, next);
    var spans := [Span(start, n)] + r.spans;
    assert spans[0] == Span(start, n) && spans[1..] == r.spans;
  }

  /** The parses of spans: the first one's, then the others'. */
  lemma ParsedFront(data: seq<Byte>, spans: seq<Span>)
    requires |spans| > 0
    ensures Parsed(data, spans) == [Parse(Body(data, spans[0]))] + Parsed(data, spans[1..])
  {
    assert spans == [spans[0]] + spans[1..];
    ParsedCons(data, spans[0], spans[1..]);
  }

  /** The kept parses: the first one's, then the others'. */
  lemma KeptParsedFront(ps: seq<Option<Payload>>)
    requires |ps| > 0
    ensures KeptParsed(ps) == (if ps[0].Some? && ps[0].value.valid then [ps[0].value] else []) + KeptParsed(ps[1..])
  {
    assert ps == [ps[0]] + ps[1..];
    KeptParsedCons(ps[0], ps[1..]);
  }

  /** Every span parses, the first one first. */
  ghost predicate AllParse(data: seq<Byte>, spans: seq<Span>)
  {
    |spans| == 0 || (Parse(Body(data, spans[0])).Some? && AllParse(data, spans[1..]))
  }

  lemma {:induction false} AllParseOf(data: seq<Byte>, spans: seq<Span>)
    requires forall i :: 0 <= i < |spans| ==> Parse(Body(data, spans[i])).Some?
    ensures AllParse(data, spans)
    decreases |spans|
  {
    if |spans| > 0 {
      var rest := spans[1..];
      forall i | 0 <= i < |rest|
        ensures Parse(Body(data, rest[i])).Some?
      {
        assert rest[i] == spans[i + 1];
      }
      AllParseOf(data, rest);
    }
  }

  /** Parsing spans that all parse succeeds with the verdict of the framing and
      yields the valid parsed payloads, in order. */
  lemma {:induction false} LoadSpansKept(data: seq<Byte>, spans: seq<Span>, complete: bool)
    requires AllParse(data, spans)
    ensures LoadSpans(data, spans, complete) == (complete, KeptParsed(Parsed(data, spans)))
    decreases |spans|
  {
    if |spans| > 0 {
      var rest := spans[1..];
      LoadSpansKept(data, rest, complete);
      ParsedFront(data, spans);
      KeptParsedFront(Parsed(data, spans));
    }
  }

  /** A load that meets no parse failure succeeds exactly when the framing
      reaches the end of the file, and yields the valid parsed payloads. */
  lemma LoadFromScan(data: seq<Byte>, pos: nat)
    requires pos <= |data|
    requires forall i :: 0 <= i < |Scan(data, pos).spans| ==> Parse(Body(data, Scan(data, pos).spans[i])).Some?
    ensures LoadFrom(data, pos) == (Scan(data, pos).complete, KeptParsed(Parsed(data, Scan(data, pos).spans)))
  {
    LoadFromSpans(data, pos);
    AllParseOf(data, Scan(data, pos).spans);
    LoadSpansKept(data, Scan(data, pos).spans, Scan(data, pos).complete);
  }

  /** Loading a log that frames and decodes completely succeeds and yields every
      valid record, in log order. */
  lemma LoadAll(data: seq<Byte>)
    requires Scan(data, 0).complete && Decodes(data)
    ensures LoadFrom(data, 0) == (true, Kept(Records(data)))
  {
    var spans := Scan(data, 0).spans;
    var ps := Parsed(data, spans);
    forall i | 0 <= i < |spans|
      ensures Parse(Body(data, spans[i])).Some?
    {
      DecodedAt(ps, spans, |spans|, i);
      ParsedAt(data, spans, i);
    }
    LoadFromScan(data, 0);
    KeptDecoded(ps, spans, |spans|);
    assert ps[..|ps|] == ps;
  }

  /** The converse of LoadAll: a load succeeds only when the framing reaches the
      end of the file and every record parses. */
  lemma LoadSound(data: seq<Byte>)
    requires LoadFrom(data, 0).0
    ensures Scan(data, 0).complete && Decodes(data)
  {
    var spans := Scan(data, 0).spans;
    LoadFromSpans(data, 0);
    LoadSpansParse(data, spans, Scan(data, 0).complete);
    var ps := Parsed(data, spans);
    forall i | 0 <= i < |spans|
      ensures ps[i].Some?
    {
      ParsedAt(data, spans, i);
    }
    DecodedAllParse(ps, spans, |spans|);
  }

  /** A load over spans succeeds only when the framing was complete and every
      span parses. */
  lemma {:induction false} LoadSpansParse(data: seq<Byte>, spans: seq<Span>, complete: bool)
    requires LoadSpans(data, spans, complete).0
    ensures complete && forall i :: 0 <= i < |spans| ==> Parse(Body(data, spans[i])).Some?
    decreases |spans|
  {
    if |spans| > 0 {
      var rest := spans[1..];
      LoadSpansParse(data, rest, complete);
      forall i | 1 <= i < |spans|
        ensures Parse(Body(data, spans[i])).Some?
      {
        assert spans[i] == rest[i - 1];
      }
    }
  }

  /** Spans that all parse decode. */
  lemma {:induction false} DecodedAllParse(ps: seq<Option<Payload>>, spans: seq<Span>, n: nat)
    requires n <= |ps| && n <= |spans|
    requires forall i :: 0 <= i < n ==> ps[i].Some?
    ensures DecodedPrefix(ps, spans, n).Some?
    decreases n
  {
    if n > 0 {
      DecodedAllParse(ps, spans, n - 1);
    }
  }

  // ---------------------------------------------------------------------------
  // Compacted logs
  // ---------------------------------------------------------------------------

  predicate AllFit(ps: seq<Payload>)
  {
    forall i :: 0 <= i < |ps| ==> Fits(ps[i])
  }

  lemma AllFitPrefix(ps: seq<Payload>, k: nat)
    requires AllFit(ps) && k <= |ps|
    ensures AllFit(ps[..k])
  {
    assert forall i :: 0 <= i < k ==> ps[..k][i] == ps[i];
  }

  /** base followed by the records of ps, in order, and the messages of ps
      located where their records lie. */
  function Compact(base: seq<Byte>, ps: seq<Payload>): (r: (seq<Byte>, seq<Message>))
    requires AllFit(ps)
    ensures |r.1| == |ps|
  {
    if |ps| == 0 then (base, [])
    else
      AllFitPrefix(ps, |ps| - 1);
      var init := Compact(base, ps[..|ps| - 1]);
      var body := Serialize(Last(ps));
      (init.0 + Frame(body), init.1 + [Message(Last(ps), |init.0| + WordSize, |body|)])
  }

  function LogAfter(base: seq<Byte>, ps: seq<Payload>): (data: seq<Byte>)
    requires AllFit(ps)
  {
    Compact(base, ps).0
  }

  function PlacedAfter(base: seq<Byte>, ps: seq<Payload>): (ms: seq<Message>)
    requires AllFit(ps)
    ensures |ms| == |ps|
  {
    Compact(base, ps).1
  }

  /** The log that holds exactly the records of ps: what compaction writes. */
  function LogOf(ps: seq<Payload>): (data: seq<Byte>)
    requires AllFit(ps)
  {
    LogAfter([], ps)
  }

  /** The messages of ps located where LogOf puts them. */
  function Placed(ps: seq<Payload>): (ms: seq<Message>)
    requires AllFit(ps)
    ensures |ms| == |ps|
  {
    PlacedAfter([], ps)
  }

  /** Messages not written anywhere yet: their offset and length are unset. */
  function Unplaced(ps: seq<Payload>): (ms: seq<Message>)
    ensures |ms| == |ps|
    ensures forall i :: 0 <= i < |ps| ==> ms[i] == Message(ps[i], 0, 0)
  {
    seq(|ps|, i requires 0 <= i < |ps| => Message(ps[i], 0, 0))
  }

  /** Appending the records of ps to a log that frames and decodes completely
      adds exactly their messages, at the places PlacedAfter gives. */
  lemma {:induction false} RecordsLogAfter(base: seq<Byte>, ps: seq<Payload>)
    requires AllFit(ps) && Scan(base, 0).complete && Decodes(base)
    ensures Scan(LogAfter(base, ps), 0).complete && Decodes(LogAfter(base, ps))
    ensures Records(LogAfter(base, ps)) == Records(base) + PlacedAfter(base, ps)
    decreases |ps|
  {
    if |ps| == 0 {
      assert Records(base) + [] == Records(base);
    } else {
      var init := ps[..|ps| - 1];
      AllFitPrefix(ps, |ps| - 1);
      RecordsLogAfter(base, init);
      var d := LogAfter(base, init);
      RecordsAppend(d, Last(ps));
      var m := Message(Last(ps), |d| + WordSize, |Serialize(Last(ps))|);
      assert LogAfter(base, ps) == d + Frame(Serialize(Last(ps)));
      assert PlacedAfter(base, ps) == PlacedAfter(base, init) + [m];
      ConcatAssoc(Records(base), PlacedAfter(base, init), [m]);
    }
  }

  /** A rebuilt log frames and decodes completely, and its records are the
      payloads it was built from, at their new places. */
  lemma RecordsLogOf(ps: seq<Payload>)
    requires AllFit(ps)
    ensures Scan(LogOf(ps), 0).complete && Decodes(LogOf(ps))
    ensures Records(LogOf(ps)) == Placed(ps)
  {
    assert Scan([], 0) == ScanResult(true, []);
    assert Decoded([]) == Some([]);
    RecordsLogAfter([], ps);
    assert Records([]) == [];
  }

  /** The placed messages carry the payloads they were built from. */
  lemma {:induction false} PlacedPayloads(base: seq<Byte>, ps: seq<Payload>, i: nat)
    requires AllFit(ps) && i < |ps|
    ensures PlacedAfter(base, ps)[i].payload == ps[i]
    decreases |ps|
  {
    if i < |ps| - 1 {
      AllFitPrefix(ps, |ps| - 1);
      PlacedPayloads(base, ps[..|ps| - 1], i);
    }
  }

  // ---------------------------------------------------------------------------
  // The operations of message_mapper
  // ---------------------------------------------------------------------------

  /** Every payload a load yields fits the log again: its serialisation is the
      record body it was parsed from, whose length came from a length word. */
  lemma {:induction false} LoadFits(data: seq<Byte>, pos: nat)
    requires pos <= |data|
    ensures AllFit(LoadFrom(data, pos).1)
    decreases |data| - pos
  {
    var next, body := LoadStep(data, pos);
    if LoadFrom(data, pos).1 != [] {
      var p := Parse(body).value;
      ParsedFits(body, p);
      LoadFits(data, next);
      AllFitCons(p, LoadFrom(data, next).1);
    }
  }

  /** One step of a load that yields something: a record body that parses,
      followed by the rest of the load. */
  lemma LoadStep(data: seq<Byte>, pos: nat) returns (next: nat, body: seq<Byte>)
    requires pos <= |data|
    ensures LoadFrom(data, pos).1 != [] ==>
      pos < next <= |data| && |body| < WordLimit && Parse(body).Some? &&
      LoadFrom(data, pos).1 == (if Parse(body).value.valid then [Parse(body).value] else []) + LoadFrom(data, next).1
  {
    next, body := pos, [];
    if pos < |data| && |data| - pos >= WordSize {
      var n := WordValue(data[pos..pos + WordSize]);
      var start := pos + WordSize;
      if |data| - start >= n {
        WordLimitIsPow();
        next, body := start + n, data[start..start + n];
      }
    }
  }

  lemma ParsedFits(body: seq<Byte>, p: Payload)
    requires Parse(body) == Some(p) && |body| < WordLimit
    ensures Fits(p)
  {
    SerializeParse(body, p);
  }

  lemma AllFitCons(p: Payload, ps: seq<Payload>)
    requires Fits(p) && AllFit(ps)
    ensures AllFit((if p.valid then [p] else []) + ps)
  {
  }

  /** A load keeps only payloads marked valid. */
  lemma {:induction false} LoadValid(data: seq<Byte>, pos: nat)
    requires pos <= |data|
    ensures forall i :: 0 <= i < |LoadFrom(data, pos).1| ==> LoadFrom(data, pos).1[i].valid
    decreases |data| - pos
  {
    var next, body := LoadStep(data, pos);
    if LoadFrom(data, pos).1 != [] {
      LoadValid(data, next);
    }
  }

  /** The constructor and create_msg_file: the data file is created when it
      does not exist; an existing file is kept as it is. */
  function CreateMsgFile(log: LogFiles, createOk: bool): (r: (bool, LogFiles))
    ensures r.0 <==> log.data.Some? || createOk
    ensures r.1.tmp == log.tmp
    ensures log.data.Some? ==> r.1.data == log.data
    ensures log.data.None? && createOk ==> r.1.data == Some([])
    ensures !r.0 ==> r.1 == log
  {
    if log.data.Some? then (true, log)
    else if createOk then (true, log.(data := Create(log.data, true)))
    else (false, log)
  }

  /** remove_msg_file: both files are removed; each removal may fail on its own
      and neither failure is reported. */
  function RemoveMsgFile(log: LogFiles, dataOk: bool, tmpOk: bool): (r: LogFiles)
    ensures dataOk && tmpOk ==> r == LogFiles(None, None)
    ensures !dataOk ==> r.data == log.data
    ensures !tmpOk ==> r.tmp == log.tmp
  {
    LogFiles(RemoveFile(log.data, dataOk).1, RemoveFile(log.tmp, tmpOk).1)
  }

  /** The result of __insert: whether both writes succeeded, the file, and the
      message with the place of its record (unset when the insert failed). */
  datatype Appended = Appended(ok: bool, file: File, msg: Message)

  /** insert and __insert: the length word is written at the end of the file,
      the serialised payload right after it, and the message then records
      where its body lies. A failure of the second write leaves a torn record:
      the length word without its body. */
  function Append(f: File, p: Payload, wordOk: bool, bodyOk: bool): (r: Appended)
    requires Fits(p)
    ensures r.ok <==> f.Some? && wordOk && bodyOk
    ensures r.ok ==> r.file == Some(Contents(f) + Frame(Serialize(p)))
    ensures r.ok ==> r.msg == Message(p, |Contents(f)| + WordSize, |Serialize(p)|)
    ensures !r.ok ==> r.msg == Message(p, 0, 0)
    ensures f.Some? && wordOk && !bodyOk ==> r.file == Some(Contents(f) + LengthWord(|Serialize(p)|))
    ensures !(f.Some? && wordOk) ==> r.file == f
  {
    var body := Serialize(p);
    var w := WriteRecord(f, body, wordOk, bodyOk);
    Appended(w.0, w.1, if w.0 then Message(p, |Contents(f)| + WordSize, |body|) else Message(p, 0, 0))
  }

  /** The two writes of __insert, for any record body. */
  function WriteRecord(f: File, body: seq<Byte>, wordOk: bool, bodyOk: bool): (r: (bool, File))
    requires |body| < WordLimit
    ensures r.0 <==> f.Some? && wordOk && bodyOk
    ensures r.0 ==> r.1 == Some(Contents(f) + Frame(body))
    ensures f.Some? && wordOk && !bodyOk ==> r.1 == Some(Contents(f) + LengthWord(|body|))
    ensures !(f.Some? && wordOk) ==> r.1 == f
  {
    var size := |Contents(f)|;
    var (wrote, f1) := Write(f, size, LengthWord(|body|), wordOk);
    if !wrote then (false, f1)
    else
      OverwriteAtEnd(Contents(f), LengthWord(|body|));
      var (done, f2) := Write(f1, size + WordSize, body, bodyOk);
      if !done then (false, f2)
      else
        OverwriteAtEnd(Contents(f1), body);
        ConcatAssoc(Contents(f), LengthWord(|body|), body);
        (true, f2)
  }

  /** remove: the payload is serialised again with its valid flag cleared and,
      when that has exactly the length of the record, written over its body. */
  function Invalidate(f: File, m: Message, writeOk: bool): (r: (bool, File))
    ensures r.0 <==> |Serialize(m.payload.(valid := false))| == m.length && f.Some? && writeOk
    ensures r.0 ==> r.1 == Some(Overwrite(Contents(f), m.offset, Serialize(m.payload.(valid := false))))
    ensures !r.0 ==> r.1 == f
  {
    var body := Serialize(m.payload.(valid := false));
    if |body| != m.length then (false, f)
    else Write(f, m.offset, body, writeOk)
  }

  /** A record of the log has the length of its payload's serialisation. */
  lemma RecordLength(data: seq<Byte>, k: nat)
    requires Scan(data, 0).complete && Decodes(data) && k < |Records(data)|
    ensures Records(data)[k].offset == Scan(data, 0).spans[k].offset
    ensures Records(data)[k].length == Scan(data, 0).spans[k].length
    ensures |Serialize(Records(data)[k].payload)| == Records(data)[k].length
    ensures WordSize <= Records(data)[k].offset
  {
    var spans := Scan(data, 0).spans;
    var ps := Parsed(data, spans);
    DecodedAt(ps, spans, |spans|, k);
    ParsedAt(data, spans, k);
    SpanInFile(data, 0, k);
    SerializeParse(Body(data, spans[k]), ps[k].value);
  }

  /** Invalidating a record the log holds succeeds when its write does, and
      clears exactly that record's flag. */
  lemma RecordsInvalidate(f: File, k: nat)
    requires Scan(Contents(f), 0).complete && Decodes(Contents(f)) && k < |Records(Contents(f))|
    ensures Invalidate(f, Records(Contents(f))[k], true).0
    ensures var d := Contents(Invalidate(f, Records(Contents(f))[k], true).1);
      Scan(d, 0).complete && Decodes(d) &&
      Records(d) == Records(Contents(f))[k := Records(Contents(f))[k].(payload := Records(Contents(f))[k].payload.(valid := false))]
  {
    var data := Contents(f);
    var m := Records(data)[k];
    var q := m.payload.(valid := false);
    RecordLength(data, k);
    SpanInFile(data, 0, k);
    InvalidateKeepsLength(m.payload, false);
    RecordsOverwrite(data, k, q);
  }

  /** std::rename: the source file replaces the target; it fails when the
      source does not exist. The result is (ok, source, target). */
  function Rename(src: File, dst: File, ok: bool): (r: (bool, File, File))
    ensures r.0 <==> src.Some? && ok
    ensures r.0 ==> r.1 == None && r.2 == src
    ensures !r.0 ==> r.1 == src && r.2 == dst
  {
    if src.Some? && ok then (true, None, src) else (false, src, dst)
  }

  /** How many payloads the insert loop of gc writes before it stops. */
  function Reached(tmp: File, n: nat, failAt: nat): (k: nat)
    ensures k <= n
  {
    if tmp.None? then 0 else if failAt < n then failAt else n
  }

  lemma LogAfterSnoc(base: seq<Byte>, ps: seq<Payload>, p: Payload)
    requires AllFit(ps) && Fits(p)
    ensures AllFit(ps + [p])
    ensures LogAfter(base, ps + [p]) == LogAfter(base, ps) + Frame(Serialize(p))
    ensures PlacedAfter(base, ps + [p]) == PlacedAfter(base, ps) + [Message(p, |LogAfter(base, ps)| + WordSize, |Serialize(p)|)]
  {
    assert (ps + [p])[..|ps|] == ps;
  }

  lemma TakeOneMore<T>(xs: seq<T>, n: nat)
    requires n < |xs|
    ensures xs[..n + 1] == xs[..n] + [xs[n]]
  {
  }

  /** One insert of the gc loop into a rebuilt log that holds the records of
      ps after base: when it succeeds the log holds one record more. */
  method AppendNext(f: File, ghost base: seq<Byte>, ghost ps: seq<Payload>, p: Payload, wordOk: bool)
    returns (a: Appended)
    requires AllFit(ps) && Fits(p) && (f.Some? ==> f == Some(LogAfter(base, ps)))
    ensures a.ok <==> f.Some? && wordOk
    ensures !a.ok ==> a.file == f
    ensures a.ok ==> AllFit(ps + [p]) && a.file == Some(LogAfter(base, ps + [p]))
    ensures a.ok ==> PlacedAfter(base, ps) + [a.msg] == PlacedAfter(base, ps + [p])
  {
    a := Append(f, p, wordOk, true);
    LogAfterSnoc(base, ps, p);
  }

  /** The insert loop of gc: each payload is appended to the temporary file,
      the insert at index failAt failing; the loop stops at the first failure,
      and the messages from there on keep their place unset. */
  method WriteAll(tmp: File, ps: seq<Payload>, failAt: nat) returns (n: nat, tmp': File, ms: seq<Message>)
    requires AllFit(ps)
    ensures n == Reached(tmp, |ps|, failAt)
    ensures tmp.None? ==> tmp' == None
    ensures tmp.Some? ==> tmp' == Some(LogAfter(tmp.value, ps[..n]))
    ensures ms == PlacedAfter(Contents(tmp), ps[..n]) + Unplaced(ps[n..])
  {
    var base := Contents(tmp);
    var placed := [];
    tmp' := tmp;
    n := 0;
    while n < |ps|
      invariant n <= |ps|
      invariant tmp'.Some? == tmp.Some?
      invariant tmp.None? ==> n == 0
      invariant tmp.Some? ==> n <= failAt
      invariant tmp'.Some? ==> tmp'.value == LogAfter(base, ps[..n])
      invariant placed == PlacedAfter(base, ps[..n])
    {
      var a := AppendNext(tmp', base, ps[..n], ps[n], n != failAt);
      if !a.ok {
        break;
      }
      TakeOneMore(ps, n);
      tmp' := a.file;
      placed := placed + [a.msg];
      n := n + 1;
    }
    ms := placed + Unplaced(ps[n..]);
  }

  /** What gc as written leaves and hands back. A failed load leaves the files and
      hands back the partial load, every place unset. Otherwise the loaded
      messages come back, placed in the temporary file up to the first failed
      insert and unset from there on; the files are as the step that stopped
      left them: the data file beside the temporary one after a failed insert or
      removal, no data file after a failed rename, the rebuilt log in place of
      the data file when every step succeeds. */
  function GcOutcome(log: LogFiles, createOk: bool, failAt: nat, removeOk: bool, renameOk: bool)
    : (r: (LogFiles, seq<Message>))
    ensures !LoadFrom(Contents(log.data), 0).0 ==> r == (log, Unplaced(LoadFrom(Contents(log.data), 0).1))
    ensures LoadFrom(Contents(log.data), 0).0 ==> |r.1| == |LoadFrom(Contents(log.data), 0).1|
  {
    LoadFits(Contents(log.data), 0);
    var (loaded, ps) := LoadFrom(Contents(log.data), 0);
    if !loaded then (log, Unplaced(ps))
    else
      var tmp := Create(log.tmp, createOk);
      var n := Reached(tmp, |ps|, failAt);
      AllFitPrefix(ps, n);
      var tmp' := if tmp.Some? then Some(LogAfter(tmp.value, ps[..n])) else None;
      var files := if n < |ps| || !(log.data.Some? && removeOk) then LogFiles(log.data, tmp')
                   else if tmp'.Some? && renameOk then LogFiles(tmp', None)
                   else LogFiles(None, tmp');
      (files, PlacedAfter(Contents(tmp), ps[..n]) + Unplaced(ps[n..]))
  }

  /** gc as written: the log is loaded, rebuilt in the temporary file, the data
      file removed and the temporary file renamed to it. Every failure returns
      the messages as they are at that point: the partial load when the load
      fails, messages whose place was never set when an insert fails. The
      result of creating the temporary file is not checked. */
  method GcAsWritten(log: LogFiles, createOk: bool, failAt: nat, removeOk: bool, renameOk: bool)
    returns (r: LogFiles, ms: seq<Message>)
    ensures (r, ms) == GcOutcome(log, createOk, failAt, removeOk, renameOk)
  {
    var loaded, ps := Load(log.data);
    LoadFits(Contents(log.data), 0);
    if !loaded {
      return log, Unplaced(ps);
    }
    var tmp := Create(log.tmp, createOk);
    var n, tmp', placed := WriteAll(tmp, ps, failAt);
    ms := placed;
    if n < |ps| {
      return LogFiles(log.data, tmp'), ms;
    }
    var (removed, data) := RemoveFile(log.data, removeOk);
    if !removed {
      return LogFiles(data, tmp'), ms;
    }
    var (_, src, dst) := Rename(tmp', data, renameOk);
    r := LogFiles(dst, src);
  }

  /** The messages the load of a file yields. */
  function Loaded(f: File): (ps: seq<Payload>)
    ensures AllFit(ps)
  {
    LoadFits(Contents(f), 0);
    LoadFrom(Contents(f), 0).1
  }

  /** The corrected gc succeeds: the load completes, the temporary file is
      created and written in full, and the rename succeeds. */
  predicate Compacts(f: File, createOk: bool, failAt: nat, renameOk: bool)
  {
    LoadFrom(Contents(f), 0).0 && createOk && failAt >= |Loaded(f)| && renameOk
  }

  /** The files the corrected gc leaves: the rebuilt log in place of the data
      file on success; otherwise the data file as it was, beside whatever part
      of the rebuilt log was written. */
  function GcFiles(log: LogFiles, createOk: bool, failAt: nat, renameOk: bool): (r: LogFiles)
    ensures Compacts(log.data, createOk, failAt, renameOk) ==> r == LogFiles(Some(LogOf(Loaded(log.data))), None)
    ensures !Compacts(log.data, createOk, failAt, renameOk) ==> r.data == log.data
  {
    var ps := Loaded(log.data);
    if !LoadFrom(Contents(log.data), 0).0 || !createOk then log
    else if Compacts(log.data, createOk, failAt, renameOk) then LogFiles(Some(LogOf(ps)), None)
    else
      var n := Reached(Some([]), |ps|, failAt);
      AllFitPrefix(ps, n);
      LogFiles(log.data, Some(LogAfter([], ps[..n])))
  }

  /** gc as evidently intended: the data file is replaced only by a complete
      rebuilt log, by renaming over it, and a failure at any step leaves the
      data file as it was and hands back no messages, so that nothing is
      re-located. */
  method Gc(log: LogFiles, createOk: bool, failAt: nat, renameOk: bool)
    returns (ok: bool, r: LogFiles, ms: seq<Message>)
    ensures ok == Compacts(log.data, createOk, failAt, renameOk)
    ensures r == GcFiles(log, createOk, failAt, renameOk)
    ensures ms == if ok then Placed(Loaded(log.data)) else []
  {
    var loaded, ps := Load(log.data);
    LoadFits(Contents(log.data), 0);
    if !loaded {
      return false, log, [];
    }
    var tmp := Create(log.tmp, createOk);
    if !createOk {
      return false, log, [];
    }
    var n, tmp', placed := WriteAll(tmp, ps, failAt);
    if n < |ps| {
      return false, LogFiles(log.data, tmp'), [];
    }
    assert ps[..n] == ps;
    var (renamed, src, dst) := Rename(tmp', log.data, renameOk);
    if !renamed {
      return false, LogFiles(dst, src), [];
    }
    assert Unplaced(ps[n..]) == [];
    ok, r, ms := true, LogFiles(dst, src), placed;
  }

  lemma KeptPlaced(p: Payload)
    requires Fits(p) && p.valid
    ensures AllFit([p]) && Kept(Placed([p])) == [p]
  {
    LogAfterSnoc([], [], p);
    assert [] + [p] == [p];
    assert Placed([p]) == [Message(p, WordSize, |Serialize(p)|)];
    assert Placed([p])[..0] == [];
  }

  /** A compaction whose first insert fails hands the message back with its
      place unset; the ack of that message can then never clear its record. */
  method FailedInsertExample(p: Payload) returns (ms: seq<Message>, cleared: bool)
    requires Fits(p) && p.valid
    ensures ms == [Message(p, 0, 0)] && !cleared
  {
    GcOutcomeFailedInsert(p);
    var r;
    r, ms := GcAsWritten(LogFiles(Some(LogOf([p])), None), true, 0, true, true);
    cleared := Invalidate(r.data, ms[0], true).0;
  }

  /** gc as written when an insert fails: the data file stays beside the part of
      the rebuilt log written so far, and the messages from the failed one on come
      back with their place unset. */
  lemma GcOutcomeInsertFails(log: LogFiles, failAt: nat, removeOk: bool, renameOk: bool)
    requires LoadFrom(Contents(log.data), 0).0 && failAt < |Loaded(log.data)|
    ensures AllFit(Loaded(log.data)[..failAt])
    ensures GcOutcome(log, true, failAt, removeOk, renameOk)
         == (LogFiles(log.data, Some(LogAfter([], Loaded(log.data)[..failAt]))),
             PlacedAfter([], Loaded(log.data)[..failAt]) + Unplaced(Loaded(log.data)[failAt..]))
  {
    AllFitPrefix(Loaded(log.data), failAt);
  }

  /** gc as written of a one-record log whose first insert fails: the data file
      stays, the temporary file is created empty, and the message comes back
      with its place unset. */
  lemma GcOutcomeFailedInsert(p: Payload)
    requires Fits(p) && p.valid
    ensures AllFit([p])
    ensures GcOutcome(LogFiles(Some(LogOf([p])), None), true, 0, true, true)
         == (LogFiles(Some(LogOf([p])), Some([])), [Message(p, 0, 0)])
  {
    KeptPlaced(p);
    RecordsLogOf([p]);
    LoadAll(LogOf([p]));
    GcOutcomeFirstFails(LogFiles(Some(LogOf([p])), None), p);
  }

  /** The failed first insert of a log holding one record, for any such log. */
  lemma GcOutcomeFirstFails(log: LogFiles, p: Payload)
    requires LoadFrom(Contents(log.data), 0).0 && Loaded(log.data) == [p]
    ensures GcOutcome(log, true, 0, true, true) == (LogFiles(log.data, Some([])), [Message(p, 0, 0)])
  {
    GcOutcomeInsertFails(log, 0, true, true);
    var ps := Loaded(log.data);
    assert ps[..0] == [] && ps[0..] == [p];
    assert LogAfter([], ps[..0]) == [] && PlacedAfter([], ps[..0]) == [];
    assert Unplaced(ps[0..]) == [Message(p, 0, 0)];
    assert PlacedAfter([], ps[..0]) + Unplaced(ps[0..]) == [Message(p, 0, 0)];
  }

  /** gc as written when every step succeeds: the rebuilt log replaces the data
      file, and the messages come back at their places in it. */
  lemma GcOutcomeCompacts(log: LogFiles, createOk: bool, failAt: nat, renameOk: bool)
    requires log.data.Some? && Compacts(log.data, createOk, failAt, renameOk)
    ensures GcOutcome(log, createOk, failAt, true, renameOk) == (LogFiles(Some(LogOf(Loaded(log.data))), None), Placed(Loaded(log.data)))
  {
    var ps := Loaded(log.data);
    assert Create(log.tmp, createOk) == Some([]);
    assert Reached(Some([]), |ps|, failAt) == |ps|;
    assert ps[..|ps|] == ps && ps[|ps|..] == [];
    assert Unplaced([]) == [];
    assert PlacedAfter([], ps) + [] == Placed(ps);
  }

  /** A compaction whose rename fails after the data file was removed leaves
      no data file: the valid message survives only in the temporary file,
      which no load reads. */
  method FailedRenameExample(p: Payload) returns (before: seq<Payload>, r: LogFiles)
    requires Fits(p) && p.valid
    ensures before == [p]
    ensures r.data == None && LoadFrom(Contents(r.data), 0) == (true, [])
  {
    KeptPlaced(p);
    var data := LogOf([p]);
    RecordsLogOf([p]);
    LoadAll(data);
    before := LoadFrom(data, 0).1;
    var ms;
    r, ms := GcAsWritten(LogFiles(Some(data), None), true, 1, true, false);
    assert [p][..1] == [p];
  }
}
