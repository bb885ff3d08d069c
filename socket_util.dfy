/** The record splitter under a socket connection (`readSplitSeq`,
  * internal/socket/util.go). The connection is the sequence of its reads,
  * each the bytes read and the error, if any; the splitter cuts the bytes
  * at a one-byte separator into records of at most `Cap` bytes. A Go string
  * is a sequence of bytes; as in module Strconv, a `char` stands for a
  * byte. The values it yields are a sequence of events, which ends at the
  * first error (every reader of the splitter stops there). */
module SocketSplit {
  import opened Wrappers

  /** The size of the read buffer, and the capacity of the record buffer. */
  const Cap: nat := 512

  type Bytes = string

  /** What a read of the underlying connection fails with; `io.EOF` when
    * the peer has closed it. */
  datatype ReadError = EOF | ReadFailed(code: nat)

  /** One `conn.Read`: the bytes read, and the error it returned, if any. */
  datatype Chunk = Chunk(data: Bytes, err: Option<ReadError>)

  /** The errors the splitter yields: a read error, passed on;
    * `SplitTooLongError`; `InvalidSeparatorError`. */
  datatype SplitError = ConnError(cause: ReadError) | SplitTooLong | InvalidSeparator

  /** One value the splitter yields: a record, or an error. */
  datatype Event = Record(data: Bytes) | Failure(err: SplitError)

  /** `bytes.SplitSeq` with a one-byte separator: the pieces between the
    * separators, one more than there are separators. */
  function Pieces(data: Bytes, s: char): (ps: seq<Bytes>)
    ensures |ps| >= 1
    decreases |data|
  {
    var i := IndexOf(data, s);
    if i == -1 then [data] else [data[..i]] + Pieces(data[i + 1..], s)
  }

  /** The pieces put back together, a separator between each two. */
  function Join(ps: seq<Bytes>, s: char): Bytes
    requires |ps| >= 1
    decreases |ps|
  {
    if |ps| == 1 then ps[0] else ps[0] + [s] + Join(ps[1..], s)
  }

  /** The number of bytes the pieces stand for, each with the separator
    * after it (the last one's separator is missing, hence one too many). */
  function Len(ps: seq<Bytes>): (n: nat)
    ensures n >= |ps|
  {
    if ps == [] then 0 else |ps[0]| + 1 + Len(ps[1..])
  }

  lemma Around(s: Bytes, i: int)
    requires 0 <= i < |s|
    ensures s == s[..i] + [s[i]] + s[i + 1..]
  {
  }

  /** One separator found: the piece before it, then the pieces after. */
  lemma PiecesStep(data: Bytes, s: char)
    requires IndexOf(data, s) != -1
    ensures var i := IndexOf(data, s);
      && Pieces(data, s) == [data[..i]] + Pieces(data[i + 1..], s)
      && data == data[..i] + [s] + data[i + 1..]
      && s !in data[..i]
  {
    var i := IndexOf(data, s);
    Around(data, i);
    assert s !in data[..i] by {
      forall k | 0 <= k < i ensures data[..i][k] != s {
      }
    }
  }

  /** The pieces put back together give the data. */
  lemma {:induction false} PiecesJoin(data: Bytes, s: char)
    ensures Join(Pieces(data, s), s) == data
    decreases |data|
  {
    var i := IndexOf(data, s);
    if i != -1 {
      PiecesStep(data, s);
      PiecesJoin(data[i + 1..], s);
      var ps := Pieces(data, s);
      assert ps[0] == data[..i] && ps[1..] == Pieces(data[i + 1..], s);
    }
  }

  /** No piece holds the separator. */
  lemma {:induction false} PiecesFree(data: Bytes, s: char)
    ensures forall p :: p in Pieces(data, s) ==> s !in p
    decreases |data|
  {
    var i := IndexOf(data, s);
    if i != -1 {
      PiecesStep(data, s);
      PiecesFree(data[i + 1..], s);
    }
  }

  /** The pieces count one byte more than the data: the separators between
    * them, and one after the last. */
  lemma {:induction false} PiecesLen(data: Bytes, s: char)
    ensures Len(Pieces(data, s)) == |data| + 1
    decreases |data|
  {
    var i := IndexOf(data, s);
    if i != -1 {
      PiecesStep(data, s);
      PiecesLen(data[i + 1..], s);
      var ps := Pieces(data, s);
      assert ps[0] == data[..i] && ps[1..] == Pieces(data[i + 1..], s);
    }
  }

  /** The inner loop over the pieces of one read, `buf` holding the record
    * so far: every piece but the last ends a record, the last is kept for
    * the next read, and a piece that would take the record past `Cap` bytes
    * stops the splitter with `SplitTooLong`. Gives the events and the
    * record buffer afterwards, or none once stopped. */
  function Take(buf: Bytes, ps: seq<Bytes>): (r: (seq<Event>, Option<Bytes>))
    requires |ps| >= 1
    ensures r.1.Some? ==> |r.1.value| <= Cap
    decreases |ps|
  {
    if |buf| + |ps[0]| > Cap then ([Failure(SplitTooLong)], None)
    else if |ps| == 1 then ([], Some(buf + ps[0]))
    else
      var (ev, next) := Take([], ps[1..]);
      ([Record(buf + ps[0])] + ev, next)
  }

  /** The events of one read, then those of the reads after it unless the
    * splitter stopped. */
  function After(r: (seq<Event>, Option<Bytes>), chunks: seq<Chunk>, s: char): seq<Event>
    decreases |chunks|, 1
  {
    r.0 + if r.1.None? then [] else Run(r.1.value, chunks, s)
  }

  /** The outer loop over the reads: a read error is passed on and ends the
    * splitter; otherwise the bytes read are cut into pieces. */
  function Run(buf: Bytes, chunks: seq<Chunk>, s: char): seq<Event>
    decreases |chunks|, 0
  {
    if chunks == [] then []
    else if chunks[0].err.Some? then [Failure(ConnError(chunks[0].err.value))]
    else After(Take(buf, Pieces(chunks[0].data, s)), chunks[1..], s)
  }

  /** `readSplitSeq(conn, sep)`: an empty separator is refused outright. */
  function ReadSplit(chunks: seq<Chunk>, sep: Bytes): seq<Event>
    requires |sep| <= 1
  {
    if |sep| == 0 then [Failure(InvalidSeparator)] else Run([], chunks, sep[0])
  }

  /** The splitter one byte at a time, the reference the loop over pieces is
    * proved against: a separator ends the record, any other byte is added
    * to it unless the record already holds `Cap` bytes. */
  function Scan(buf: Bytes, data: Bytes, s: char): (r: (seq<Event>, Option<Bytes>))
    requires |buf| <= Cap
    ensures r.1.Some? ==> |r.1.value| <= Cap
    decreases |data|
  {
    if data == [] then ([], Some(buf))
    else if data[0] == s then
      var (ev, next) := Scan([], data[1..], s);
      ([Record(buf)] + ev, next)
    else if |buf| + 1 > Cap then ([Failure(SplitTooLong)], None)
    else Scan(buf + [data[0]], data[1..], s)
  }

  /** Scanning a stretch without separators: it joins the record, unless
    * the record would grow past `Cap` bytes. */
  lemma {:induction false} ScanPiece(buf: Bytes, p: Bytes, rest: Bytes, s: char)
    requires |buf| <= Cap && s !in p
    ensures Scan(buf, p + rest, s) ==
      if |buf| + |p| > Cap then ([Failure(SplitTooLong)], None) else Scan(buf + p, rest, s)
    decreases |p|
  {
    if p != [] {
      var d := p + rest;
      assert d[0] == p[0] && d[1..] == p[1..] + rest;
      if |buf| + 1 <= Cap {
        ScanPiece(buf + [p[0]], p[1..], rest, s);
        assert buf + [p[0]] + p[1..] == buf + p;
      }
    } else {
      assert p + rest == rest;
      assert buf + p == buf;
    }
  }

  /** Scanning a separator ends the record. */
  lemma ScanSeparator(buf: Bytes, rest: Bytes, s: char)
    requires |buf| <= Cap
    ensures Scan(buf, [s] + rest, s) == ([Record(buf)] + Scan([], rest, s).0, Scan([], rest, s).1)
  {
    var d := [s] + rest;
    assert d[0] == s && d[1..] == rest;
  }

  /** The loop over the pieces of a read does what scanning its bytes one
    * at a time does. */
  lemma {:induction false} TakeScan(buf: Bytes, data: Bytes, s: char)
    requires |buf| <= Cap
    ensures Take(buf, Pieces(data, s)) == Scan(buf, data, s)
    decreases |data|
  {
    var i := IndexOf(data, s);
    if i == -1 {
      TakeScanWhole(buf, data, s);
    } else {
      PiecesStep(data, s);
      var p, rest := data[..i], data[i + 1..];
      TakeScan([], rest, s);
      TakeScanFirst(buf, p, rest, s);
    }
  }

  /** A read with the separator: the piece before it ends the record, and
    * the pieces after it are split as their bytes are scanned. */
  lemma TakeScanFirst(buf: Bytes, p: Bytes, rest: Bytes, s: char)
    requires |buf| <= Cap && s !in p
    requires Take([], Pieces(rest, s)) == Scan([], rest, s)
    ensures Take(buf, [p] + Pieces(rest, s)) == Scan(buf, p + [s] + rest, s)
  {
    assert p + [s] + rest == p + ([s] + rest);
    ScanPiece(buf, p, [s] + rest, s);
    TakeCons(buf, p, Pieces(rest, s));
    if |buf| + |p| <= Cap {
      ScanSeparator(buf + p, rest, s);
    }
  }

  /** A read without the separator joins the record, unless it makes the
    * record too long. */
  lemma TakeScanWhole(buf: Bytes, data: Bytes, s: char)
    requires |buf| <= Cap && IndexOf(data, s) == -1
    ensures Take(buf, Pieces(data, s)) == Scan(buf, data, s)
  {
    assert Pieces(data, s) == [data];
    assert s !in data;
    ScanPiece(buf, data, [], s);
    assert data + [] == data;
  }

  /** The first piece of several ends a record, unless it is too long. */
  lemma TakeCons(buf: Bytes, p: Bytes, ps: seq<Bytes>)
    requires |ps| >= 1
    ensures |buf| + |p| > Cap ==> Take(buf, [p] + ps) == ([Failure(SplitTooLong)], None)
    ensures |buf| + |p| <= Cap ==> Take(buf, [p] + ps) == ([Record(buf + p)] + Take([], ps).0, Take([], ps).1)
  {
    var all := [p] + ps;
    assert all[0] == p && all[1..] == ps;
  }

  /** Scanning `b` after whatever scanning `a` left. */
  function Then(r: (seq<Event>, Option<Bytes>), b: Bytes, s: char): (seq<Event>, Option<Bytes>)
    requires r.1.Some? ==> |r.1.value| <= Cap
  {
    if r.1.None? then r
    else
      var (ev, next) := Scan(r.1.value, b, s);
      (r.0 + ev, next)
  }

  /** Scanning is compositional: scanning `a + b` scans `a`, then `b` from
    * where `a` left off. */
  lemma {:induction false} ScanAppend(buf: Bytes, a: Bytes, b: Bytes, s: char)
    requires |buf| <= Cap
    ensures Scan(buf, a + b, s) == Then(Scan(buf, a, s), b, s)
    decreases |a|
  {
    if a == [] {
      assert a + b == b;
      var (ev, next) := Scan(buf, b, s);
      assert [] + ev == ev;
    } else {
      var d := a + b;
      assert d[0] == a[0] && d[1..] == a[1..] + b;
      if a[0] == s {
        ScanAppend([], a[1..], b, s);
        var (ev1, n1) := Scan([], a[1..], s);
        if n1.Some? {
          var (ev2, n2) := Scan(n1.value, b, s);
          assert [Record(buf)] + (ev1 + ev2) == ([Record(buf)] + ev1) + ev2;
        }
      } else if |buf| + 1 <= Cap {
        ScanAppend(buf + [a[0]], a[1..], b, s);
      }
    }
  }

  /** All the bytes read, in order. */
  function Data(chunks: seq<Chunk>): Bytes
  {
    if chunks == [] then [] else chunks[0].data + Data(chunks[1..])
  }

  predicate NoErrors(chunks: seq<Chunk>)
  {
    forall i :: 0 <= i < |chunks| ==> chunks[i].err.None?
  }

  /** Data over a first read and the rest. */
  lemma DataCons(chunks: seq<Chunk>)
    requires chunks != []
    ensures Data(chunks) == chunks[0].data + Data(chunks[1..])
  {
  }

  /** Reads without errors are split as their bytes are scanned, however the
    * bytes fall into reads: a record whose bytes span several reads is
    * reassembled. */
  lemma {:induction false} RunScan(buf: Bytes, a: seq<Chunk>, b: seq<Chunk>, s: char)
    requires |buf| <= Cap && NoErrors(a)
    ensures Run(buf, a + b, s) == After(Scan(buf, Data(a), s), b, s)
    decreases |a|
  {
    if a == [] {
      assert a + b == b;
    } else {
      var c := a[0];
      var ab := a + b;
      assert ab[0] == c && ab[1..] == a[1..] + b;
      assert NoErrors(a[1..]) by {
        forall i | 0 <= i < |a[1..]| ensures a[1..][i].err.None? {
          assert a[1..][i] == a[i + 1];
        }
      }
      assert c.err.None? by {
        assert a[0] == c;
      }
      var rest := Data(a[1..]);
      var r := Scan(buf, c.data, s);
      assert Run(buf, ab, s) == After(Take(buf, Pieces(c.data, s)), a[1..] + b, s);
      TakeScan(buf, c.data, s);
      if r.1.Some? {
        RunScan(r.1.value, a[1..], b, s);
      }
      AfterThen(r, a[1..], rest, b, s);
      ScanAppend(buf, c.data, rest, s);
      DataCons(a);
    }
  }

  /** What a scan left, then the remaining reads, is what scanning their
    * bytes from there leaves, then the reads after them. */
  lemma AfterThen(r: (seq<Event>, Option<Bytes>), a: seq<Chunk>, data: Bytes, b: seq<Chunk>, s: char)
    requires r.1.Some? ==> |r.1.value| <= Cap
    requires r.1.Some? ==> Run(r.1.value, a + b, s) == After(Scan(r.1.value, data, s), b, s)
    ensures After(r, a + b, s) == After(Then(r, data, s), b, s)
  {
    if r.1.Some? {
      var (ev, next) := Scan(r.1.value, data, s);
      var tail := if next.None? then [] else Run(next.value, b, s);
      assert r.0 + (ev + tail) == (r.0 + ev) + tail;
    }
  }

  /** The bytes a writer sends for a sequence of records: each followed by
    * the separator. */
  function Frame(records: seq<Bytes>, s: char): Bytes
  {
    if records == [] then [] else records[0] + [s] + Frame(records[1..], s)
  }

  /** The events of a sequence of records, in order. */
  function Records(records: seq<Bytes>): (evs: seq<Event>)
    ensures |evs| == |records|
    ensures forall i :: 0 <= i < |records| ==> evs[i] == Record(records[i])
  {
    if records == [] then [] else [Record(records[0])] + Records(records[1..])
  }

  /** A record the splitter can carry: no separator in it, and at most `Cap`
    * bytes. */
  predicate Fits(r: Bytes, s: char)
  {
    s !in r && |r| <= Cap
  }

  /** Scanning framed records gives them back, and an empty buffer. */
  lemma {:induction false} ScanFrame(records: seq<Bytes>, s: char)
    requires forall r :: r in records ==> Fits(r, s)
    ensures Scan([], Frame(records, s), s) == (Records(records), Some([]))
  {
    if records != [] {
      var r := records[0];
      assert r in records;
      ScanFrame(records[1..], s);
      assert Frame(records, s) == r + ([s] + Frame(records[1..], s));
      ScanPiece([], r, [s] + Frame(records[1..], s), s);
      assert [] + r == r;
      ScanSeparator(r, Frame(records[1..], s), s);
    }
  }

  /** Reads that carry framed records and then part of one more: the
    * records come out in order, without their separators and with empty
    * ones kept, however the bytes fall into reads; the bytes after the last
    * separator are not yielded. */
  lemma ReadFramed(records: seq<Bytes>, tail: Bytes, chunks: seq<Chunk>, s: char)
    requires forall r :: r in records ==> Fits(r, s)
    requires Fits(tail, s)
    requires NoErrors(chunks) && Data(chunks) == Frame(records, s) + tail
    ensures ReadSplit(chunks, [s]) == Records(records)
  {
    RunScan([], chunks, [], s);
    assert chunks + [] == chunks;
    ScanAppend([], Frame(records, s), tail, s);
    ScanFrame(records, s);
    ScanPiece([], tail, [], s);
    var empty: Bytes := [];
    assert tail + [] == tail && empty + tail == tail;
    assert Records(records) + [] == Records(records);
  }

  /** A read error after framed records is passed on once they are
    * delivered, and ends the splitter. */
  lemma ReadErrorForwarded(records: seq<Bytes>, chunks: seq<Chunk>, c: Chunk, more: seq<Chunk>, s: char)
    requires forall r :: r in records ==> Fits(r, s)
    requires NoErrors(chunks) && Data(chunks) == Frame(records, s)
    requires c.err.Some?
    ensures ReadSplit(chunks + [c] + more, [s]) == Records(records) + [Failure(ConnError(c.err.value))]
  {
    assert chunks + [c] + more == chunks + ([c] + more);
    RunScan([], chunks, [c] + more, s);
    ScanFrame(records, s);
    var cm := [c] + more;
    assert cm[0] == c;
  }

  /** A record longer than `Cap` bytes stops the splitter with
    * `SplitTooLong`, after the records before it are delivered, whatever
    * follows. */
  lemma TooLongAfterEarlier(records: seq<Bytes>, long: Bytes, rest: Bytes, chunks: seq<Chunk>, more: seq<Chunk>, s: char)
    requires forall r :: r in records ==> Fits(r, s)
    requires s !in long && |long| > Cap
    requires NoErrors(chunks) && Data(chunks) == Frame(records, s) + long + rest
    ensures ReadSplit(chunks + more, [s]) == Records(records) + [Failure(SplitTooLong)]
  {
    RunScan([], chunks, more, s);
    assert Data(chunks) == Frame(records, s) + (long + rest);
    ScanAppend([], Frame(records, s), long + rest, s);
    ScanFrame(records, s);
    ScanPiece([], long, rest, s);
  }

  /** What the splitter yields always ends at its first error: only the
    * last event can be a failure. */
  predicate Settled(evs: seq<Event>)
  {
    && evs != []
    && evs[|evs| - 1].Failure?
    && forall i :: 0 <= i < |evs| - 1 ==> evs[i].Record?
  }

  /** The records of a read stop at an error, and only then. */
  lemma {:induction false} TakeShape(buf: Bytes, ps: seq<Bytes>)
    requires |ps| >= 1
    ensures Take(buf, ps).1.None? ==> Settled(Take(buf, ps).0)
    ensures Take(buf, ps).1.Some? ==> forall e :: e in Take(buf, ps).0 ==> e.Record?
    decreases |ps|
  {
    if |buf| + |ps[0]| <= Cap && |ps| > 1 {
      TakeShape([], ps[1..]);
    }
  }

  /** Settled events after some records stay settled. */
  lemma SettledAfterRecords(ev: seq<Event>, rest: seq<Event>)
    requires forall e :: e in ev ==> e.Record?
    requires Settled(rest)
    ensures Settled(ev + rest)
  {
    var all := ev + rest;
    forall i | 0 <= i < |all| - 1 ensures all[i].Record? {
      if i < |ev| {
        assert all[i] == ev[i];
      } else {
        assert all[i] == rest[i - |ev|];
      }
    }
  }

  /** Reads that end in an error are split into records and then exactly
    * one error. */
  lemma {:induction false} RunSettles(buf: Bytes, chunks: seq<Chunk>, s: char)
    requires chunks != [] && chunks[|chunks| - 1].err.Some?
    ensures Settled(Run(buf, chunks, s))
    decreases |chunks|
  {
    if chunks[0].err.None? {
      var ps := Pieces(chunks[0].data, s);
      TakeShape(buf, ps);
      var (ev, next) := Take(buf, ps);
      if next.Some? {
        assert |chunks| > 1;
        assert chunks[1..][|chunks[1..]| - 1] == chunks[|chunks| - 1];
        RunSettles(next.value, chunks[1..], s);
        SettledAfterRecords(ev, Run(next.value, chunks[1..], s));
      } else {
        assert ev + [] == ev;
      }
    }
  }

  /** Events yielded before an outcome of `Take`. */
  function Behind(evs: seq<Event>, r: (seq<Event>, Option<Bytes>)): (seq<Event>, Option<Bytes>)
  {
    (evs + r.0, r.1)
  }

  /** The inner loop of `readSplitSeq` over the pieces of one read, the
    * record so far in `splitBuf`: `n` counts the bytes left and goes
    * negative exactly at the last piece, which is kept for the next read.
    * Gives the values yielded and the record buffer afterwards, or none
    * when the splitter stopped. */
  method SplitRead(buf: Bytes, data: Bytes, s: char) returns (evs: seq<Event>, next: Option<Bytes>)
    requires |buf| <= Cap
    ensures (evs, next) == Take(buf, Pieces(data, s))
  {
    var splitBuf := buf;
    evs := [];
    var n: int := |data|;
    var ps := Pieces(data, s);
    PiecesLen(data, s);
    var k := 0;
    assert ps[k..] == ps;
    assert Behind(evs, Take(splitBuf, ps[k..])) == Take(buf, ps) by {
      assert [] + Take(buf, ps).0 == Take(buf, ps).0;
    }
    while true
      invariant 0 <= k < |ps| && |splitBuf| <= Cap
      invariant n == Len(ps[k..]) - 1
      invariant Take(buf, ps) == Behind(evs, Take(splitBuf, ps[k..]))
      decreases |ps| - k
    {
      var split := ps[k];
      TakeStep(splitBuf, ps, k);
      n := n - (|split| + 1);
      if |splitBuf| + |split| > Cap {
        return evs + [Failure(SplitTooLong)], None;
      }
      splitBuf := splitBuf + split;
      if n < 0 {
        assert evs + [] == evs;
        return evs, Some(splitBuf);
      }
      AppendRecord(evs, splitBuf, Take([], ps[k + 1..]).0);
      evs := evs + [Record(splitBuf)];
      splitBuf := [];
      k := k + 1;
    }
  }

  /** `readSplitSeq`, with the values it yields collected in order: the
    * outer loop reads, passes a read error on, and splits what was read. */
  method ReadSplitSeq(chunks: seq<Chunk>, sep: Bytes) returns (events: seq<Event>)
    requires |sep| <= 1
    ensures events == ReadSplit(chunks, sep)
  {
    if |sep| == 0 {
      return [Failure(InvalidSeparator)];
    }
    var s := sep[0];
    var splitBuf: Bytes := [];
    events := [];
    var i := 0;
    assert chunks[i..] == chunks;
    assert events + Run(splitBuf, chunks[i..], s) == Run(splitBuf, chunks[i..], s);
    while i < |chunks|
      invariant 0 <= i <= |chunks| && |splitBuf| <= Cap
      invariant ReadSplit(chunks, sep) == events + Run(splitBuf, chunks[i..], s)
      decreases |chunks| - i
    {
      var chunk := chunks[i];
      RunStep(splitBuf, chunks, i, s);
      if chunk.err.Some? {
        events := events + [Failure(ConnError(chunk.err.value))];
        return;
      }
      var evs, next := SplitRead(splitBuf, chunk.data, s);
      AfterRead(events, evs, next, chunks[i + 1..], s);
      events := events + evs;
      if next.None? {
        return;
      }
      splitBuf := next.value;
      i := i + 1;
    }
    assert chunks[i..] == [];
    assert events + [] == events;
  }

  /** The events of a read, then the rest. */
  lemma AfterRead(events: seq<Event>, evs: seq<Event>, next: Option<Bytes>, chunks: seq<Chunk>, s: char)
    ensures events + After((evs, next), chunks, s) ==
      (events + evs) + if next.None? then [] else Run(next.value, chunks, s)
  {
  }

  /** One read, as `Run` takes it. */
  lemma RunStep(buf: Bytes, chunks: seq<Chunk>, i: nat, s: char)
    requires i < |chunks|
    ensures Run(buf, chunks[i..], s) ==
      if chunks[i].err.Some? then [Failure(ConnError(chunks[i].err.value))]
      else After(Take(buf, Pieces(chunks[i].data, s)), chunks[i + 1..], s)
  {
    var t := chunks[i..];
    assert t[0] == chunks[i] && t[1..] == chunks[i + 1..];
  }

  /** One piece, as `Take` takes it, with the byte count of the pieces
    * left. */
  lemma TakeStep(buf: Bytes, ps: seq<Bytes>, k: nat)
    requires k < |ps|
    ensures Len(ps[k..]) == |ps[k]| + 1 + Len(ps[k + 1..])
    ensures Len(ps[k + 1..]) == 0 <==> k + 1 == |ps|
    ensures Take(buf, ps[k..]) ==
      if |buf| + |ps[k]| > Cap then ([Failure(SplitTooLong)], None)
      else if k + 1 == |ps| then ([], Some(buf + ps[k]))
      else
        var (ev, next) := Take([], ps[k + 1..]);
        ([Record(buf + ps[k])] + ev, next)
  {
    var t := ps[k..];
    assert t[0] == ps[k] && t[1..] == ps[k + 1..];
  }

  /** A record yielded before the rest of the events. */
  lemma AppendRecord(events: seq<Event>, r: Bytes, rest: seq<Event>)
    ensures events + ([Record(r)] + rest) == (events + [Record(r)]) + rest
  {
  }
}
