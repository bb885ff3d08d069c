/** A framed socket connection (internal/socket/conn.go): strings go out
  * NUL-terminated, messages go out as an envelope `Kind NUL count NUL arg
  * NUL …`, and both come back through the record splitter of module
  * SocketSplit with the NUL separator. The connection keeps what its reads
  * will still yield, and every byte written to it. */
module SocketConn {
  import opened Wrappers
  import opened SocketSplit
  import Strconv

  const NUL: char := '\0'

  /** `Message`: a kind and its arguments. */
  datatype Message = Message(kind: Bytes, args: seq<Bytes>)

  /** The message `Receive` gives back with an error. */
  const NoMessage: Message := Message([], [])

  /** Why `Receive` failed: a read failed, the count record is not a
    * number, or it is a negative one (on which Go's `make` would panic). */
  datatype ReceiveError =
    | ReadError(cause: SplitError)
    | CountError(num: Strconv.NumError)
    | NegativeCount(count: int)

  /** The envelope `Send` writes: the kind, the decimal count of the
    * arguments and each argument, every one NUL-terminated. */
  function Envelope(kind: Bytes, args: seq<Bytes>): Bytes
  {
    Frame(EnvelopeFields(kind, args), NUL)
  }

  function EnvelopeFields(kind: Bytes, args: seq<Bytes>): seq<Bytes>
  {
    [kind, Strconv.Itoa(|args|)] + args
  }

  /** `Read`: the next record, or the error the splitter stopped at, which
    * every later read gives again. */
  function Next(evs: seq<Event>): (r: (Bytes, Option<SplitError>, seq<Event>))
    requires Settled(evs)
    ensures Settled(r.2)
    ensures r.1.None? <==> evs[0].Record?
    ensures r.1.None? ==> r.0 == evs[0].data && r.2 == evs[1..]
    ensures r.1.Some? ==> r.0 == [] && r.1.value == evs[0].err && r.2 == evs
  {
    match evs[0]
    case Record(data) => (data, None, evs[1..])
    case Failure(e) => ([], Some(e), evs)
  }

  /** The argument loop of `Receive`: `n` reads, stopping at the first
    * error; gives the arguments read before it. */
  function ReadArgs(evs: seq<Event>, n: nat): (r: (seq<Bytes>, Option<SplitError>, seq<Event>))
    requires Settled(evs)
    ensures Settled(r.2)
    ensures r.1.None? ==> |r.0| == n && |r.2| == |evs| - n
    decreases n
  {
    if n == 0 then ([], None, evs)
    else
      var first := Next(evs);
      if first.1.Some? then ([], first.1, first.2)
      else
        var later := ReadArgs(first.2, n - 1);
        ([first.0] + later.0, later.1, later.2)
  }

  /** `Receive`: the kind, the count, then exactly that many arguments; any
    * error gives back the empty message. */
  function ReceiveSpec(evs: seq<Event>): (r: (Message, Option<ReceiveError>, seq<Event>))
    requires Settled(evs)
    ensures Settled(r.2)
    ensures r.1.Some? ==> r.0 == NoMessage
    ensures r.1.None? ==> |r.2| <= |evs| - 2 - |r.0.args|
  {
    var kind := Next(evs);
    if kind.1.Some? then (NoMessage, Some(ReadError(kind.1.value)), kind.2)
    else
      var count := Next(kind.2);
      if count.1.Some? then (NoMessage, Some(ReadError(count.1.value)), count.2)
      else
        var argc := Strconv.Atoi(count.0);
        if argc.Err? then (NoMessage, Some(CountError(argc.error)), count.2)
        else if argc.value < 0 then (NoMessage, Some(NegativeCount(argc.value)), count.2)
        else Received(kind.0, ReadArgs(count.2, argc.value))
  }

  /** The end of `Receive`: the message, unless an argument read failed. */
  function Received(kind: Bytes, r: (seq<Bytes>, Option<SplitError>, seq<Event>)): (Message, Option<ReceiveError>, seq<Event>)
  {
    if r.1.Some? then (NoMessage, Some(ReadError(r.1.value)), r.2)
    else (Message(kind, r.0), None, r.2)
  }

  /** A connection's reads after it is framed with NUL: the records, then the
    * error that ends it. */
  function Incoming(chunks: seq<Chunk>, closing: ReadError): seq<Event>
  {
    ReadSplit(chunks + [Chunk([], Some(closing))], [NUL])
  }

  class Conn {
    /** What the record splitter yields to the reads still to come. */
    var pending: seq<Event>
    /** Every byte written to the connection so far. */
    var written: Bytes

    ghost predicate Valid()
      reads this
    {
      Settled(pending)
    }

    /** `NewSocketConn`: the splitter over the connection's reads with the
      * NUL separator; the reads end with the error that closes the
      * connection. */
    constructor (chunks: seq<Chunk>, closing: ReadError)
      ensures Valid() && written == []
      ensures pending == Incoming(chunks, closing)
    {
      var all := chunks + [Chunk([], Some(closing))];
      assert all[|all| - 1].err.Some?;
      RunSettles([], all, NUL);
      pending := ReadSplit(all, [NUL]);
      written := [];
    }

    /** `Write`: the string, then a NUL. */
    method Write(str: Bytes)
      modifies this
      ensures pending == old(pending)
      ensures written == old(written) + Frame([str], NUL)
    {
      assert Frame([str], NUL) == str + [NUL] + Frame([], NUL);
      written := written + str + [NUL];
    }

    /** `Read`: the next record as a string, or the error. */
    method Read() returns (s: Bytes, err: Option<SplitError>)
      requires Valid()
      modifies this
      ensures Valid() && written == old(written)
      ensures (s, err, pending) == Next(old(pending))
    {
      match pending[0]
      case Record(data) =>
        s, err := data, None;
        pending := pending[1..];
      case Failure(e) =>
        s, err := [], Some(e);
    }

    /** `Send`: builds the envelope in a buffer, field by field, and writes
      * it. */
    method Send(kind: Bytes, args: seq<Bytes>)
      modifies this
      ensures pending == old(pending)
      ensures written == old(written) + Envelope(kind, args)
    {
      var message: Bytes := [];
      message := message + kind + [NUL];
      message := message + Strconv.Itoa(|args|) + [NUL];
      var i := 0;
      FrameSnoc([kind], Strconv.Itoa(|args|), NUL);
      assert [kind, Strconv.Itoa(|args|)] == [kind] + [Strconv.Itoa(|args|)];
      assert message == Frame([kind, Strconv.Itoa(|args|)] + args[..i], NUL);
      while i < |args|
        invariant 0 <= i <= |args|
        invariant message == Frame([kind, Strconv.Itoa(|args|)] + args[..i], NUL)
        invariant pending == old(pending) && written == old(written)
      {
        FrameSnoc([kind, Strconv.Itoa(|args|)] + args[..i], args[i], NUL);
        assert [kind, Strconv.Itoa(|args|)] + args[..i + 1] == ([kind, Strconv.Itoa(|args|)] + args[..i]) + [args[i]];
        message := message + args[i] + [NUL];
        i := i + 1;
      }
      assert args[..i] == args;
      written := written + message;
    }

    /** `SendMessage`. */
    method SendMessage(m: Message)
      modifies this
      ensures pending == old(pending)
      ensures written == old(written) + Envelope(m.kind, m.args)
    {
      Send(m.kind, m.args);
    }

    /** `Receive`: reads the kind and the count, then fills an array of
      * `count` arguments one read at a time. */
    method Receive() returns (m: Message, err: Option<ReceiveError>)
      requires Valid()
      modifies this
      ensures Valid() && written == old(written)
      ensures (m, err, pending) == ReceiveSpec(old(pending))
    {
      var kind, e1 := Read();
      if e1.Some? {
        return NoMessage, Some(ReadError(e1.value));
      }
      var argcStr, e2 := Read();
      if e2.Some? {
        return NoMessage, Some(ReadError(e2.value));
      }
      var parsed := Strconv.Atoi(argcStr);
      if parsed.Err? {
        return NoMessage, Some(CountError(parsed.error));
      }
      var argc := parsed.value;
      if argc < 0 {
        return NoMessage, Some(NegativeCount(argc));
      }
      var args, e3 := ReadArguments(argc);
      if e3.Some? {
        return NoMessage, Some(ReadError(e3.value));
      }
      return Message(kind, args), None;
    }

    /** The argument loop of `Receive`: `argc` reads into a buffer of that
      * size, stopping at the first error; gives the arguments read so far. */
    method ReadArguments(argc: nat) returns (args: seq<Bytes>, err: Option<SplitError>)
      requires Valid()
      modifies this
      ensures Valid() && written == old(written)
      ensures (args, err, pending) == ReadArgs(old(pending), argc)
    {
      ghost var outcome := ReadArgs(pending, argc);
      assert outcome == Gathered([], ReadArgs(pending, argc)) by {
        assert [] + outcome.0 == outcome.0;
      }
      var buf := new Bytes[argc];
      var i := 0;
      ghost var got: seq<Bytes> := [];
      while i < argc
        invariant 0 <= i <= argc && Valid() && written == old(written)
        invariant |got| == i && forall k :: 0 <= k < i ==> buf[k] == got[k]
        invariant outcome == Gathered(got, ReadArgs(pending, argc - i))
        modifies this, buf
      {
        var a, e := Read();
        if e.Some? {
          assert buf[..i] == got && got + [] == got;
          return buf[..i], e;
        }
        ArgStep(got, a, ReadArgs(pending, argc - i - 1));
        buf[i] := a;
        got := got + [a];
        i := i + 1;
      }
      assert buf[..] == got;
      assert got + [] == got;
      return buf[..], None;
    }
  }

  /** Arguments read before an outcome of `ReadArgs`. */
  function Gathered(done: seq<Bytes>, r: (seq<Bytes>, Option<SplitError>, seq<Event>)): (seq<Bytes>, Option<SplitError>, seq<Event>)
  {
    (done + r.0, r.1, r.2)
  }

  /** One more argument read. */
  lemma ArgStep(done: seq<Bytes>, a: Bytes, r: (seq<Bytes>, Option<SplitError>, seq<Event>))
    ensures Gathered(done, ([a] + r.0, r.1, r.2)) == Gathered(done + [a], r)
  {
    assert done + ([a] + r.0) == (done + [a]) + r.0;
  }

  /** Framing one more record. */
  lemma {:induction false} FrameSnoc(rs: seq<Bytes>, r: Bytes, s: char)
    ensures Frame(rs + [r], s) == Frame(rs, s) + r + [s]
  {
    if rs == [] {
      assert [] + [r] == [r];
      assert Frame([r], s) == r + [s] + Frame([], s);
    } else {
      assert (rs + [r])[0] == rs[0] && (rs + [r])[1..] == rs[1..] + [r];
      FrameSnoc(rs[1..], r, s);
    }
  }

  /** Framing two runs of records one after the other. */
  lemma {:induction false} FrameAppend(a: seq<Bytes>, b: seq<Bytes>, s: char)
    ensures Frame(a + b, s) == Frame(a, s) + Frame(b, s)
  {
    if a == [] {
      assert a + b == b;
    } else {
      assert (a + b)[0] == a[0] && (a + b)[1..] == a[1..] + b;
      FrameAppend(a[1..], b, s);
    }
  }

  /** The events of two runs of records. */
  lemma {:induction false} RecordsAppend(a: seq<Bytes>, b: seq<Bytes>)
    ensures Records(a + b) == Records(a) + Records(b)
  {
  }

  /** Settled events after records. */
  lemma RecordsSettled(rs: seq<Bytes>, rest: seq<Event>)
    requires Settled(rest)
    ensures Settled(Records(rs) + rest)
  {
    SettledAfterRecords(Records(rs), rest);
  }

  /** Reading `n` arguments from `n` records gives them, and the rest. */
  lemma {:induction false} ReadArgsRecords(args: seq<Bytes>, rest: seq<Event>)
    requires Settled(rest)
    ensures Settled(Records(args) + rest)
    ensures ReadArgs(Records(args) + rest, |args|) == (args, None, rest)
  {
    RecordsSettled(args, rest);
    if args != [] {
      var evs := Records(args) + rest;
      assert evs[0] == Record(args[0]);
      assert evs[1..] == Records(args[1..]) + rest;
      assert Next(evs) == (args[0], None, evs[1..]);
      ReadArgsRecords(args[1..], rest);
      assert ReadArgs(evs[1..], |args| - 1) == (args[1..], None, rest);
      assert ReadArgs(evs, |args|) == ([args[0]] + args[1..], None, rest);
      assert [args[0]] + args[1..] == args;
    } else {
      assert Records(args) + rest == rest;
    }
  }

  /** Ten to the power `k`. */
  function Pow10(k: nat): nat
  {
    if k == 0 then 1 else 10 * Pow10(k - 1)
  }

  /** A number below 10^k takes at most `k` digits. */
  lemma {:induction false} ItoaShort(n: nat, k: nat)
    requires 1 <= k && n < Pow10(k)
    ensures |Strconv.Itoa(n)| <= k
  {
    if n >= 10 {
      ItoaShort(n / 10, k - 1);
    }
  }

  /** Ten to the nineteenth exceeds every Go `int`. */
  lemma IntLimitDigits()
    ensures Strconv.IntLimit < Pow10(19)
  {
    assert Pow10(1) == 10;
    assert Pow10(2) == 100;
    assert Pow10(3) == 1000;
    assert Pow10(4) == 10000;
    assert Pow10(5) == 100000;
    assert Pow10(6) == 1000000;
    assert Pow10(7) == 10000000;
    assert Pow10(8) == 100000000;
    assert Pow10(9) == 1000000000;
    assert Pow10(10) == 10000000000;
    assert Pow10(11) == 100000000000;
    assert Pow10(12) == 1000000000000;
    assert Pow10(13) == 10000000000000;
    assert Pow10(14) == 100000000000000;
    assert Pow10(15) == 1000000000000000;
    assert Pow10(16) == 10000000000000000;
    assert Pow10(17) == 100000000000000000;
    assert Pow10(18) == 1000000000000000000;
    assert Pow10(19) == 10000000000000000000;
  }

  /** The decimal count of a Go slice's length has no NUL and at most 19
    * digits, so it fits a record. */
  lemma CountFits(n: nat)
    requires n < Strconv.IntLimit
    ensures Fits(Strconv.Itoa(n), NUL)
  {
    IntLimitDigits();
    ItoaShort(n, 19);
    Strconv.ItoaDigits(n);
    var d := Strconv.Itoa(n);
    assert NUL !in d by {
      forall i | 0 <= i < |d| ensures d[i] != NUL {
        assert Strconv.IsDigit(d[i]);
      }
    }
  }

  /** A message `Receive` can read back: no field holds a NUL or is longer
    * than a record, and the count is a Go `int`. */
  predicate Encodable(m: Message)
  {
    && Fits(m.kind, NUL)
    && (forall a :: a in m.args ==> Fits(a, NUL))
    && |m.args| < Strconv.IntLimit
  }

  /** `Receive` over a kind record and a count record: the count decides
    * the rest. */
  lemma ReceiveHeader(kind: Bytes, count: Bytes, rest: seq<Event>)
    requires Settled(rest)
    ensures Settled([Record(kind), Record(count)] + rest)
    ensures var argc := Strconv.Atoi(count);
      ReceiveSpec([Record(kind), Record(count)] + rest) ==
        if argc.Err? then (NoMessage, Some(CountError(argc.error)), rest)
        else if argc.value < 0 then (NoMessage, Some(NegativeCount(argc.value)), rest)
        else Received(kind, ReadArgs(rest, argc.value))
  {
    RecordsSettled([kind, count], rest);
    var evs := [Record(kind), Record(count)] + rest;
    assert evs[0] == Record(kind) && evs[1..] == [Record(count)] + rest;
    var p1 := evs[1..];
    assert p1[0] == Record(count) && p1[1..] == rest;
  }

  /** The records of an envelope are received as its message. */
  lemma ReceiveEnvelope(m: Message, rest: seq<Event>)
    requires Settled(rest) && |m.args| < Strconv.IntLimit
    ensures Settled(Records(EnvelopeFields(m.kind, m.args)) + rest)
    ensures ReceiveSpec(Records(EnvelopeFields(m.kind, m.args)) + rest) == (m, None, rest)
  {
    var count := Strconv.Itoa(|m.args|);
    var after := Records(m.args) + rest;
    assert Records(EnvelopeFields(m.kind, m.args)) + rest == [Record(m.kind), Record(count)] + after by {
      RecordsAppend([m.kind, count], m.args);
      assert Records([m.kind, count]) == [Record(m.kind), Record(count)];
    }
    ReadArgsRecords(m.args, rest);
    ReceiveHeader(m.kind, count, after);
    Strconv.AtoiItoa(|m.args|);
  }

  /** Every message `Receive` reads until the first error, and that error. */
  function ReceiveAll(evs: seq<Event>): (seq<Message>, ReceiveError)
    requires Settled(evs)
    decreases |evs|
  {
    var first := ReceiveSpec(evs);
    if first.1.Some? then ([], first.1.value)
    else
      var later := ReceiveAll(first.2);
      ([first.0] + later.0, later.1)
  }

  /** The envelopes of a sequence of messages, back to back. */
  function Envelopes(msgs: seq<Message>): Bytes
  {
    if msgs == [] then [] else Envelope(msgs[0].kind, msgs[0].args) + Envelopes(msgs[1..])
  }

  /** The fields of a sequence of envelopes. */
  function AllFields(msgs: seq<Message>): seq<Bytes>
  {
    if msgs == [] then [] else EnvelopeFields(msgs[0].kind, msgs[0].args) + AllFields(msgs[1..])
  }

  /** Envelopes are the framing of their fields. */
  lemma {:induction false} EnvelopesFrame(msgs: seq<Message>)
    ensures Envelopes(msgs) == Frame(AllFields(msgs), NUL)
  {
    if msgs != [] {
      EnvelopesFrame(msgs[1..]);
      FrameAppend(EnvelopeFields(msgs[0].kind, msgs[0].args), AllFields(msgs[1..]), NUL);
    }
  }

  /** Every field of encodable messages fits a record. */
  lemma {:induction false} FieldsFit(msgs: seq<Message>)
    requires forall m :: m in msgs ==> Encodable(m)
    ensures forall f :: f in AllFields(msgs) ==> Fits(f, NUL)
  {
    if msgs != [] {
      var m := msgs[0];
      assert m in msgs;
      FieldsFit(msgs[1..]);
      CountFits(|m.args|);
      forall f | f in EnvelopeFields(m.kind, m.args) ensures Fits(f, NUL) {
        if f !in m.args {
          assert f == m.kind || f == Strconv.Itoa(|m.args|);
        }
      }
    }
  }

  /** Back-to-back envelopes are received as their messages, in order, and
    * then the error that ends the reads. */
  lemma {:induction false} ReceiveEnvelopes(msgs: seq<Message>, e: SplitError)
    requires forall m :: m in msgs ==> |m.args| < Strconv.IntLimit
    ensures Settled(Records(AllFields(msgs)) + [Failure(e)])
    ensures ReceiveAll(Records(AllFields(msgs)) + [Failure(e)]) == (msgs, ReadError(e))
  {
    var last := [Failure(e)];
    assert Settled(last);
    RecordsSettled(AllFields(msgs), last);
    if msgs == [] {
      assert Records(AllFields(msgs)) + last == last;
    } else {
      var m := msgs[0];
      assert m in msgs;
      var fields := EnvelopeFields(m.kind, m.args);
      var rest := Records(AllFields(msgs[1..])) + last;
      assert Records(AllFields(msgs)) + last == Records(fields) + rest by {
        assert AllFields(msgs) == fields + AllFields(msgs[1..]);
        RecordsAppend(fields, AllFields(msgs[1..]));
        AppendAssoc(Records(fields), Records(AllFields(msgs[1..])), last);
      }
      assert Settled(rest) && ReceiveAll(rest) == (msgs[1..], ReadError(e)) by {
        ReceiveEnvelopes(msgs[1..], e);
      }
      ReceiveEnvelope(m, rest);
      ReceiveAllStep(Records(fields) + rest);
      assert [m] + msgs[1..] == msgs;
    }
  }

  /** A message first: `ReceiveAll` gives it, then what follows. */
  lemma ReceiveAllStep(evs: seq<Event>)
    requires Settled(evs) && ReceiveSpec(evs).1.None?
    ensures ReceiveAll(evs) == ([ReceiveSpec(evs).0] + ReceiveAll(ReceiveSpec(evs).2).0, ReceiveAll(ReceiveSpec(evs).2).1)
  {
  }

  /** `Send` then `Receive`: encodable messages sent back to back over a
    * connection whose bytes arrive in any split into reads are received
    * as themselves, in order, and then the error that closed it. */
  lemma SendThenReceive(msgs: seq<Message>, chunks: seq<Chunk>, closing: ReadError)
    requires forall m :: m in msgs ==> Encodable(m)
    requires NoErrors(chunks) && Data(chunks) == Envelopes(msgs)
    ensures Settled(Incoming(chunks, closing))
    ensures ReceiveAll(Incoming(chunks, closing)) == (msgs, ReadError(ConnError(closing)))
  {
    EnvelopesFrame(msgs);
    FieldsFit(msgs);
    var c := Chunk([], Some(closing));
    ReadErrorForwarded(AllFields(msgs), chunks, c, [], NUL);
    assert chunks + [c] + [] == chunks + [c];
    ReceiveEnvelopes(msgs, ConnError(closing));
  }

  /** Every record `Read` gives until the first error, and that error. */
  function ReadAll(evs: seq<Event>): (seq<Bytes>, SplitError)
    requires Settled(evs)
    decreases |evs|
  {
    var first := Next(evs);
    if first.1.Some? then ([], first.1.value)
    else
      var later := ReadAll(first.2);
      ([first.0] + later.0, later.1)
  }

  /** A record first: `ReadAll` gives it, then what follows. */
  lemma ReadAllStep(evs: seq<Event>)
    requires Settled(evs) && evs[0].Record?
    ensures Settled(evs[1..])
    ensures ReadAll(evs) == ([evs[0].data] + ReadAll(evs[1..]).0, ReadAll(evs[1..]).1)
  {
  }

  /** The first of some records, then the rest. */
  lemma RecordsFirst(strs: seq<Bytes>, last: seq<Event>)
    requires strs != []
    ensures (Records(strs) + last)[0] == Record(strs[0])
    ensures (Records(strs) + last)[1..] == Records(strs[1..]) + last
  {
    var r := Records(strs[1..]);
    assert Records(strs) == [Record(strs[0])] + r;
    AppendFirst(Record(strs[0]), r, last);
  }

  /** Reading framed records gives them, then the error. */
  lemma {:induction false} ReadAllRecords(strs: seq<Bytes>, e: SplitError)
    ensures Settled(Records(strs) + [Failure(e)])
    ensures ReadAll(Records(strs) + [Failure(e)]) == (strs, e)
  {
    var last := [Failure(e)];
    assert Settled(last);
    RecordsSettled(strs, last);
    if strs != [] {
      var evs := Records(strs) + last;
      assert evs[0] == Record(strs[0]) && evs[1..] == Records(strs[1..]) + last by {
        RecordsFirst(strs, last);
      }
      RecordsSettled(strs[1..], last);
      assert ReadAll(evs[1..]) == (strs[1..], e) by {
        ReadAllRecords(strs[1..], e);
      }
      ReadAllStep(evs);
      assert [strs[0]] + strs[1..] == strs;
    }
  }

  /** `Write` then `Read`: strings written one after the other, without NULs
    * and no longer than a record, are read back in order, however their
    * bytes are split into reads, and then the error that closed the
    * connection. */
  lemma WriteThenRead(strs: seq<Bytes>, chunks: seq<Chunk>, closing: ReadError)
    requires forall s :: s in strs ==> Fits(s, NUL)
    requires NoErrors(chunks) && Data(chunks) == Frame(strs, NUL)
    ensures Settled(Incoming(chunks, closing))
    ensures ReadAll(Incoming(chunks, closing)) == (strs, ConnError(closing))
  {
    var c := Chunk([], Some(closing));
    ReadErrorForwarded(strs, chunks, c, [], NUL);
    assert chunks + [c] + [] == chunks + [c];
    ReadAllRecords(strs, ConnError(closing));
  }

  /** A count record that is not a number ends `Receive` with the number
    * error, and the empty message. */
  lemma BadCount(kind: Bytes, count: Bytes, rest: seq<Event>)
    requires Settled(rest) && Strconv.Atoi(count).Err?
    ensures Settled([Record(kind), Record(count)] + rest)
    ensures ReceiveSpec([Record(kind), Record(count)] + rest) ==
      (NoMessage, Some(CountError(Strconv.Atoi(count).error)), rest)
  {
    ReceiveHeader(kind, count, rest);
  }

  /** A negative count ends `Receive` with an error, where Go would panic. */
  lemma NegativeCountRefused(kind: Bytes, n: nat, rest: seq<Event>)
    requires Settled(rest) && 0 < n <= Strconv.IntLimit
    ensures Settled([Record(kind), Record(['-'] + Strconv.Itoa(n))] + rest)
    ensures ReceiveSpec([Record(kind), Record(['-'] + Strconv.Itoa(n))] + rest) ==
      (NoMessage, Some(NegativeCount(-(n as int))), rest)
  {
    ReceiveHeader(kind, ['-'] + Strconv.Itoa(n), rest);
    Strconv.AtoiNegative(n);
  }
}
