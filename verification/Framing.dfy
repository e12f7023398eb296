/** Streams of framed XDR records: the writer and the reader of xdr/main.go and the stream reader of
    historyarchive/xdrstream.go.  The framing is record marking, section 11 of RFC 5531, with every
    fragment a whole record.  The XDR encoding of the values themselves is a parameter. */
module Framing {
  import opened Octets
  import opened Wrappers

  /** encode fails on values that XDR cannot express; decode gives the value at the start of the
      input and the number of octets it takes. */
  datatype Codec<!V> = Codec(encode: V -> Option<seq<octet>>, decode: seq<octet> -> Option<(V, nat)>)

  datatype FrameError =
    | CannotEncode | Overlong | ShortHeader | ShortBody | BadBody | WrongSize | NoFrameBit
    | WriterFailed | ReaderFailed

  datatype Reading<V> = Value(value: V) | EndOfFile | Failed(error: FrameError)

  /** Decoding what was encoded gives the value back, whatever follows it. */
  ghost predicate Faithful<V(!new)>(c: Codec<V>) {
    forall v, tail {:trigger c.decode(c.encode(v).value + tail)} ::
      c.encode(v).Some? ==> c.decode(c.encode(v).value + tail) == Some((v, |c.encode(v).value|))
  }

  // ----- Specification -----

  /** The frame of a body.  The length is converted to 32 bits before it is checked. */
  function Frame(body: seq<octet>): Result<seq<octet>, FrameError> {
    var un := |body| % 0x1_0000_0000;
    if un > 0x7fff_ffff then Err(Overlong) else Ok(BigEndian(4, un + 0x8000_0000) + body)
  }

  /** What reading one record from s gives, and how much of s it takes. */
  function ReadRecord<V>(c: Codec<V>, s: seq<octet>): (r: (Reading<V>, nat))
    ensures r.1 <= |s|
    ensures r.0.Value? ==> r.1 > 4
  {
    if s == [] then (EndOfFile, 0) else
    if |s| < 4 then (Failed(ShortHeader), |s|) else
    var n := FromBigEndian(s[..4]) % 0x8000_0000;
    if n == 0 then (EndOfFile, 4) else
    if |s| < 4 + n then (Failed(ShortBody), |s|) else
    match c.decode(s[4..4 + n])
    case None => (Failed(BadBody), 4 + n)
    case Some((v, m)) => (if m == n then Value(v) else Failed(WrongSize), 4 + n)
  }

  /** Reading records until something other than a value comes. */
  function ReadAll<V>(c: Codec<V>, s: seq<octet>): (seq<V>, Reading<V>)
    decreases |s|
  {
    var (r, n) := ReadRecord(c, s);
    if r.Value? then
      var (vs, end) := ReadAll(c, s[n..]);
      ([r.value] + vs, end)
    else ([], r)
  }

  // ----- Readers and writers -----

  class Sink {
    var data: seq<octet>
    const reliable: bool   // no write fails

    constructor (reliable: bool)
      ensures data == [] && this.reliable == reliable
    {
      data, this.reliable := [], reliable;
    }

    /** Appends d, or some beginning of it and fails. */
    method Write(d: seq<octet>) returns (n: nat, ok: bool)
      modifies this
      ensures n <= |d| && data == old(data) + d[..n]
      ensures ok ==> n == |d|
      ensures reliable ==> ok
    {
      n, ok := |d|, true;
      var failing: bool := *;
      if failing && !reliable {
        n :| n <= |d|;
        ok := false;
      }
      data := data + d[..n];
    }
  }

  /** Writes one framed value.  Nothing is written if the value cannot be encoded or is overlong; if the
      writer fails, at most a beginning of the frame is. */
  method MarshalFramed<V>(c: Codec<V>, w: Sink, v: V) returns (error: Option<FrameError>)
    modifies w
    ensures match c.encode(v)
      case None => error == Some(CannotEncode) && w.data == old(w.data)
      case Some(body) => match Frame(body)
        case Err(e) => error == Some(e) && w.data == old(w.data)
        case Ok(frame) =>
          && (error == None || (error == Some(WriterFailed) && !w.reliable))
          && (error == None ==> w.data == old(w.data) + frame)
          && (error != None ==> exists n :: 0 <= n <= |frame| && w.data == old(w.data) + frame[..n])
  {
    var tmp := c.encode(v);
    if tmp.None? {
      return Some(CannotEncode);
    }
    var body := tmp.value;
    var un := |body| % 0x1_0000_0000;
    if un > 0x7fff_ffff {
      return Some(Overlong);
    }
    var header := BigEndian(4, un + 0x8000_0000);
    ghost var frame := header + body;
    var n, ok := w.Write(header);
    assert header[..n] == frame[..n];
    if !ok {
      return Some(WriterFailed);
    }
    assert header[..4] == header;
    var k, written := w.Write(body);
    assert frame[..4 + k] == header + body[..k];
    if k != |body| || !written {
      return Some(WriterFailed);
    }
    assert body[..k] == body;
    return None;
  }

  class CountReader {
    var rest: seq<octet>
    var bytesRead: nat
    var closed: bool
    const reliable: bool   // no read fails

    constructor (input: seq<octet>, reliable: bool)
      ensures rest == input && bytesRead == 0 && !closed && this.reliable == reliable
    {
      rest, bytesRead, closed, this.reliable := input, 0, false, reliable;
    }

    /** Up to n octets; fewer only at the end of the input, or if the reader fails. */
    method Read(n: nat) returns (got: seq<octet>, failed: bool)
      modifies `rest, `bytesRead
      ensures |got| <= n && |got| <= |old(rest)|
      ensures !failed ==> |got| == if n < |old(rest)| then n else |old(rest)|
      ensures reliable ==> !failed
      ensures got == old(rest)[..|got|] && rest == old(rest)[|got|..] && bytesRead == old(bytesRead) + |got|
    {
      var k := if n < |rest| then n else |rest|;
      failed := false;
      var failing: bool := *;
      if failing && !reliable {
        var fewer: nat :| fewer <= k;
        k, failed := fewer, true;
      }
      got, rest, bytesRead := rest[..k], rest[k..], bytesRead + k;
    }

    method Close()
      modifies `closed
      ensures closed
    {
      closed := true;
    }
  }

  /** The input starts with a header that announces a non-empty body, all of which is there and decodes to
      the value; whether the header has the frame bit is not looked at. */
  ghost predicate HoldsRecord<V>(c: Codec<V>, input: seq<octet>, v: V) {
    && |input| >= 4
    && var n := FromBigEndian(input[..4]) % 0x8000_0000;
    && n > 0 && |input| >= 4 + n && c.decode(input[4..4 + n]) == Some((v, n))
  }

  /** The input starts with a header with the frame bit that announces exactly what the decoder takes for the
      value behind it. */
  ghost predicate HoldsFrame<V>(c: Codec<V>, input: seq<octet>, v: V, n: nat) {
    && |input| >= 4 && input[0] >= 128
    && FromBigEndian(input[..4]) == 0x8000_0000 + n && c.decode(input[4..]) == Some((v, n))
  }

  /** The frame bit is the highest of the first octet. */
  lemma FrameBit(header: seq<octet>)
    requires |header| == 4
    ensures 0 <= FromBigEndian(header) < 0x1_0000_0000
    ensures FromBigEndian(header) >= 0x8000_0000 <==> header[0] >= 128
  {
    var three, two, one := header[..3], header[..2], header[..1];
    assert three[..2] == two && two[..1] == one && one[..0] == [];
    assert FromBigEndian(header) == 256 * FromBigEndian(three) + header[3];
    assert FromBigEndian(three) == 256 * FromBigEndian(two) + header[2];
    assert FromBigEndian(two) == 256 * FromBigEndian(one) + header[1];
    assert FromBigEndian(one) == header[0];
  }

  class XdrStream {
    const rdr: CountReader
    var buf: seq<octet>

    constructor (rdr: CountReader)
      ensures this.rdr == rdr
    {
      this.rdr := rdr;
      buf := [];
    }

    function BytesRead(): nat
      reads rdr
    {
      rdr.bytesRead
    }

    /** One record: exactly what ReadRecord says, taking and counting exactly that much of the input,
        unless the reader fails.  The reader is closed on everything but a value and a value of the wrong
        size. */
    method ReadOne<V>(c: Codec<V>) returns (r: Reading<V>)
      modifies this, rdr
      ensures r != Failed(ReaderFailed) ==>
        var (reading, n) := ReadRecord(c, old(rdr.rest));
        r == reading && Taken(old(rdr.rest), rdr.rest, n) && BytesRead() == old(BytesRead()) + n
      ensures forall v :: r == Value(v) ==> HoldsRecord(c, old(rdr.rest), v)
      ensures rdr.reliable ==> r != Failed(ReaderFailed) && forall v :: HoldsRecord(c, old(rdr.rest), v) ==> r == Value(v)
      ensures rdr.reliable ==>
        (r == EndOfFile <==> old(rdr.rest) == [] || (|old(rdr.rest)| >= 4 && FromBigEndian(old(rdr.rest)[..4]) % 0x8000_0000 == 0))
      ensures rdr.reliable ==> (r == Failed(ShortHeader) <==> 0 < |old(rdr.rest)| < 4)
      ensures rdr.reliable && |old(rdr.rest)| >= 4 ==> var n := FromBigEndian(old(rdr.rest)[..4]) % 0x8000_0000;
        && (r == Failed(ShortBody) <==> n > 0 && |old(rdr.rest)| < 4 + n)
        && (r == Failed(BadBody) <==> n > 0 && |old(rdr.rest)| >= 4 + n && c.decode(old(rdr.rest)[4..4 + n]).None?)
      ensures r == Failed(ReaderFailed) ==>
        exists n :: Taken(old(rdr.rest), rdr.rest, n) && BytesRead() == old(BytesRead()) + n
      ensures rdr.closed <==> old(rdr.closed) || !(r.Value? || r == Failed(WrongSize))
    {
      ghost var input := rdr.rest;
      var header, failed := rdr.Read(4);
      if failed || |header| < 4 {
        rdr.Close();
        assert Taken(input, rdr.rest, |header|);
        return if failed then Failed(ReaderFailed) else if header == [] then EndOfFile else Failed(ShortHeader);
      }
      var nbytes := FromBigEndian(header) % 0x8000_0000;
      buf := [];
      if nbytes == 0 {
        rdr.Close();
        return EndOfFile;
      }
      assert rdr.rest == input[4..];
      buf, failed := rdr.Read(nbytes);
      Regroup(input, |buf|);
      if failed || |buf| != nbytes {
        rdr.Close();
        assert Taken(input, rdr.rest, 4 + |buf|);
        return if failed then Failed(ReaderFailed) else Failed(ShortBody);
      }
      var decoded := c.decode(buf);
      if decoded.None? {
        rdr.Close();
        return Failed(BadBody);
      }
      if decoded.value.1 != nbytes {
        return Failed(WrongSize);
      }
      return Value(decoded.value.0);
    }
  }

  /** The first n octets have been taken. */
  ghost predicate Taken(before: seq<octet>, after: seq<octet>, n: nat) {
    n <= |before| && after == before[n..]
  }

  lemma Regroup(input: seq<octet>, n: nat)
    requires 4 + n <= |input|
    ensures input[4..][..n] == input[4..4 + n] && input[4..][n..] == input[4 + n..]
  {
  }

  /** The other reader checks the frame bit and decodes straight from the input. */
  function ReadFramed<V>(c: Codec<V>, s: seq<octet>): Result<(V, nat), FrameError> {
    if |s| < 4 then Err(ShortHeader) else
    var header := FromBigEndian(s[..4]);
    if header < 0x8000_0000 then Err(NoFrameBit) else
    match c.decode(s[4..])
    case None => Err(BadBody)
    case Some((v, m)) => if m == header % 0x8000_0000 then Ok((v, 4 + m)) else Err(WrongSize)
  }

  method UnmarshalFramed<V>(c: Codec<V>, r: CountReader) returns (result: Result<(V, nat), FrameError>)
    modifies r
    ensures result == ReadFramed(c, old(r.rest)) || (result == Err(ReaderFailed) && !r.reliable)
    ensures result.Ok? ==> result.value.1 >= 4 && HoldsFrame(c, old(r.rest), result.value.0, result.value.1 - 4)
    ensures r.reliable ==> forall v, n :: HoldsFrame(c, old(r.rest), v, n) ==> result == Ok((v, 4 + n))
    ensures r.reliable ==> (result == Err(ShortHeader) <==> |old(r.rest)| < 4)
    ensures r.reliable ==> (result == Err(NoFrameBit) <==> |old(r.rest)| >= 4 && old(r.rest)[0] < 128)
    ensures r.reliable ==>
      (result == Err(BadBody) <==> |old(r.rest)| >= 4 && old(r.rest)[0] >= 128 && c.decode(old(r.rest)[4..]).None?)
    ensures result.Ok? && result.value.1 <= |old(r.rest)| ==> r.rest == old(r.rest)[result.value.1..]
    ensures exists n :: Taken(old(r.rest), r.rest, n)
    ensures result == Err(NoFrameBit) ==> Taken(old(r.rest), r.rest, 4)
  {
    ghost var input := r.rest;
    if |input| >= 4 {
      FrameBit(input[..4]);
    }
    hide FromBigEndian;
    var header, failed := r.Read(4);
    assert Taken(input, r.rest, |header|);
    if failed {
      return Err(ReaderFailed);
    }
    if |header| < 4 {
      return Err(ShortHeader);
    }
    var frameLen := FromBigEndian(header);
    if frameLen < 0x8000_0000 {
      return Err(NoFrameBit);
    }
    frameLen := frameLen % 0x8000_0000;
    var decoded := c.decode(r.rest);
    if decoded.None? {
      return Err(BadBody);
    }
    var m := decoded.value.1;
    var body;
    body, failed := r.Read(m);
    Regroup(input, |body|);
    assert Taken(input, r.rest, 4 + |body|);
    if failed {
      return Err(ReaderFailed);
    }
    if m != frameLen {
      return Err(WrongSize);
    }
    return Ok((decoded.value.0, 4 + m));
  }

  // ----- Round trips -----

  /** Values that encode to at most 0x7fffffff octets. */
  ghost predicate Fits<V>(c: Codec<V>, v: V) {
    c.encode(v).Some? && |c.encode(v).value| <= 0x7fff_ffff
  }

  ghost predicate AllFit<V>(c: Codec<V>, vs: seq<V>) {
    forall i :: 0 <= i < |vs| ==> Fits(c, vs[i])
  }

  ghost predicate Empty<V>(c: Codec<V>, v: V) {
    c.encode(v) == Some([])
  }

  /** The stream that writing the values in turn produces. */
  ghost function Frames<V>(c: Codec<V>, vs: seq<V>): seq<octet>
    requires AllFit(c, vs)
  {
    if vs == [] then [] else Frame(c.encode(vs[0]).value).value + Frames(c, vs[1..])
  }

  lemma FrameHeader(body: seq<octet>, tail: seq<octet>)
    requires |body| <= 0x7fff_ffff
    ensures Frame(body).Ok?
    ensures var s := Frame(body).value + tail;
      && |Frame(body).value| == 4 + |body|
      && FromBigEndian(s[..4]) == 0x8000_0000 + |body|
      && s[4..4 + |body|] == body && s[4..] == body + tail
  {
    Words();
    FromToBigEndian(4, 0x8000_0000 + |body|);
    assert (Frame(body).value + tail)[..4] == BigEndian(4, 0x8000_0000 + |body|);
  }

  lemma ReadOneFrame<V(!new)>(c: Codec<V>, v: V, tail: seq<octet>)
    requires Faithful(c) && Fits(c, v)
    ensures var body := c.encode(v).value;
      var s := Frame(body).value + tail;
      && ReadRecord(c, s) == (if Empty(c, v) then EndOfFile else Value(v), 4 + |body|)
      && s[4 + |body|..] == tail
      && ReadFramed(c, s) == Ok((v, 4 + |body|))
  {
    var body := c.encode(v).value;
    FrameHeader(body, tail);
    var s := Frame(body).value + tail;
    hide Frame, FromBigEndian;
    assert c.decode(c.encode(v).value + []) == Some((v, |body|));
    assert c.decode(c.encode(v).value + tail) == Some((v, |body|));
    assert body + [] == body;
    assert s[4 + |body|..] == tail;
  }

  /** Reading a stream of non-empty records gives all of them, in order, and goes on behind them. */
  lemma {:induction false} ReadThrough<V(!new)>(c: Codec<V>, vs: seq<V>, tail: seq<octet>)
    requires Faithful(c) && AllFit(c, vs) && forall i :: 0 <= i < |vs| ==> !Empty(c, vs[i])
    ensures ReadAll(c, Frames(c, vs) + tail) == (vs + ReadAll(c, tail).0, ReadAll(c, tail).1)
    decreases |vs|
  {
    hide ReadAll, ReadRecord, Frame, Fits, Faithful;
    if vs == [] {
      assert Frames(c, vs) + tail == tail;
      assert vs + ReadAll(c, tail).0 == ReadAll(c, tail).0;
    } else {
      var v, rest := vs[0], Frames(c, vs[1..]) + tail;
      FirstFrame(c, vs, tail);
      ReadThrough(c, vs[1..], tail);
      assert !Empty(c, v);
      ReadOneFrame(c, v, rest);
      ReadAllStep(c, Frames(c, vs) + tail, v, 4 + |c.encode(v).value|);
      hide *;
      assert [v] + (vs[1..] + ReadAll(c, tail).0) == vs + ReadAll(c, tail).0;
    }
  }

  lemma FirstFrame<V>(c: Codec<V>, vs: seq<V>, tail: seq<octet>)
    requires AllFit(c, vs) && vs != []
    ensures AllFit(c, vs[1..]) && Fits(c, vs[0])
    ensures Frame(c.encode(vs[0]).value).Ok?
    ensures Frames(c, vs) + tail == Frame(c.encode(vs[0]).value).value + (Frames(c, vs[1..]) + tail)
  {
  }

  lemma ReadAllStep<V>(c: Codec<V>, s: seq<octet>, v: V, n: nat)
    requires ReadRecord(c, s) == (Value(v), n)
    ensures n <= |s| && ReadAll(c, s) == ([v] + ReadAll(c, s[n..]).0, ReadAll(c, s[n..]).1)
  {
    hide ReadRecord;
  }

  /** Where a stream reads back completely: exactly when no record is empty.  A record of length zero
      is taken for the end of the stream, and hides everything behind it. */
  lemma RoundTripExactly<V(!new)>(c: Codec<V>, vs: seq<V>)
    requires Faithful(c) && AllFit(c, vs)
    ensures ReadAll(c, Frames(c, vs)) == (vs, EndOfFile) <==> forall i :: 0 <= i < |vs| ==> !Empty(c, vs[i])
  {
    if forall i :: 0 <= i < |vs| ==> !Empty(c, vs[i]) {
      ReadThrough(c, vs, []);
      assert Frames(c, vs) + [] == Frames(c, vs);
      assert vs + ReadAll<V>(c, []).0 == vs;
    } else {
      var j := FirstEmpty(c, vs);
      StopsAtEmpty(c, vs, j);
    }
  }

  lemma {:induction false} FirstEmpty<V>(c: Codec<V>, vs: seq<V>) returns (j: nat)
    requires exists i :: 0 <= i < |vs| && Empty(c, vs[i])
    ensures j < |vs| && Empty(c, vs[j]) && forall i :: 0 <= i < j ==> !Empty(c, vs[i])
  {
    j := 0;
    while !Empty(c, vs[j])
      invariant j < |vs| && forall i :: 0 <= i < j ==> !Empty(c, vs[i])
      decreases |vs| - j
    {
      j := j + 1;
    }
  }

  lemma StopsAtEmpty<V(!new)>(c: Codec<V>, vs: seq<V>, j: nat)
    requires Faithful(c) && AllFit(c, vs) && j < |vs|
    requires Empty(c, vs[j]) && forall i :: 0 <= i < j ==> !Empty(c, vs[i])
    ensures ReadAll(c, Frames(c, vs)) == (vs[..j], EndOfFile)
  {
    FramesConcat(c, vs, j);
    ReadThrough(c, vs[..j], Frames(c, vs[j..]));
    assert vs[j..][0] == vs[j];
    ReadOneFrame(c, vs[j], Frames(c, vs[j..][1..]));
    assert ReadAll(c, Frames(c, vs[j..])) == ([], EndOfFile);
    assert vs[..j] + [] == vs[..j];
  }

  lemma {:induction false} FramesConcat<V>(c: Codec<V>, vs: seq<V>, j: nat)
    requires AllFit(c, vs) && j <= |vs|
    ensures Frames(c, vs) == Frames(c, vs[..j]) + Frames(c, vs[j..])
  {
    if j > 0 {
      FramesConcat(c, vs[1..], j - 1);
      assert vs[..j][1..] == vs[1..][..j - 1];
      assert vs[j..] == vs[1..][j - 1..];
    } else {
      assert vs[j..] == vs;
    }
  }

  /** A stream cut off inside a record gives all records before the cut and then an error, never a
      clean end. */
  lemma CutInsideRecordIsAnError<V(!new)>(c: Codec<V>, vs: seq<V>, v: V, cut: nat)
    requires Faithful(c) && AllFit(c, vs) && forall i :: 0 <= i < |vs| ==> !Empty(c, vs[i])
    requires Fits(c, v) && 0 < cut < 4 + |c.encode(v).value|
    ensures var s := Frames(c, vs) + Frame(c.encode(v).value).value[..cut];
      ReadAll(c, s) == (vs, Failed(if cut < 4 then ShortHeader else ShortBody))
  {
    var tail := Frame(c.encode(v).value).value[..cut];
    CutRecord(c, c.encode(v).value, cut);
    ReadThrough(c, vs, tail);
    hide Frame, Frames, ReadRecord, Faithful, Empty;
    assert ReadAll(c, tail) == ([], Failed(if cut < 4 then ShortHeader else ShortBody));
    hide ReadAll;
    assert vs + [] == vs;
  }

  lemma CutRecord<V>(c: Codec<V>, body: seq<octet>, cut: nat)
    requires |body| <= 0x7fff_ffff && 0 < cut < 4 + |body|
    ensures Frame(body).Ok? && |Frame(body).value| == 4 + |body|
    ensures ReadRecord(c, Frame(body).value[..cut]).0 == Failed(if cut < 4 then ShortHeader else ShortBody)
  {
    FrameHeader(body, []);
    var frame := Frame(body).value;
    hide Frame, FromBigEndian;
    assert frame + [] == frame;
    if cut >= 4 {
      assert frame[..cut][..4] == frame[..4];
    }
  }

  /** The writer's length check: it refuses no body that fits, but a body of 4 GiB or more passes it
      when the low 32 bits of its length look small.  What is written then announces another length. */
  lemma HeaderIsRightExactly(body: seq<octet>)
    ensures Frame(body).Ok? <==> |body| % 0x1_0000_0000 <= 0x7fff_ffff
    ensures Frame(body).Ok? ==>
      (FromBigEndian(Frame(body).value[..4]) == 0x8000_0000 + |body| <==> |body| <= 0x7fff_ffff)
  {
    var un := |body| % 0x1_0000_0000;
    if un <= 0x7fff_ffff {
      Words();
      FromToBigEndian(4, un + 0x8000_0000);
      assert Frame(body).value[..4] == BigEndian(4, un + 0x8000_0000);
    }
  }

  /** A body of 4 GiB is written under a header that announces an empty one. */
  lemma HeaderCanBeWrong(x: octet) returns (body: seq<octet>)
    ensures |body| == 0x1_0000_0000
    ensures Frame(body).Ok? && FromBigEndian(Frame(body).value[..4]) == 0x8000_0000
  {
    body := seq(0x1_0000_0000, _ => x);
    Words();
    FromToBigEndian(4, 0x8000_0000);
    assert Frame(body).value[..4] == BigEndian(4, 0x8000_0000);
  }
}
