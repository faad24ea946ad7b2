// The length-prefixed messages of a gRPC stream, as grpcsim splits and writes them:
// one flag byte, four length bytes in network order, then the payload
// (Length-Prefixed-Message in the gRPC over HTTP/2 protocol, section "Requests").

module GrpcFrames {
  type Byte = x: int | 0 <= x < 256

  const MAX_FRAME_BYTES := 16 * 1024 * 1024
  const MAX_STREAM_FRAMES := 1024

  datatype SplitResult = Frames(payloads: seq<seq<Byte>>) | Failed(error: SplitError)

  datatype SplitError = TooManyFrames | TruncatedHeader | Compressed | FrameTooLarge | TruncatedPayload | NoFrames

  // binary.BigEndian.PutUint32 and Uint32.
  function PutUint32(n: nat): (b: seq<Byte>)
    requires n < 0x1_0000_0000
    ensures |b| == 4
  {
    [n / 0x100_0000, n / 0x1_0000 % 0x100, n / 0x100 % 0x100, n % 0x100]
  }

  function Uint32(b: seq<Byte>): (n: nat)
    requires |b| == 4
    ensures n < 0x1_0000_0000
  {
    (b[0] as int) * 0x100_0000 + (b[1] as int) * 0x1_0000 + (b[2] as int) * 0x100 + (b[3] as int)
  }

  lemma ReadWritten(n: nat)
    requires n < 0x1_0000_0000
    ensures Uint32(PutUint32(n)) == n
  {
    var h, m := n / 0x1_0000, n / 0x100;
    assert n == m * 0x100 + n % 0x100;
    assert m == h * 0x100 + m % 0x100;
    assert h == n / 0x100_0000 * 0x100 + h % 0x100;
  }

  lemma WriteRead(b: seq<Byte>)
    requires |b| == 4
    ensures PutUint32(Uint32(b)) == b
  {
    Digits(b[0], b[1], b[2], b[3], Uint32(b));
  }

  lemma Digits(b0: Byte, b1: Byte, b2: Byte, b3: Byte, n: nat)
    requires n == (b0 as int) * 0x100_0000 + (b1 as int) * 0x1_0000 + (b2 as int) * 0x100 + (b3 as int)
    ensures n / 0x100_0000 == b0 && n / 0x1_0000 % 0x100 == b1 && n / 0x100 % 0x100 == b2 && n % 0x100 == b3
  {
    assert n / 0x100 == b0 * 0x1_0000 + b1 * 0x100 + b2;
    assert n / 0x1_0000 == b0 * 0x100 + b1;
    assert n / 0x100_0000 == b0;
  }

  // One frame; the length field keeps only 32 bits.
  function Frame(payload: seq<Byte>): (f: seq<Byte>)
    ensures |f| == 5 + |payload|
  {
    [0] + PutUint32(|payload| % 0x1_0000_0000) + payload
  }

  function Stream(payloads: seq<seq<Byte>>): seq<Byte> {
    if payloads == [] then [] else Frame(payloads[0]) + Stream(payloads[1..])
  }

  function DeclaredLength(data: seq<Byte>): nat
    requires |data| >= 5
  {
    Uint32(data[1..5])
  }

  // What the splitter makes of the rest of a stream when count frames are already read.
  function SplitRest(data: seq<Byte>, count: nat): SplitResult
    decreases |data|
  {
    if data == [] then Frames([])
    else if count >= MAX_STREAM_FRAMES then Failed(TooManyFrames)
    else if |data| < 5 then Failed(TruncatedHeader)
    else if data[0] != 0 then Failed(Compressed)
    else if DeclaredLength(data) > MAX_FRAME_BYTES then Failed(FrameTooLarge)
    else if |data| - 5 < DeclaredLength(data) then Failed(TruncatedPayload)
    else match SplitRest(data[5 + DeclaredLength(data)..], count + 1)
      case Failed(e) => Failed(e)
      case Frames(rest) => Frames([data[5..5 + DeclaredLength(data)]] + rest)
  }

  function Split(data: seq<Byte>): SplitResult {
    if data == [] then Failed(NoFrames) else SplitRest(data, 0)
  }

  function After(frames: seq<seq<Byte>>, rest: SplitResult): SplitResult {
    match rest
    case Failed(e) => Failed(e)
    case Frames(more) => Frames(frames + more)
  }

  // grpcsim.splitFrames.
  method SplitFrames(input: seq<Byte>) returns (r: SplitResult)
    ensures r == Split(input)
  {
    var data := input;
    var frames: seq<seq<Byte>> := [];
    while |data| > 0
      invariant |frames| <= MAX_STREAM_FRAMES
      invariant SplitRest(input, 0) == After(frames, SplitRest(data, |frames|))
      invariant |frames| == 0 ==> data == input
      decreases |data|
    {
      if |frames| >= MAX_STREAM_FRAMES {
        return Failed(TooManyFrames);
      }
      if |data| < 5 {
        return Failed(TruncatedHeader);
      }
      if data[0] != 0 {
        return Failed(Compressed);
      }
      var length := Uint32(data[1..5]);
      if length > MAX_FRAME_BYTES {
        return Failed(FrameTooLarge);
      }
      if |data| - 5 < length {
        return Failed(TruncatedPayload);
      }
      var payload := data[5..5 + length];
      AfterOneMore(frames, payload, SplitRest(data[5 + length..], |frames| + 1));
      frames := frames + [payload];
      data := data[5 + length..];
    }
    if |frames| == 0 {
      return Failed(NoFrames);
    }
    return Frames(frames);
  }

  lemma AfterOneMore(frames: seq<seq<Byte>>, payload: seq<Byte>, rest: SplitResult)
    ensures rest.Frames? ==> After(frames, Frames([payload] + rest.payloads)) == After(frames + [payload], rest)
  {
    if rest.Frames? {
      assert frames + ([payload] + rest.payloads) == (frames + [payload]) + rest.payloads;
    }
  }

  // The framing of encodeDocuments: a buffer of the exact size, filled in place.
  method EncodeFrame(payload: seq<Byte>) returns (frame: array<Byte>)
    ensures fresh(frame) && frame[..] == Frame(payload)
  {
    frame := new Byte[5 + |payload|](_ => 0);
    var size := PutUint32(|payload| % 0x1_0000_0000);
    forall k | 0 <= k < 4 {
      frame[1 + k] := size[k];
    }
    forall k | 0 <= k < |payload| {
      frame[5 + k] := payload[k];
    }
  }

  // ---------------------------------------------------------------- the codec

  predicate Sendable(payloads: seq<seq<Byte>>, limit: nat) {
    |payloads| <= limit && forall i :: 0 <= i < |payloads| ==> |payloads[i]| <= MAX_FRAME_BYTES
  }

  lemma FrameParts(p: seq<Byte>, s: seq<Byte>)
    requires |p| < 0x1_0000_0000
    ensures var x := Frame(p) + s;
      Uint32(x[1..5]) == |p| && x[5..5 + |p|] == p && x[5 + |p|..] == s
  {
    assert (Frame(p) + s)[1..5] == PutUint32(|p|);
    ReadWritten(|p|);
  }

  lemma OneFrameThen(p: seq<Byte>, rest: seq<Byte>, data: seq<Byte>, count: nat)
    requires |p| <= MAX_FRAME_BYTES && count < MAX_STREAM_FRAMES && data == Frame(p) + rest
    ensures SplitRest(data, count) == After([p], SplitRest(rest, count + 1))
  {
    FrameParts(p, rest);
    assert data[0] == 0;
  }

  lemma AfterTwice(p: seq<Byte>, more: seq<seq<Byte>>, all: seq<seq<Byte>>, rest: SplitResult)
    requires all == [p] + more
    ensures After([p], After(more, rest)) == After(all, rest)
  {
    if rest.Frames? {
      assert [p] + (more + rest.payloads) == all + rest.payloads;
    }
  }

  // Good frames are read, and what follows them is treated as the rest of the stream.
  lemma {:induction false} FramesThen(payloads: seq<seq<Byte>>, tail: seq<Byte>, data: seq<Byte>,
                                      count: nat, end: nat)
    requires end == count + |payloads| <= MAX_STREAM_FRAMES && Sendable(payloads, MAX_STREAM_FRAMES)
    requires data == Stream(payloads) + tail
    ensures SplitRest(data, count) == After(payloads, SplitRest(tail, end))
    decreases |payloads|
  {
    if payloads == [] {
      assert data == tail;
      NothingBefore(SplitRest(tail, end));
    } else {
      var p, more := payloads[0], payloads[1..];
      var rest := Stream(more) + tail;
      assert data == Frame(p) + rest by {
        assert Stream(payloads) == Frame(p) + Stream(more);
      }
      FramesThen(more, tail, rest, count + 1, end);
      FirstFrameThen(p, more, payloads, rest, data, count, SplitRest(tail, end));
    }
  }

  lemma FirstFrameThen(p: seq<Byte>, more: seq<seq<Byte>>, payloads: seq<seq<Byte>>, rest: seq<Byte>,
                       data: seq<Byte>, count: nat, after: SplitResult)
    requires |p| <= MAX_FRAME_BYTES && count < MAX_STREAM_FRAMES && payloads == [p] + more
    requires data == Frame(p) + rest && SplitRest(rest, count + 1) == After(more, after)
    ensures SplitRest(data, count) == After(payloads, after)
  {
    OneFrameThen(p, rest, data, count);
    AfterTwice(p, more, payloads, after);
  }

  lemma NothingBefore(r: SplitResult)
    ensures After([], r) == r
  {}

  // A well-formed frame at the head of data is the framing of its payload.
  lemma FrameBack(data: seq<Byte>)
    requires |data| >= 5 && data[0] == 0 && |data| - 5 >= DeclaredLength(data)
    ensures var n := DeclaredLength(data); data == Frame(data[5..5 + n]) + data[5 + n..]
  {
    var n := DeclaredLength(data);
    WriteRead(data[1..5]);
    var f := Frame(data[5..5 + n]);
    assert f == data[..5 + n] by {
      assert f[1..5] == data[1..5];
    }
  }

  lemma {:induction false} StreamOfSplit(data: seq<Byte>, count: nat)
    requires count <= MAX_STREAM_FRAMES && SplitRest(data, count).Frames?
    ensures Stream(SplitRest(data, count).payloads) == data
    ensures Sendable(SplitRest(data, count).payloads, MAX_STREAM_FRAMES - count)
    decreases |data|
  {
    if data != [] {
      var rest := data[5 + DeclaredLength(data)..];
      StreamOfSplit(rest, count + 1);
      FrameBack(data);
      var payloads := SplitRest(data, count).payloads;
      assert payloads[1..] == SplitRest(rest, count + 1).payloads;
    }
  }

  // Splitting and framing are inverse: a stream splits into given payloads exactly
  // when it is their framing, there is at least one and at most 1024 of them, and none
  // is over 16 MiB.
  lemma SplitExactly(data: seq<Byte>, payloads: seq<seq<Byte>>)
    ensures Split(data) == Frames(payloads) <==>
      data == Stream(payloads) && payloads != [] && Sendable(payloads, MAX_STREAM_FRAMES)
  {
    if Split(data) == Frames(payloads) {
      StreamOfSplit(data, 0);
    }
    if data == Stream(payloads) && payloads != [] && Sendable(payloads, MAX_STREAM_FRAMES) {
      assert data == data + [];
      FramesThen(payloads, [], data, 0, |payloads|);
      assert |data| >= 5;
    }
  }

  // A stream cut anywhere inside is never split as if it were whole: what is read
  // from a proper prefix is an error or a proper prefix of the payloads.
  lemma {:induction false} PrefixesSplitShort(payloads: seq<seq<Byte>>, n: nat)
    requires Sendable(payloads, MAX_STREAM_FRAMES) && n < |Stream(payloads)|
    ensures Split(Stream(payloads)[..n]).Frames? ==>
      var got := Split(Stream(payloads)[..n]).payloads; got < payloads
  {
    var cut := Stream(payloads)[..n];
    if Split(cut).Frames? {
      StreamOfSplit(cut, 0);
      var got := Split(cut).payloads;
      assert Stream(got) == cut <= Stream(payloads);
      PrefixCode(got, payloads);
      assert got != payloads;
    }
  }

  // Frames can be read off from the left: one frame a prefix of another stream is its
  // first frame.
  lemma FramePrefix(p: seq<Byte>, s: seq<Byte>, q: seq<Byte>, a: seq<Byte>)
    requires Frame(p) + s <= Frame(q) + a && |p| <= MAX_FRAME_BYTES && |q| <= MAX_FRAME_BYTES
    ensures p == q && s <= a
  {
    var x, y := Frame(p) + s, Frame(q) + a;
    FrameParts(p, s);
    FrameParts(q, a);
    assert x == y[..|x|];
    assert x[1..5] == y[1..5];
    assert x[5..5 + |p|] == y[5..5 + |p|];
    assert x[5 + |p|..] == y[5 + |p|..][..|s|];
  }

  lemma {:induction false} PrefixCode(some: seq<seq<Byte>>, all: seq<seq<Byte>>)
    requires Stream(some) <= Stream(all)
    requires Sendable(some, MAX_STREAM_FRAMES) && Sendable(all, MAX_STREAM_FRAMES)
    ensures some <= all
    decreases |some|
  {
    if some != [] {
      assert all != [] by { assert |Stream(some)| >= 5; }
      FramePrefix(some[0], Stream(some[1..]), all[0], Stream(all[1..]));
      PrefixCode(some[1..], all[1..]);
      assert some == [some[0]] + some[1..] && all == [all[0]] + all[1..];
    }
  }

  // ---------------------------------------------------------------- which error

  // After any number of good frames, what comes next decides the error: nothing is
  // accepted behind the 1024th frame; then the header must be there, uncompressed, and
  // declare at most 16 MiB; then the payload must be there.
  lemma FirstBadFrameDecides(payloads: seq<seq<Byte>>, tail: seq<Byte>)
    requires Sendable(payloads, 1024) && tail != []
    ensures var r := Split(Stream(payloads) + tail);
      && (|payloads| == 1024 ==> r == Failed(TooManyFrames))
      && (|payloads| < 1024 && |tail| < 5 ==> r == Failed(TruncatedHeader))
      && (|payloads| < 1024 && |tail| >= 5 && tail[0] != 0 ==> r == Failed(Compressed))
      && (|payloads| < 1024 && |tail| >= 5 && tail[0] == 0 ==>
            var n := Uint32(tail[1..5]);
            && (n > 16 * 1024 * 1024 ==> r == Failed(FrameTooLarge))
            && (n <= 16 * 1024 * 1024 && |tail| - 5 < n ==> r == Failed(TruncatedPayload)))
  {
    FramesThen(payloads, tail, Stream(payloads) + tail, 0, |payloads|);
  }

  lemma EmptyStreamHasNoFrames()
    ensures Split([]) == Failed(NoFrames)
  {}
}
