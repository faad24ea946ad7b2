// The append-only event log: one record per line, flushed after every write, repaired
// and continued when it is opened again after a crash.

module EventLog {
  import opened Wrappers

  datatype Event<+P> = Event(sequence: nat, payload: P)

  datatype Parsed<+P> = Parsed(event: Event<P>, length: nat)

  // The record encoding: a text for every event, and a reader that takes one record off
  // the front of a text or reports an error.
  datatype Codec<!P> = Codec(encode: Event<P> -> string, decode: string -> Option<Parsed<P>>)

  predicate IsSpace(ch: char) {
    ch == ' ' || ch == '\n' || ch == '\r' || ch == '\t'
  }

  ghost predicate Progresses<P>(c: Codec<P>, s: string) {
    c.decode(s).Some? ==> 0 < c.decode(s).value.length <= |s|
  }

  ghost predicate Tight<P>(c: Codec<P>, e: Event<P>) {
    c.encode(e) != [] && !IsSpace(c.encode(e)[0]) && !IsSpace(c.encode(e)[|c.encode(e)| - 1])
  }

  ghost predicate ReadsBack<P>(c: Codec<P>, e: Event<P>, rest: string) {
    c.decode(c.encode(e) + rest) == Some(Parsed(e, |c.encode(e)|))
  }

  ghost predicate TornFails<P>(c: Codec<P>, e: Event<P>, n: nat) {
    0 < n < |c.encode(e)| ==> c.decode(c.encode(e)[..n]).None?
  }

  // What JSON records guarantee: reading makes progress, a record neither starts nor ends
  // with white space and is read back whatever follows it, and no proper prefix of a
  // record is a record.
  ghost predicate Good<P(!new)>(c: Codec<P>) {
    && (forall s :: Progresses(c, s))
    && (forall e :: Tight(c, e))
    && (forall e, rest :: ReadsBack(c, e, rest))
    && (forall e, n :: TornFails(c, e, n))
  }

  // ---------------------------------------------------------------- reading a log

  // The first position from at on that holds no white space, or the end.
  function SkipSpaces(s: string, at: nat): (p: nat)
    requires at <= |s|
    ensures at <= p <= |s| && (p < |s| ==> !IsSpace(s[p]))
    decreases |s| - at
  {
    if at < |s| && IsSpace(s[at]) then SkipSpaces(s, at + 1) else at
  }

  // The records read, the offset after the last of them, and whether reading ended in
  // an error rather than at the end of the file.
  datatype Scan<+P> = Scan(events: seq<Event<P>>, validOffset: nat, failed: bool)

  // Reading the file s from offset at on, when the last record read ended at valid.
  ghost function ScanFrom<P(!new)>(c: Codec<P>, s: string, at: nat, valid: nat): (r: Scan<P>)
    requires Good(c) && valid <= at <= |s|
    ensures r.validOffset <= |s|
    decreases |s| - at
  {
    var p := SkipSpaces(s, at);
    if p == |s| then Scan([], valid, false)
    else match c.decode(s[p..])
      case None => Scan([], valid, true)
      case Some(r) =>
        assert Progresses(c, s[p..]);
        Cons(r.event, ScanFrom(c, s, p + r.length, p + r.length))
  }

  function Cons<P>(e: Event<P>, rest: Scan<P>): Scan<P> {
    Scan([e] + rest.events, rest.validOffset, rest.failed)
  }

  ghost function ReadLog<P(!new)>(c: Codec<P>, s: string): (r: Scan<P>)
    requires Good(c)
    ensures r.validOffset <= |s|
  {
    ScanFrom(c, s, 0, 0)
  }

  function MaxSequence<P>(events: seq<Event<P>>): nat {
    if events == [] then 0
    else
      var rest := MaxSequence(events[1..]);
      if events[0].sequence > rest then events[0].sequence else rest
  }

  function Terminated(s: string): string {
    if s != [] && s[|s| - 1] != '\n' then s + "\n" else s
  }

  // The file after the tail repair of NewLogger.
  ghost function Truncated<P(!new)>(c: Codec<P>, s: string): string
    requires Good(c)
  {
    if ReadLog(c, s).failed then s[..ReadLog(c, s).validOffset] else s
  }

  ghost function Repaired<P(!new)>(c: Codec<P>, s: string): string
    requires Good(c)
  {
    Terminated(Truncated(c, s))
  }

  function Line<P>(c: Codec<P>, e: Event<P>): string {
    c.encode(e) + "\n"
  }

  function Lines<P>(c: Codec<P>, events: seq<Event<P>>): string {
    if events == [] then "" else Line(c, events[0]) + Lines(c, events[1..])
  }

  // The records read so far, up to offset at, and what is still to come make the whole.
  ghost predicate ReadSoFar<P(!new)>(c: Codec<P>, s: string, read: seq<Event<P>>, at: nat)
    requires Good(c)
  {
    at <= |s| && ReadLog(c, s) == Joined(read, ScanFrom(c, s, at, at))
  }

  lemma ReadToTheEnd<P(!new)>(c: Codec<P>, s: string, read: seq<Event<P>>, at: nat)
    requires Good(c) && ReadSoFar(c, s, read, at)
    requires var p := SkipSpaces(s, at); p < |s| ==> c.decode(s[p..]).None?
    ensures ReadLog(c, s) == Scan(read, at, SkipSpaces(s, at) < |s|)
  {
    assert read + [] == read;
  }

  lemma ReadOneMore<P(!new)>(c: Codec<P>, s: string, read: seq<Event<P>>, at: nat, p: nat, r: Parsed<P>)
    requires Good(c) && ReadSoFar(c, s, read, at)
    requires p == SkipSpaces(s, at) < |s| && c.decode(s[p..]) == Some(r)
    ensures at < p + r.length && ReadSoFar(c, s, read + [r.event], p + r.length)
  {
    assert Progresses(c, s[p..]);
    JoinOne(read, r.event, ScanFrom(c, s, p + r.length, p + r.length));
  }

  // The recovery scan of NewLogger: the highest sequence number read, and where to
  // truncate when the tail does not decode.
  method ScanFile<P(!new)>(c: Codec<P>, content: string)
    returns (lastSequence: nat, validOffset: nat, failed: bool)
    requires Good(c)
    ensures validOffset == ReadLog(c, content).validOffset && failed == ReadLog(c, content).failed
    ensures lastSequence == MaxSequence(ReadLog(c, content).events)
  {
    lastSequence, validOffset := 0, 0;
    ghost var read: seq<Event<P>> := [];
    JoinedNothing(ReadLog(c, content));
    while true
      invariant ReadSoFar(c, content, read, validOffset) && lastSequence == MaxSequence(read)
      decreases |content| - validOffset
    {
      var start := SkipSpaces(content, validOffset);
      if start == |content| {
        ReadToTheEnd(c, content, read, validOffset);
        return lastSequence, validOffset, false;
      }
      var existing := c.decode(content[start..]);
      if existing.None? {
        ReadToTheEnd(c, content, read, validOffset);
        return lastSequence, validOffset, true;
      }
      var e := existing.value.event;
      ReadOneMore(c, content, read, validOffset, start, existing.value);
      MaxSequenceAppend(read, e);
      read := read + [e];
      validOffset := start + existing.value.length;
      if e.sequence > lastSequence {
        lastSequence := e.sequence;
      }
    }
  }

  class Logger<P(!new)> {
    const codec: Codec<P>
    var file: string
    var sequence: nat

    // event.NewLogger on a file that already holds content.
    constructor Open(codec: Codec<P>, content: string)
      requires Good(codec)
      ensures this.codec == codec && file == Repaired(codec, content)
      ensures sequence == MaxSequence(ReadLog(codec, content).events)
    {
      var lastSequence, validOffset, failed := ScanFile(codec, content);
      var f := if failed then content[..validOffset] else content;
      if |f| > 0 && f[|f| - 1] != '\n' {
        f := f + "\n";
      }
      this.codec := codec;
      this.file := f;
      this.sequence := lastSequence;
    }

    // Logger.Write. Whether the encoder accepts the payload is up to the encoder; when it
    // does not, the number is spent and nothing is written.
    method Write(payload: P, encodes: bool) returns (written: Option<Event<P>>)
      modifies this
      ensures sequence == old(sequence) + 1
      ensures written == if encodes then Some(Event(sequence, payload)) else None
      ensures file == if encodes then old(file) + Line(codec, written.value) else old(file)
    {
      sequence := sequence + 1;
      var e := Event(sequence, payload);
      if !encodes {
        return None;
      }
      file := file + codec.encode(e) + "\n";
      assert file == old(file) + Line(codec, e);
      return Some(e);
    }
  }

  function Joined<P>(read: seq<Event<P>>, rest: Scan<P>): Scan<P> {
    Scan(read + rest.events, rest.validOffset, rest.failed)
  }

  lemma JoinOne<P>(read: seq<Event<P>>, e: Event<P>, rest: Scan<P>)
    ensures Joined(read, Cons(e, rest)) == Joined(read + [e], rest)
  {
    assert read + ([e] + rest.events) == (read + [e]) + rest.events;
  }

  lemma {:induction false} MaxSequenceAppend<P>(events: seq<Event<P>>, e: Event<P>)
    ensures MaxSequence(events + [e]) == if e.sequence > MaxSequence(events) then e.sequence else MaxSequence(events)
    decreases |events|
  {
    if events == [] {
      assert (events + [e])[1..] == [];
    } else {
      assert (events + [e])[1..] == events[1..] + [e];
      MaxSequenceAppend(events[1..], e);
    }
  }

  // ---------------------------------------------------------------- what a crash leaves

  lemma {:induction false} LinesAppend<P>(c: Codec<P>, events: seq<Event<P>>, e: Event<P>)
    ensures Lines(c, events + [e]) == Lines(c, events) + Line(c, e)
    decreases |events|
  {
    if events == [] {
      assert (events + [e])[1..] == [];
    } else {
      assert (events + [e])[1..] == events[1..] + [e];
      LinesAppend(c, events[1..], e);
    }
  }

  // The text t stands in s at offset at.
  predicate StandsAt(s: string, at: nat, t: string) {
    at + |t| <= |s| && s[at..at + |t|] == t
  }

  lemma StandsAtSplit(s: string, at: nat, a: string, b: string)
    requires StandsAt(s, at, a + b)
    ensures StandsAt(s, at, a) && StandsAt(s, at + |a|, b)
  {
    assert (a + b)[..|a|] == a && (a + b)[|a|..] == b;
  }

  lemma RecordIsRead<P(!new)>(c: Codec<P>, e: Event<P>, s: string, at: nat, valid: nat)
    requires Good(c) && valid <= at && StandsAt(s, at, c.encode(e))
    ensures var next := at + |c.encode(e)|;
      ScanFrom(c, s, at, valid) == Cons(e, ScanFrom(c, s, next, next))
  {
    var rest := s[at + |c.encode(e)|..];
    assert Tight(c, e) && ReadsBack(c, e, rest);
    assert s[at] == s[at..at + |c.encode(e)|][0];
    assert s[at..] == c.encode(e) + rest;
  }

  lemma LineIsRead<P(!new)>(c: Codec<P>, e: Event<P>, s: string, at: nat, valid: nat)
    requires Good(c) && valid <= at && StandsAt(s, at, Line(c, e))
    ensures var next := at + |Line(c, e)|;
      ScanFrom(c, s, at, valid) == Cons(e, ScanFrom(c, s, next, next - 1))
  {
    var end := at + |c.encode(e)|;
    StandsAtSplit(s, at, c.encode(e), "\n");
    var rest := s[end..];
    assert Tight(c, e) && ReadsBack(c, e, rest);
    assert s[at] == s[at..end][0];
    assert s[at..] == c.encode(e) + rest;
    assert s[end] == s[end..end + 1][0];
  }

  lemma JoinedTwice<P>(e: Event<P>, events: seq<Event<P>>, all: Scan<P>, more: Scan<P>, rest: Scan<P>)
    requires events != [] && events[0] == e && all == Cons(e, more) && more == Joined(events[1..], rest)
    ensures all == Joined(events, rest)
  {
    assert [e] + (events[1..] + rest.events) == events + rest.events;
  }

  lemma JoinedNothing<P>(rest: Scan<P>)
    ensures Joined([], rest) == rest
  {
    assert [] + rest.events == rest.events;
  }

  // A reader, given by what it reads from an offset when the last record ended at valid,
  // takes the line of e whenever it stands before it.
  ghost predicate TakesLine<P>(c: Codec<P>, s: string, reader: (nat, nat) -> Scan<P>, e: Event<P>, at: nat,
                               valid: nat) {
    valid <= at && StandsAt(s, at, Line(c, e)) ==>
      var next := at + |Line(c, e)|;
      reader(at, valid) == Cons(e, reader(next, next - 1))
  }

  // Such a reader takes whole lines and stops at the end of the last record.
  lemma {:induction false} LinesAreTaken<P(!new)>(
    c: Codec<P>, events: seq<Event<P>>, s: string, reader: (nat, nat) -> Scan<P>,
    at: nat, valid: nat, end: nat, last: nat)
    requires valid <= at && StandsAt(s, at, Lines(c, events))
    requires forall e, at, valid :: TakesLine(c, s, reader, e, at, valid)
    requires end == at + |Lines(c, events)| && last == if events == [] then valid else end - 1
    ensures reader(at, valid) == Joined(events, reader(end, last))
    decreases |events|
  {
    if events == [] {
      JoinedNothing(reader(at, valid));
    } else {
      var e, others := events[0], events[1..];
      var next := at + |Line(c, e)|;
      StandsAtSplit(s, at, Line(c, e), Lines(c, others));
      assert TakesLine(c, s, reader, e, at, valid);
      LinesAreTaken(c, others, s, reader, next, next - 1, end, last);
      JoinedTwice(e, events, reader(at, valid), reader(next, next - 1), reader(end, last));
    }
  }

  ghost function Reader<P(!new)>(c: Codec<P>, s: string): (nat, nat) -> Scan<P>
    requires Good(c)
  {
    (at: nat, valid: nat) => if valid <= at <= |s| then ScanFrom(c, s, at, valid) else Scan([], 0, true)
  }

  lemma ReaderScans<P(!new)>(c: Codec<P>, s: string, at: nat, valid: nat)
    requires Good(c) && valid <= at <= |s|
    ensures Reader(c, s)(at, valid) == ScanFrom(c, s, at, valid)
  {}

  lemma ReaderTakesLine<P(!new)>(c: Codec<P>, s: string, e: Event<P>, at: nat, valid: nat)
    requires Good(c)
    ensures TakesLine(c, s, Reader(c, s), e, at, valid)
  {
    if valid <= at && StandsAt(s, at, Line(c, e)) {
      var next := at + |Line(c, e)|;
      ReaderScans(c, s, at, valid);
      ReaderScans(c, s, next, next - 1);
      assert Reader(c, s)(at, valid) == Cons(e, Reader(c, s)(next, next - 1)) by {
        LineIsRead(c, e, s, at, valid);
      }
    }
  }

  // Reading whole lines leaves the log reader at the end of the last record.
  lemma LinesAreRead<P(!new)>(c: Codec<P>, events: seq<Event<P>>, s: string)
    requires Good(c) && StandsAt(s, 0, Lines(c, events))
    ensures var end := |Lines(c, events)|;
      ReadLog(c, s) == Joined(events, ScanFrom(c, s, end, if events == [] then 0 else end - 1))
  {
    forall e, at: nat, valid: nat
      ensures TakesLine(c, s, Reader(c, s), e, at, valid)
    {
      ReaderTakesLine(c, s, e, at, valid);
    }
    var end := |Lines(c, events)|;
    LinesAreTaken(c, events, s, Reader(c, s), 0, 0, end, if events == [] then 0 else end - 1);
  }

  lemma TornTailFails<P(!new)>(c: Codec<P>, e: Event<P>, n: nat, s: string, at: nat, valid: nat)
    requires Good(c) && valid <= at <= |s| && 0 < n < |c.encode(e)| && s[at..] == c.encode(e)[..n]
    ensures ScanFrom(c, s, at, valid) == Scan([], valid, true)
  {
    assert Tight(c, e) && TornFails(c, e, n);
    assert s[at] == s[at..][0] == c.encode(e)[0];
  }

  lemma WholeTailIsRead<P(!new)>(c: Codec<P>, e: Event<P>, s: string, at: nat, valid: nat)
    requires Good(c) && valid <= at <= |s| && (s[at..] == c.encode(e) || s[at..] == Line(c, e))
    ensures ScanFrom(c, s, at, valid) == Scan([e], at + |c.encode(e)|, false)
  {
    var end := at + |c.encode(e)|;
    assert s[at..][..|c.encode(e)|] == c.encode(e);
    RecordIsRead(c, e, s, at, valid);
    if end < |s| {
      assert s[end] == s[at..][|c.encode(e)|] == '\n';
      assert SkipSpaces(s, end) == |s|;
    }
  }

  lemma {:induction false} EndOfLines<P(!new)>(c: Codec<P>, events: seq<Event<P>>)
    requires Good(c) && events != []
    ensures var s := Lines(c, events);
      |s| > 1 && s[|s| - 1] == '\n' && s[|s| - 2] != '\n'
    decreases |events|
  {
    var s := Lines(c, events);
    var e := events[0];
    assert Tight(c, e);
    if |events| == 1 {
      assert Lines(c, events[1..]) == "";
      assert s == Line(c, e);
    } else {
      EndOfLines(c, events[1..]);
    }
  }

  // The records that survive a crash after n characters of the line of e were written.
  function Survivors<P>(c: Codec<P>, events: seq<Event<P>>, e: Event<P>, n: nat): seq<Event<P>> {
    if n < |c.encode(e)| then events else events + [e]
  }

  // Reading what a crash left: the surviving records, and where the last one ends.
  lemma CrashIsRead<P(!new)>(c: Codec<P>, events: seq<Event<P>>, e: Event<P>, n: nat)
    requires Good(c) && n <= |Line(c, e)|
    ensures var s := Lines(c, events) + Line(c, e)[..n]; var end := |Lines(c, events)|;
      ReadLog(c, s) ==
        if n < |c.encode(e)| then Scan(events, if events == [] then 0 else end - 1, n > 0)
        else Scan(events + [e], end + |c.encode(e)|, false)
  {
    var all, tail := Lines(c, events), Line(c, e)[..n];
    var s, end := all + tail, |all|;
    var valid := if events == [] then 0 else end - 1;
    assert s[0..end] == all;
    LinesAreRead(c, events, s);
    assert events + [] == events;
    assert s[end..] == tail;
    assert Tight(c, e);
    if n == 0 {
      assert ScanFrom(c, s, end, valid) == Scan([], valid, false);
    } else if n < |c.encode(e)| {
      assert tail == c.encode(e)[..n];
      TornTailFails(c, e, n, s, end, valid);
    } else {
      assert tail == c.encode(e) || tail == Line(c, e);
      WholeTailIsRead(c, e, s, end, valid);
    }
  }

  // Whole lines, or whole lines without their last line break, are repaired to whole lines.
  lemma LinesAreRestored<P(!new)>(c: Codec<P>, events: seq<Event<P>>)
    requires Good(c)
    ensures var s := Lines(c, events);
      Terminated(s) == s && (events != [] ==> Terminated(s[..|s| - 1]) == s)
  {
    if events != [] {
      EndOfLines(c, events);
      var s := Lines(c, events);
      assert s == s[..|s| - 1] + "\n";
    }
  }

  // Whatever prefix of the last line a crash leaves, opening the file reads the
  // surviving records and leaves exactly their lines.
  lemma CrashIsRepaired<P(!new)>(c: Codec<P>, events: seq<Event<P>>, e: Event<P>, n: nat)
    requires Good(c) && n <= |Line(c, e)|
    ensures var s := Lines(c, events) + Line(c, e)[..n];
      && ReadLog(c, s).events == Survivors(c, events, e, n)
      && Repaired(c, s) == Lines(c, Survivors(c, events, e, n))
      && (Truncated(c, s) == Repaired(c, s) || Truncated(c, s) + "\n" == Repaired(c, s))
  {
    var tail := Line(c, e)[..n];
    var all := Lines(c, events);
    var s := all + tail;
    CrashIsRead(c, events, e, n);
    if n < |c.encode(e)| {
      LinesAreRestored(c, events);
      if n == 0 {
        assert s == all;
      } else if events == [] {
        assert s[..0] == "";
      } else {
        assert s[..|all| - 1] == all[..|all| - 1];
      }
    } else {
      LinesAreRestored(c, events + [e]);
      LinesAppend(c, events, e);
      var more := Lines(c, events + [e]);
      assert more == all + Line(c, e);
      if n == |c.encode(e)| {
        assert s == more[..|more| - 1];
      } else {
        assert s == more;
      }
    }
  }

  lemma GarbageIsRead<P(!new)>(c: Codec<P>, events: seq<Event<P>>, garbage: string, s: string)
    requires Good(c) && garbage != [] && !IsSpace(garbage[0]) && c.decode(garbage).None?
    requires s == Lines(c, events) + garbage
    ensures ReadLog(c, s) == Scan(events, if events == [] then 0 else |Lines(c, events)| - 1, true)
  {
    var end, valid := |Lines(c, events)|, if events == [] then 0 else |Lines(c, events)| - 1;
    assert s[0..end] == Lines(c, events);
    LinesAreRead(c, events, s);
    assert s[end..] == garbage && s[end] == garbage[0];
    assert ScanFrom(c, s, end, valid) == Scan([], valid, true);
    assert events + [] == events;
  }

  // Garbage behind whole lines, whatever it holds, is cut off and the lines stay.
  lemma GarbageIsCut<P(!new)>(c: Codec<P>, events: seq<Event<P>>, garbage: string)
    requires Good(c) && garbage != [] && !IsSpace(garbage[0]) && c.decode(garbage).None?
    ensures ReadLog(c, Lines(c, events) + garbage).events == events && ReadLog(c, Lines(c, events) + garbage).failed
    ensures Repaired(c, Lines(c, events) + garbage) == Lines(c, events)
  {
    var all := Lines(c, events);
    GarbageIsRead(c, events, garbage, all + garbage);
    LinesAreRestored(c, events);
    if events != [] {
      assert (all + garbage)[..|all| - 1] == all[..|all| - 1];
    }
  }

  // The counter continues at the highest number in the file, in whatever order they stand.
  lemma {:induction false} HighestSequence<P>(events: seq<Event<P>>)
    ensures forall e :: e in events ==> e.sequence <= MaxSequence(events)
    ensures events != [] ==> exists e :: e in events && e.sequence == MaxSequence(events)
  {
    if events != [] {
      HighestSequence(events[1..]);
      assert events[0] in events;
      assert events == [events[0]] + events[1..];
    }
  }

  // ---------------------------------------------------------------- runs

  // What can happen to a log: a record is written; the encoder refuses a record, which
  // spends its number; the process crashes after n characters of a record's line and the
  // log is opened again; or it crashes a second time while that opening has truncated the
  // file but not yet ended its last line.
  datatype Step<+P> = Write(payload: P) | Refuse | Crash(payload: P, n: nat) | CrashTwice(payload: P, n: nat)

  // The file, the sequence counter, and the records whose Write has returned.
  datatype State<+P> = State(file: string, sequence: nat, flushed: seq<Event<P>>)

  ghost function Reopened<P(!new)>(c: Codec<P>, file: string, flushed: seq<Event<P>>): State<P>
    requires Good(c)
  {
    State(Repaired(c, file), MaxSequence(ReadLog(c, file).events), flushed)
  }

  function Torn<P>(c: Codec<P>, s: State<P>, payload: P, n: nat): string {
    var line := Line(c, Event(s.sequence + 1, payload));
    s.file + if n < |line| then line[..n] else line
  }

  ghost function Next<P(!new)>(c: Codec<P>, s: State<P>, step: Step<P>): State<P>
    requires Good(c)
  {
    match step
    case Write(payload) =>
      var e := Event(s.sequence + 1, payload);
      State(s.file + Line(c, e), e.sequence, s.flushed + [e])
    case Refuse => s.(sequence := s.sequence + 1)
    case Crash(payload, n) => Reopened(c, Torn(c, s, payload, n), s.flushed)
    case CrashTwice(payload, n) => Reopened(c, Truncated(c, Torn(c, s, payload, n)), s.flushed)
  }

  ghost function Run<P(!new)>(c: Codec<P>, steps: seq<Step<P>>): State<P>
    requires Good(c)
  {
    if steps == [] then Reopened(c, "", []) else Next(c, Run(c, steps[..|steps| - 1]), steps[|steps| - 1])
  }

  predicate Increasing<P>(events: seq<Event<P>>) {
    && (forall i :: 0 <= i < |events| ==> events[i].sequence > 0)
    && (forall i, j :: 0 <= i < j < |events| ==> events[i].sequence < events[j].sequence)
  }

  // The file is exactly the lines of events, which are strictly increasing, do not exceed
  // the counter, and contain every record whose Write returned.
  ghost predicate Sound<P>(c: Codec<P>, s: State<P>, events: seq<Event<P>>) {
    && s.file == Lines(c, events) && Increasing(events) && s.sequence >= MaxSequence(events)
    && forall e :: e in s.flushed ==> e in events
  }

  lemma {:induction false} MaxOfIncreasing<P>(events: seq<Event<P>>)
    requires Increasing(events)
    ensures MaxSequence(events) == if events == [] then 0 else events[|events| - 1].sequence
  {
    if events != [] {
      MaxOfIncreasing(events[1..]);
      if |events| > 1 {
        assert events[1..][|events| - 2] == events[|events| - 1];
      }
    }
  }

  lemma IncreasingAppend<P>(events: seq<Event<P>>, e: Event<P>)
    requires Increasing(events) && e.sequence > MaxSequence(events)
    ensures Increasing(events + [e]) && MaxSequence(events + [e]) == e.sequence
  {
    MaxOfIncreasing(events);
    MaxSequenceAppend(events, e);
  }

  lemma LinesReadBack<P(!new)>(c: Codec<P>, events: seq<Event<P>>)
    requires Good(c)
    ensures ReadLog(c, Lines(c, events)).events == events && !ReadLog(c, Lines(c, events)).failed
    ensures Repaired(c, Lines(c, events)) == Lines(c, events)
  {
    var s := Lines(c, events);
    assert s[0..|s|] == s && events + [] == events;
    LinesAreRead(c, events, s);
    LinesAreRestored(c, events);
  }

  lemma CutLinesReadBack<P(!new)>(c: Codec<P>, events: seq<Event<P>>, cut: string)
    requires Good(c) && events != [] && cut + "\n" == Lines(c, events)
    ensures ReadLog(c, cut).events == events && Repaired(c, cut) == Lines(c, events)
  {
    var last, before := events[|events| - 1], events[..|events| - 1];
    assert events == before + [last];
    LinesAppend(c, before, last);
    CrashIsRepaired(c, before, last, |c.encode(last)|);
    assert Line(c, last)[..|c.encode(last)|] == c.encode(last);
    assert (cut + "\n")[..|cut|] == cut;
    assert (Lines(c, before) + Line(c, last))[..|cut|] == Lines(c, before) + c.encode(last);
  }

  // The file is sound as before, and none of its records is lost.
  ghost predicate SoundAfter<P>(c: Codec<P>, s: State<P>, before: seq<Event<P>>, after: seq<Event<P>>) {
    Sound(c, s, after) && before <= after
  }

  lemma StepKeepsSound<P(!new)>(c: Codec<P>, s: State<P>, step: Step<P>, events: seq<Event<P>>)
    requires Good(c) && Sound(c, s, events)
    ensures exists after :: SoundAfter(c, Next(c, s, step), events, after)
  {
    if step.Refuse? {
      assert SoundAfter(c, Next(c, s, step), events, events);
    } else {
      var e := Event(s.sequence + 1, step.payload);
      IncreasingAppend(events, e);
      if step.Write? {
        LinesAppend(c, events, e);
        assert SoundAfter(c, Next(c, s, step), events, events + [e]);
      } else {
        var n := if step.n < |Line(c, e)| then step.n else |Line(c, e)|;
        var after := Survivors(c, events, e, n);
        assert Line(c, e)[..|Line(c, e)|] == Line(c, e);
        assert Torn(c, s, step.payload, step.n) == Lines(c, events) + Line(c, e)[..n];
        CrashIsRepaired(c, events, e, n);
        if step.CrashTwice? {
          SecondOpening(c, Torn(c, s, step.payload, step.n), after);
        }
        assert SoundAfter(c, Next(c, s, step), events, after);
      }
    }
  }

  lemma SecondOpening<P(!new)>(c: Codec<P>, torn: string, events: seq<Event<P>>)
    requires Good(c) && Repaired(c, torn) == Lines(c, events)
    requires Truncated(c, torn) == Repaired(c, torn) || Truncated(c, torn) + "\n" == Repaired(c, torn)
    ensures Repaired(c, Truncated(c, torn)) == Lines(c, events)
    ensures ReadLog(c, Truncated(c, torn)).events == events
  {
    if Truncated(c, torn) == Lines(c, events) {
      LinesReadBack(c, events);
    } else {
      CutLinesReadBack(c, events, Truncated(c, torn));
    }
  }

  // Over every run of writes, crashes and reopenings: the file is a clean,
  // newline-terminated log or empty, it decodes without error to records with strictly
  // increasing sequence numbers, and no record whose Write returned is lost.
  lemma {:induction false} RecoveryIsSound<P(!new)>(c: Codec<P>, steps: seq<Step<P>>) returns (events: seq<Event<P>>)
    requires Good(c)
    ensures var s := Run(c, steps);
      && Sound(c, s, events)
      && ReadLog(c, s.file) == Scan(events, ReadLog(c, s.file).validOffset, false)
      && Terminated(s.file) == s.file
    decreases |steps|
  {
    if steps == [] {
      events := [];
      LinesReadBack<P>(c, []);
    } else {
      var before := RecoveryIsSound(c, steps[..|steps| - 1]);
      StepKeepsSound(c, Run(c, steps[..|steps| - 1]), steps[|steps| - 1], before);
      events :| SoundAfter(c, Run(c, steps), before, events);
    }
    LinesReadBack(c, events);
    LinesAreRestored(c, events);
  }

  // ---------------------------------------------------------------- such codecs exist

  datatype Empty = Empty

  // A record as a bracketed run of marks: enough to see that the guarantees are consistent.
  function Marks(n: nat): (s: string)
    ensures |s| == n && forall i :: 0 <= i < n ==> s[i] == '1'
  {
    seq(n, _ => '1')
  }

  function LeadingMarks(s: string): (k: nat)
    ensures k <= |s| && (forall i :: 0 <= i < k ==> s[i] == '1') && (k < |s| ==> s[k] != '1')
  {
    if s != [] && s[0] == '1' then 1 + LeadingMarks(s[1..]) else 0
  }

  function ReadMarks(s: string): Option<Parsed<Empty>> {
    if s == [] || s[0] != '{' then None
    else
      var k := LeadingMarks(s[1..]);
      if k + 1 < |s| && s[k + 1] == '}' then Some(Parsed(Event(k, Empty), k + 2)) else None
  }

  const MARKS: Codec<Empty> := Codec((e: Event<Empty>) => "{" + Marks(e.sequence) + "}", ReadMarks)

  lemma GoodCodecsExist()
    ensures Good(MARKS)
  {
    forall e: Event<Empty>, rest: string
      ensures ReadsBack(MARKS, e, rest)
    {
      var s := MARKS.encode(e) + rest;
      assert s[1..][e.sequence] == '}';
      assert forall i :: 0 <= i < e.sequence ==> s[1..][i] == '1';
      assert LeadingMarks(s[1..]) == e.sequence;
      assert s[0] == '{' && s[e.sequence + 1] == '}';
      assert e.payload == Empty;
      assert ReadMarks(s) == Some(Parsed(e, e.sequence + 2));
      assert |MARKS.encode(e)| == e.sequence + 2;
    }
    forall e: Event<Empty>, n: nat
      ensures TornFails(MARKS, e, n)
    {
      if 0 < n < |MARKS.encode(e)| {
        var s := MARKS.encode(e)[..n];
        assert forall i :: 0 <= i < n - 1 ==> s[1..][i] == '1';
        assert LeadingMarks(s[1..]) == n - 1;
      }
    }
  }
}
