/** The reader thread: one loop iteration per `read` on the serial port,
    the accumulated text still waiting for a delimiter, the counter of
    consecutive timeouts, and the shared slot the display reads. */
module ReaderLoop {
  import opened Text
  import opened Decoder

  /** The kinds of `std::io::Error` the loop tells apart. */
  datatype ErrorKind = TimedOut | Other

  /** What one `read` returns: the text decoded from the bytes it read
      (empty for `Ok(0)`), or an error of some kind. */
  datatype ReadOutcome = Read(text: string) | Failed(kind: ErrorKind)

  /** Consecutive timeouts the loop tolerates; the next one ends it. */
  const TimeoutLimit: nat := 5

  /** The loop's state between two reads: the accumulated text, the timeout
      counter, the value in the shared slot, and whether the loop has
      exited. */
  datatype Session = Session(residual: string, timeoutCount: nat, latest: string, stopped: bool)

  /** The state when the thread starts, with `slot` already in the shared
      slot. */
  function Start(slot: string): Session {
    Session([], 0, slot, false)
  }

  /** The slot after writing each of `vs` into it in turn. */
  function LastOr(vs: seq<string>, slot: string): string {
    if vs == [] then slot else vs[|vs| - 1]
  }

  /** One iteration of the loop. An exited loop reads nothing more. */
  function Next(s: Session, o: ReadOutcome): Session {
    if s.stopped then s
    else match o
      case Read(text) =>
        if |text| > 0 then
          var d := Frame(s.residual, text);
          Session(d.rest, 0, LastOr(d.values, s.latest), false)
        else s
      case Failed(TimedOut) =>
        var count := s.timeoutCount + 1;
        Session(s.residual, count, s.latest, count > TimeoutLimit)
      case Failed(Other) =>
        s.(stopped := true)
  }

  /** The loop run over a sequence of read outcomes. */
  function Replay(s: Session, os: seq<ReadOutcome>): Session
    decreases |os|
  {
    if os == [] then s else Replay(Next(s, os[0]), os[1..])
  }

  /** The loop thread. `latest` is the content of the shared slot. */
  class Reader {
    var residual: string
    var timeoutCount: nat
    var latest: string
    var stopped: bool

    function State(): Session
      reads this
    {
      Session(residual, timeoutCount, latest, stopped)
    }

    constructor(slot: string)
      ensures State() == Start(slot)
    {
      residual := [];
      timeoutCount := 0;
      latest := slot;
      stopped := false;
    }

    /** The `while let` loop: cuts every complete record off the
        accumulated text and writes its value into the slot. */
    method Drain()
      modifies this`residual, this`latest
      ensures var f := Cut(old(residual));
        residual == f.rest && latest == LastOr(Values(f.records), old(latest))
    {
      ghost var buffer := residual;
      ghost var done: seq<string> := [];
      var found := Find(residual, Delimiter);
      while found.Some?
        invariant found == Find(residual, Delimiter)
        invariant Concat(done) + residual == buffer
        invariant forall k :: 0 <= k < |done| ==> IsRecord(done[k])
        invariant latest == LastOr(Values(done), old(latest))
        decreases |residual|
      {
        var next := found.value + 1;
        var record := residual[..next];
        FindFirst(residual, Delimiter);
        DrainStep(done, residual, found.value);
        latest := Extract(record);
        SlotStep(done, record, old(latest));
        done := done + [record];
        residual := residual[next..];
        found := Find(residual, Delimiter);
      }
      FindFirst(residual, Delimiter);
      CutUnique(buffer, done, residual);
    }

    /** One iteration of the loop body. */
    method Step(outcome: ReadOutcome)
      requires !stopped
      modifies this
      ensures State() == Next(old(State()), outcome)
    {
      match outcome
      case Read(text) =>
        if |text| > 0 {
          residual := residual + text;
          Drain();
          timeoutCount := 0;
        }
      case Failed(kind) =>
        if kind == TimedOut {
          timeoutCount := timeoutCount + 1;
          if timeoutCount > TimeoutLimit {
            stopped := true;
          }
        } else {
          stopped := true;
        }
    }

    /** The `loop`, fed with the outcomes of successive reads until it
        exits or they run out; `consumed` is how many reads it made. */
    method Run(outcomes: seq<ReadOutcome>) returns (consumed: nat)
      modifies this
      ensures consumed <= |outcomes|
      ensures State() == Replay(old(State()), outcomes[..consumed])
      ensures State() == Replay(old(State()), outcomes)
      ensures consumed < |outcomes| ==> stopped
      ensures 0 < consumed ==> !Replay(old(State()), outcomes[..consumed - 1]).stopped
    {
      consumed := 0;
      while consumed < |outcomes| && !stopped
        invariant consumed <= |outcomes|
        invariant State() == Replay(old(State()), outcomes[..consumed])
        invariant 0 < consumed ==> !Replay(old(State()), outcomes[..consumed - 1]).stopped
        decreases |outcomes| - consumed
      {
        Step(outcomes[consumed]);
        ReplaySnoc(old(State()), outcomes[..consumed], outcomes[consumed]);
        assert outcomes[..consumed] + [outcomes[consumed]] == outcomes[..consumed + 1];
        consumed := consumed + 1;
      }
      ReplayAppend(old(State()), outcomes[..consumed], outcomes[consumed..]);
      assert outcomes[..consumed] + outcomes[consumed..] == outcomes;
      if consumed < |outcomes| {
        ReplayStopped(State(), outcomes[consumed..]);
      }
    }
  }

  /** Cutting the first record off `residual` keeps the accumulated text
      a sequence of complete records followed by what is still waiting. */
  lemma DrainStep(done: seq<string>, residual: string, i: nat)
    requires i < |residual| && residual[i] == Delimiter
    requires forall k :: 0 <= k < i ==> residual[k] != Delimiter
    requires forall k :: 0 <= k < |done| ==> IsRecord(done[k])
    ensures var record := residual[..i + 1];
      Concat(done + [record]) + residual[i + 1..] == Concat(done) + residual
      && forall k :: 0 <= k < |done + [record]| ==> IsRecord((done + [record])[k])
  {
    var record := residual[..i + 1];
    forall k | 0 <= k < |record| - 1 ensures record[k] != Delimiter {
      assert record[k] == residual[k];
    }
    ConcatAppend(done, [record]);
    assert [record][1..] == [];
    assert Concat([record]) == record;
    assert record + residual[i + 1..] == residual;
    var x := Concat(done);
    assert x + record + residual[i + 1..] == x + (record + residual[i + 1..]);
    forall k | 0 <= k < |done + [record]| ensures IsRecord((done + [record])[k]) {
      if k < |done| {
        assert (done + [record])[k] == done[k];
      }
    }
  }

  /** The slot holds the value of the record written last. */
  lemma SlotStep(done: seq<string>, record: string, slot: string)
    ensures LastOr(Values(done + [record]), slot) == Extract(record)
  {
    ValuesSnoc(done, record);
  }

  // ---------------------------------------------------------------------
  // The loop over many reads
  // ---------------------------------------------------------------------

  lemma {:induction false} ReplayAppend(s: Session, a: seq<ReadOutcome>, b: seq<ReadOutcome>)
    ensures Replay(s, a + b) == Replay(Replay(s, a), b)
    decreases |a|
  {
    if a != [] {
      assert (a + b)[1..] == a[1..] + b;
      ReplayAppend(Next(s, a[0]), a[1..], b);
    } else {
      assert a + b == b;
    }
  }

  lemma ReplaySnoc(s: Session, a: seq<ReadOutcome>, o: ReadOutcome)
    ensures Replay(s, a + [o]) == Next(Replay(s, a), o)
  {
    ReplayAppend(s, a, [o]);
    assert [o][1..] == [];
  }

  /** Once the loop has exited, later reads change nothing. */
  lemma {:induction false} ReplayStopped(s: Session, os: seq<ReadOutcome>)
    requires s.stopped
    ensures Replay(s, os) == s
    decreases |os|
  {
    if os != [] {
      ReplayStopped(Next(s, os[0]), os[1..]);
    }
  }

  /** The state the loop keeps between iterations: the accumulated text
      holds no delimiter, and the counter is at most the limit while the
      loop runs and one more once it has exited. */
  ghost predicate Good(s: Session) {
    Delimiter !in s.residual
    && s.timeoutCount <= TimeoutLimit + 1
    && (!s.stopped ==> s.timeoutCount <= TimeoutLimit)
  }

  lemma NextGood(s: Session, o: ReadOutcome)
    requires Good(s)
    ensures Good(Next(s, o))
  {
    if o.Read? {
      FrameKeeps(s.residual, o.text);
    }
  }

  lemma {:induction false} ReplayGood(s: Session, os: seq<ReadOutcome>)
    requires Good(s)
    ensures Good(Replay(s, os))
    decreases |os|
  {
    if os != [] {
      NextGood(s, os[0]);
      ReplayGood(Next(s, os[0]), os[1..]);
    }
  }

  lemma StartGood(slot: string)
    ensures Good(Start(slot)) && !Start(slot).stopped
  {
  }

  // ---------------------------------------------------------------------
  // Reads
  // ---------------------------------------------------------------------

  /** A read of no bytes leaves the state as it was. */
  lemma EmptyRead(s: Session)
    ensures Next(s, Read([])) == s
  {
  }

  /** A read of some bytes resets the timeout counter, and leaves no
      delimiter in the accumulated text: everything up to its last
      delimiter has been cut into records. */
  lemma ReadResets(s: Session, text: string)
    requires !s.stopped && |text| > 0
    ensures var t := Next(s, Read(text)); var f := Cut(s.residual + text);
      t.timeoutCount == 0 && !t.stopped
      && Delimiter !in t.residual
      && Concat(f.records) + t.residual == s.residual + text
  {
    FrameKeeps(s.residual, text);
  }

  /** The slot ends up holding the value of the last record the read
      completed, or keeps its value when the read completed none. */
  lemma SlotHoldsLast(s: Session, text: string)
    requires !s.stopped && |text| > 0
    ensures var t := Next(s, Read(text)); var f := Cut(s.residual + text);
      (f.records == [] ==> t.latest == s.latest)
      && (f.records != [] ==> t.latest == Extract(f.records[|f.records| - 1]))
  {
    var f := Cut(s.residual + text);
    MapAt(Extract, f.records);
  }

  /** A read without a delimiter, onto accumulated text without one, is
      kept whole and leaves the slot alone. */
  lemma ReadWithoutDelimiter(s: Session, text: string)
    requires !s.stopped && |text| > 0
    requires Delimiter !in s.residual && Delimiter !in text
    ensures Next(s, Read(text)) == Session(s.residual + text, 0, s.latest, false)
  {
    FrameNoDelimiter(s.residual, text);
  }

  /** All the text the reads delivered, in order. */
  function Received(os: seq<ReadOutcome>): string
    decreases |os|
  {
    if os == [] then []
    else (match os[0] case Read(text) => text case Failed(_) => []) + Received(os[1..])
  }

  lemma LastOrAppend(a: seq<string>, b: seq<string>, slot: string)
    ensures LastOr(a + b, slot) == LastOr(b, LastOr(a, slot))
  {
  }

  /** However the text is split between reads, the loop ends with the
      accumulated text and the slot that one pass over all of it gives. */
  lemma {:induction false} ReplayReads(s: Session, os: seq<ReadOutcome>)
    requires !s.stopped && Delimiter !in s.residual
    requires forall k :: 0 <= k < |os| ==> os[k].Read?
    ensures var t := Replay(s, os); var d := Frame(s.residual, Received(os));
      !t.stopped && t.residual == d.rest && t.latest == LastOr(d.values, s.latest)
    decreases |os|
  {
    if os == [] {
      FrameNoDelimiter(s.residual, []);
    } else {
      var text := os[0].text;
      var more := Received(os[1..]);
      assert Received(os) == text + more;
      FrameKeeps(s.residual, text);
      ReplayReads(Next(s, os[0]), os[1..]);
      if |text| > 0 {
        ReadThenMore(s, text, more, Replay(Next(s, os[0]), os[1..]));
      } else {
        assert text + more == more;
      }
    }
  }

  lemma ReadThenMore(s: Session, text: string, more: string, t: Session)
    requires !s.stopped && |text| > 0
    requires var s1 := Next(s, Read(text)); var d := Frame(s1.residual, more);
      t.residual == d.rest && t.latest == LastOr(d.values, s1.latest)
    ensures var d := Frame(s.residual, text + more);
      t.residual == d.rest && t.latest == LastOr(d.values, s.latest)
  {
    FrameSplitPoint(s.residual, text, more);
    var d1 := Frame(s.residual, text);
    LastOrAppend(d1.values, Frame(d1.rest, more).values, s.latest);
  }

  // ---------------------------------------------------------------------
  // Errors
  // ---------------------------------------------------------------------

  /** An error other than a timeout ends the loop at once, whatever the
      counter says. */
  lemma OtherErrorStops(s: Session)
    requires !s.stopped
    ensures Next(s, Failed(Other)) == s.(stopped := true)
  {
  }

  /** `n` reads in a row that time out. */
  function Timeouts(n: nat): (os: seq<ReadOutcome>)
    ensures |os| == n
  {
    seq(n, _ => Failed(TimedOut))
  }

  function Min(a: int, b: int): int {
    if a <= b then a else b
  }

  /** `n` timeouts in a row add to the counter, up to one more than the
      limit, and end the loop exactly when the count passes the limit. */
  lemma {:induction false} ReplayTimeouts(s: Session, n: nat)
    requires !s.stopped && s.timeoutCount <= TimeoutLimit
    ensures var t := Replay(s, Timeouts(n));
      (t.stopped <==> s.timeoutCount + n > TimeoutLimit)
      && t.timeoutCount == Min(s.timeoutCount + n, TimeoutLimit + 1)
      && t.residual == s.residual && t.latest == s.latest
    decreases n
  {
    if n > 0 {
      assert Timeouts(n)[0] == Failed(TimedOut);
      assert Timeouts(n)[1..] == Timeouts(n - 1);
      var s1 := Next(s, Failed(TimedOut));
      if s.timeoutCount == TimeoutLimit {
        ReplayStopped(s1, Timeouts(n - 1));
      } else {
        ReplayTimeouts(s1, n - 1);
      }
    }
  }

  /** After a read of some bytes, the loop survives five timeouts in a row
      and exits on the sixth. */
  lemma SixthTimeoutStops(s: Session, text: string, n: nat)
    requires !s.stopped && |text| > 0
    ensures Replay(s, [Read(text)] + Timeouts(n)).stopped <==> n > TimeoutLimit
  {
    ReplayAppend(s, [Read(text)], Timeouts(n));
    assert [Read(text)][1..] == [];
    ReplayTimeouts(Next(s, Read(text)), n);
  }
}
