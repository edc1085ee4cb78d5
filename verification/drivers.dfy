/** The Vaisala barometer driver: a telnet session opened lazily and set up
    with the output format, a refresh that asks for one measurement line
    and retries on any failure, and getters that refresh only when the
    cached readings are older than their time to live. */
module Drivers {
  import opened Outcomes
  import opened Measurement
  import opened Telnet
  import Retry

  /** Instants and durations are microseconds, the resolution of Python's
      datetime and timedelta. */
  const MicrosPerSecond: int := 1_000_000

  const DefaultPort: int := 23
  /** The default `time_to_live_s` of 40 seconds. */
  const DefaultTtl: int := 40 * MicrosPerSecond

  /** The output format the session installs: P, T and RH with their units,
      ended by a carriage return and a line feed. */
  const OutputFormat: string := "6.6 \"P=\" P \" \" U6 3.2 \"T=\" T \" \" U3 3.1 \"RH=\" RH \" \" U4 \r \n"
  /** The command that makes the instrument send one measurement line. */
  const SendCommand: string := "SEND\r"
  const Prompt: char := '>'
  const LineEnd: char := '\n'

  /** The arguments the refresh is decorated with. */
  const RefreshTries: int := 200
  const RefreshDelay: real := 1.0
  const RefreshBackoff: real := 1.1

  /** Opening a session: connect, wait for the prompt, send the output
      format, wait for the prompt again. */
  function Handshake(host: string, port: int): (ops: seq<Op>)
    ensures |ops| == 4 && ops[0] == Open(host, port)
  {
    [Open(host, port), ReadUntil(Prompt), Write(OutputFormat), ReadUntil(Prompt)]
  }

  /** One measurement: send the command, skip the echoed line, read the
      measurement line. */
  const Exchange: seq<Op> := [Write(SendCommand), ReadUntil(LineEnd), ReadUntil(LineEnd)]

  /** What reading the `telnet_client` property performs: nothing when a
      session is held, the handshake otherwise. */
  function SessionOps(connected: bool, host: string, port: int): (ops: seq<Op>)
    ensures |ops| == if connected then 0 else 4
  {
    if connected then [] else Handshake(host, port)
  }

  /** The operations of one refresh attempt, when all of them answer. */
  function AttemptOps(connected: bool, host: string, port: int): (ops: seq<Op>)
    ensures |ops| == if connected then 3 else 7
  {
    SessionOps(connected, host, port) + Exchange
  }

  /** `is_info_expired`: no reading yet, or the last one is strictly older
      than the time to live (both in microseconds). */
  predicate Expired(lastUpdate: Option<int>, now: int, ttl: int) {
    lastUpdate.None? || now - lastUpdate.value > ttl
  }

  /** The three getters of one read, at instants t1, t2 and t3, refresh
      at most once: whatever stamp the first getter leaves, the second and
      the third find it fresh. */
  predicate OneRefreshWindow(lastUpdate: Option<int>, t1: int, t2: int, t3: int, ttl: int) {
    var stamp := if Expired(lastUpdate, t1, ttl) then Some(t1) else lastUpdate;
    !Expired(stamp, t2, ttl) && !Expired(stamp, t3, ttl)
  }

  /** Three getters at one instant refresh at most once when the time to
      live is not negative. */
  lemma OneInstantIsOneWindow(lastUpdate: Option<int>, now: int, ttl: int)
    requires ttl >= 0
    ensures OneRefreshWindow(lastUpdate, now, now, now, ttl)
  {
  }

  /** With a time to live of zero, a later getter finds the stamp the
      first one left expired, so the read refreshes again. */
  lemma ZeroTtlRefreshesAgain(lastUpdate: Option<int>, t1: int, t2: int, t3: int)
    requires Expired(lastUpdate, t1, 0) && t1 < t2
    ensures !OneRefreshWindow(lastUpdate, t1, t2, t3, 0)
  {
  }

  /** The comparison is strict: a reading exactly as old as the time to
      live is still fresh, one microsecond later it has expired. */
  lemma ExpiryIsStrict(t: int, ttl: int)
    ensures !Expired(Some(t), t + ttl, ttl)
    ensures Expired(Some(t), t + ttl + 1, ttl)
  {
  }

  /** A reading taken at t is fresh exactly from t to the time to live
      later, and never fresh when the time to live is negative. */
  lemma FreshnessWindow(t: int, now: int, ttl: int)
    requires t <= now
    ensures !Expired(Some(t), now, ttl) <==> now <= t + ttl
    ensures ttl < 0 ==> Expired(Some(t), now, ttl)
    ensures ttl >= 0 ==> !Expired(Some(t), t, ttl)
  {
  }

  /** Once expired, a cache stays expired as time goes on. */
  lemma ExpiryIsMonotone(lastUpdate: Option<int>, now: int, later: int, ttl: int)
    requires Expired(lastUpdate, now, ttl) && now <= later
    ensures Expired(lastUpdate, later, ttl)
  {
  }

  /** What one refresh attempt did, given whether a session was held, the
      link's position and log and the readings it started from: the
      operations it performed, up to the first that failed; when all of
      them answered, the outcome of parsing the last line read and the
      readings that parse left; otherwise a transport fault and the
      readings untouched. */
  ghost predicate Attempted(script: seq<Reply>, host: string, port: int, wasConnected: bool,
                            c: nat, log0: seq<Op>, before: Reading,
                            cursor: nat, log: seq<Op>, after: Reading, r: Outcome<Reading>)
  {
    var ops := AttemptOps(wasConnected, host, port);
    && Ran(script, c, ops, cursor, log0, log)
    && (forall response :: LastReply(script, c, |ops|, response) ==>
          r == Parse(response) && after == AssignedBy(before, response))
    && (!Completes(script, c, c + |ops|) ==>
          r == Raised(TransportFault) && after == before)
  }

  /** Where the link and the driver stand between two refresh attempts: the
      link's position and log, and the three readings. */
  datatype Point = Point(cursor: nat, log: seq<Op>, reading: Reading)

  /** A run of refresh attempts with outcomes `calls`: the k-th attempt
      starts at points[k] and leaves points[k + 1]. Only the first attempt
      can find a session held; each later one follows a failure, which
      dropped it. */
  ghost predicate Attempts(script: seq<Reply>, host: string, port: int, wasConnected: bool,
                           calls: seq<Outcome<Reading>>, points: seq<Point>)
  {
    && |points| == |calls| + 1
    && forall k :: 0 <= k < |calls| ==>
         Attempted(script, host, port, wasConnected && k == 0, points[k].cursor, points[k].log, points[k].reading,
                   points[k + 1].cursor, points[k + 1].log, points[k + 1].reading, calls[k])
  }

  /** One more attempt, from where the run stands, extends the run. */
  lemma AttemptsExtend(script: seq<Reply>, host: string, port: int, wasConnected: bool,
                       calls: seq<Outcome<Reading>>, points: seq<Point>, o: Outcome<Reading>, p: Point)
    requires Attempts(script, host, port, wasConnected, calls, points)
    requires var q := points[|calls|];
             Attempted(script, host, port, wasConnected && |calls| == 0, q.cursor, q.log, q.reading,
                       p.cursor, p.log, p.reading, o)
    ensures Attempts(script, host, port, wasConnected, calls + [o], points + [p])
  {
    var calls', points' := calls + [o], points + [p];
    forall k | 0 <= k < |calls'|
      ensures Attempted(script, host, port, wasConnected && k == 0, points'[k].cursor, points'[k].log,
                        points'[k].reading, points'[k + 1].cursor, points'[k + 1].log, points'[k + 1].reading, calls'[k])
    {
      assert points'[k] == points[k];
      if k < |calls| {
        assert calls'[k] == calls[k] && points'[k + 1] == points[k + 1];
      }
    }
  }

  /** Every attempt performs at least one operation on the link, even one
      that fails at once. */
  lemma AttemptAdvances(script: seq<Reply>, host: string, port: int, wasConnected: bool,
                        c: nat, log0: seq<Op>, before: Reading,
                        cursor: nat, log: seq<Op>, after: Reading, r: Outcome<Reading>)
    requires Attempted(script, host, port, wasConnected, c, log0, before, cursor, log, after, r)
    ensures c < cursor
  {
    var n := |AttemptOps(wasConnected, host, port)|;
    assert StopsAt(script, c, n, cursor);
    if cursor == c {
      assert Completes(script, c, cursor);
    }
  }

  /** A run of k attempts moves the link on by at least k operations. */
  lemma {:induction false} AttemptsAdvance(script: seq<Reply>, host: string, port: int, wasConnected: bool,
                                           calls: seq<Outcome<Reading>>, points: seq<Point>)
    requires Attempts(script, host, port, wasConnected, calls, points)
    ensures forall k :: 0 <= k <= |calls| ==> points[0].cursor + k <= points[k].cursor
  {
    if calls != [] {
      var m := |calls| - 1;
      assert Attempts(script, host, port, wasConnected, calls[..m], points[..m + 1]) by {
        forall k | 0 <= k < m
          ensures Attempted(script, host, port, wasConnected && k == 0, points[k].cursor, points[k].log,
                            points[k].reading, points[k + 1].cursor, points[k + 1].log, points[k + 1].reading, calls[k])
        {
        }
      }
      AttemptsAdvance(script, host, port, wasConnected, calls[..m], points[..m + 1]);
      var q, q' := points[m], points[m + 1];
      AttemptAdvances(script, host, port, wasConnected && m == 0, q.cursor, q.log, q.reading,
                      q'.cursor, q'.log, q'.reading, calls[m]);
    }
  }

  /** The link's replies from position c to e ended with a line whose parse
      is r. */
  ghost predicate LastLineParsed(script: seq<Reply>, c: nat, e: nat, r: Outcome<Reading>) {
    c <= e && exists response :: LastReply(script, c, e - c, response) && r == Parse(response)
  }

  /** An attempt that returns read a line, returns its parse, and leaves
      the readings holding it. */
  lemma ReturnIsParsedLine(script: seq<Reply>, host: string, port: int, wasConnected: bool,
                           c: nat, log0: seq<Op>, before: Reading,
                           cursor: nat, log: seq<Op>, after: Reading, r: Outcome<Reading>)
    requires Attempted(script, host, port, wasConnected, c, log0, before, cursor, log, after, r)
    requires r.Returned?
    ensures LastLineParsed(script, c, cursor, r) && after == r.value
  {
    var n := |AttemptOps(wasConnected, host, port)|;
    assert Completes(script, c, c + n);
    assert StopsAt(script, c, n, cursor);
    assert Answered(script, c + n - 1);
    var response := script[c + n - 1].data;
    assert LastReply(script, c, n, response);
    ParseAgreesWithAssignments(before, response);
  }

  /** The refresh is decorated to retry on `Exception`, which every error of
      the model is. */
  predicate CatchesAll(e: Error) {
    true
  }

  class VaisalaDriver {
    const host: string
    const port: int
    /** `timedelta(seconds=time_to_live_s)`, in microseconds. */
    const ttl: int
    /** The transport every session of this driver runs over. */
    const link: Link

    var pressure: Option<Decimal>
    var temperature: Option<Decimal>
    var humidity: Option<Decimal>
    /** When the readings were last refreshed. */
    var lastUpdate: Option<int>
    /** A session is held (`_telnet_client` is set). */
    var connected: bool
    /** How many times the decorated refresh has been called. */
    ghost var refreshes: nat

    /** The three cached readings. */
    function Current(): Reading
      reads this
    {
      Reading(pressure, temperature, humidity)
    }

    constructor(host: string, link: Link, port: int := DefaultPort, ttl: int := DefaultTtl)
      ensures this.host == host && this.port == port && this.ttl == ttl && this.link == link
      ensures Current() == Reading(None, None, None) && lastUpdate == None
      ensures !connected && refreshes == 0
    {
      this.host := host;
      this.port := port;
      this.ttl := ttl;
      this.link := link;
      pressure := None;
      temperature := None;
      humidity := None;
      lastUpdate := None;
      connected := false;
      refreshes := 0;
    }

    /** The `telnet_client` property: a held session is used as it is;
        otherwise one is opened. */
    method Session() returns (r: Outcome<()>)
      modifies this, link
      ensures Current() == old(Current()) && lastUpdate == old(lastUpdate) && refreshes == old(refreshes)
      ensures var ops := SessionOps(old(connected), host, port);
              var c := old(link.cursor);
              && Ran(link.script, c, ops, link.cursor, old(link.log), link.log)
              && (r.Returned? <==> Completes(link.script, c, c + |ops|))
              && (r.Raised? ==> r.error == TransportFault)
      ensures connected == (old(connected) || Answered(link.script, old(link.cursor)))
    {
      if connected {
        return Returned(());
      }
      r := Connect();
    }

    /** Opening a session: the connection is held from the moment it
        succeeds, then the output format is installed between two
        prompts. */
    method Connect() returns (r: Outcome<()>)
      modifies this, link
      ensures Current() == old(Current()) && lastUpdate == old(lastUpdate) && refreshes == old(refreshes)
      ensures var c := old(link.cursor);
              && Ran(link.script, c, Handshake(host, port), link.cursor, old(link.log), link.log)
              && (r.Returned? <==> Completes(link.script, c, c + 4))
              && (r.Raised? ==> r.error == TransportFault)
      ensures connected == (old(connected) || Answered(link.script, old(link.cursor)))
    {
      ghost var c, log0 := link.cursor, link.log;
      ghost var ops := Handshake(host, port);
      RanStep(link.script, c, ops, 0, log0);
      var o := link.Perform(Open(host, port));
      if o.Returned? {
        connected := true;
        RanStep(link.script, c, ops, 1, log0);
        o := link.Perform(ReadUntil(Prompt));
        if o.Returned? {
          RanStep(link.script, c, ops, 2, log0);
          o := link.Perform(Write(OutputFormat));
          if o.Returned? {
            RanStep(link.script, c, ops, 3, log0);
            o := link.Perform(ReadUntil(Prompt));
            if o.Returned? {
              assert ops[..4] == ops;
            }
          }
        }
      }
      r := if o.Returned? then Returned(()) else Raised(o.error);
    }

    /** `parse_response`: each field is assigned as soon as its extraction
        returns, and the triple is returned. */
    method ParseResponse(response: string) returns (r: Outcome<Reading>)
      modifies this
      ensures r == Parse(response)
      ensures Current() == AssignedBy(old(Current()), response)
      ensures r.Returned? ==> Current() == r.value
      ensures lastUpdate == old(lastUpdate) && connected == old(connected) && refreshes == old(refreshes)
    {
      var p := Extract(PressureLabel, response);
      if p.Raised? {
        return Raised(p.error);
      }
      pressure := p.value;
      var t := Extract(TemperatureLabel, response);
      if t.Raised? {
        return Raised(t.error);
      }
      temperature := t.value;
      var h := Extract(HumidityLabel, response);
      if h.Raised? {
        return Raised(h.error);
      }
      humidity := h.value;
      r := Returned(Reading(pressure, temperature, humidity));
    }

    /** Lines 79 to 81 of `update_info` once a session is held: `SEND`,
        the echoed line skipped, the measurement line read. */
    method RequestLine() returns (r: Outcome<string>)
      modifies link
      ensures var c := old(link.cursor);
              && Ran(link.script, c, Exchange, link.cursor, old(link.log), link.log)
              && (r.Returned? <==> Completes(link.script, c, c + 3))
              && (r.Returned? ==> LastReply(link.script, c, 3, r.value))
              && (r.Raised? ==> r.error == TransportFault)
    {
      ghost var c, log0 := link.cursor, link.log;
      RanStep(link.script, c, Exchange, 0, log0);
      var o := link.Perform(Write(SendCommand));
      if o.Returned? {
        RanStep(link.script, c, Exchange, 1, log0);
        o := link.Perform(ReadUntil(LineEnd));
        if o.Returned? {
          RanStep(link.script, c, Exchange, 2, log0);
          o := link.Perform(ReadUntil(LineEnd));
          if o.Returned? {
            assert Exchange[..3] == Exchange;
          }
        }
      }
      r := o;
    }

    /** The driver after a refresh attempt, or a run of them, that ended
        with `r`: on a return, the readings are the returned triple, time
        stamped `now`, and the session is held; on a raise, the time stamp
        is the one from before and the session is dropped. */
    ghost predicate Settled(r: Outcome<Reading>, now: int, lastUpdateBefore: Option<int>)
      reads this
    {
      && (r.Returned? ==> Current() == r.value && lastUpdate == Some(now) && connected)
      && (r.Raised? ==> lastUpdate == lastUpdateBefore && !connected)
    }

    /** Lines 78 to 81 of `update_info`: the session (opened if none is
        held), then the request, up to the first operation that fails. The
        property is read again before each operation; once the first read
        has opened the session, the later ones find it held and do
        nothing. */
    method FetchLine() returns (r: Outcome<string>)
      modifies this, link
      ensures Current() == old(Current()) && lastUpdate == old(lastUpdate) && refreshes == old(refreshes)
      ensures var ops := AttemptOps(old(connected), host, port);
              var c := old(link.cursor);
              && Ran(link.script, c, ops, link.cursor, old(link.log), link.log)
              && (r.Returned? <==> Completes(link.script, c, c + |ops|))
              && (r.Returned? ==> LastReply(link.script, c, |ops|, r.value))
              && (r.Raised? ==> r.error == TransportFault)
      ensures r.Returned? ==> connected
      ensures connected == (old(connected) || Answered(link.script, old(link.cursor)))
    {
      ghost var c := link.cursor;
      ghost var log0 := link.log;
      ghost var first := SessionOps(connected, host, port);
      var s := Session();
      ghost var mid, log1 := link.cursor, link.log;
      if s.Raised? {
        RanJoins(link.script, c, first, Exchange, mid, mid, log0, log1, log1);
        return Raised(s.error);
      }
      r := RequestLine();
      RanJoins(link.script, c, first, Exchange, mid, link.cursor, log0, log1, link.log);
    }

    /** The body of `update_info`, one attempt: the measurement line fetched
        and parsed, and the time stamp. Any failure drops the session and
        is raised again. */
    method AttemptUpdate(now: int) returns (r: Outcome<Reading>)
      modifies this, link
      ensures refreshes == old(refreshes)
      ensures Attempted(link.script, host, port, old(connected), old(link.cursor), old(link.log), old(Current()),
                        link.cursor, link.log, Current(), r)
      ensures Settled(r, now, old(lastUpdate))
    {
      ghost var c := link.cursor;
      ghost var n := |AttemptOps(connected, host, port)|;
      var line := FetchLine();
      if line.Raised? {
        connected := false;
        assert forall response :: !LastReply(link.script, c, n, response);
        return Raised(line.error);
      }
      assert forall response :: LastReply(link.script, c, n, response) <==> response == line.value;
      r := ParseResponse(line.value);
      if r.Raised? {
        connected := false;
        return;
      }
      lastUpdate := Some(now);
    }

    /** `f_retry` around the refresh: calls while `mtries > 1`, returning the
        first result and raising at once an exception it does not catch;
        after each caught exception it sleeps `mdelay`, counts one try
        down and multiplies the delay by the backoff; the final call's
        outcome is returned or raised as it is. The calls are real attempts
        on the link, one after the other from where it stood, the last
        ending where it stands now. */
    method Retrying(now: int, tries: int := Retry.DefaultTries, delay: real := Retry.DefaultDelay,
                    backoff: real := Retry.DefaultBackoff, catches: Error -> bool := CatchesAll)
      returns (r: Outcome<Reading>, ghost calls: seq<Outcome<Reading>>, sleeps: seq<real>, ghost points: seq<Point>)
      modifies this, link
      ensures Retry.Retried(calls, tries, catches) && r == calls[|calls| - 1]
      ensures sleeps == Retry.Delays(delay, backoff, |calls| - 1)
      ensures Attempts(link.script, host, port, old(connected), calls, points)
      ensures points[0] == Point(old(link.cursor), old(link.log), old(Current()))
      ensures points[|calls|] == Point(link.cursor, link.log, Current())
      ensures Settled(r, now, old(lastUpdate))
      ensures refreshes == old(refreshes)
    {
      var mtries := tries;
      var mdelay := delay;
      calls := [];
      sleeps := [];
      points := [Point(link.cursor, link.log, Current())];
      while mtries > 1
        invariant mtries == tries - |calls|
        invariant |calls| > 0 ==> mtries >= 1
        invariant mdelay == Retry.DelayAt(delay, backoff, |calls|)
        invariant sleeps == Retry.Delays(delay, backoff, |calls|)
        invariant forall k :: 0 <= k < |calls| ==> calls[k].Raised? && catches(calls[k].error)
        invariant lastUpdate == old(lastUpdate) && refreshes == old(refreshes)
        invariant connected == (old(connected) && |calls| == 0)
        invariant Attempts(link.script, host, port, old(connected), calls, points)
        invariant points[0] == Point(old(link.cursor), old(link.log), old(Current()))
        invariant points[|calls|] == Point(link.cursor, link.log, Current())
        decreases mtries
      {
        var o := AttemptUpdate(now);
        ghost var p := Point(link.cursor, link.log, Current());
        AttemptsExtend(link.script, host, port, old(connected), calls, points, o, p);
        calls, points := calls + [o], points + [p];
        if o.Returned? || !catches(o.error) {
          r := o;
          return;
        }
        Retry.NextDelay(delay, backoff, |calls| - 1);
        assert mdelay == Retry.DelayAt(delay, backoff, |calls| - 1);
        sleeps := sleeps + [mdelay];
        mtries := mtries - 1;
        mdelay := mdelay * backoff;
        assert mdelay == Retry.DelayAt(delay, backoff, |calls|);
      }
      r := AttemptUpdate(now);
      ghost var p := Point(link.cursor, link.log, Current());
      AttemptsExtend(link.script, host, port, old(connected), calls, points, r, p);
      calls, points := calls + [r], points + [p];
    }

    /** `update_info` as decorated: at most 200 attempts, sleeping 1 second
        and then 1.1 times longer after each failure. The readings it
        returns are the parse of the line the last attempt read. */
    method UpdateInfo(now: int)
      returns (r: Outcome<Reading>, ghost calls: seq<Outcome<Reading>>, sleeps: seq<real>, ghost points: seq<Point>)
      modifies this, link
      ensures refreshes == old(refreshes) + 1
      ensures Retry.Retried(calls, RefreshTries, CatchesAll) && r == calls[|calls| - 1]
      ensures sleeps == Retry.Delays(RefreshDelay, RefreshBackoff, |calls| - 1)
      ensures Attempts(link.script, host, port, old(connected), calls, points)
      ensures points[0] == Point(old(link.cursor), old(link.log), old(Current()))
      ensures points[|calls|] == Point(link.cursor, link.log, Current())
      ensures r.Returned? ==> Current() == r.value && lastUpdate == Some(now) && connected
      ensures r.Returned? ==> LastLineParsed(link.script, points[|calls| - 1].cursor, link.cursor, r)
      ensures r.Raised? ==> |calls| == RefreshTries && lastUpdate == old(lastUpdate) && !connected
    {
      refreshes := refreshes + 1;
      r, calls, sleeps, points := Retrying(now, RefreshTries, RefreshDelay, RefreshBackoff, CatchesAll);
      if r.Returned? {
        var m := |calls| - 1;
        var q, q' := points[m], points[m + 1];
        ReturnIsParsedLine(link.script, host, port, old(connected) && m == 0, q.cursor, q.log, q.reading,
                           q'.cursor, q'.log, q'.reading, calls[m]);
      }
    }

    /** The driver's readings are the parse of a line read from the link
        since position c. */
    ghost predicate ReadSince(c: nat)
      reads this, link
    {
      exists e :: c <= e && LastLineParsed(link.script, e, link.cursor, Returned(Current()))
    }

    /** The decorated `update_info` ran from link position c, log `log` and
        readings `before`, with a session held or not: its calls are a run of
        the decorator of at most 200 attempts chained on the link, ending
        where the link and the readings stand now, with sleeps of 1 second
        growing 1.1 times after each failure, and it raised only after all
        200 failed. */
    ghost predicate Refreshed(calls: seq<Outcome<Reading>>, sleeps: seq<real>, points: seq<Point>,
                              c: nat, log: seq<Op>, before: Reading, wasConnected: bool)
      reads this, link
    {
      && Retry.Retried(calls, RefreshTries, CatchesAll)
      && sleeps == Retry.Delays(RefreshDelay, RefreshBackoff, |calls| - 1)
      && Attempts(link.script, host, port, wasConnected, calls, points)
      && points[0] == Point(c, log, before)
      && points[|calls|] == Point(link.cursor, link.log, Current())
      && (calls[|calls| - 1].Raised? ==> |calls| == RefreshTries)
    }

    /** The first line of every getter: refresh when the cache has expired.
        A refresh that raises makes the getter raise. */
    method RefreshIfExpired(now: int) returns (r: Outcome<()>, ghost calls: seq<Outcome<Reading>>, ghost sleeps: seq<real>, ghost points: seq<Point>)
      modifies this, link
      ensures !Expired(old(lastUpdate), now, ttl) ==> r == Returned(()) && calls == [] && unchanged(this) && unchanged(link)
      ensures Expired(old(lastUpdate), now, ttl) ==>
                && refreshes == old(refreshes) + 1
                && Refreshed(calls, sleeps, points, old(link.cursor), old(link.log), old(Current()), old(connected))
                && (r.Raised? <==> calls[|calls| - 1].Raised?)
                && (r.Raised? ==> r.error == calls[|calls| - 1].error)
      ensures Expired(old(lastUpdate), now, ttl) && r.Returned? ==>
                lastUpdate == Some(now) && connected && ReadSince(old(link.cursor))
      ensures r.Raised? ==> lastUpdate == old(lastUpdate) && !connected
    {
      calls, sleeps, points := [], [], [];
      if Expired(lastUpdate, now, ttl) {
        ghost var c := link.cursor;
        var u;
        u, calls, sleeps, points := UpdateInfo(now);
        if u.Raised? {
          return Raised(u.error), calls, sleeps, points;
        }
        AttemptsAdvance(link.script, host, port, old(connected), calls, points);
        assert c <= points[|calls| - 1].cursor;
      }
      r := Returned(());
    }

    /** `get_pressure` */
    method GetPressure(now: int) returns (r: Outcome<Option<Decimal>>, ghost calls: seq<Outcome<Reading>>, ghost sleeps: seq<real>, ghost points: seq<Point>)
      modifies this, link
      ensures !Expired(old(lastUpdate), now, ttl) ==> r == Returned(old(pressure)) && calls == [] && unchanged(this) && unchanged(link)
      ensures Expired(old(lastUpdate), now, ttl) ==>
                && refreshes == old(refreshes) + 1
                && Refreshed(calls, sleeps, points, old(link.cursor), old(link.log), old(Current()), old(connected))
                && (r.Raised? <==> calls[|calls| - 1].Raised?)
                && (r.Raised? ==> r.error == calls[|calls| - 1].error)
      ensures r.Returned? ==> r.value == pressure
      ensures r.Returned? && Expired(old(lastUpdate), now, ttl) ==> lastUpdate == Some(now) && ReadSince(old(link.cursor))
      ensures r.Raised? ==> lastUpdate == old(lastUpdate) && !connected
    {
      var u;
      u, calls, sleeps, points := RefreshIfExpired(now);
      if u.Raised? {
        return Raised(u.error), calls, sleeps, points;
      }
      r := Returned(pressure);
    }

    /** `get_temperature` */
    method GetTemperature(now: int) returns (r: Outcome<Option<Decimal>>, ghost calls: seq<Outcome<Reading>>, ghost sleeps: seq<real>, ghost points: seq<Point>)
      modifies this, link
      ensures !Expired(old(lastUpdate), now, ttl) ==> r == Returned(old(temperature)) && calls == [] && unchanged(this) && unchanged(link)
      ensures Expired(old(lastUpdate), now, ttl) ==>
                && refreshes == old(refreshes) + 1
                && Refreshed(calls, sleeps, points, old(link.cursor), old(link.log), old(Current()), old(connected))
                && (r.Raised? <==> calls[|calls| - 1].Raised?)
                && (r.Raised? ==> r.error == calls[|calls| - 1].error)
      ensures r.Returned? ==> r.value == temperature
      ensures r.Returned? && Expired(old(lastUpdate), now, ttl) ==> lastUpdate == Some(now) && ReadSince(old(link.cursor))
      ensures r.Raised? ==> lastUpdate == old(lastUpdate) && !connected
    {
      var u;
      u, calls, sleeps, points := RefreshIfExpired(now);
      if u.Raised? {
        return Raised(u.error), calls, sleeps, points;
      }
      r := Returned(temperature);
    }

    /** `get_relative_humidity` */
    method GetRelativeHumidity(now: int) returns (r: Outcome<Option<Decimal>>, ghost calls: seq<Outcome<Reading>>, ghost sleeps: seq<real>, ghost points: seq<Point>)
      modifies this, link
      ensures !Expired(old(lastUpdate), now, ttl) ==> r == Returned(old(humidity)) && calls == [] && unchanged(this) && unchanged(link)
      ensures Expired(old(lastUpdate), now, ttl) ==>
                && refreshes == old(refreshes) + 1
                && Refreshed(calls, sleeps, points, old(link.cursor), old(link.log), old(Current()), old(connected))
                && (r.Raised? <==> calls[|calls| - 1].Raised?)
                && (r.Raised? ==> r.error == calls[|calls| - 1].error)
      ensures r.Returned? ==> r.value == humidity
      ensures r.Returned? && Expired(old(lastUpdate), now, ttl) ==> lastUpdate == Some(now) && ReadSince(old(link.cursor))
      ensures r.Raised? ==> lastUpdate == old(lastUpdate) && !connected
    {
      var u;
      u, calls, sleeps, points := RefreshIfExpired(now);
      if u.Raised? {
        return Raised(u.error), calls, sleeps, points;
      }
      r := Returned(humidity);
    }

    /** The three getters in a row, temperature first, each at its own
        instant, as the clock reads when it is called. When the second and
        third find fresh whatever stamp the first leaves, the read refreshes
        at most once, not at all when the cache is fresh, and the readings
        returned are the cached ones, which after a refresh are the parse of
        a line it read. Instants that keep within the time to live of the
        first give at most one refresh in every case. With a negative time
        to live the cache is never fresh, so every getter refreshes and the
        three readings may come from different refreshes. */
    method ReadAll(now1: int, now2: int, now3: int)
      returns (r: Outcome<Reading>, ghost calls: seq<Outcome<Reading>>, ghost sleeps: seq<real>, ghost points: seq<Point>)
      modifies this, link
      ensures !Expired(old(lastUpdate), now1, ttl) ==> calls == []
      ensures OneRefreshWindow(old(lastUpdate), now1, now2, now3, ttl) && !Expired(old(lastUpdate), now1, ttl) ==>
                r == Returned(old(Current())) && unchanged(this) && unchanged(link)
      ensures OneRefreshWindow(old(lastUpdate), now1, now2, now3, ttl) && Expired(old(lastUpdate), now1, ttl) ==>
                && refreshes == old(refreshes) + 1
                && Refreshed(calls, sleeps, points, old(link.cursor), old(link.log), old(Current()), old(connected))
                && (r.Raised? <==> calls[|calls| - 1].Raised?)
                && (r.Raised? ==> r.error == calls[|calls| - 1].error)
                && (r.Returned? ==> r.value == Current() && ReadSince(old(link.cursor)))
      ensures now1 <= now2 <= now3 && now3 - now1 <= ttl ==> refreshes <= old(refreshes) + 1
      ensures ttl < 0 && now1 <= now2 <= now3 && Expired(old(lastUpdate), now1, ttl) && r.Returned? ==>
                refreshes == old(refreshes) + 3
    {
      var t;
      t, calls, sleeps, points := GetTemperature(now1);
      if t.Raised? {
        return Raised(t.error), calls, sleeps, points;
      }
      var p, pCalls, pSleeps, pPoints := GetPressure(now2);
      if p.Raised? {
        return Raised(p.error), calls, sleeps, points;
      }
      var h, hCalls, hSleeps, hPoints := GetRelativeHumidity(now3);
      if h.Raised? {
        return Raised(h.error), calls, sleeps, points;
      }
      r := Returned(Reading(p.value, t.value, h.value));
    }
  }
}
