/** The whole detection run on the rows of one log: classify, group the
    failures by IP, detect windows, correlate successes and project the
    report rows. */
module Pipeline {
  import opened Records
  import opened Classification
  import opened Grouping
  import opened Sorting
  import opened Detect
  import opened Correlate
  import opened Reporting

  /** The composed run. Every row has at least three attempts and a window
      of at most `WindowSeconds`; the attack signal is raised iff some row
      exists. */
  function Run(rows: seq<LogRow>): (r: Report)
    ensures forall row :: row in r.rows ==> row.attempts >= 3 && row.start <= row.end <= row.start + WindowSeconds
    ensures r.detected <==> r.rows != {}
  {
    var c := Classify(rows);
    var index := Group(c.failed);
    var flagged := DetectBruteForce(index);
    var success := CheckSuccessfulLogins(c.successful, flagged);
    GenerateReport(index, flagged, success)
  }

  /** Reference definition over the raw rows: the times of the rows of `ip`
      whose time parses and whose status is not a success, in row order. */
  function FailedTimes(rows: seq<LogRow>, ip: string): seq<Time>
  {
    if |rows| == 0 then []
    else
      var r := rows[0];
      (if r.ip == ip && r.time.Some? && !IsSuccessStatus(r.status) then [r.time.value] else [])
        + FailedTimes(rows[1..], ip)
  }

  /** Some row of `ip` with a parsable time at or after `end` has a success
      status. */
  ghost predicate SucceededAfter(rows: seq<LogRow>, ip: string, end: Time)
  {
    exists k :: 0 <= k < |rows| && rows[k].ip == ip && rows[k].time.Some? && rows[k].time.value >= end && IsSuccessStatus(rows[k].status)
  }

  lemma {:induction false} FailedTimesSnoc(rows: seq<LogRow>, r: LogRow, ip: string)
    ensures FailedTimes(rows + [r], ip)
      == FailedTimes(rows, ip) + (if r.ip == ip && r.time.Some? && !IsSuccessStatus(r.status) then [r.time.value] else [])
    decreases |rows|
  {
    var tail := if r.ip == ip && r.time.Some? && !IsSuccessStatus(r.status) then [r.time.value] else [];
    if |rows| == 0 {
      assert [r][1..] == [];
      assert FailedTimes([r], ip) == tail + FailedTimes([], ip);
    } else {
      var h := rows[0];
      var head := if h.ip == ip && h.time.Some? && !IsSuccessStatus(h.status) then [h.time.value] else [];
      assert (rows + [r])[0] == h;
      assert (rows + [r])[1..] == rows[1..] + [r];
      assert FailedTimes(rows + [r], ip) == head + FailedTimes(rows[1..] + [r], ip);
      FailedTimesSnoc(rows[1..], r, ip);
      assert head + (FailedTimes(rows[1..], ip) + tail) == (head + FailedTimes(rows[1..], ip)) + tail;
    }
  }

  /** Classifying and then taking an IP's times gives exactly the reference
      failure times of that IP read off the rows. */
  lemma {:induction false} FailedTimesAgree(rows: seq<LogRow>, ip: string)
    ensures TimesOf(Classify(rows).failed, ip) == FailedTimes(rows, ip)
    decreases |rows|
  {
    if |rows| == 0 {
    } else {
      var prefix := rows[..|rows| - 1];
      var r := rows[|rows| - 1];
      assert rows == prefix + [r];
      FailedTimesAgree(prefix, ip);
      FailedTimesSnoc(prefix, r, ip);
      var c := Classify(prefix);
      match r.time
      case None =>
        assert Classify(rows).failed == c.failed;
      case Some(t) =>
        if IsSuccessStatus(r.status) {
          assert Classify(rows).failed == c.failed;
        } else {
          assert Classify(rows).failed == c.failed + [Login(r.ip, t)];
          TimesOfSnoc(c.failed, Login(r.ip, t), ip);
        }
    }
  }

  /** A classified successful login of `ip` at or after `end` exists iff a
      success row of `ip` with a time at or after `end` does. */
  lemma SucceededAgree(rows: seq<LogRow>, ip: string, end: Time)
    ensures SucceededSince(Classify(rows).successful, ip, end) <==> SucceededAfter(rows, ip, end)
  {
    var succ := Classify(rows).successful;
    if SucceededSince(succ, ip, end) {
      var k :| 0 <= k < |succ| && succ[k].ip == ip && succ[k].time >= end;
      assert succ[k] in succ;
      var i :| 0 <= i < |rows| && IsSuccessRecord(rows[i], succ[k]);
      assert rows[i].ip == ip && rows[i].time.value >= end;
    }
    if SucceededAfter(rows, ip, end) {
      var i :| 0 <= i < |rows| && rows[i].ip == ip && rows[i].time.Some? && rows[i].time.value >= end && IsSuccessStatus(rows[i].status);
      var x := Login(ip, rows[i].time.value);
      assert IsSuccessRecord(rows[i], x);
      assert x in succ;
      var k :| 0 <= k < |succ| && succ[k] == x;
    }
  }

  /** An IP has a report row iff the detector flagged it. */
  lemma RowIffFlagged(rows: seq<LogRow>, ip: string)
    ensures (exists row :: row in Run(rows).rows && row.ip == ip)
      <==> ip in DetectBruteForce(Group(Classify(rows).failed))
  {
    var c := Classify(rows);
    var flagged := DetectBruteForce(Group(c.failed));
    assert Run(rows) == GenerateReport(Group(c.failed), flagged, CheckSuccessfulLogins(c.successful, flagged));
  }

  /** An IP gets a report row iff its failure times, sorted, contain three
      consecutive attempts within `WindowSeconds`. */
  lemma FlaggedIff(rows: seq<LogRow>, ip: string)
    ensures (exists row :: row in Run(rows).rows && row.ip == ip) <==> HasBurst(Sort(FailedTimes(rows, ip)))
  {
    var failed := Classify(rows).failed;
    var index := Group(failed);
    RowIffFlagged(rows, ip);
    FailedTimesAgree(rows, ip);
    if ip !in index {
      TimesOfAbsent(failed, ip);
      assert Sort(FailedTimes(rows, ip)) == [];
    }
  }

  /** Every report row records the first qualifying window of its IP, the
      number of the IP's failed rows (at least three), and `Yes` iff the IP
      has a success row at or after the window's end. */
  lemma RowFacts(rows: seq<LogRow>)
    ensures forall row :: row in Run(rows).rows ==>
      && IsFirstWindow(Sort(FailedTimes(rows, row.ip)), Window(row.start, row.end))
      && row.attempts == |FailedTimes(rows, row.ip)| >= 3
      && row.start <= row.end <= row.start + WindowSeconds
      && (row.success == Yes <==> SucceededAfter(rows, row.ip, row.end))
  {
    var c := Classify(rows);
    forall row | row in Run(rows).rows
      ensures IsFirstWindow(Sort(FailedTimes(rows, row.ip)), Window(row.start, row.end))
      ensures row.attempts == |FailedTimes(rows, row.ip)|
      ensures row.success == Yes <==> SucceededAfter(rows, row.ip, row.end)
    {
      FailedTimesAgree(rows, row.ip);
      SucceededAgree(rows, row.ip, row.end);
    }
  }

  /** The failure times of `ip`, sorted, contain a qualifying window. */
  ghost predicate Bursts(rows: seq<LogRow>, ip: string)
  {
    HasBurst(Sort(FailedTimes(rows, ip)))
  }

  /** An IP with a qualifying window raises the attack signal. */
  lemma BurstRaisesSignal(rows: seq<LogRow>, ip: string)
    requires Bursts(rows, ip)
    ensures Run(rows).detected
  {
    FlaggedIff(rows, ip);
  }

  /** A raised attack signal names an IP with a qualifying window. */
  lemma SignalNamesBurst(rows: seq<LogRow>) returns (ip: string)
    requires Run(rows).detected
    ensures Bursts(rows, ip)
  {
    var row :| row in Run(rows).rows;
    ip := row.ip;
    FlaggedIff(rows, ip);
  }

  /** The attack signal is raised iff some IP is flagged. */
  lemma DetectedIff(rows: seq<LogRow>)
    ensures Run(rows).detected <==> exists ip :: Bursts(rows, ip)
  {
    if Run(rows).detected {
      var ip := SignalNamesBurst(rows);
    }
    forall ip | Bursts(rows, ip)
      ensures Run(rows).detected
    {
      BurstRaisesSignal(rows, ip);
    }
  }

  /** A row whose time does not parse changes nothing in the report. */
  lemma MalformedRowIgnored(a: seq<LogRow>, r: LogRow, b: seq<LogRow>)
    requires r.time.None?
    ensures Run(a + [r] + b) == Run(a + b)
  {
    MalformedRowSkipped(a, r, b);
  }
}

/** Worked cases of the window rule and the success boundary. `t` is the
    time of the first attempt, in seconds. */
module Scenarios {
  import opened Records
  import opened Detect
  import opened Correlate

  /** A span of exactly `WindowSeconds` flags, whatever order the log lists
      the attempts in. */
  lemma BoundaryFlags(t: Time)
    ensures DetectIp([t + 300, t, t + 150]) == Some(Window(t, t + 300))
  {
    var s := [t, t + 150, t + 300];
    assert Qualifies(s, 0);
    DetectSorted(s, Window(t, t + 300));
    DetectIgnoresOrder([t + 300, t, t + 150], s);
  }

  /** One second more than `WindowSeconds` does not flag. */
  lemma JustOverDoesNotFlag(t: Time)
    ensures DetectIp([t, t + 150, t + 301]) == None
  {
    DetectSortedNone([t, t + 150, t + 301]);
  }

  /** The first qualifying window wins even when a later one is tighter. */
  lemma FirstNotTightest(t: Time)
    ensures DetectIp([t, t + 200, t + 300, t + 301]) == Some(Window(t, t + 300))
  {
    var s := [t, t + 200, t + 300, t + 301];
    assert Qualifies(s, 0);
    DetectSorted(s, Window(t, t + 300));
  }

  /** With `t` standing for 10:00, an IP failing at 10:00, 10:02 and 10:04
      is flagged with window [10:00, 10:04]. */
  lemma FourMinuteSpanFlags(t: Time)
    ensures DetectIp([t, t + 120, t + 240]) == Some(Window(t, t + 240))
  {
    var s := [t, t + 120, t + 240];
    assert Qualifies(s, 0);
    DetectSorted(s, Window(t, t + 240));
  }

  /** An IP failing at 10:00, 10:10 and 10:20 is not flagged. */
  lemma TenMinuteGapsDoNotFlag(t: Time)
    ensures DetectIp([t, t + 600, t + 1200]) == None
  {
    DetectSortedNone([t, t + 600, t + 1200]);
  }

  /** For the window [10:00, 10:04], a success at 10:05 counts and one at
      10:03 does not. */
  lemma SuccessAfterWindow(t: Time)
    ensures CheckSuccessfulLogins([Login("10.0.0.1", t + 300)], map["10.0.0.1" := Window(t, t + 240)])["10.0.0.1"] == Yes
    ensures CheckSuccessfulLogins([Login("10.0.0.1", t + 180)], map["10.0.0.1" := Window(t, t + 240)])["10.0.0.1"] == No
  {
    assert [Login("10.0.0.1", t + 300)][0].ip == "10.0.0.1";
  }
}
