/** Classification of the rows of the access log into failed and successful
    login attempts (the record-building part of `read_log_file`). */
module Classification {
  import opened Records

  /** The two ordered lists `read_log_file` returns. */
  datatype Classified = Classified(failed: seq<Login>, successful: seq<Login>)

  /** Row `r` has a parsable time and a non-success status, and becomes `x`. */
  predicate IsFailedRecord(r: LogRow, x: Login)
  {
    r.ip == x.ip && r.time == Some(x.time) && !IsSuccessStatus(r.status)
  }

  /** Row `r` has a parsable time and a success status, and becomes `x`. */
  predicate IsSuccessRecord(r: LogRow, x: Login)
  {
    r.ip == x.ip && r.time == Some(x.time) && IsSuccessStatus(r.status)
  }

  /** Number of rows whose time does not parse. */
  function MalformedCount(rows: seq<LogRow>): nat
  {
    if |rows| == 0 then 0
    else (if rows[0].time.None? then 1 else 0) + MalformedCount(rows[1..])
  }

  /** One pass over the rows in file order: a row whose time does not parse
      is skipped and the pass goes on; any other row is appended to the
      successful list when its status is "200" or "201", to the failed list
      otherwise. Every well-formed row lands in exactly one list. */
  function Classify(rows: seq<LogRow>): (c: Classified)
    ensures |c.failed| + |c.successful| + MalformedCount(rows) == |rows|
    ensures forall x :: x in c.failed <==> exists i :: 0 <= i < |rows| && IsFailedRecord(rows[i], x)
    ensures forall x :: x in c.successful <==> exists i :: 0 <= i < |rows| && IsSuccessRecord(rows[i], x)
  {
    if |rows| == 0 then Classified([], [])
    else
      var prefix := rows[..|rows| - 1];
      var r := rows[|rows| - 1];
      var c := Classify(prefix);
      MalformedCountSnoc(prefix, r);
      assert rows == prefix + [r];
      assert forall i :: 0 <= i < |prefix| ==> rows[i] == prefix[i];
      match r.time
      case None => c
      case Some(t) =>
        if IsSuccessStatus(r.status) then c.(successful := c.successful + [Login(r.ip, t)])
        else c.(failed := c.failed + [Login(r.ip, t)])
  }

  lemma {:induction false} MalformedCountSnoc(rows: seq<LogRow>, r: LogRow)
    ensures MalformedCount(rows + [r]) == MalformedCount(rows) + (if r.time.None? then 1 else 0)
    decreases |rows|
  {
    if |rows| == 0 {
      assert [r][1..] == [];
    } else {
      assert (rows + [r])[1..] == rows[1..] + [r];
      MalformedCountSnoc(rows[1..], r);
    }
  }

  /** Classification is a homomorphism over concatenation of logs: the
      records of an earlier stretch of the file come before those of a later
      stretch, in both lists. This is what "file order is kept" means. */
  lemma {:induction false} ClassifyAppend(a: seq<LogRow>, b: seq<LogRow>)
    ensures Classify(a + b).failed == Classify(a).failed + Classify(b).failed
    ensures Classify(a + b).successful == Classify(a).successful + Classify(b).successful
    decreases |b|
  {
    if |b| == 0 {
      assert a + b == a;
    } else {
      var b' := b[..|b| - 1];
      assert (a + b)[..|a + b| - 1] == a + b';
      assert (a + b)[|a + b| - 1] == b[|b| - 1];
      ClassifyAppend(a, b');
    }
  }

  /** A row whose time does not parse contributes to neither list and does
      not disturb the rows around it. */
  lemma MalformedRowSkipped(a: seq<LogRow>, r: LogRow, b: seq<LogRow>)
    requires r.time.None?
    ensures Classify(a + [r] + b) == Classify(a + b)
  {
    ClassifyAppend(a + [r], b);
    ClassifyAppend(a, [r]);
    ClassifyAppend(a, b);
    assert [r][..0] == [];
  }
}
