/** Grouping of the failed attempts by source IP (`track_failed_attempts`). */
module Grouping {
  import opened Records

  /** The attempt index: each IP's failure timestamps. */
  type AttemptIndex = map<string, seq<Time>>

  /** The IPs that occur in a list of records. */
  function IpsOf(logins: seq<Login>): set<string>
  {
    set i | 0 <= i < |logins| :: logins[i].ip
  }

  /** Reference definition: the times of the records of `ip`, in list order,
      with repeats kept. */
  function TimesOf(logins: seq<Login>, ip: string): seq<Time>
  {
    if |logins| == 0 then []
    else (if logins[0].ip == ip then [logins[0].time] else []) + TimesOf(logins[1..], ip)
  }

  lemma {:induction false} TimesOfSnoc(logins: seq<Login>, x: Login, ip: string)
    ensures TimesOf(logins + [x], ip) == TimesOf(logins, ip) + (if x.ip == ip then [x.time] else [])
    decreases |logins|
  {
    var tail := if x.ip == ip then [x.time] else [];
    if |logins| == 0 {
      assert [x][1..] == [];
      assert TimesOf([x], ip) == tail + TimesOf([], ip);
    } else {
      var head := if logins[0].ip == ip then [logins[0].time] else [];
      assert (logins + [x])[0] == logins[0];
      assert (logins + [x])[1..] == logins[1..] + [x];
      assert TimesOf(logins + [x], ip) == head + TimesOf(logins[1..] + [x], ip);
      TimesOfSnoc(logins[1..], x, ip);
      assert TimesOf(logins + [x], ip) == head + (TimesOf(logins[1..], ip) + tail);
      assert head + (TimesOf(logins[1..], ip) + tail) == (head + TimesOf(logins[1..], ip)) + tail;
    }
  }

  /** An IP that never occurs has no times. */
  lemma {:induction false} TimesOfAbsent(logins: seq<Login>, ip: string)
    requires ip !in IpsOf(logins)
    ensures TimesOf(logins, ip) == []
    decreases |logins|
  {
    if |logins| > 0 {
      assert logins[0].ip in IpsOf(logins);
      assert IpsOf(logins[1..]) <= IpsOf(logins) by {
        forall j | 0 <= j < |logins[1..]| ensures logins[1..][j].ip in IpsOf(logins) {
          assert logins[1..][j] == logins[j + 1];
        }
      }
      TimesOfAbsent(logins[1..], ip);
    }
  }

  /** Appending each record's time to its IP's list, in list order, starting
      from an empty index (the `defaultdict(list)` loop). The keys are
      exactly the IPs of the records, and each IP's list is its subsequence
      of times, in order and without deduplication. */
  function Group(failed: seq<Login>): (m: AttemptIndex)
    ensures m.Keys == IpsOf(failed)
    ensures forall ip :: ip in m ==> m[ip] == TimesOf(failed, ip)
  {
    if |failed| == 0 then map[]
    else
      var prefix := failed[..|failed| - 1];
      var x := failed[|failed| - 1];
      var m := Group(prefix);
      assert failed == prefix + [x];
      assert IpsOf(failed) == IpsOf(prefix) + {x.ip} by {
        assert forall i :: 0 <= i < |prefix| ==> failed[i] == prefix[i];
      }
      forall ip | ip in IpsOf(failed)
        ensures TimesOf(failed, ip) == (if ip in m then m[ip] else []) + (if x.ip == ip then [x.time] else [])
      {
        TimesOfSnoc(prefix, x, ip);
        if ip !in m {
          TimesOfAbsent(prefix, ip);
        }
      }
      m[x.ip := (if x.ip in m then m[x.ip] else []) + [x.time]]
  }

  /** One record more adds its time to the end of its IP's list. */
  lemma GroupSnoc(failed: seq<Login>)
    requires |failed| > 0
    ensures var m := Group(failed[..|failed| - 1]); var x := failed[|failed| - 1];
      Group(failed) == m[x.ip := (if x.ip in m then m[x.ip] else []) + [x.time]]
  {
  }

  /** Sum of the lengths of all lists in an index. */
  ghost function TotalLength(m: AttemptIndex): nat
    decreases |m.Keys|
  {
    if m == map[] then 0
    else
      var k :| k in m;
      assert (m - {k}).Keys == m.Keys - {k};
      |m[k]| + TotalLength(m - {k})
  }

  /** The total does not depend on which key is taken out first. */
  lemma {:induction false} TotalLengthRemove(m: AttemptIndex, k: string)
    requires k in m
    ensures TotalLength(m) == |m[k]| + TotalLength(m - {k})
    decreases |m.Keys|
  {
    var j :| j in m && TotalLength(m) == |m[j]| + TotalLength(m - {j});
    if j != k {
      assert (m - {j}).Keys == m.Keys - {j};
      assert (m - {k}).Keys == m.Keys - {k};
      TotalLengthRemove(m - {j}, k);
      TotalLengthRemove(m - {k}, j);
      assert m - {j} - {k} == m - {k} - {j};
    }
  }

  /** Appending one time to one key's list grows the total by one. */
  lemma TotalLengthAppend(m: AttemptIndex, k: string, t: Time)
    ensures TotalLength(m[k := (if k in m then m[k] else []) + [t]]) == TotalLength(m) + 1
  {
    var m' := m[k := (if k in m then m[k] else []) + [t]];
    TotalLengthRemove(m', k);
    assert m' - {k} == m - {k};
    if k in m {
      TotalLengthRemove(m, k);
    } else {
      assert m - {k} == m;
    }
  }

  /** The index keeps every attempt: its lists together are as long as the
      list of failed records. */
  lemma {:induction false} GroupKeepsAll(failed: seq<Login>)
    ensures TotalLength(Group(failed)) == |failed|
    decreases |failed|
  {
    if |failed| > 0 {
      var prefix := failed[..|failed| - 1];
      var x := failed[|failed| - 1];
      GroupSnoc(failed);
      GroupKeepsAll(prefix);
      TotalLengthAppend(Group(prefix), x.ip, x.time);
    }
  }

  /** Positions of the records of `ip`. */
  function PositionsOf(logins: seq<Login>, ip: string): set<nat>
  {
    set i: nat | i < |logins| && logins[i].ip == ip
  }

  /** The times of `ip` are as many as its records. */
  lemma {:induction false} TimesOfCount(logins: seq<Login>, ip: string)
    ensures |TimesOf(logins, ip)| == |PositionsOf(logins, ip)|
    decreases |logins|
  {
    if |logins| > 0 {
      var prefix := logins[..|logins| - 1];
      var x := logins[|logins| - 1];
      assert logins == prefix + [x];
      TimesOfSnoc(prefix, x, ip);
      TimesOfCount(prefix, ip);
      var before := PositionsOf(prefix, ip);
      if x.ip == ip {
        assert PositionsOf(logins, ip) == before + {|prefix|};
      } else {
        assert PositionsOf(logins, ip) == before;
      }
    }
  }

  /** Each IP's list is as long as the number of its failed records. */
  lemma GroupCountsPerIp(failed: seq<Login>, ip: string)
    requires ip in Group(failed)
    ensures |Group(failed)[ip]| == |PositionsOf(failed, ip)| > 0
  {
    TimesOfCount(failed, ip);
    var i :| 0 <= i < |failed| && failed[i].ip == ip;
    assert i in PositionsOf(failed, ip);
  }
}
