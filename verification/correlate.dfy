/** Success correlation (`check_successful_logins`): whether a flagged IP
    logged in successfully at or after the end of its window. */
module Correlate {
  import opened Records

  /** Some successful login of `ip` has a time at or after `end`. */
  ghost predicate SucceededSince(successes: seq<Login>, ip: string, end: Time)
  {
    exists k :: 0 <= k < |successes| && successes[k].ip == ip && successes[k].time >= end
  }

  /** Every flagged IP starts at `No`; the successes are scanned in order, and
      one of a flagged IP at or after its window's end sets it to `Yes`. The
      keys are exactly the flagged IPs, and an IP's flag is `Yes` iff such a
      success exists; a success strictly before the end does not count. */
  function CheckSuccessfulLogins(successes: seq<Login>, flagged: map<string, Window>): (d: map<string, Flag>)
    ensures d.Keys == flagged.Keys
    ensures forall ip :: ip in d ==> (d[ip] == Yes <==> SucceededSince(successes, ip, flagged[ip].end))
  {
    if |successes| == 0 then map ip | ip in flagged :: No
    else
      var prefix := successes[..|successes| - 1];
      var x := successes[|successes| - 1];
      var d := CheckSuccessfulLogins(prefix, flagged);
      assert forall k :: 0 <= k < |prefix| ==> successes[k] == prefix[k];
      if x.ip in flagged && x.time >= flagged[x.ip].end then d[x.ip := Yes] else d
  }

  /** Once an IP's flag is `Yes`, further successes never set it back. */
  lemma {:induction false} YesIsFinal(successes: seq<Login>, more: seq<Login>, flagged: map<string, Window>, ip: string)
    requires ip in flagged
    requires CheckSuccessfulLogins(successes, flagged)[ip] == Yes
    ensures CheckSuccessfulLogins(successes + more, flagged)[ip] == Yes
  {
    var k :| 0 <= k < |successes| && successes[k].ip == ip && successes[k].time >= flagged[ip].end;
    assert (successes + more)[k] == successes[k];
  }

  /** The flags of one IP depend only on that IP's successes: successes of
      other IPs can be dropped or added without effect. */
  lemma OtherIpsIrrelevant(successes: seq<Login>, other: Login, flagged: map<string, Window>, ip: string)
    requires ip in flagged && other.ip != ip
    ensures CheckSuccessfulLogins(successes + [other], flagged)[ip] == CheckSuccessfulLogins(successes, flagged)[ip]
  {
    var s' := successes + [other];
    if SucceededSince(s', ip, flagged[ip].end) {
      var k :| 0 <= k < |s'| && s'[k].ip == ip && s'[k].time >= flagged[ip].end;
      assert k < |successes| && successes[k] == s'[k];
    }
    if SucceededSince(successes, ip, flagged[ip].end) {
      var k :| 0 <= k < |successes| && successes[k].ip == ip && successes[k].time >= flagged[ip].end;
      assert s'[k] == successes[k];
    }
  }
}
