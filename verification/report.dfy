/** The rows of the suspicious-activity report and the "attack detected"
    signal (`generate_report`, without the file write and message boxes). */
module Reporting {
  import opened Records
  import opened Grouping

  /** One report row: IP, window start and end, total failed attempts of the
      IP and the success flag. */
  datatype ReportRow = ReportRow(ip: string, start: Time, end: Time, attempts: nat, success: Flag)

  /** The report rows and whether an attack was detected. The rows form a
      set: the order in which each IP first failed, which decides the order
      they are written in, is not modelled. */
  datatype Report = Report(rows: set<ReportRow>, detected: bool)

  /** Length of an IP's list in the index; an IP with no list reads as an
      empty one, as with a `defaultdict(list)`. */
  function AttemptCount(index: AttemptIndex, ip: string): nat
  {
    if ip in index then |index[ip]| else 0
  }

  function RowOf(index: AttemptIndex, flagged: map<string, Window>, success: map<string, Flag>, ip: string): ReportRow
    requires ip in flagged && ip in success
  {
    ReportRow(ip, flagged[ip].start, flagged[ip].end, AttemptCount(index, ip), success[ip])
  }

  /** Distinct IPs give distinct rows, so there are as many rows as IPs. */
  lemma {:induction false} RowCount(index: AttemptIndex, flagged: map<string, Window>, success: map<string, Flag>, ips: set<string>)
    requires ips <= flagged.Keys && flagged.Keys <= success.Keys
    ensures |set ip | ip in ips :: RowOf(index, flagged, success, ip)| == |ips|
    decreases |ips|
  {
    if ips != {} {
      var ip :| ip in ips;
      var rest := ips - {ip};
      RowCount(index, flagged, success, rest);
      var rowsRest := set i | i in rest :: RowOf(index, flagged, success, i);
      assert (set i | i in ips :: RowOf(index, flagged, success, i)) == rowsRest + {RowOf(index, flagged, success, ip)};
      assert RowOf(index, flagged, success, ip) !in rowsRest;
    }
  }

  /** One row per flagged IP carrying its window, its total attempt count
      and its success flag; the attack signal is raised iff some IP was
      flagged. A success flag must exist for every flagged IP. */
  function GenerateReport(index: AttemptIndex, flagged: map<string, Window>, success: map<string, Flag>): (r: Report)
    requires flagged.Keys <= success.Keys
    ensures |r.rows| == |flagged|
    ensures forall ip :: ip in flagged ==> exists row :: row in r.rows && row.ip == ip
    ensures forall row :: row in r.rows ==> row.ip in flagged && row.start == flagged[row.ip].start && row.end == flagged[row.ip].end
    ensures forall row :: row in r.rows ==> row.attempts == AttemptCount(index, row.ip) && row.success == success[row.ip]
    ensures r.detected <==> r.rows != {}
  {
    var rows := set ip | ip in flagged :: RowOf(index, flagged, success, ip);
    RowCount(index, flagged, success, flagged.Keys);
    assert forall ip :: ip in flagged ==> RowOf(index, flagged, success, ip) in rows;
    Report(rows, |flagged| > 0)
  }
}
