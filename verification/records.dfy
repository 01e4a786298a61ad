/** Shared records of the brute-force detector: log rows as they come out of
    the CSV reader, the classified login records, detection windows and the
    success flag. */
module Records {

  datatype Option<+T> = None | Some(value: T)

  /** A point in time, in seconds since an arbitrary epoch. The log format has
      minute resolution, so parsed times are multiples of 60; nothing below
      depends on that. */
  type Time = int

  /** One data row of the access log. `time` is the outcome of parsing the
      `Time` column with the day/month/year hour:minute format: `None` when
      the text does not match. */
  datatype LogRow = LogRow(ip: string, time: Option<Time>, status: string)

  /** A classified login record, the `{'ip': …, 'time': …}` dictionary. */
  datatype Login = Login(ip: string, time: Time)

  /** The first and last timestamp of a qualifying window of attempts. */
  datatype Window = Window(start: Time, end: Time)

  /** Whether a flagged IP later logged in successfully ("Yes" / "No"). */
  datatype Flag = No | Yes

  /** Largest span, in seconds, of a window of attempts that flags an IP. */
  const WindowSeconds: int := 300

  /** A status code counts as a successful login exactly when it is the text
      "200" or "201"; every other value is a failed attempt. */
  predicate IsSuccessStatus(status: string)
  {
    status == "200" || status == "201"
  }
}
