# Brute-force login detector: a Dafny model

This project models the detection pipeline of the brute-force login detector (`detector.py`). The pipeline reads an access log of rows (IP, time, status code) and flags every IP with three failed logins within five minutes. For each flagged IP it also says whether that IP later logged in successfully. The model follows the source's five stages. Each stage is a pure function over immutable sequences and maps:

1. **Classification** (`Classification.Classify`). Rows whose time does not parse are skipped. A row with status `"200"` or `"201"` becomes a successful login. Every other row becomes a failed attempt. File order is kept.
2. **Grouping** (`Grouping.Group`). The failed attempts are grouped into a map from IP to its failure times, in encounter order, with repeats kept.
3. **Detection** (`Detect.DetectIp`, `Detect.DetectBruteForce`). Each IP's times are sorted (`Sorting.Sort`). `Detect.ScanWindows` then scans the windows of three consecutive sorted attempts from index 0. The first window whose span is at most 300 seconds flags the IP and gives its start and end. The boundary is inclusive.
4. **Success correlation** (`Correlate.CheckSuccessfulLogins`). Every flagged IP starts at `No`. It becomes `Yes` if it has a successful login at or after the end of its window.
5. **Report** (`Reporting.GenerateReport`). There is one row per flagged IP: IP, start, end, total failed attempts and success flag. The "attack detected" signal is raised iff some IP was flagged.

`Pipeline.Run` composes the five stages. The lemmas in `Pipeline` state the end-to-end properties. `Scenarios` works through concrete boundary cases.

Times are integers counting seconds. The log's `DD/MM/YYYY HH:MM` format has minute resolution, and the 300-second comparison is exact integer arithmetic. Parsing the time text is outside the model. Each row carries the parse outcome as `Option<Time>`, where `None` means the text did not match the format.

Files: `records.dfy` (shared datatypes and constants), `classify.dfy`, `grouping.dfy`, `sorting.dfy`, `detect.dfy`, `correlate.dfy`, `report.dfy`, `pipeline.dfy` (which also holds `Scenarios`).

## Model

| member | source | states |
|---|---|---|
| Classification.Classify | detector.py:16-27 | Each row with a parsable time lands in exactly one list. A record is in the failed list iff some row with that IP and time has a status other than "200"/"201". It is in the successful list iff such a row has status "200" or "201". The two list lengths plus the number of unparsable rows equal the number of rows. |
| Classification.ClassifyAppend | detector.py:16-25 | Classifying a log split into two parts gives each part's lists concatenated in order, for both lists. File order is kept. |
| Classification.MalformedRowSkipped | detector.py:17-27 | A row whose time does not parse goes into neither list. Inserting it anywhere leaves the result unchanged, so processing simply continues. |
| Grouping.Group | detector.py:33-37 | The keys are exactly the IPs of the failed records. Each IP's list is that IP's subsequence of times, in encounter order, with no deduplication. |
| Grouping.GroupKeepsAll | detector.py:34-36 | Summed over all IPs, the list lengths equal the number of failed records. No attempt is lost or duplicated. |
| Grouping.GroupCountsPerIp | detector.py:33-37 | An IP's list is as long as the number of positions of that IP among the failed records, and that number is positive. |
| Sorting.Sort | detector.py:45 | The result is ascending and a permutation of the input (same multiset, same length). |
| Sorting.SortedUnique | detector.py:45 | Two ascending lists with the same multiset are equal. So the sorted order, ties included, depends only on the times. |
| Sorting.SortIgnoresOrder | detector.py:45 | Two arrangements of the same times sort to the same list. |
| Detect.FirstFrom | detector.py:46-50 | The scan from index i returns the least index j ≥ i whose three-attempt window spans ≤ 300 s. If it returns nothing, no index from i on qualifies. |
| Detect.ScanWindows | detector.py:46-50 | On one IP's sorted times, a window is recorded iff some three consecutive attempts span ≤ 300 s, and it is the first such window. Fewer than 3 attempts give none. On sorted times, start ≤ end ≤ start + 300. |
| Detect.DetectIp | detector.py:44-50 | An IP is flagged iff its sorted times contain a qualifying window, and the window recorded is the first one. Fewer than 3 attempts never flag. The window satisfies start ≤ end ≤ start + 300, and its start and end are attempts of the IP. |
| Detect.FirstWindowUnique | detector.py:46-50 | Only one window can be the first qualifying one, so the contract of DetectIp fixes its result completely. |
| Detect.BurstIffAnyTriple | detector.py:45-48 | On sorted times, some three consecutive attempts span ≤ 300 s iff some three attempts in chronological order, not necessarily adjacent, do. |
| Detect.DetectIgnoresOrder | detector.py:44-50 | The detection result depends only on the multiset of an IP's times, not on the order the log lists them. |
| Detect.DetectSorted | detector.py:45-50 | On times already in ascending order, the detected window is the first qualifying window of those times. |
| Detect.DetectSortedNone | detector.py:46-50 | On ascending times where every three-attempt window spans more than 300 s, nothing is detected. |
| Detect.DetectBruteForce | detector.py:41-52 | The flagged IPs are a subset of the grouped IPs. A grouped IP is flagged iff its sorted times contain a qualifying window. The recorded window is the first one. A flagged IP has at least 3 attempts, and its window satisfies start ≤ end ≤ start + 300. |
| Correlate.CheckSuccessfulLogins | detector.py:56-66 | The keys are exactly the flagged IPs. An IP's flag is Yes iff some successful login of that IP has time ≥ its window end (inclusive), and No otherwise. |
| Correlate.YesIsFinal | detector.py:59-64 | Once an IP's flag is Yes, appending more successful logins never sets it back to No. |
| Correlate.OtherIpsIrrelevant | detector.py:60-64 | A successful login of another IP does not change an IP's flag. |
| Reporting.RowCount | detector.py:76-83 | Distinct flagged IPs give distinct rows, so there are as many rows as IPs. |
| Reporting.GenerateReport | detector.py:76-89 | There is exactly one row per flagged IP, and the row count equals the number of flagged IPs. Each row carries its IP's window start and end, the length of its attempt list and its success flag. The attack signal is raised iff at least one row exists. |
| Pipeline.Run | detector.py:101-105 | Composes Classify, Group, DetectBruteForce, CheckSuccessfulLogins and GenerateReport. Every report row has at least 3 attempts and a window with start ≤ end ≤ start + 300, and the attack signal is raised iff some row exists. |
| Pipeline.FailedTimesAgree | detector.py:16-37 | The grouped failure times of an IP are exactly the times of the rows with that IP, a parsable time and a non-success status, in row order. This is a definition over the raw rows that is independent of the model's own classification. |
| Pipeline.SucceededAgree | detector.py:16-25 | An IP has a classified successful login at or after a time iff some row with that IP, a parsable time at or after it and status "200"/"201" exists. |
| Pipeline.FlaggedIff | detector.py:101-105 | Over a whole run, an IP gets a report row iff the times of its rows with a parsable time and a non-success status, sorted, contain a window of 3 consecutive attempts spanning ≤ 300 s. |
| Pipeline.RowFacts | detector.py:76-83 | Every report row records the first qualifying window of its IP. Its Attempts value is the number of rows of that IP with a parsable time and a non-success status, which is ≥ 3. Its success flag is Yes iff some row of that IP with a parsable time at or after the window's end has status "200"/"201". |
| Pipeline.DetectedIff | detector.py:85-89 | The attack signal of a run is raised iff some IP's sorted failure times contain a qualifying window. |
| Pipeline.MalformedRowIgnored | detector.py:17-27 | A row whose time does not parse changes nothing in the report of a run. |
| Scenarios.BoundaryFlags | detector.py:48 | Three attempts spanning exactly 300 s are flagged with that window, even when listed out of order. |
| Scenarios.JustOverDoesNotFlag | detector.py:48 | Three attempts spanning 301 s are not flagged. |
| Scenarios.FirstNotTightest | detector.py:46-50 | The earliest qualifying window is recorded even when a later window is tighter. |
| Scenarios.FourMinuteSpanFlags | detector.py:44-50 | Attempts at 10:00, 10:02 and 10:04 flag the window [10:00, 10:04]. |
| Scenarios.TenMinuteGapsDoNotFlag | detector.py:44-50 | Attempts ten minutes apart are not flagged. |
| Scenarios.SuccessAfterWindow | detector.py:63 | For the window [10:00, 10:04], a success at 10:05 sets Yes and a success at 10:03 leaves No. |

## Left out

- The Tkinter window, the file dialog, the message boxes and `start_process`'s catch-all error handling (detector.py:1-2, 86-121). This is user-interface and process plumbing. Only the "attack detected" boolean that chooses the message is modelled.
- Opening the files, `csv.DictReader`/`csv.DictWriter` and the fixed report file name (detector.py:14-15, 71-74). These are I/O. The input is a sequence of `LogRow` values and the report is a value.
- `datetime.strptime` and `strftime` (detector.py:18, 79-80). These are library calls. Each row carries its parse outcome as `Option<Time>`. Report rows keep integer times. No text round trip is claimed, because strptime accepts unpadded fields that strftime writes padded.
- The diagnostic `print` for a skipped row (detector.py:27). It is a side channel with no effect on the results.
- Rows missing a column. A header without one of the three columns makes `row[...]` raise `KeyError`, which the `except ValueError` does not catch, so the run aborts; that path is not modelled. A short data row is different: `csv.DictReader` fills its missing cells with `None`. A missing `Time` cell makes `strptime(None, …)` raise `TypeError` at detector.py:18, which also aborts the run and is not modelled. A missing `Status Code` cell gives status `None`, which is not in `('200', '201')`, so the row counts as a failure like any other non-success value; the model covers it by reading the cell as `""`. A missing `IP` cell gives the IP `None`, which the model does not represent, since IPs are strings.
- The order of report rows. The source writes them in dictionary insertion order, which is the order in which each flagged IP first fails in the log (detector.py:36, 44, 49, 76). The model drops that order and keeps the rows as a set.
- In-place sorting. The source sorts each IP's list in place and later reports that list's length. The model sorts a copy and reports the unsorted list's length. These are equal because `Sorting.Sort` preserves length.
- The variant of the detector without success correlation is not part of this model. Only `detector.py`, which has the correlation stage, is modelled.
