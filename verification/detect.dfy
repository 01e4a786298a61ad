/** Sliding-window brute-force detection (`detect_brute_force`): per IP, sort
    the failure times and take the first window of three consecutive sorted
    attempts whose span is at most `WindowSeconds`. */
module Detect {
  import opened Records
  import opened Sorting
  import opened Grouping

  /** The window of three consecutive sorted attempts starting at `i` exists
      and spans at most `WindowSeconds` (boundary included). */
  predicate Qualifies(s: seq<Time>, i: int)
  {
    0 <= i && i + 2 < |s| && s[i + 2] - s[i] <= WindowSeconds
  }

  /** Some window of three consecutive attempts qualifies. */
  ghost predicate HasBurst(s: seq<Time>)
  {
    exists i :: Qualifies(s, i)
  }

  /** `w` is the window of the earliest-starting qualifying index. */
  ghost predicate IsFirstWindow(s: seq<Time>, w: Window)
  {
    exists i :: Qualifies(s, i) && (forall j :: 0 <= j < i ==> !Qualifies(s, j)) && w == Window(s[i], s[i + 2])
  }

  /** The scan of windows starting at `i`, `i + 1`, … up to `|s| - 3`,
      stopping at the first that qualifies. */
  function FirstFrom(s: seq<Time>, i: nat): (r: Option<nat>)
    ensures r.Some? ==> i <= r.value && Qualifies(s, r.value)
    ensures r.Some? ==> forall j :: i <= j < r.value ==> !Qualifies(s, j)
    ensures r.None? ==> forall j :: i <= j ==> !Qualifies(s, j)
    decreases |s| - i
  {
    if i + 2 >= |s| then None
    else if s[i + 2] - s[i] <= WindowSeconds then Some(i)
    else FirstFrom(s, i + 1)
  }

  /** The window scan over one IP's sorted times: some window is recorded
      iff one qualifies, and it is the first. Fewer than three attempts give
      none; on sorted times the window spans at most `WindowSeconds`. */
  function ScanWindows(s: seq<Time>): (r: Option<Window>)
    ensures r.Some? <==> HasBurst(s)
    ensures r.Some? ==> IsFirstWindow(s, r.value)
    ensures |s| < 3 ==> r.None?
    ensures r.Some? && Sorted(s) ==> r.value.start <= r.value.end <= r.value.start + WindowSeconds
  {
    match FirstFrom(s, 0)
    case None => None
    case Some(i) => Some(Window(s[i], s[i + 2]))
  }

  /** Detection for one IP: sort its times, then scan. The IP is flagged iff
      its sorted times hold a qualifying window, and the recorded window is
      the first one; it starts and ends at attempts of the IP. */
  function DetectIp(attempts: seq<Time>): (r: Option<Window>)
    ensures r.Some? <==> HasBurst(Sort(attempts))
    ensures r.Some? ==> IsFirstWindow(Sort(attempts), r.value)
    ensures |attempts| < 3 ==> r.None?
    ensures r.Some? ==> r.value.start <= r.value.end <= r.value.start + WindowSeconds
    ensures r.Some? ==> r.value.start in multiset(attempts) && r.value.end in multiset(attempts)
  {
    var s := Sort(attempts);
    var r := ScanWindows(s);
    if r.Some? then
      var i := FirstFrom(s, 0).value;
      assert s[i] in multiset(s) && s[i + 2] in multiset(s);
      r
    else r
  }

  /** The first window is unique, so the contract of `DetectIp` fixes its
      result completely. */
  lemma FirstWindowUnique(s: seq<Time>, w1: Window, w2: Window)
    requires IsFirstWindow(s, w1) && IsFirstWindow(s, w2)
    ensures w1 == w2
  {
    var i1 :| Qualifies(s, i1) && (forall j :: 0 <= j < i1 ==> !Qualifies(s, j)) && w1 == Window(s[i1], s[i1 + 2]);
    var i2 :| Qualifies(s, i2) && (forall j :: 0 <= j < i2 ==> !Qualifies(s, j)) && w2 == Window(s[i2], s[i2 + 2]);
    assert i1 == i2;
  }

  /** On times already in order, the detected window is the first
      qualifying window of the times as given. */
  lemma DetectSorted(s: seq<Time>, w: Window)
    requires Sorted(s) && IsFirstWindow(s, w)
    ensures DetectIp(s) == Some(w)
  {
    SortedUnique(Sort(s), s);
    FirstWindowUnique(s, DetectIp(s).value, w);
  }

  /** On times already in order without a qualifying window, nothing is
      detected. */
  lemma DetectSortedNone(s: seq<Time>)
    requires Sorted(s) && forall i :: 0 <= i < |s| - 2 ==> s[i + 2] - s[i] > WindowSeconds
    ensures DetectIp(s) == None
  {
    SortedUnique(Sort(s), s);
  }

  /** Three attempts, taken in chronological order and not necessarily
      adjacent, that span at most `WindowSeconds`. */
  ghost predicate AnyTriple(s: seq<Time>)
  {
    exists i, j, k :: 0 <= i < j < k < |s| && s[i] <= s[j] <= s[k] && s[k] - s[i] <= WindowSeconds
  }

  /** On sorted times, some three consecutive attempts fit in the window iff
      some three attempts at all do: the third attempt after the first is no
      later than any later one. */
  lemma BurstIffAnyTriple(s: seq<Time>)
    requires Sorted(s)
    ensures HasBurst(s) <==> AnyTriple(s)
  {
    if HasBurst(s) {
      var i :| Qualifies(s, i);
      assert s[i] <= s[i + 1] <= s[i + 2];
    }
    if AnyTriple(s) {
      var i, j, k :| 0 <= i < j < k < |s| && s[i] <= s[j] <= s[k] && s[k] - s[i] <= WindowSeconds;
      assert s[i + 2] <= s[k];
      assert Qualifies(s, i);
    }
  }

  /** Whether and where an IP is flagged depends only on which times it
      failed at, not on the order the log lists them. */
  lemma DetectIgnoresOrder(a: seq<Time>, b: seq<Time>)
    requires multiset(a) == multiset(b)
    ensures DetectIp(a) == DetectIp(b)
  {
    SortIgnoresOrder(a, b);
  }

  /** Detection over the attempt index. Only grouped IPs are flagged; an IP
      is flagged iff its sorted times hold a qualifying window, with the
      first such window recorded; a flagged IP has at least three attempts. */
  function DetectBruteForce(index: AttemptIndex): (flagged: map<string, Window>)
    ensures flagged.Keys <= index.Keys
    ensures forall ip :: ip in index ==> (ip in flagged <==> HasBurst(Sort(index[ip])))
    ensures forall ip :: ip in flagged ==> IsFirstWindow(Sort(index[ip]), flagged[ip])
    ensures forall ip :: ip in flagged ==> |index[ip]| >= 3
    ensures forall ip :: ip in flagged ==> flagged[ip].start <= flagged[ip].end <= flagged[ip].start + WindowSeconds
  {
    map ip | ip in index && DetectIp(index[ip]).Some? :: DetectIp(index[ip]).value
  }
}
