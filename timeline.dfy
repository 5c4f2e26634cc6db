/**
 * "Messages Over Time" (chat_1.py:241-260, chat-anayalzer.py:164-179): every message's date and
 * time are parsed with `strptime`, each timestamp is cut down to its hour, the hours are
 * counted in a dictionary, and the chart plots the sorted hours against their counts.
 * chat_1.py skips a message whose timestamp does not parse and shows a warning instead of the
 * chart when none parses; chat-anayalzer.py lets `strptime` raise.
 */
module Timeline {
  import opened Optional
  import opened Counting
  import opened Extraction
  import opened Timestamps

  /** `datetime.strptime(u[0] + " " + u[1], "%d/%m/%Y %I:%M %p")`, `None` where it raises. */
  function MessageTime(u: UserMessage): Option<DateTime>
  {
    ParseTimestamp(u.date + " " + u.time)
  }

  /** The timestamp of each message, cut down to its hour. */
  function Hours(timeline: seq<DateTime>): (r: seq<DateTime>)
    ensures |r| == |timeline|
    ensures forall i :: 0 <= i < |timeline| ==> r[i] == Truncate(timeline[i])
  {
    seq(|timeline|, i requires 0 <= i < |timeline| => Truncate(timeline[i]))
  }

  // ---------------------------------------------------------------------------
  // sorted()
  // ---------------------------------------------------------------------------

  /** Strictly increasing in `datetime` order. */
  predicate Ascending(s: seq<DateTime>)
  {
    forall i, j :: 0 <= i < j < |s| ==> Before(s[i], s[j])
  }

  /** No element twice, as for the keys of a dictionary. */
  predicate Distinct<T(==)>(s: seq<T>)
  {
    forall i, j :: 0 <= i < j < |s| ==> s[i] != s[j]
  }

  /** Put `x` in front of the first element that does not come before it. */
  function Insert(x: DateTime, s: seq<DateTime>): (r: seq<DateTime>)
    decreases |s|
    ensures multiset(r) == multiset(s) + multiset{x}
  {
    if |s| == 0 || !Before(s[0], x) then [x] + s
    else
      assert s == [s[0]] + s[1..];
      [s[0]] + Insert(x, s[1..])
  }

  /** `sorted(ts)`, here by insertion. */
  function SortTimes(ts: seq<DateTime>): (r: seq<DateTime>)
    decreases |ts|
    ensures multiset(r) == multiset(ts)
  {
    if |ts| == 0 then []
    else
      assert ts == ts[..|ts| - 1] + [ts[|ts| - 1]];
      Insert(ts[|ts| - 1], SortTimes(ts[..|ts| - 1]))
  }

  /** An element before every element of an increasing sequence can go in front of it. */
  lemma ConsAscending(y: DateTime, r: seq<DateTime>)
    requires Ascending(r) && forall j :: 0 <= j < |r| ==> Before(y, r[j])
    ensures Ascending([y] + r)
  {
    var r' := [y] + r;
    forall i, j | 0 <= i < j < |r'|
      ensures Before(r'[i], r'[j])
    {
      assert r'[j] == r[j - 1];
      if i > 0 {
        assert r'[i] == r[i - 1];
      }
    }
  }

  /** Inserting a new element into an increasing sequence keeps it increasing. */
  lemma {:induction false} InsertAscending(x: DateTime, s: seq<DateTime>)
    requires Ascending(s) && x !in s
    decreases |s|
    ensures Ascending(Insert(x, s))
  {
    if |s| == 0 || !Before(s[0], x) {
      forall j | 0 <= j < |s|
        ensures Before(x, s[j])
      {
        BeforeOrder(x, s[0], s[j]);
      }
      ConsAscending(x, s);
    } else {
      var t := s[1..];
      assert Ascending(t) by {
        assert forall i :: 0 <= i < |t| ==> t[i] == s[i + 1];
      }
      InsertAscending(x, t);
      var r' := Insert(x, t);
      forall j | 0 <= j < |r'|
        ensures Before(s[0], r'[j])
      {
        assert r'[j] in multiset(r');
        if r'[j] != x {
          assert r'[j] in multiset(t);
          var k :| 0 <= k < |t| && t[k] == r'[j];
          assert t[k] == s[k + 1];
        }
      }
      ConsAscending(s[0], r');
    }
  }

  /** Sorting distinct timestamps gives them in strictly increasing order. */
  lemma {:induction false} SortTimesAscending(ts: seq<DateTime>)
    requires Distinct(ts)
    decreases |ts|
    ensures Ascending(SortTimes(ts))
  {
    if |ts| > 0 {
      var pre, x := ts[..|ts| - 1], ts[|ts| - 1];
      assert Distinct(pre) by {
        assert forall i :: 0 <= i < |pre| ==> pre[i] == ts[i];
      }
      SortTimesAscending(pre);
      var sp := SortTimes(pre);
      assert x !in pre by {
        forall k | 0 <= k < |pre|
          ensures pre[k] != x
        {
          assert pre[k] == ts[k];
        }
      }
      assert x !in multiset(sp);
      InsertAscending(x, sp);
    }
  }

  /** Two increasing sequences with the same elements end with the same, largest, element. */
  lemma AscendingSameLast(a: seq<DateTime>, b: seq<DateTime>)
    requires Ascending(a) && Ascending(b) && multiset(a) == multiset(b) && |a| > 0
    ensures |b| == |a| && b[|a| - 1] == a[|a| - 1]
  {
    assert |b| == |multiset(b)| == |a|;
    var n := |a|;
    assert a[n - 1] in multiset(b);
    var p :| 0 <= p < n && b[p] == a[n - 1];
    assert b[n - 1] in multiset(a);
    var q :| 0 <= q < n && a[q] == b[n - 1];
    assert p == n - 1 || Before(a[n - 1], a[q]);
    assert q == n - 1 || Before(a[q], a[n - 1]);
    BeforeOrder(a[q], a[n - 1], a[q]);
    BeforeOrder(a[n - 1], a[q], a[q]);
  }

  /** Dropping the same last element from two sequences with the same elements keeps them so. */
  lemma DropSameLast<T>(a: seq<T>, b: seq<T>)
    requires |a| == |b| > 0 && a[|a| - 1] == b[|b| - 1] && multiset(a) == multiset(b)
    ensures multiset(a[..|a| - 1]) == multiset(b[..|b| - 1])
  {
    var n := |a|;
    assert a == a[..n - 1] + [a[n - 1]] && b == b[..n - 1] + [b[n - 1]];
    assert multiset(a) == multiset(a[..n - 1]) + multiset{a[n - 1]};
    assert multiset(b) == multiset(b[..n - 1]) + multiset{a[n - 1]};
    var ma, mb := multiset(a[..n - 1]), multiset(b[..n - 1]);
    forall y
      ensures ma[y] == mb[y]
    {
      assert multiset(a)[y] == multiset(b)[y];
    }
    assert ma == mb;
  }

  /**
   * Two increasing sequences with the same elements are equal, so the sorted list of the hours
   * does not depend on how it is computed or on the dictionary's order.
   */
  lemma {:induction false} AscendingUnique(a: seq<DateTime>, b: seq<DateTime>)
    requires Ascending(a) && Ascending(b) && multiset(a) == multiset(b)
    decreases |a|
    ensures a == b
  {
    if |a| > 0 {
      var n := |a|;
      AscendingSameLast(a, b);
      DropSameLast(a, b);
      AscendingUnique(a[..n - 1], b[..n - 1]);
      assert a == a[..n - 1] + [a[n - 1]] && b == b[..n - 1] + [b[n - 1]];
    } else {
      assert |b| == |multiset(b)| == 0;
    }
  }

  // ---------------------------------------------------------------------------
  // The plotted series
  // ---------------------------------------------------------------------------

  /** `[time_dict[t] for t in times]`. */
  function ValuesAt<K(==)>(d: Counts<K>, times: seq<K>): (r: seq<nat>)
    ensures |r| == |times|
    ensures forall i :: 0 <= i < |times| ==> r[i] == Get(d, times[i])
  {
    seq(|times|, i requires 0 <= i < |times| => Get(d, times[i]))
  }

  /** `sum(values)`. */
  function Sum(vs: seq<nat>): nat
    decreases |vs|
  {
    if |vs| == 0 then 0 else Sum(vs[..|vs| - 1]) + vs[|vs| - 1]
  }

  /** The x and y of the chart for the parsed timestamps: the sorted hours and the count of each. */
  function HourlySeries(timeline: seq<DateTime>): (seq<DateTime>, seq<nat>)
  {
    var timeDict := Tally(Hours(timeline));
    var times := SortTimes(Keys(timeDict));
    (times, ValuesAt(timeDict, times))
  }

  /** Raising one entry by one raises the sum by one. */
  lemma {:induction false} SumBump(vs: seq<nat>, ws: seq<nat>, j: nat)
    requires |vs| == |ws| && j < |vs| && vs[j] == ws[j] + 1
    requires forall i :: 0 <= i < |vs| && i != j ==> vs[i] == ws[i]
    decreases |vs|
    ensures Sum(vs) == Sum(ws) + 1
  {
    var n := |vs|;
    if j < n - 1 {
      SumBump(vs[..n - 1], ws[..n - 1], j);
    } else {
      assert vs[..n - 1] == ws[..n - 1];
    }
  }

  /**
   * For distinct keys covering every element of `xs`, the numbers of times each key occurs in
   * `xs` add up to the length of `xs`.
   */
  lemma {:induction false} SumOfMultiplicities<K>(xs: seq<K>, ts: seq<K>, vs: seq<nat>)
    requires Distinct(ts) && forall x :: x in xs ==> x in ts
    requires |vs| == |ts| && forall i :: 0 <= i < |ts| ==> vs[i] == multiset(xs)[ts[i]]
    decreases |xs|
    ensures Sum(vs) == |xs|
  {
    if |xs| == 0 {
      if |vs| > 0 {
        SumZero(vs);
      }
    } else {
      var pre, x := xs[..|xs| - 1], xs[|xs| - 1];
      assert xs == pre + [x];
      var ws := seq(|ts|, i requires 0 <= i < |ts| => multiset(pre)[ts[i]]);
      SumOfMultiplicities(pre, ts, ws);
      assert x in xs;
      var j :| 0 <= j < |ts| && ts[j] == x;
      forall i | 0 <= i < |ts| && i != j
        ensures vs[i] == ws[i]
      {
        assert ts[i] != x;
      }
      SumBump(vs, ws, j);
    }
  }

  /** A sequence of zeros sums to zero. */
  lemma {:induction false} SumZero(vs: seq<nat>)
    requires forall i :: 0 <= i < |vs| ==> vs[i] == 0
    decreases |vs|
    ensures Sum(vs) == 0
  {
    if |vs| > 0 {
      SumZero(vs[..|vs| - 1]);
    }
  }

  /** The x axis: strictly increasing whole hours, exactly the hours at which some message was sent. */
  lemma SeriesTimes(timeline: seq<DateTime>)
    ensures var times := HourlySeries(timeline).0;
      Ascending(times)
      && (forall t :: t in times <==> t in Hours(timeline))
      && forall i :: 0 <= i < |times| ==> times[i].minute == 0 && times[i].second == 0 && times[i].microsecond == 0
  {
    var hs := Hours(timeline);
    var d := Tally(hs);
    var keys := Keys(d);
    TallyDistinct(hs);
    assert Distinct(keys);
    SortTimesAscending(keys);
    var times := SortTimes(keys);
    forall t
      ensures t in times <==> t in hs
    {
      TallyHasKey(hs, t);
      assert t in times <==> t in multiset(keys);
      if HasKey(d, t) {
        assert keys[IndexOf(d, t)] == t;
      }
      if t in keys {
        var k :| 0 <= k < |keys| && keys[k] == t;
        assert d[k].0 == t;
      }
    }
    forall i | 0 <= i < |times|
      ensures times[i].minute == 0 && times[i].second == 0 && times[i].microsecond == 0
    {
      assert times[i] in hs;
      var k :| 0 <= k < |hs| && hs[k] == times[i];
    }
  }

  /**
   * The y axis: one positive count per hour, the number of messages sent in that hour, and the
   * counts add up to the number of timestamps.
   */
  lemma SeriesCounts(timeline: seq<DateTime>)
    ensures var (times, values) := HourlySeries(timeline);
      |values| == |times|
      && (forall i :: 0 <= i < |times| ==> values[i] == multiset(Hours(timeline))[times[i]] > 0)
      && Sum(values) == |timeline|
  {
    var hs := Hours(timeline);
    var (times, values) := HourlySeries(timeline);
    SeriesTimes(timeline);
    forall i | 0 <= i < |times|
      ensures values[i] == multiset(hs)[times[i]] > 0
    {
      TallyGet(hs, times[i]);
      assert times[i] in hs;
    }
    var keys := Keys(Tally(hs));
    TallyDistinct(hs);
    assert Distinct(keys);
    SortTimesAscending(keys);
    assert Distinct(times) by {
      forall i, j | 0 <= i < j < |times|
        ensures times[i] != times[j]
      {
        BeforeOrder(times[i], times[j], times[j]);
      }
    }
    SumOfMultiplicities(hs, times, values);
  }

  // ---------------------------------------------------------------------------
  // The loops
  // ---------------------------------------------------------------------------

  /** chat_1.py: parse each message's timestamp, skipping those `strptime` rejects. */
  method ParseTimeline(userData: seq<UserMessage>) returns (timeline: seq<DateTime>)
    ensures timeline == Kept(MessageTime, userData)
  {
    timeline := [];
    for i := 0 to |userData|
      invariant timeline == Kept(MessageTime, userData[..i])
    {
      assert userData[..i + 1][..i] == userData[..i];
      var dateStr := userData[i].date + " " + userData[i].time;
      var dt := ParseTimestamp(dateStr);
      if dt.Some? {
        timeline := timeline + [dt.value];
      }
    }
    assert userData[..|userData|] == userData;
  }

  /** chat-anayalzer.py: parse each message's timestamp; a timestamp `strptime` rejects stops the script. */
  method ParseTimelineStrict(userData: seq<UserMessage>) returns (timelineData: seq<DateTime>)
    requires forall i :: 0 <= i < |userData| ==> MessageTime(userData[i]).Some?
    ensures timelineData == Kept(MessageTime, userData)
    ensures |timelineData| == |userData|
    ensures forall i :: 0 <= i < |userData| ==> MessageTime(userData[i]) == Some(timelineData[i])
  {
    timelineData := [];
    for i := 0 to |userData|
      invariant timelineData == Kept(MessageTime, userData[..i])
    {
      assert userData[..i + 1][..i] == userData[..i];
      var dt := ParseTimestamp(userData[i].date + " " + userData[i].time).value;
      timelineData := timelineData + [dt];
    }
    assert userData[..|userData|] == userData;
    KeptAll(MessageTime, userData);
  }

  /** Count the timestamps per hour: `dt.replace(minute=0, second=0, microsecond=0)` as the key. */
  method CountHours(timeline: seq<DateTime>) returns (timeDict: Counts<DateTime>)
    ensures timeDict == Tally(Hours(timeline))
    ensures Total(timeDict) == |timeline|
  {
    var hours := Hours(timeline);
    timeDict := [];
    for i := 0 to |timeline|
      invariant timeDict == Tally(hours[..i])
    {
      assert hours[..i + 1] == hours[..i] + [hours[i]];
      TallySnoc(hours[..i], hours[i]);
      var hour := Truncate(timeline[i]);
      var j := IndexOf(timeDict, hour);
      if j >= 0 {
        timeDict := timeDict[j := (hour, timeDict[j].1 + 1)];
      } else {
        timeDict := timeDict + [(hour, 1)];
      }
    }
    assert hours[..|timeline|] == hours;
    TallyTotal(hours);
  }

  /**
   * chat_1.py's timeline block: `None` (the warning) when no timestamp parses, otherwise the
   * chart's hours and counts, which add up to the number of messages with a readable timestamp.
   */
  method MessagesOverTime(userData: seq<UserMessage>) returns (series: Option<(seq<DateTime>, seq<nat>)>)
    ensures series.None? <==> CountSome(MessageTime, userData) == 0
    ensures series.Some? ==> series.value == HourlySeries(Kept(MessageTime, userData))
    ensures series.Some? ==> Sum(series.value.1) == CountSome(MessageTime, userData)
  {
    var timeline := ParseTimeline(userData);
    KeptCount(MessageTime, userData);
    if |timeline| > 0 {
      var timeDict := CountHours(timeline);
      var times := SortTimes(Keys(timeDict));
      var values := ValuesAt(timeDict, times);
      series := Some((times, values));
      SeriesCounts(timeline);
    } else {
      series := None;
    }
  }

  /**
   * chat-anayalzer.py's timeline block, for chats whose every timestamp parses: the chart's
   * hours and counts, which add up to the number of messages.
   */
  method MessagesOverTimeStrict(userData: seq<UserMessage>) returns (sortedTimes: seq<DateTime>, timelineCounts: seq<nat>)
    requires forall i :: 0 <= i < |userData| ==> MessageTime(userData[i]).Some?
    ensures (sortedTimes, timelineCounts) == HourlySeries(Kept(MessageTime, userData))
    ensures Sum(timelineCounts) == |userData|
  {
    var timelineData := ParseTimelineStrict(userData);
    var timelineCountDict := CountHours(timelineData);
    sortedTimes := SortTimes(Keys(timelineCountDict));
    timelineCounts := ValuesAt(timelineCountDict, sortedTimes);
    SeriesCounts(timelineData);
  }
}
