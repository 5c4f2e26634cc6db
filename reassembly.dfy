/**
 * The line reassembler that both scripts run first (chat_1.py lines 46-72 and
 * chat-anayalzer.py lines 29-46). It walks the exported lines once with two flags `s`
 * and `u`, appends every line that holds a `-` to `usr` (the text after its first `-`
 * holds a `:`) or to `sys` (it does not), and glues every other line, stripped and after
 * one space, onto the last entry of the kind the flags name.
 *
 * `Assemble` is the loop written as a fold over the lines, `Reassemble` is the loop itself,
 * and `EntriesOf` is an independent description of the result: the entry of a start line
 * is that line followed by the continuation lines up to the next start line.
 */
module Reassembly {
  import opened PyStrings

  /** How the loop treats one line. */
  datatype LineKind = UserStart | SystemStart | Continuation

  /** The mode the two flags encode: `s == 1` is `InSystem`, `u == 1` is `InUser`. */
  datatype Mode = Idle | InUser | InSystem

  /** The loop's state: both entry lists and the flags' mode. */
  datatype Entries = Entries(usr: seq<string>, sys: seq<string>, mode: Mode)

  /**
   * A line opens an entry iff it holds a `-`; a user entry iff the text after its first `-`
   * holds a `:`. Written as a scan for the first `-`; `KindOfSplit` shows it is the test the
   * loop makes with `in` and `split('-', 1)`.
   */
  function KindOf(line: string): LineKind
    decreases |line|
  {
    if |line| == 0 then Continuation
    else if line[0] == '-' then (if ':' in line[1..] then UserStart else SystemStart)
    else KindOf(line[1..])
  }

  /** With its first `-` at index `k`, a line is classified by the text after `k`. */
  lemma {:induction false} KindOfAt(line: string, k: nat)
    requires k < |line| && line[k] == '-'
    requires forall i :: 0 <= i < k ==> line[i] != '-'
    decreases k
    ensures KindOf(line) == if ':' in line[k + 1..] then UserStart else SystemStart
  {
    if k > 0 {
      assert line[1..][k - 1] == line[k];
      assert line[1..][k..] == line[k + 1..];
      KindOfAt(line[1..], k - 1);
    }
  }

  /** A line without `-` is a continuation. */
  lemma {:induction false} KindOfNoDash(line: string)
    requires forall i :: 0 <= i < |line| ==> line[i] != '-'
    decreases |line|
    ensures KindOf(line) == Continuation
  {
    if |line| > 0 {
      KindOfNoDash(line[1..]);
    }
  }

  /** The classification is the loop's test: `'-' in line`, then `':' in line.split('-', 1)[1]`. */
  lemma KindOfSplit(line: string)
    ensures KindOf(line) ==
      if !Contains(line, "-") then Continuation
      else if Contains(SplitOnce(line, "-")[1], ":") then UserStart
      else SystemStart
  {
    ContainsChar(line, '-');
    if Contains(line, "-") {
      var k := Find(line, "-");
      CharOccurs(line, '-', k);
      forall i | 0 <= i < k
        ensures line[i] != '-'
      {
        assert !OccursAt(line, "-", i);
        CharOccurs(line, '-', i);
      }
      KindOfAt(line, k);
      ContainsChar(line[k + 1..], ':');
    } else {
      KindOfNoDash(line);
    }
  }

  /** The mode the loop enters after a start line of this kind. */
  function ModeOf(kind: LineKind): Mode
  {
    match kind
    case UserStart => InUser
    case SystemStart => InSystem
    case Continuation => Idle
  }

  /** What a continuation line adds to the open entry: `' ' + line.strip()`. */
  function ContinuationText(line: string): string
  {
    " " + Strip(line, Whitespace)
  }

  /** `entries[-1] += text`. */
  function AppendToLast(entries: seq<string>, text: string): (r: seq<string>)
    requires |entries| > 0
  {
    entries[..|entries| - 1] + [entries[|entries| - 1] + text]
  }

  /** One iteration of the reassembly loop. */
  function Step(e: Entries, line: string): Entries
  {
    match KindOf(line)
    case UserStart => Entries(e.usr + [line], e.sys, InUser)
    case SystemStart => Entries(e.usr, e.sys + [line], InSystem)
    case Continuation =>
      if e.mode == InSystem && |e.sys| > 0 then Entries(e.usr, AppendToLast(e.sys, ContinuationText(line)), e.mode)
      else if e.mode == InUser && |e.usr| > 0 then Entries(AppendToLast(e.usr, ContinuationText(line)), e.sys, e.mode)
      else e
  }

  /** The loop's state after the given lines, starting from empty lists and both flags 0. */
  function Assemble(lines: seq<string>): Entries
    decreases |lines|
  {
    if |lines| == 0 then Entries([], [], Idle)
    else Step(Assemble(lines[..|lines| - 1]), lines[|lines| - 1])
  }

  // ---------------------------------------------------------------------------
  // The entries described without the loop
  // ---------------------------------------------------------------------------

  /** The text the continuation lines from index `k` up to the next start line contribute. */
  function ContinuationFrom(lines: seq<string>, k: nat): string
    requires k <= |lines|
    decreases |lines| - k
  {
    if k == |lines| || KindOf(lines[k]) != Continuation then ""
    else ContinuationText(lines[k]) + ContinuationFrom(lines, k + 1)
  }

  /** The logical entry that the start line at index `j` opens. */
  function LogicalEntry(lines: seq<string>, j: nat): string
    requires j < |lines|
  {
    lines[j] + ContinuationFrom(lines, j + 1)
  }

  /** The indices of the start lines of one kind, ascending: exactly the lines of that kind. */
  function StartIndices(lines: seq<string>, kind: LineKind): (r: seq<nat>)
    decreases |lines|
    ensures forall i :: 0 <= i < |r| ==> r[i] < |lines| && KindOf(lines[r[i]]) == kind
    ensures forall i, i' :: 0 <= i < i' < |r| ==> r[i] < r[i']
  {
    if |lines| == 0 then []
    else
      StartIndices(lines[..|lines| - 1], kind)
        + (if KindOf(lines[|lines| - 1]) == kind then [|lines| - 1] else [])
  }

  /** Every line of the kind is among its start indices. */
  lemma {:induction false} StartIndicesComplete(lines: seq<string>, kind: LineKind, j: nat)
    requires j < |lines| && KindOf(lines[j]) == kind
    decreases |lines|
    ensures j in StartIndices(lines, kind)
  {
    if j < |lines| - 1 {
      var pre := lines[..|lines| - 1];
      assert pre[j] == lines[j];
      StartIndicesComplete(pre, kind, j);
    }
  }

  /** The logical entries of one kind, in input order. */
  function EntriesOf(lines: seq<string>, kind: LineKind): seq<string>
  {
    var idx := StartIndices(lines, kind);
    seq(|idx|, i requires 0 <= i < |idx| => LogicalEntry(lines, idx[i]))
  }

  /** The index of the last start line, or -1 when no line holds a `-`. */
  function LastStart(lines: seq<string>): (r: int)
    decreases |lines|
    ensures -1 <= r < |lines|
    ensures r >= 0 ==> KindOf(lines[r]) != Continuation
    ensures forall i :: r < i < |lines| ==> KindOf(lines[i]) == Continuation
  {
    if |lines| == 0 then -1
    else if KindOf(lines[|lines| - 1]) != Continuation then |lines| - 1
    else LastStart(lines[..|lines| - 1])
  }

  /** The mode after the given lines: that of the last start line, `Idle` before any. */
  function ModeAfter(lines: seq<string>): Mode
  {
    var k := LastStart(lines);
    if k < 0 then Idle else ModeOf(KindOf(lines[k]))
  }

  /** No start line at or after index `k`. */
  predicate NoStartFrom(lines: seq<string>, k: nat)
  {
    forall i :: k <= i < |lines| ==> KindOf(lines[i]) == Continuation
  }

  /** The last start line is the last entry of its kind. */
  lemma LastStartIsLastIndex(lines: seq<string>, kind: LineKind)
    requires LastStart(lines) >= 0 && KindOf(lines[LastStart(lines)]) == kind
    ensures |StartIndices(lines, kind)| > 0
    ensures StartIndices(lines, kind)[|StartIndices(lines, kind)| - 1] == LastStart(lines)
  {
    var idx := StartIndices(lines, kind);
    var k := LastStart(lines);
    StartIndicesComplete(lines, kind, k);
    assert k in idx;
    var p :| 0 <= p < |idx| && idx[p] == k;
    assert idx[|idx| - 1] <= k;
    assert p == |idx| - 1;
  }

  /** Appending a line extends the continuation text of the last open entry and of no other. */
  lemma {:induction false} ContinuationAppend(lines: seq<string>, x: string, k: nat)
    requires k <= |lines|
    decreases |lines| - k
    ensures ContinuationFrom(lines + [x], k) == ContinuationFrom(lines, k)
      + (if KindOf(x) == Continuation && NoStartFrom(lines, k) then ContinuationText(x) else "")
  {
    var ext := lines + [x];
    if k == |lines| {
      assert ext[k] == x;
    } else {
      assert ext[k] == lines[k];
      if KindOf(lines[k]) == Continuation {
        ContinuationAppend(lines, x, k + 1);
      }
    }
  }

  /** Appending a line adds its index to the start indices of its kind and to no other. */
  lemma StartIndicesSnoc(pre: seq<string>, x: string, kind: LineKind)
    ensures StartIndices(pre + [x], kind) == StartIndices(pre, kind) + (if KindOf(x) == kind then [|pre|] else [])
  {
    assert (pre + [x])[..|pre|] == pre;
  }

  /** Appending a line extends an existing entry only when it is a continuation of the last one. */
  lemma EntryAfterSnoc(pre: seq<string>, x: string, j: nat)
    requires j < |pre| && KindOf(pre[j]) != Continuation
    ensures LogicalEntry(pre + [x], j) == LogicalEntry(pre, j)
      + (if KindOf(x) == Continuation && j == LastStart(pre) then ContinuationText(x) else "")
  {
    var last := LastStart(pre);
    var ext := pre + [x];
    assert j <= last;
    assert NoStartFrom(pre, j + 1) <==> j == last by {
      if j < last {
        assert KindOf(pre[last]) != Continuation;
      }
    }
    ContinuationAppend(pre, x, j + 1);
    assert ext[j] == pre[j];
    var cf := ContinuationFrom(pre, j + 1);
    if KindOf(x) == Continuation && j == last {
      AppendAssoc(pre[j], cf, ContinuationText(x));
    } else {
      AppendEmpty(cf);
      AppendEmpty(LogicalEntry(pre, j));
    }
  }

  /** A start line of the given kind adds one entry, the line itself. */
  lemma EntriesOfSnocStart(pre: seq<string>, x: string, kind: LineKind)
    requires kind != Continuation && KindOf(x) == kind
    ensures EntriesOf(pre + [x], kind) == EntriesOf(pre, kind) + [x]
  {
    var lines := pre + [x];
    var oldIdx := StartIndices(pre, kind);
    StartIndicesSnoc(pre, x, kind);
    forall i | 0 <= i < |oldIdx|
      ensures LogicalEntry(lines, oldIdx[i]) == LogicalEntry(pre, oldIdx[i])
    {
      EntryAfterSnoc(pre, x, oldIdx[i]);
    }
    assert LogicalEntry(lines, |pre|) == x;
  }

  /** A start line of the other kind leaves the entries of this kind alone. */
  lemma EntriesOfSnocOther(pre: seq<string>, x: string, kind: LineKind)
    requires kind != Continuation && KindOf(x) != kind && KindOf(x) != Continuation
    ensures EntriesOf(pre + [x], kind) == EntriesOf(pre, kind)
  {
    var lines := pre + [x];
    var oldIdx := StartIndices(pre, kind);
    StartIndicesSnoc(pre, x, kind);
    forall i | 0 <= i < |oldIdx|
      ensures LogicalEntry(lines, oldIdx[i]) == LogicalEntry(pre, oldIdx[i])
    {
      EntryAfterSnoc(pre, x, oldIdx[i]);
    }
  }

  /** A continuation line leaves the logical entries of the earlier start lines of a kind alone. */
  lemma EarlierEntriesKept(pre: seq<string>, x: string, kind: LineKind, idx: seq<nat>, n: nat)
    requires kind != Continuation && idx == StartIndices(pre, kind)
    requires n == |idx| > 0 && idx[n - 1] == LastStart(pre)
    ensures forall i :: 0 <= i < n - 1 ==> LogicalEntry(pre + [x], idx[i]) == LogicalEntry(pre, idx[i])
  {
    forall i | 0 <= i < n - 1
      ensures LogicalEntry(pre + [x], idx[i]) == LogicalEntry(pre, idx[i])
    {
      assert idx[i] < idx[n - 1];
      EntryAfterSnoc(pre, x, idx[i]);
    }
  }

  /** A continuation line extends the logical entry of the last start line and no other. */
  lemma OpenEntryGrows(pre: seq<string>, x: string, kind: LineKind)
    requires kind != Continuation && KindOf(x) == Continuation && ModeAfter(pre) == ModeOf(kind)
    ensures |EntriesOf(pre + [x], kind)| == |EntriesOf(pre, kind)| > 0
    ensures forall i :: 0 <= i < |EntriesOf(pre, kind)| - 1 ==>
      EntriesOf(pre + [x], kind)[i] == EntriesOf(pre, kind)[i]
    ensures EntriesOf(pre + [x], kind)[|EntriesOf(pre, kind)| - 1]
      == EntriesOf(pre, kind)[|EntriesOf(pre, kind)| - 1] + ContinuationText(x)
  {
    var lines := pre + [x];
    var idx := StartIndices(pre, kind);
    StartIndicesSnoc(pre, x, kind);
    assert idx + [] == idx;
    assert StartIndices(lines, kind) == idx;
    LastStartIsLastIndex(pre, kind);
    var n := |idx|;
    EarlierEntriesKept(pre, x, kind, idx, n);
    EntryAfterSnoc(pre, x, idx[n - 1]);
    var e, e' := EntriesOf(pre, kind), EntriesOf(lines, kind);
    assert |e| == n && |e'| == n;
    forall i | 0 <= i < n - 1
      ensures e'[i] == e[i]
    {
      assert e'[i] == LogicalEntry(lines, idx[i]);
      assert e[i] == LogicalEntry(pre, idx[i]);
    }
    assert e'[n - 1] == LogicalEntry(lines, idx[n - 1]);
  }

  /** A continuation line extends the last entry of the open kind. */
  lemma EntriesOfSnocOpen(pre: seq<string>, x: string, kind: LineKind)
    requires kind != Continuation && KindOf(x) == Continuation && ModeAfter(pre) == ModeOf(kind)
    ensures |EntriesOf(pre, kind)| > 0
    ensures EntriesOf(pre + [x], kind) == AppendToLast(EntriesOf(pre, kind), ContinuationText(x))
  {
    OpenEntryGrows(pre, x, kind);
    AppendToLastByElements(EntriesOf(pre, kind), EntriesOf(pre + [x], kind), ContinuationText(x), |EntriesOf(pre, kind)|);
  }

  /** A list that agrees with `entries` except that its last element has `text` appended. */
  lemma AppendToLastByElements(entries: seq<string>, r: seq<string>, text: string, n: nat)
    requires |entries| == |r| == n > 0
    requires forall i :: 0 <= i < n - 1 ==> r[i] == entries[i]
    requires r[n - 1] == entries[n - 1] + text
    ensures r == AppendToLast(entries, text)
  {
  }

  /** A continuation line leaves the entries of a kind that is not open alone. */
  lemma EntriesOfSnocClosed(pre: seq<string>, x: string, kind: LineKind)
    requires kind != Continuation && KindOf(x) == Continuation && ModeAfter(pre) != ModeOf(kind)
    ensures EntriesOf(pre + [x], kind) == EntriesOf(pre, kind)
  {
    var lines := pre + [x];
    var idx := StartIndices(pre, kind);
    StartIndicesSnoc(pre, x, kind);
    forall i | 0 <= i < |idx|
      ensures LogicalEntry(lines, idx[i]) == LogicalEntry(pre, idx[i])
    {
      assert KindOf(pre[idx[i]]) == kind;
      EntryAfterSnoc(pre, x, idx[i]);
    }
  }

  /** How appending one line changes the entries of one kind. */
  lemma EntriesOfSnoc(pre: seq<string>, x: string, kind: LineKind)
    requires kind != Continuation
    ensures KindOf(x) == kind ==> EntriesOf(pre + [x], kind) == EntriesOf(pre, kind) + [x]
    ensures KindOf(x) != kind && KindOf(x) != Continuation ==> EntriesOf(pre + [x], kind) == EntriesOf(pre, kind)
    ensures KindOf(x) == Continuation && ModeAfter(pre) == ModeOf(kind) ==>
      |EntriesOf(pre, kind)| > 0
      && EntriesOf(pre + [x], kind) == AppendToLast(EntriesOf(pre, kind), ContinuationText(x))
    ensures KindOf(x) == Continuation && ModeAfter(pre) != ModeOf(kind) ==>
      EntriesOf(pre + [x], kind) == EntriesOf(pre, kind)
  {
    if KindOf(x) == kind {
      EntriesOfSnocStart(pre, x, kind);
    } else if KindOf(x) != Continuation {
      EntriesOfSnocOther(pre, x, kind);
    } else if ModeAfter(pre) == ModeOf(kind) {
      EntriesOfSnocOpen(pre, x, kind);
    } else {
      EntriesOfSnocClosed(pre, x, kind);
    }
  }

  /**
   * The loop computes exactly the logical entries: `usr` holds the entries of the user start
   * lines and `sys` those of the system start lines, each in input order, and the flags end in
   * the mode of the last start line.
   */
  lemma {:induction false} AssembleMatchesEntries(lines: seq<string>)
    decreases |lines|
    ensures Assemble(lines) ==
      Entries(EntriesOf(lines, UserStart), EntriesOf(lines, SystemStart), ModeAfter(lines))
  {
    if |lines| > 0 {
      var pre := lines[..|lines| - 1];
      var x := lines[|lines| - 1];
      assert lines == pre + [x];
      AssembleMatchesEntries(pre);
      EntriesOfSnoc(pre, x, UserStart);
      EntriesOfSnoc(pre, x, SystemStart);
    }
  }

  // ---------------------------------------------------------------------------
  // Consequences
  // ---------------------------------------------------------------------------

  /** The number of lines that hold a `-`. */
  function DashLines(lines: seq<string>): nat
    decreases |lines|
  {
    if |lines| == 0 then 0
    else DashLines(lines[..|lines| - 1]) + (if Contains(lines[|lines| - 1], "-") then 1 else 0)
  }

  /** Every line with a `-` opens exactly one entry: `len(usr) + len(sys)` is the number of such lines. */
  lemma {:induction false} EntryCount(lines: seq<string>)
    decreases |lines|
    ensures |Assemble(lines).usr| + |Assemble(lines).sys| == DashLines(lines)
  {
    if |lines| > 0 {
      EntryCount(lines[..|lines| - 1]);
      KindOfSplit(lines[|lines| - 1]);
    }
  }

  /**
   * A line without `-` changes only the last entry of the kind of the most recent start line,
   * by appending `' ' + line.strip()`; before any start line it is discarded.
   */
  lemma ContinuationChangesOnlyOpenEntry(lines: seq<string>, c: string)
    requires KindOf(c) == Continuation
    ensures Assemble(lines + [c]).mode == Assemble(lines).mode
    ensures LastStart(lines) < 0 ==> Assemble(lines + [c]) == Assemble(lines)
    ensures LastStart(lines) >= 0 && KindOf(lines[LastStart(lines)]) == UserStart ==>
      |Assemble(lines).usr| > 0
      && Assemble(lines + [c]).usr == AppendToLast(Assemble(lines).usr, ContinuationText(c))
      && Assemble(lines + [c]).sys == Assemble(lines).sys
    ensures LastStart(lines) >= 0 && KindOf(lines[LastStart(lines)]) == SystemStart ==>
      |Assemble(lines).sys| > 0
      && Assemble(lines + [c]).sys == AppendToLast(Assemble(lines).sys, ContinuationText(c))
      && Assemble(lines + [c]).usr == Assemble(lines).usr
  {
    var ext := lines + [c];
    assert ext[..|ext| - 1] == lines;
    assert Assemble(ext) == Step(Assemble(lines), c);
    AssembleMatchesEntries(lines);
    var k := LastStart(lines);
    if k >= 0 {
      LastStartIsLastIndex(lines, KindOf(lines[k]));
    }
  }

  /** Lines seen before any line with a `-` are discarded: they leave no trace in the result. */
  lemma {:induction false} LeadingOrphansDiscarded(orphans: seq<string>, rest: seq<string>)
    requires forall i :: 0 <= i < |orphans| ==> KindOf(orphans[i]) == Continuation
    decreases |rest|
    ensures Assemble(orphans + rest) == Assemble(rest)
  {
    if |rest| == 0 {
      assert orphans + rest == orphans;
      OrphansLeaveInitialState(orphans);
    } else {
      var all := orphans + rest;
      assert all[..|all| - 1] == orphans + rest[..|rest| - 1];
      LeadingOrphansDiscarded(orphans, rest[..|rest| - 1]);
    }
  }

  /** Only continuation lines: still no entry and both flags 0. */
  lemma {:induction false} OrphansLeaveInitialState(orphans: seq<string>)
    requires forall i :: 0 <= i < |orphans| ==> KindOf(orphans[i]) == Continuation
    decreases |orphans|
    ensures Assemble(orphans) == Entries([], [], Idle)
  {
    if |orphans| > 0 {
      OrphansLeaveInitialState(orphans[..|orphans| - 1]);
    }
  }

  // ---------------------------------------------------------------------------
  // The loop
  // ---------------------------------------------------------------------------

  /** The mode two flags encode. */
  function FlagMode(s: int, u: int): Mode
  {
    if u == 1 then InUser else if s == 1 then InSystem else Idle
  }

  /** The fold over one more line of a prefix is one more step. */
  lemma AssemblePrefixStep(lines: seq<string>, i: nat)
    requires i < |lines|
    ensures Assemble(lines[..i + 1]) == Step(Assemble(lines[..i]), lines[i])
  {
    assert lines[..i + 1][..i] == lines[..i];
  }

  /**
   * The reassembly loop with its flags `s` and `u`. A continuation indexes `sys[-1]` or
   * `usr[-1]` without testing for an empty list, as chat-anayalzer.py does; the invariants
   * show the list is never empty there, so the extra `and sys` / `and usr` tests of chat_1.py
   * never change the outcome. The flags are never both 1, and after a start line exactly one is.
   */
  method Reassemble(lines: seq<string>) returns (usr: seq<string>, sys: seq<string>, s: int, u: int)
    ensures Assemble(lines) == Entries(usr, sys, FlagMode(s, u))
    ensures usr == EntriesOf(lines, UserStart) && sys == EntriesOf(lines, SystemStart)
    ensures (s == 0 || s == 1) && (u == 0 || u == 1) && !(s == 1 && u == 1)
    ensures (s == 1 || u == 1) <==> LastStart(lines) >= 0
  {
    usr, sys := [], [];
    s, u := 0, 0;
    for i := 0 to |lines|
      invariant Assemble(lines[..i]) == Entries(usr, sys, FlagMode(s, u))
      invariant (s == 0 || s == 1) && (u == 0 || u == 1) && !(s == 1 && u == 1)
      invariant s == 1 ==> |sys| > 0
      invariant u == 1 ==> |usr| > 0
    {
      var line := lines[i];
      AssemblePrefixStep(lines, i);
      KindOfSplit(line);
      if Contains(line, "-") {
        var parts := SplitOnce(line, "-");
        if Contains(parts[1], ":") {
          usr := usr + [line];
          u, s := 1, 0;
        } else {
          sys := sys + [line];
          s, u := 1, 0;
        }
      } else if s == 1 && u == 0 {
        AppendAssoc(sys[|sys| - 1], " ", Strip(line, Whitespace));
        sys := sys[..|sys| - 1] + [sys[|sys| - 1] + " " + Strip(line, Whitespace)];
      } else if s == 0 && u == 1 {
        AppendAssoc(usr[|usr| - 1], " ", Strip(line, Whitespace));
        usr := usr[..|usr| - 1] + [usr[|usr| - 1] + " " + Strip(line, Whitespace)];
      }
    }
    assert lines[..|lines|] == lines;
    AssembleMatchesEntries(lines);
  }
}
