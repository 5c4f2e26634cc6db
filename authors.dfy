/**
 * The "most interactive user" block, the same in both scripts (chat_1.py:127-139,
 * chat-anayalzer.py:74-87): count the messages of each author in `d_0`, then scan `d_0.items()`
 * keeping the first author whose count beats the best so far (`count > max_count`).
 */
module Authors {
  import opened Counting
  import opened Extraction

  /** The `username` field of each message, in message order. */
  function Names(userData: seq<UserMessage>): (r: seq<string>)
    ensures |r| == |userData|
    ensures forall i :: 0 <= i < |userData| ==> r[i] == userData[i].name
  {
    seq(|userData|, i requires 0 <= i < |userData| => userData[i].name)
  }

  /** `for _, _, username, _ in user_data:` counting into `d_0`. */
  method CountAuthors(userData: seq<UserMessage>) returns (d0: Counts<string>)
    ensures d0 == Tally(Names(userData))
    ensures Total(d0) == |userData|
  {
    var names := Names(userData);
    d0 := [];
    for i := 0 to |userData|
      invariant d0 == Tally(names[..i])
    {
      assert names[..i + 1] == names[..i] + [names[i]];
      TallySnoc(names[..i], names[i]);
      var username := userData[i].name;
      var j := IndexOf(d0, username);
      if j >= 0 {
        d0 := d0[j := (username, d0[j].1 + 1)];
      } else {
        d0 := d0 + [(username, 1)];
      }
    }
    assert names[..|userData|] == names;
    TallyTotal(names);
  }

  /**
   * The strict `>` scan over `d_0.items()`: `maxCount` bounds every count, and when it is
   * positive `topUser` is the key of the first slot that reaches it; with no positive count the
   * initial `""` and `0` survive.
   */
  method TopUser(d0: Counts<string>) returns (topUser: string, maxCount: nat)
    ensures maxCount == MaxCount(d0)
    ensures forall i :: 0 <= i < |d0| ==> d0[i].1 <= maxCount
    ensures maxCount == 0 ==> topUser == ""
    ensures maxCount > 0 ==>
      exists j :: 0 <= j < |d0| && d0[j] == (topUser, maxCount) && forall i :: 0 <= i < j ==> d0[i].1 < maxCount
  {
    maxCount := 0;
    topUser := "";
    ghost var at := -1;
    for i := 0 to |d0|
      invariant maxCount == MaxCount(d0[..i])
      invariant forall i' :: 0 <= i' < i ==> d0[i'].1 <= maxCount
      invariant maxCount == 0 <==> at == -1
      invariant maxCount == 0 ==> topUser == ""
      invariant -1 <= at < i
      invariant at >= 0 ==> d0[at] == (topUser, maxCount) && forall i' :: 0 <= i' < at ==> d0[i'].1 < maxCount
    {
      assert d0[..i + 1][..i] == d0[..i];
      var (name, count) := d0[i];
      if count > maxCount {
        maxCount := count;
        topUser := name;
        at := i;
      }
    }
    assert d0[..|d0|] == d0;
  }

  /**
   * On the dictionary the counting loop builds, the first slot reaching the largest count holds
   * the author, among those with that many messages, whose first message came first.
   */
  lemma FirstSlotIsFirstSeen(names: seq<string>, j: nat)
    requires j < |Tally(names)|
    requires forall i :: 0 <= i < j ==> Tally(names)[i].1 < Tally(names)[j].1
    ensures Tally(names)[j].0 in names
    ensures forall a :: a in names && multiset(names)[a] == Tally(names)[j].1 ==>
      a == Tally(names)[j].0 || FirstIndex(names, Tally(names)[j].0) < FirstIndex(names, a)
  {
    var d := Tally(names);
    TallyCounts(names);
    TallyFirstSeen(names);
    forall a | a in names && multiset(names)[a] == d[j].1
      ensures a == d[j].0 || FirstIndex(names, d[j].0) < FirstIndex(names, a)
    {
      var p := IndexOf(d, a);
      assert HasKey(d, a);
      assert d[p].1 == d[j].1;
      if p != j {
        assert p > j;
      }
    }
  }

  /**
   * The badge for the authors `names`: with no messages `""` and 0; otherwise `maxCount` is the
   * largest number of messages by one author and `topUser` the author with that many whose
   * first message comes first.
   */
  predicate MostInteractive(names: seq<string>, topUser: string, maxCount: nat)
  {
    (|names| == 0 ==> topUser == "" && maxCount == 0)
    && (forall a :: a in names ==> multiset(names)[a] <= maxCount)
    && (|names| > 0 ==> topUser in names && multiset(names)[topUser] == maxCount)
    && (|names| > 0 && topUser in names ==> forall a :: a in names && multiset(names)[a] == maxCount ==>
      a == topUser || FirstIndex(names, topUser) < FirstIndex(names, a))
  }

  /** The badge is determined by the authors: no two different badges fit the same messages. */
  lemma MostInteractiveUnique(names: seq<string>, t1: string, m1: nat, t2: string, m2: nat)
    requires MostInteractive(names, t1, m1) && MostInteractive(names, t2, m2)
    ensures t1 == t2 && m1 == m2
  {
    if |names| > 0 {
      assert m1 == m2;
      var i1, i2 := FirstIndex(names, t1), FirstIndex(names, t2);
      assert t1 == t2 || (i1 < i2 && i2 < i1);
    }
  }

  /** The whole block: the badge of the messages' authors, from the counts in `d_0`. */
  method MostInteractiveUser(userData: seq<UserMessage>) returns (d0: Counts<string>, topUser: string, maxCount: nat)
    ensures d0 == Tally(Names(userData)) && Total(d0) == |userData|
    ensures maxCount == MaxCount(d0)
    ensures MostInteractive(Names(userData), topUser, maxCount)
  {
    d0 := CountAuthors(userData);
    topUser, maxCount := TopUser(d0);
    var names := Names(userData);
    TallyCounts(names);
    forall a | a in names
      ensures multiset(names)[a] <= maxCount
    {
      assert HasKey(d0, a);
      assert d0[IndexOf(d0, a)].1 <= maxCount;
    }
    if |userData| > 0 {
      assert names[0] in names;
      assert HasKey(d0, names[0]);
      assert d0[IndexOf(d0, names[0])].1 > 0;
      var j :| 0 <= j < |d0| && d0[j] == (topUser, maxCount) && forall i :: 0 <= i < j ==> d0[i].1 < maxCount;
      FirstSlotIsFirstSeen(names, j);
      IndexOfUnique(d0, j);
    }
  }
}
