/**
 * The lenient field extractor of chat_1.py (lines 81-113). Each reassembled entry is cut
 * with `split(sep, 1)`, first on `" - "`, then its head on `", "` and, for a user entry,
 * its tail on `": "`. An entry without `" - "`, or whose head has no `", "`, is skipped.
 */
module Extraction {
  import opened Optional
  import opened PyStrings

  /** The tuple `(date, time_, name, content)` appended to `user_data`. */
  datatype UserMessage = UserMessage(date: string, time: string, name: string, content: string)

  /** The tuple `(date, time_, content)` appended to `system_data`. */
  datatype SystemNotice = SystemNotice(date: string, time: string, content: string)

  /**
   * One iteration of the user loop: `None` where the loop takes `continue`, that is when the
   * entry has no `" - "` or the text before its first `" - "` has no `", "`.
   */
  function ParseUser(k: string): (r: Option<UserMessage>)
    ensures r.Some? <==> Contains(k, " - ") && Contains(SplitOnce(k, " - ")[0], ", ")
  {
    var dtNc := SplitOnce(k, " - ");
    if |dtNc| != 2 then None
    else
      var dT := SplitOnce(dtNc[0], ", ");
      if |dT| != 2 then None
      else
        var nC := SplitOnce(dtNc[1], ": ");
        Some(UserMessage(dT[0], dT[1], nC[0], if |nC| == 2 then nC[1] else ""))
  }

  /**
   * Where an accepted user entry is cut: the date runs to the first `", "`, the time from there
   * to the first `" - "`, and the name to the first `": "` after it, if any.
   */
  lemma ParseUserCuts(k: string)
    requires ParseUser(k).Some?
    ensures var m := ParseUser(k).value;
      CutsAt(m.date, ", ") && CutsAt(m.date + ", " + m.time, " - ")
      && (Contains(SplitOnce(k, " - ")[1], ": ") ==> CutsAt(m.name, ": "))
      && (!Contains(SplitOnce(k, " - ")[1], ": ") ==> !Contains(m.name, ": ") && m.content == "")
  {
    var dtNc := SplitOnce(k, " - ");
    SplitOnceFirst(k, " - ");
    SplitOnceFirst(dtNc[0], ", ");
    SplitOnceFirst(dtNc[1], ": ");
    var dT := SplitOnce(dtNc[0], ", ");
    assert dtNc[0] == dT[0] + ", " + dT[1];
  }

  /**
   * The fields of an accepted user entry lose nothing: they join back into the entry, with
   * `": "` between name and content when the entry has one after its first `" - "`.
   */
  lemma ParseUserJoin(k: string)
    requires ParseUser(k).Some?
    ensures var m := ParseUser(k).value;
      if Contains(SplitOnce(k, " - ")[1], ": ") then k == m.date + ", " + m.time + " - " + m.name + ": " + m.content
      else k == m.date + ", " + m.time + " - " + m.name
  {
    var dtNc := SplitOnce(k, " - ");
    var dT := SplitOnce(dtNc[0], ", ");
    var nC := SplitOnce(dtNc[1], ": ");
    var head := dT[0] + ", " + dT[1] + " - ";
    assert k == head + dtNc[1];
    if |nC| == 2 {
      assert dtNc[1] == nC[0] + ": " + nC[1];
      AppendAssoc(head, nC[0] + ": ", nC[1]);
      AppendAssoc(head, nC[0], ": ");
    }
  }

  /** One iteration of the system loop: `None` where the loop takes `continue`. */
  function ParseSystem(m: string): (r: Option<SystemNotice>)
    ensures r.Some? <==> Contains(m, " - ") && Contains(SplitOnce(m, " - ")[0], ", ")
  {
    var dtC := SplitOnce(m, " - ");
    if |dtC| != 2 then None
    else
      var dT := SplitOnce(dtC[0], ", ");
      if |dT| != 2 then None
      else Some(SystemNotice(dT[0], dT[1], dtC[1]))
  }

  /** The fields of an accepted system entry: the content is everything after the first `" - "`. */
  lemma ParseSystemFields(m: string)
    requires ParseSystem(m).Some?
    ensures var n := ParseSystem(m).value;
      CutsAt(n.date, ", ") && CutsAt(n.date + ", " + n.time, " - ")
      && m == n.date + ", " + n.time + " - " + n.content
  {
    var dtC := SplitOnce(m, " - ");
    var n := ParseSystem(m).value;
    SplitOnceFirst(m, " - ");
    SplitOnceFirst(dtC[0], ", ");
    assert dtC[0] == n.date + ", " + n.time;
  }

  /** The line an export writes for a user message. */
  function UserLine(m: UserMessage): string
  {
    m.date + ", " + m.time + " - " + m.name + ": " + m.content
  }

  /** The line an export writes for a system notice. */
  function SystemLine(n: SystemNotice): string
  {
    n.date + ", " + n.time + " - " + n.content
  }

  /**
   * Parsing undoes formatting whenever the separators first occur where the format puts them;
   * the content may itself hold `": "` or `" - "`.
   */
  lemma ParseUserLine(m: UserMessage)
    requires CutsAt(m.date, ", ") && CutsAt(m.date + ", " + m.time, " - ") && CutsAt(m.name, ": ")
    ensures ParseUser(UserLine(m)) == Some(m)
  {
    var dt := m.date + ", " + m.time;
    var nc := m.name + ": " + m.content;
    assert UserLine(m) == dt + " - " + nc;
    SplitOnceJoin(dt, " - ", nc);
    SplitOnceJoin(m.date, ", ", m.time);
    SplitOnceJoin(m.name, ": ", m.content);
  }

  /** The same for system notices. */
  lemma ParseSystemLine(n: SystemNotice)
    requires CutsAt(n.date, ", ") && CutsAt(n.date + ", " + n.time, " - ")
    ensures ParseSystem(SystemLine(n)) == Some(n)
  {
    var dt := n.date + ", " + n.time;
    SplitOnceJoin(dt, " - ", n.content);
    SplitOnceJoin(n.date, ", ", n.time);
  }

  /**
   * Text glued onto a user entry whose name already ends at a `": "` extends only the content:
   * this is how a continuation line becomes part of the message.
   */
  lemma ParseUserExtendsContent(k: string, t: string)
    requires ParseUser(k).Some? && Contains(SplitOnce(k, " - ")[1], ": ")
    ensures ParseUser(k + t) == Some(ParseUser(k).value.(content := ParseUser(k).value.content + t))
  {
    var dtNc := SplitOnce(k, " - ");
    SplitOnceAppend(k, t, " - ");
    SplitOnceAppend(dtNc[1], t, ": ");
  }

  /** The same for system notices: the text lands in the content. */
  lemma ParseSystemExtendsContent(m: string, t: string)
    requires ParseSystem(m).Some?
    ensures ParseSystem(m + t) == Some(ParseSystem(m).value.(content := ParseSystem(m).value.content + t))
  {
    SplitOnceAppend(m, t, " - ");
  }

  // ---------------------------------------------------------------------------
  // The two loops
  // ---------------------------------------------------------------------------

  /** The records the user loop keeps, in entry order. */
  function UserRecords(usr: seq<string>): seq<UserMessage>
  {
    Kept(ParseUser, usr)
  }

  /** The records the system loop keeps, in entry order. */
  function SystemRecords(sys: seq<string>): seq<SystemNotice>
  {
    Kept(ParseSystem, sys)
  }

  /** The user loop of chat_1.py: three `split(sep, 1)` calls and two `continue`s. */
  method ExtractUsers(usr: seq<string>) returns (userData: seq<UserMessage>)
    ensures userData == UserRecords(usr)
    ensures |userData| <= |usr|
  {
    userData := [];
    for i := 0 to |usr|
      invariant userData == UserRecords(usr[..i])
    {
      assert usr[..i + 1][..i] == usr[..i];
      var k := usr[i];
      var dtNc := SplitOnce(k, " - ");
      if |dtNc| != 2 {
        continue;
      }
      var dT := SplitOnce(dtNc[0], ", ");
      if |dT| != 2 {
        continue;
      }
      var nC := SplitOnce(dtNc[1], ": ");
      var date, time := dT[0], dT[1];
      var name := nC[0];
      var content := if |nC| == 2 then nC[1] else "";
      userData := userData + [UserMessage(date, time, name, content)];
    }
    assert usr[..|usr|] == usr;
    KeptCount(ParseUser, usr);
  }

  /** The system loop of chat_1.py. */
  method ExtractSystems(sys: seq<string>) returns (systemData: seq<SystemNotice>)
    ensures systemData == SystemRecords(sys)
    ensures |systemData| <= |sys|
  {
    systemData := [];
    for i := 0 to |sys|
      invariant systemData == SystemRecords(sys[..i])
    {
      assert sys[..i + 1][..i] == sys[..i];
      var m := sys[i];
      var dtC := SplitOnce(m, " - ");
      if |dtC| != 2 {
        continue;
      }
      var dT := SplitOnce(dtC[0], ", ");
      if |dT| != 2 {
        continue;
      }
      var date, time := dT[0], dT[1];
      var content := dtC[1];
      systemData := systemData + [SystemNotice(date, time, content)];
    }
    assert sys[..|sys|] == sys;
    KeptCount(ParseSystem, sys);
  }
}
