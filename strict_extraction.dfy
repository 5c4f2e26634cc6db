/**
 * The field extractor of chat-anayalzer.py (lines 50-65). It splits on EVERY occurrence of
 * `" - "`, `", "` and `": "` and takes pieces 0 and 1 without looking, so an entry that lacks
 * one of the separators makes the script stop with an `IndexError` (stated here as a
 * precondition), and a field ends at the next occurrence of its separator.
 */
module StrictExtraction {
  import opened Optional
  import opened PyStrings
  import opened Extraction

  /** The user loop does not raise: `k.split(' - ')[1]`, `[0].split(', ')[1]` and `[1].split(': ')[1]` exist. */
  predicate UserIndexable(k: string)
  {
    var dtNc := SplitAll(k, " - ");
    |dtNc| >= 2 && |SplitAll(dtNc[0], ", ")| >= 2 && |SplitAll(dtNc[1], ": ")| >= 2
  }

  /** The system loop does not raise: `m1.split(' - ')[1]` and `[0].split(', ')[1]` exist. */
  predicate SystemIndexable(m: string)
  {
    var dtC := SplitAll(m, " - ");
    |dtC| >= 2 && |SplitAll(dtC[0], ", ")| >= 2
  }

  /** One iteration of the user loop of chat-anayalzer.py. */
  function ParseUserStrict(k: string): UserMessage
    requires UserIndexable(k)
  {
    var dtNc := SplitAll(k, " - ");
    var dT := SplitAll(dtNc[0], ", ");
    var nC := SplitAll(dtNc[1], ": ");
    UserMessage(dT[0], dT[1], nC[0], nC[1])
  }

  /** One iteration of the system loop of chat-anayalzer.py. */
  function ParseSystemStrict(m: string): SystemNotice
    requires SystemIndexable(m)
  {
    var dtC := SplitAll(m, " - ");
    var dT := SplitAll(dtC[0], ", ");
    SystemNotice(dT[0], dT[1], dtC[1])
  }

  /** The loop raises exactly when a separator is missing: indexable iff each one is there. */
  lemma UserIndexableIff(k: string)
    ensures UserIndexable(k) <==>
      Contains(k, " - ")
      && Contains(SplitOnce(k, " - ")[0], ", ")
      && Contains(SplitOnce(SplitOnce(k, " - ")[1], " - ")[0], ": ")
  {
    SplitAllFirstPieces(k, " - ");
  }

  /** The system loop raises exactly when `" - "`, or `", "` before it, is missing. */
  lemma SystemIndexableIff(m: string)
    ensures SystemIndexable(m) <==> Contains(m, " - ") && Contains(SplitOnce(m, " - ")[0], ", ")
  {
    SplitAllFirstPieces(m, " - ");
  }

  /**
   * Each field is one piece of a full split, so it holds no further occurrence of its separator:
   * the content stops before a second `": "`, the time before a second `", "`.
   */
  lemma ParseUserStrictFields(k: string)
    requires UserIndexable(k)
    ensures var m := ParseUserStrict(k);
      !Contains(m.date, ", ") && !Contains(m.time, ", ") && !Contains(m.name, ": ") && !Contains(m.content, ": ")
  {
    var dtNc := SplitAll(k, " - ");
    var dT := SplitAll(dtNc[0], ", ");
    var nC := SplitAll(dtNc[1], ": ");
    SplitAllPiecesFree(dtNc[0], ", ");
    SplitAllPiecesFree(dtNc[1], ": ");
  }

  /**
   * Each field of a user message, in terms of the first occurrences of the separators: the
   * segment after the first `" - "` stops at a second `" - "`, the name is its text before the
   * first `": "` and the content runs from there to a second `": "`; the date is the head's text
   * before the first `", "` and the time runs from there to a second `", "`.
   */
  lemma ParseUserStrictExact(k: string)
    requires UserIndexable(k)
    ensures Contains(k, " - ") && Contains(SplitOnce(k, " - ")[0], ", ")
    ensures Contains(SplitOnce(SplitOnce(k, " - ")[1], " - ")[0], ": ")
    ensures var m, dtNc := ParseUserStrict(k), SplitOnce(k, " - ");
      var dT, seg := SplitOnce(dtNc[0], ", "), SplitOnce(dtNc[1], " - ")[0];
      m.date == dT[0] && m.time == SplitOnce(dT[1], ", ")[0]
      && m.name == SplitOnce(seg, ": ")[0] && m.content == SplitOnce(SplitOnce(seg, ": ")[1], ": ")[0]
  {
    UserIndexableIff(k);
    var dtNc := SplitOnce(k, " - ");
    SplitAllFirstPieces(k, " - ");
    SplitAllFirstPieces(dtNc[0], ", ");
    SplitAllFirstPieces(SplitOnce(dtNc[1], " - ")[0], ": ");
  }

  /**
   * A system notice's content is the text between the first and the second `" - "` (or to the
   * end), and its time the text between the first and the second `", "` before it.
   */
  lemma ParseSystemStrictFields(m: string)
    requires SystemIndexable(m)
    ensures var n := ParseSystemStrict(m);
      var dtC := SplitOnce(m, " - ");
      n.content == SplitOnce(dtC[1], " - ")[0]
      && n.date == SplitOnce(dtC[0], ", ")[0]
      && n.time == SplitOnce(SplitOnce(dtC[0], ", ")[1], ", ")[0]
  {
    SplitAllFirstPieces(m, " - ");
    SplitAllFirstPieces(SplitOnce(m, " - ")[0], ", ");
  }

  /**
   * Beside chat_1.py's lenient parser: the strict one accepts only entries the lenient one
   * accepts, finds the same date and name, and its time and content are prefixes of the
   * lenient ones (cut at a second `", "`, `" - "` or `": "`).
   */
  lemma StrictUserIsPrefix(k: string)
    requires UserIndexable(k)
    ensures ParseUser(k).Some?
    ensures var s, l := ParseUserStrict(k), ParseUser(k).value;
      s.date == l.date && s.name == l.name && s.time <= l.time && s.content <= l.content
  {
    var a := SplitOnce(k, " - ");
    SplitAllFirstPieces(k, " - ");
    var b' := SplitOnce(a[1], " - ")[0];
    FirstPieceIsPrefix(a[1], " - ");
    var dt := SplitOnce(a[0], ", ");
    SplitAllFirstPieces(a[0], ", ");
    FirstPieceIsPrefix(dt[1], ", ");
    SplitAllFirstPieces(b', ": ");
    SplitOncePrefix(b', a[1], ": ");
    var nc' := SplitOnce(b', ": ");
    FirstPieceIsPrefix(nc'[1], ": ");
    var s, l := ParseUserStrict(k), ParseUser(k).value;
    assert s.content <= nc'[1];
    assert nc'[1] <= l.content;
  }

  /**
   * When the entry has one `" - "`, its head one `", "` and its content no `": "`, the two
   * parsers give the same message.
   */
  lemma StrictUserAgrees(k: string)
    requires UserIndexable(k)
    requires !Contains(SplitOnce(k, " - ")[1], " - ")
    requires ParseUser(k).Some? && !Contains(ParseUser(k).value.time, ", ") && !Contains(ParseUser(k).value.content, ": ")
    ensures ParseUserStrict(k) == ParseUser(k).value
  {
    StrictUserIsPrefix(k);
    var a := SplitOnce(k, " - ");
    SplitAllFirstPieces(k, " - ");
    var dt := SplitOnce(a[0], ", ");
    SplitAllFirstPieces(a[0], ", ");
    var nc := SplitOnce(a[1], ": ");
    SplitAllFirstPieces(a[1], ": ");
  }

  /** The system parsers agree when the entry has one `" - "` and its head one `", "`. */
  lemma StrictSystemAgrees(m: string)
    requires SystemIndexable(m)
    requires !Contains(SplitOnce(m, " - ")[1], " - ")
    requires ParseSystem(m).Some? && !Contains(ParseSystem(m).value.time, ", ")
    ensures ParseSystemStrict(m) == ParseSystem(m).value
  {
    ParseSystemStrictFields(m);
  }

  // ---------------------------------------------------------------------------
  // The two loops
  // ---------------------------------------------------------------------------

  /** The user loop of chat-anayalzer.py: one message per entry, nothing skipped. */
  method ExtractUsersStrict(usr: seq<string>) returns (userData: seq<UserMessage>)
    requires forall i :: 0 <= i < |usr| ==> UserIndexable(usr[i])
    ensures userData == Mapped(ParseUserStrict, usr)
    ensures |userData| == |usr|
    ensures forall i :: 0 <= i < |usr| ==> userData[i] == ParseUserStrict(usr[i])
  {
    userData := [];
    for i := 0 to |usr|
      invariant userData == Mapped(ParseUserStrict, usr[..i])
    {
      assert usr[..i + 1][..i] == usr[..i];
      var dtNc := SplitAll(usr[i], " - ");
      var dT := SplitAll(dtNc[0], ", ");
      var nC := SplitAll(dtNc[1], ": ");
      var date, time := dT[0], dT[1];
      var name, content := nC[0], nC[1];
      userData := userData + [UserMessage(date, time, name, content)];
    }
    assert usr[..|usr|] == usr;
    MappedAt(ParseUserStrict, usr);
  }

  /** The system loop of chat-anayalzer.py: one notice per entry, nothing skipped. */
  method ExtractSystemsStrict(sys: seq<string>) returns (systemData: seq<SystemNotice>)
    requires forall i :: 0 <= i < |sys| ==> SystemIndexable(sys[i])
    ensures systemData == Mapped(ParseSystemStrict, sys)
    ensures |systemData| == |sys|
    ensures forall i :: 0 <= i < |sys| ==> systemData[i] == ParseSystemStrict(sys[i])
  {
    systemData := [];
    for i := 0 to |sys|
      invariant systemData == Mapped(ParseSystemStrict, sys[..i])
    {
      assert sys[..i + 1][..i] == sys[..i];
      var dtC := SplitAll(sys[i], " - ");
      var dT := SplitAll(dtC[0], ", ");
      var content := dtC[1];
      var date, time := dT[0], dT[1];
      systemData := systemData + [SystemNotice(date, time, content)];
    }
    assert sys[..|sys|] == sys;
    MappedAt(ParseSystemStrict, sys);
  }
}
