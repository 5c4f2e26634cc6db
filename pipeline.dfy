/**
 * The analysis each script runs on an uploaded export, from its lines to the values the page
 * shows: reassembly, field extraction, the most interactive user, the most used words and the
 * messages-over-time series. chat_1.py (lines 47-261) skips what it cannot read;
 * chat-anayalzer.py (lines 28-179) stops on it, which is stated here as preconditions.
 */
module Pipeline {
  import opened Optional
  import opened PyStrings
  import opened Reassembly
  import opened Extraction
  import opened StrictExtraction
  import opened Counting
  import opened Authors
  import opened WordStats
  import opened Timestamps
  import opened Timeline

  /** The words that are counted: the filtered tokens of the joined non-media contents. */
  function ChatWords(userData: seq<UserMessage>): seq<string>
  {
    FilterWords(Words(MessageText(userData)))
  }

  /**
   * The values the page shows, apart from the timeline: both record lists, the author counts
   * `d_0` behind the messages-per-user chart, the top user badge and the top words.
   */
  datatype Summary = Summary(
    userData: seq<UserMessage>,
    systemData: seq<SystemNotice>,
    d0: Counts<string>,
    topUser: string,
    maxCount: nat,
    mostUsedWords: seq<string>,
    maxWordCount: nat)

  /**
   * The shared statistics over the extracted messages: the author counts, the badge (the
   * author with the most messages, the earliest writer among those tied), and the top words.
   */
  method Statistics(userData: seq<UserMessage>) returns (d0: Counts<string>, topUser: string, maxCount: nat, mostUsedWords: seq<string>, maxWordCount: nat)
    ensures d0 == Tally(Names(userData)) && Total(d0) == |userData|
    ensures maxCount == MaxCount(d0)
    ensures MostInteractive(Names(userData), topUser, maxCount)
    ensures maxWordCount == MaxCount(Tally(ChatWords(userData)))
    ensures mostUsedWords == KeysWithCount(Tally(ChatWords(userData)), maxWordCount)
  {
    d0, topUser, maxCount := MostInteractiveUser(userData);
    var messageText := BuildMessageText(userData);
    var words := CollectWords(messageText);
    var wordDict := CountEach(words);
    maxWordCount, mostUsedWords := TopWords(wordDict);
  }

  /**
   * chat_1.py: never stops; at most one message or notice per line holding a `-`, and `None`
   * for the timeline exactly when no message has a readable timestamp.
   */
  method AnalyzeLenient(lines: seq<string>) returns (summary: Summary, series: Option<(seq<DateTime>, seq<nat>)>)
    ensures summary.userData == UserRecords(EntriesOf(lines, UserStart))
    ensures summary.systemData == SystemRecords(EntriesOf(lines, SystemStart))
    ensures |summary.userData| + |summary.systemData| <= DashLines(lines)
    ensures summary.d0 == Tally(Names(summary.userData))
    ensures MostInteractive(Names(summary.userData), summary.topUser, summary.maxCount)
    ensures summary.maxWordCount == MaxCount(Tally(ChatWords(summary.userData)))
    ensures summary.mostUsedWords == KeysWithCount(Tally(ChatWords(summary.userData)), summary.maxWordCount)
    ensures series.None? <==> CountSome(MessageTime, summary.userData) == 0
    ensures series.Some? ==> series.value == HourlySeries(Kept(MessageTime, summary.userData))
  {
    var usr, sys, s, u := Reassemble(lines);
    EntryCount(lines);
    var userData := ExtractUsers(usr);
    var systemData := ExtractSystems(sys);
    var d0, topUser, maxCount, mostUsedWords, maxWordCount := Statistics(userData);
    summary := Summary(userData, systemData, d0, topUser, maxCount, mostUsedWords, maxWordCount);
    series := MessagesOverTime(userData);
  }

  /**
   * chat-anayalzer.py runs to the end on these entries: every user entry has its three
   * separators and a timestamp `strptime` accepts, and every system entry its two separators.
   */
  predicate StrictReadable(usr: seq<string>, sys: seq<string>)
  {
    (forall i :: 0 <= i < |usr| ==> UserIndexable(usr[i]) && MessageTime(ParseUserStrict(usr[i])).Some?)
    && forall i :: 0 <= i < |sys| ==> SystemIndexable(sys[i])
  }

  /** chat-anayalzer.py after reassembly: one record per entry, one timestamp counted per message. */
  method AnalyzeEntriesStrict(usr: seq<string>, sys: seq<string>) returns (summary: Summary, sortedTimes: seq<DateTime>, timelineCounts: seq<nat>)
    requires StrictReadable(usr, sys)
    ensures |summary.userData| == |usr| && |summary.systemData| == |sys|
    ensures forall i :: 0 <= i < |usr| ==> summary.userData[i] == ParseUserStrict(usr[i])
    ensures forall i :: 0 <= i < |sys| ==> summary.systemData[i] == ParseSystemStrict(sys[i])
    ensures summary.d0 == Tally(Names(summary.userData))
    ensures MostInteractive(Names(summary.userData), summary.topUser, summary.maxCount)
    ensures summary.maxWordCount == MaxCount(Tally(ChatWords(summary.userData)))
    ensures summary.mostUsedWords == KeysWithCount(Tally(ChatWords(summary.userData)), summary.maxWordCount)
    ensures (sortedTimes, timelineCounts) == HourlySeries(Kept(MessageTime, summary.userData))
    ensures Sum(timelineCounts) == |usr|
  {
    var userData := ExtractUsersStrict(usr);
    var systemData := ExtractSystemsStrict(sys);
    forall i | 0 <= i < |userData|
      ensures MessageTime(userData[i]).Some?
    {
      assert userData[i] == ParseUserStrict(usr[i]);
    }
    sortedTimes, timelineCounts := MessagesOverTimeStrict(userData);
    var d0, topUser, maxCount, mostUsedWords, maxWordCount := Statistics(userData);
    summary := Summary(userData, systemData, d0, topUser, maxCount, mostUsedWords, maxWordCount);
  }

  /**
   * chat-anayalzer.py, for an export on which it does not stop: exactly one message or notice
   * per line holding a `-`, and one timestamp counted per message.
   */
  method AnalyzeStrict(lines: seq<string>) returns (summary: Summary, sortedTimes: seq<DateTime>, timelineCounts: seq<nat>)
    requires StrictReadable(EntriesOf(lines, UserStart), EntriesOf(lines, SystemStart))
    ensures |summary.userData| == |EntriesOf(lines, UserStart)| && |summary.systemData| == |EntriesOf(lines, SystemStart)|
    ensures forall i :: 0 <= i < |summary.userData| ==> summary.userData[i] == ParseUserStrict(EntriesOf(lines, UserStart)[i])
    ensures forall i :: 0 <= i < |summary.systemData| ==> summary.systemData[i] == ParseSystemStrict(EntriesOf(lines, SystemStart)[i])
    ensures |summary.userData| + |summary.systemData| == DashLines(lines)
    ensures summary.d0 == Tally(Names(summary.userData))
    ensures MostInteractive(Names(summary.userData), summary.topUser, summary.maxCount)
    ensures summary.maxWordCount == MaxCount(Tally(ChatWords(summary.userData)))
    ensures summary.mostUsedWords == KeysWithCount(Tally(ChatWords(summary.userData)), summary.maxWordCount)
    ensures (sortedTimes, timelineCounts) == HourlySeries(Kept(MessageTime, summary.userData))
    ensures Sum(timelineCounts) == |summary.userData|
  {
    var usr, sys, s, u := Reassemble(lines);
    EntryCount(lines);
    summary, sortedTimes, timelineCounts := AnalyzeEntriesStrict(usr, sys);
  }
}
