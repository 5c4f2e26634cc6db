/**
 * The "most used words" block, the same in both scripts (chat_1.py:174-222,
 * chat-anayalzer.py:110-153). Non-media message contents are lowercased and joined with spaces,
 * the text is split on whitespace, each token is stripped of ASCII punctuation, empty tokens
 * and stop words are dropped, the rest are counted, and every word tied at the top count is kept.
 */
module WordStats {
  import opened Optional
  import opened PyStrings
  import opened Counting
  import opened Extraction

  /** `stop_words`: the same 87 words in both scripts. */
  const StopWords: set<string> := {
    "a", "as", "an", "the", "am", "is", "are", "was", "were", "be", "been", "being",
    "i", "me", "my", "mine", "myself", "you", "your", "yours",
    "he", "him", "his", "she", "her", "hers", "it", "its",
    "we", "us", "our", "ours", "they", "them", "their", "theirs",
    "and", "or", "but", "nor", "so", "yet", "because",
    "to", "of", "in", "on", "for", "with", "at", "by", "from",
    "this", "that", "these", "those",
    "do", "does", "did", "have", "has", "had",
    "can", "could", "will", "would", "should", "may", "might", "must",
    "very", "just", "really", "also", "quite", "too", "enough",
    "who", "whom", "whose", "which", "what", "while", "when", "where", "why", "how"
  }

  /** `media_phrases`: the placeholders an export writes instead of an attachment. */
  const MediaPhrases: seq<string> := ["<media omitted>", "<image omitted>", "<video omitted>", "<sticker omitted>"]

  // ---------------------------------------------------------------------------
  // message_text
  // ---------------------------------------------------------------------------

  /** The lowercased content of a message, or `None` when it is exactly a media placeholder. */
  function TextOf(u: UserMessage): Option<string>
  {
    var msg := Lower(u.content);
    if msg in MediaPhrases then None else Some(msg)
  }

  /** `message_text` after the loop over `user_data`: `" " + msg` for each non-media message. */
  function MessageText(userData: seq<UserMessage>): string
    decreases |userData|
  {
    if |userData| == 0 then ""
    else
      var before := MessageText(userData[..|userData| - 1]);
      match TextOf(userData[|userData| - 1])
      case Some(msg) => before + " " + msg
      case None => before
  }

  /** The words of several texts, one text after the other. */
  function WordsOfAll(texts: seq<string>): seq<string>
    decreases |texts|
  {
    if |texts| == 0 then [] else WordsOfAll(texts[..|texts| - 1]) + Words(texts[|texts| - 1])
  }

  /**
   * Splitting the joined text gives the words of each non-media message in message order:
   * the separating spaces never glue two messages' words together, and a media message adds
   * no word.
   */
  lemma {:induction false} MessageTextWords(userData: seq<UserMessage>)
    decreases |userData|
    ensures Words(MessageText(userData)) == WordsOfAll(Kept(TextOf, userData))
  {
    if |userData| > 0 {
      var pre := userData[..|userData| - 1];
      MessageTextWords(pre);
      var before := MessageText(pre);
      match TextOf(userData[|userData| - 1])
      case Some(msg) =>
        WordsOfJoin(before, ' ', msg);
        var texts := Kept(TextOf, pre) + [msg];
        assert texts[..|texts| - 1] == Kept(TextOf, pre);
      case None =>
    }
  }

  /** A message whose lowercased content is a media placeholder leaves `message_text` unchanged. */
  lemma MediaAddsNothing(userData: seq<UserMessage>, u: UserMessage)
    requires Lower(u.content) in MediaPhrases
    ensures MessageText(userData + [u]) == MessageText(userData)
  {
    assert (userData + [u])[..|userData|] == userData;
  }

  /** A media message leaves `message_text` unchanged wherever it sits among the messages. */
  lemma {:induction false} MediaAnywhere(a: seq<UserMessage>, u: UserMessage, b: seq<UserMessage>)
    requires Lower(u.content) in MediaPhrases
    decreases |b|
    ensures MessageText(a + [u] + b) == MessageText(a + b)
  {
    if |b| == 0 {
      assert a + [u] + b == a + [u] && a + b == a;
      MediaAddsNothing(a, u);
    } else {
      var b' := b[..|b| - 1];
      MediaAnywhere(a, u, b');
      assert (a + [u] + b)[..|a| + 1 + |b'|] == a + [u] + b';
      assert (a + b)[..|a| + |b'|] == a + b';
      assert (a + [u] + b)[|a| + |b|] == b[|b| - 1] == (a + b)[|a| + |b| - 1];
    }
  }

  /** The `message_text` loop. */
  method BuildMessageText(userData: seq<UserMessage>) returns (messageText: string)
    ensures messageText == MessageText(userData)
  {
    messageText := "";
    for i := 0 to |userData|
      invariant messageText == MessageText(userData[..i])
    {
      assert userData[..i + 1][..i] == userData[..i];
      var msg := Lower(userData[i].content);
      if msg !in MediaPhrases {
        messageText := messageText + " " + msg;
      }
    }
    assert userData[..|userData|] == userData;
  }

  // ---------------------------------------------------------------------------
  // words
  // ---------------------------------------------------------------------------

  /** A token stripped of punctuation, or `None` when what is left is empty or a stop word. */
  function CleanWord(token: string): Option<string>
  {
    var w := Strip(token, Punctuation);
    if w != "" && w !in StopWords then Some(w) else None
  }

  /**
   * The list comprehension of chat-anayalzer.py:136: `w.strip(string.punctuation)` for each
   * token whose stripped form is not a stop word and not empty.
   */
  function FilterWords(tokens: seq<string>): seq<string>
  {
    Kept(CleanWord, tokens)
  }

  /** What a kept word is: non-empty, not a stop word, neither starting nor ending with punctuation. */
  lemma CleanWordShape(token: string)
    requires CleanWord(token).Some?
    ensures var w := CleanWord(token).value;
      w != "" && w !in StopWords && w[0] !in Punctuation && w[|w| - 1] !in Punctuation
      && w == Strip(token, Punctuation)
  {
    StripSpec(token, Punctuation);
  }

  /**
   * Every counted word is non-empty, not a stop word and has no punctuation at either end, and
   * it is the stripped form of some token; conversely every token whose stripped form passes
   * the test is counted.
   */
  lemma FilterWordsClean(tokens: seq<string>)
    ensures forall i :: 0 <= i < |FilterWords(tokens)| ==>
      var w := FilterWords(tokens)[i];
      w != "" && w !in StopWords && w[0] !in Punctuation && w[|w| - 1] !in Punctuation
    ensures forall i :: 0 <= i < |FilterWords(tokens)| ==>
      exists j :: 0 <= j < |tokens| && Strip(tokens[j], Punctuation) == FilterWords(tokens)[i]
    ensures forall j :: 0 <= j < |tokens| && Strip(tokens[j], Punctuation) != "" && Strip(tokens[j], Punctuation) !in StopWords ==>
      Strip(tokens[j], Punctuation) in FilterWords(tokens)
    ensures |FilterWords(tokens)| <= |tokens|
  {
    var ws := FilterWords(tokens);
    KeptFrom(CleanWord, tokens);
    KeptHas(CleanWord, tokens);
    KeptCount(CleanWord, tokens);
    forall i | 0 <= i < |ws|
      ensures var w := ws[i];
        w != "" && w !in StopWords && w[0] !in Punctuation && w[|w| - 1] !in Punctuation
      ensures exists j :: 0 <= j < |tokens| && Strip(tokens[j], Punctuation) == ws[i]
    {
      var j :| 0 <= j < |tokens| && CleanWord(tokens[j]) == Some(ws[i]);
      CleanWordShape(tokens[j]);
    }
  }

  /** The `words` loop of chat_1.py: strip each token, keep it if non-empty and not a stop word. */
  method CollectWords(messageText: string) returns (words: seq<string>)
    ensures words == FilterWords(Words(messageText))
  {
    var tokens := Words(messageText);
    words := [];
    for i := 0 to |tokens|
      invariant words == FilterWords(tokens[..i])
    {
      assert tokens[..i + 1][..i] == tokens[..i];
      var w := Strip(tokens[i], Punctuation);
      if w != "" && w !in StopWords {
        words := words + [w];
      }
    }
    assert tokens[..|tokens|] == tokens;
  }

  // ---------------------------------------------------------------------------
  // most_used_words
  // ---------------------------------------------------------------------------

  /**
   * The scan over `word_dict.items()`: a larger count restarts the list with the word, an
   * equal count appends it. It ends with the largest count and the words holding it, in
   * dictionary order.
   */
  method TopWords(wordDict: Counts<string>) returns (maxWordCount: nat, mostUsedWords: seq<string>)
    ensures maxWordCount == MaxCount(wordDict)
    ensures mostUsedWords == KeysWithCount(wordDict, maxWordCount)
  {
    maxWordCount := 0;
    mostUsedWords := [];
    for i := 0 to |wordDict|
      invariant maxWordCount == MaxCount(wordDict[..i])
      invariant mostUsedWords == KeysWithCount(wordDict[..i], maxWordCount)
    {
      var pre := wordDict[..i];
      assert wordDict[..i + 1][..i] == pre;
      var (word, count) := wordDict[i];
      if count > maxWordCount {
        MaxCountIsMax(pre);
        KeysWithCountAbove(pre, count);
        maxWordCount := count;
        mostUsedWords := [word];
      } else if count == maxWordCount {
        mostUsedWords := mostUsedWords + [word];
      }
    }
    assert wordDict[..|wordDict|] == wordDict;
  }

  /** On the dictionary the counting loop builds, no word occurs more often than the top count. */
  lemma TopCountBounds(words: seq<string>)
    ensures forall w :: w in words ==> multiset(words)[w] <= MaxCount(Tally(words))
    ensures |words| > 0 ==> MaxCount(Tally(words)) > 0
  {
    var d := Tally(words);
    TallyCounts(words);
    MaxCountIsMax(d);
    forall w | w in words
      ensures 0 < multiset(words)[w] <= MaxCount(d)
    {
      assert HasKey(d, w);
      assert d[IndexOf(d, w)].1 == multiset(words)[w];
    }
    if |words| > 0 {
      assert words[0] in words;
    }
  }

  /** The top words are exactly the words that occur the top number of times. */
  lemma TopWordsAreMostFrequent(words: seq<string>)
    ensures forall w :: w in KeysWithCount(Tally(words), MaxCount(Tally(words))) <==>
      w in words && multiset(words)[w] == MaxCount(Tally(words))
  {
    var d := Tally(words);
    var m := MaxCount(d);
    TallyCounts(words);
    KeysWithCountSlots(d, m);
    forall w | w in words && multiset(words)[w] == m
      ensures w in KeysWithCount(d, m)
    {
      assert HasKey(d, w);
      var p := IndexOf(d, w);
      assert d[p].1 == m;
    }
    forall w | w in KeysWithCount(d, m)
      ensures w in words && multiset(words)[w] == m
    {
      var i :| 0 <= i < |d| && d[i] == (w, m);
      IndexOfUnique(d, i);
    }
  }

  /** The top words are listed once each, in the order of their first use. */
  lemma TopWordsInFirstUseOrder(words: seq<string>)
    ensures var top := KeysWithCount(Tally(words), MaxCount(Tally(words)));
      forall i, j :: 0 <= i < j < |top| ==> top[i] != top[j] && FirstSeenBefore(words, top[i], top[j])
  {
    var d := Tally(words);
    var m := MaxCount(d);
    TallyDistinct(words);
    KeysWithCountDistinct(d, m);
    TallyFirstSeen(words);
    KeysWithCountKeepsOrder(d, m, (a, b) => FirstSeenBefore(words, a, b));
  }
}
