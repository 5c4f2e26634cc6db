# Chat analyzer: a verified model of the analysis core

The repository holds two near-identical Streamlit scripts, `chat_1.py` and `chat-anayalzer.py`.
Each reads an exported WhatsApp chat and displays the parsed user and system records (two
expanders), a messages-per-user chart of the author counts `d_0`, a most-interactive-user badge, the
most used words and a messages-over-time line. `Pipeline.Summary` carries everything but the
timeline, which the pipeline returns beside it. This project models the logic between the UI calls
as a pipeline of five stages, and proves what each stage computes.

1. **Line reassembler** (`Reassembly`). Both scripts share it. A line holding `-` opens an entry.
   The entry is a user entry when the text after the first `-` holds `:`, and a system entry
   otherwise. Any other line is stripped, prefixed with one space and glued onto the last entry of
   the kind the flags `s`/`u` name. `Reassemble` is the loop with its list updates and flags.
   `Assemble` is the same loop as a fold. `EntriesOf` describes the result independently: a start
   line followed by the continuation lines up to the next start line.
2. **Field extractors.** There are two, because the scripts differ here.
   - `Extraction` models `chat_1.py`. It splits once on `" - "`, `", "` and `": "`, and skips
     malformed entries.
   - `StrictExtraction` models `chat-anayalzer.py`. It takes piece 0 or 1 of *full* splits, so a
     field stops at a second separator. Its `IndexError` on a missing separator becomes a
     precondition.
3. **Dictionaries** (`Counting`). A Python dict is modelled as an insertion-ordered sequence of
   `(key, count)` pairs. `Tally` is the dict the counting loops build. `MaxCount` and
   `KeysWithCount` describe the results of the two max scans.
4. **Aggregators.** `Authors` gives the top user: the scan with a strict `>` keeps the author whose
   first message came first. `WordStats` gives the message text, the word filter and every word tied
   at the top count. `Timestamps` and `Timeline` parse `"%d/%m/%Y %I:%M %p"`, truncate each time to
   its hour, count the hours and sort them.
5. **Whole scripts** (`Pipeline`). `AnalyzeLenient` is `chat_1.py`. `AnalyzeStrict` is
   `chat-anayalzer.py`, restricted to exports on which it does not raise.

Support modules:
- `PyStrings` models the Python string operations the scripts use: `in`, `split(sep, 1)`,
  `split(sep)`, `strip(chars)`, `lower()` and `split()`.
- `Optional` provides `Option` and the skip-on-failure map `Kept`.

### How the two scripts differ, as the model shows
- **Reassembly.** `chat_1.py` also tests `and sys` / `and usr` before gluing a continuation line
  (chat_1.py:69, 71). `Reassemble` keeps the loop invariant `s == 1 ==> |sys| > 0` (and the same
  for `u`), so these guards are always true there. One method therefore models both loops.
- **User entries.** For `"D, T - A: C"`, `chat_1.py` gives content `C` whole, even when `C` holds
  `": "` or `" - "`. `chat-anayalzer.py` cuts the content at the next `": "` and the segment at the
  next `" - "`. `ParseUserStrictExact` states each cut, `StrictUserIsPrefix` compares
  the two parsers and `StrictUserAgrees` says when their results are equal.
- **Timestamps.** `chat_1.py` skips a message whose timestamp does not parse, and draws no
  timeline when none parses. `chat-anayalzer.py` raises instead, and always builds the (possibly
  empty) series.

## Model

| member | source | states |
|---|---|---|
| PyStrings.ContainsIff | chat_1.py:55 | `sep in s` holds exactly when `sep` occurs at some index of `s` |
| PyStrings.SplitOnce | chat_1.py:82 | `split(sep, 1)`: two pieces exactly when `sep` occurs, and they join back around `sep` into `s`; otherwise the one piece is `s` |
| PyStrings.SplitOnceFirst | chat_1.py:86 | the first piece of `split(sep, 1)` holds no `sep`, so the cut is at the first occurrence |
| PyStrings.SplitOnceJoin | chat_1.py:82 | splitting `a + sep + b` once gives back `[a, b]` when `a` holds no `sep` (even across the seam) |
| PyStrings.SplitAllPiecesFree | chat-anayalzer.py:51-53 | no piece of the full `split(sep)` holds `sep` |
| PyStrings.SplitAllJoin | chat-anayalzer.py:51 | the pieces of the full split, joined with `sep`, give back the string |
| PyStrings.SplitAllFirstPieces | chat-anayalzer.py:51-53 | the full split has a second piece exactly when `sep` occurs; piece 0 is the first piece of `split(sep, 1)` and piece 1 is the text up to the next `sep` |
| PyStrings.StripSpec | chat_1.py:203 | `strip(chars)` keeps one connected slice of the string, removes only characters of the set, and leaves no such character at either end |
| PyStrings.StripIdempotent | chat_1.py:203 | stripping twice is the same as stripping once |
| PyStrings.LowerSpec | chat_1.py:197 | ASCII `lower()` leaves no upper-case letter, turns each one into its lower-case letter, keeps every other character, and is idempotent |
| PyStrings.WordsOfToken | chat_1.py:202 | `split()` gives a text without whitespace back as its one word, and gives no word for the empty text |
| PyStrings.WordsOfJoin | chat_1.py:199-202 | `split()` cuts at every whitespace character: the words of `a + [c] + b` are those of `a` followed by those of `b`, so the space `message_text` puts between messages never merges their words |
| PyStrings.WordsDetermined | chat_1.py:202 | the two laws above determine `split()`: any function on strings that obeys both equals `Words` on every text |
| Reassembly.KindOfSplit | chat_1.py:55-60 | the classification is the loop's test: no `-` is a continuation; otherwise a user start iff `:` occurs in `split('-', 1)[1]` |
| Reassembly.KindOfAt | chat-anayalzer.py:34-36 | a line whose first `-` is at `k` is a user start iff `:` occurs after `k` |
| Reassembly.StartIndices | chat_1.py:52-67 | the indices of the start lines of one kind, strictly increasing, each of that kind |
| Reassembly.StartIndicesComplete | chat_1.py:52-67 | every line of that kind is among the start indices |
| Reassembly.LastStart | chat_1.py:49-67 | the last line that opens an entry: every line after it is a continuation |
| Reassembly.EntriesOfSnoc | chat_1.py:52-72 | one more line appends an entry of its kind, extends the open entry of that kind when it is a continuation, and otherwise leaves the list as it is |
| Reassembly.AssembleMatchesEntries | chat_1.py:52-72 | the loop's `usr` and `sys` are exactly the logical entries of the user and system start lines in input order, and the flags end in the mode of the last start line |
| Reassembly.EntryCount | chat_1.py:52-67 | `len(usr) + len(sys)` equals the number of lines holding `-` |
| Reassembly.ContinuationChangesOnlyOpenEntry | chat_1.py:68-72 | a line without `-` appends `' ' + line.strip()` to the last entry of the latest start line's kind, changes nothing else, and is dropped before any start line |
| Reassembly.LeadingOrphansDiscarded | chat_1.py:49-72 | lines without `-` before the first entry do not change the result |
| Reassembly.OrphansLeaveInitialState | chat-anayalzer.py:30-46 | lines without `-` alone leave both lists empty and both flags 0 |
| Reassembly.Reassemble | chat_1.py:46-72 | the loop builds the logical entries of each kind; the flags are 0 or 1, never both 1, and one of them is 1 exactly when some line opened an entry; chat-anayalzer.py runs the same loop at 29-46, without the `and sys` guard and yet never gluing onto an empty list |
| Extraction.ParseUser | chat_1.py:81-97 | an entry yields a message exactly when it holds `" - "` and the text before it holds `", "`; otherwise it is skipped |
| Extraction.ParseUserCuts | chat_1.py:86-95 | date and time end at the first `", "` and `" - "`; the name ends at the first `": "`, and without one the content is `""` |
| Extraction.ParseUserJoin | chat_1.py:82-95 | the fields join back into the entry: `date, time - name: content`, or `date, time - name` when no `": "` follows |
| Extraction.ParseUserLine | chat_1.py:81-97 | round trip: writing a message as `"D, T - A: C"` and parsing it gives the message back, with `C` free to hold `": "` or `" - "` |
| Extraction.ParseUserExtendsContent | chat_1.py:90-95 | text glued onto an entry that has a `": "` lands at the end of its content |
| Extraction.ParseSystem | chat_1.py:100-113 | a system entry yields a notice exactly when it holds `" - "` with a `", "` before it |
| Extraction.ParseSystemFields | chat_1.py:101-111 | the notice's content is everything after the first `" - "`, and its fields join back into the entry |
| Extraction.ParseSystemLine | chat_1.py:100-113 | round trip: writing a notice and parsing it gives the notice back |
| Extraction.ParseSystemExtendsContent | chat_1.py:101-111 | text glued onto a system entry lands at the end of its content |
| Extraction.ExtractUsers | chat_1.py:81-97 | the user loop keeps exactly the parsable entries in order, so `len(user_data) <= len(usr)` |
| Extraction.ExtractSystems | chat_1.py:100-113 | the system loop keeps exactly the parsable entries in order, so `len(system_data) <= len(sys)` |
| StrictExtraction.UserIndexableIff | chat-anayalzer.py:51-55 | the user loop indexes safely exactly when the entry holds `" - "`, its head holds `", "` and the next segment holds `": "` |
| StrictExtraction.SystemIndexableIff | chat-anayalzer.py:61-64 | the system loop indexes safely exactly when `" - "` occurs with `", "` before it |
| StrictExtraction.ParseUserStrictFields | chat-anayalzer.py:51-55 | no field holds its own separator: the content stops before a second `": "` and the time before a second `", "` |
| StrictExtraction.ParseUserStrictExact | chat-anayalzer.py:51-55 | each field as the text between separators: the segment after the first `" - "` stops at a second `" - "`; the name is its text before the first `": "` and the content runs from there to a second `": "`; the date and time are cut the same way at `", "` |
| StrictExtraction.ParseSystemStrictFields | chat-anayalzer.py:61-64 | the content is the text between the first and second `" - "`, and the time lies between the first and second `", "` of the head |
| StrictExtraction.StrictUserIsPrefix | chat-anayalzer.py:50-56 | every entry this loop reads is also read by chat_1.py's loop, with the same date and name, and a time and content that are prefixes of chat_1.py's |
| StrictExtraction.StrictUserAgrees | chat-anayalzer.py:50-56 | when no separator repeats, both scripts extract the same message |
| StrictExtraction.StrictSystemAgrees | chat-anayalzer.py:59-65 | when no separator repeats, both scripts extract the same notice |
| StrictExtraction.ExtractUsersStrict | chat-anayalzer.py:49-56 | one message per user entry (`len(user_data) == len(usr)`), each the full-split fields of its entry |
| StrictExtraction.ExtractSystemsStrict | chat-anayalzer.py:59-65 | one notice per system entry (`len(system_data) == len(sys)`), each the full-split fields of its entry |
| Counting.IncGet | chat_1.py:129-132 | one increment raises the count of its key by one and leaves every other count alone |
| Counting.IncDistinct | chat_1.py:129-132 | an increment never creates a second slot for a key |
| Counting.TallyCounts | chat_1.py:127-132 | the dictionary holds each item once, with a positive count equal to its number of occurrences, and the counts sum to the number of items |
| Counting.TallyFirstSeen | chat_1.py:127-132 | the keys are in the order of their first occurrence, as Python's insertion-ordered dict keeps them |
| Counting.MaxCountIsMax | chat_1.py:134-139 | the maximum bounds every count and, in a non-empty dictionary, is reached by some key |
| Counting.KeysWithCountSlots | chat_1.py:214-222 | a key is listed exactly when its slot holds the given count |
| Counting.KeysWithCountDistinct | chat_1.py:214-222 | in a dictionary, no key is listed twice |
| Counting.KeysWithCountKeepsOrder | chat_1.py:214-222 | the listed keys keep the dictionary's order |
| Counting.CountEach | chat_1.py:207-212 | the `word_dict` loop builds the insertion-ordered tally of the words; chat-anayalzer.py runs the same loop at 139-144 |
| Authors.CountAuthors | chat_1.py:127-132 | `d_0` is the tally of the `username` of each message (`Names`), and its counts sum to `len(user_data)`; chat-anayalzer.py runs the same loop at 74-79 |
| Authors.TopUser | chat_1.py:134-139 | `max_count` is the largest count; with a positive count `top_user` is the key of the first slot reaching it; otherwise `""` stays; chat-anayalzer.py runs the same loop at 82-87 |
| Authors.FirstSlotIsFirstSeen | chat_1.py:134-139 | the first slot reaching the top count holds, among the tied authors, the one whose first message came first |
| Authors.MostInteractiveUser | chat_1.py:127-139 | the block gives the badge `MostInteractive`: `""` and 0 without messages, otherwise an author with the most messages, and among those tied the one that wrote first; chat-anayalzer.py runs the same block at 74-87 |
| Authors.MostInteractiveUnique | chat_1.py:134-139 | the badge is determined by the messages: two results that both meet `MostInteractive` are the same author and count |
| WordStats.MessageTextWords | chat_1.py:195-202 | splitting the joined text gives each non-media message's words in message order; the joining spaces never merge two messages' words |
| WordStats.MediaAnywhere | chat_1.py:195-199 | a message whose lowercased content is a media phrase adds nothing to `message_text`, wherever it sits in `user_data`; chat-anayalzer.py skips it the same way at 130-134 |
| WordStats.BuildMessageText | chat_1.py:195-199 | the loop builds `" " + msg` for each non-media message, in order; chat-anayalzer.py runs the same loop at 130-134 |
| WordStats.CleanWordShape | chat_1.py:203-204 | a kept word is the stripped token: non-empty, not a stop word, with no punctuation at either end |
| WordStats.FilterWordsClean | chat-anayalzer.py:136 | the comprehension keeps a token's stripped form exactly when it is non-empty and not a stop word; every kept word has no punctuation at either end |
| WordStats.CollectWords | chat_1.py:201-205 | the `words` loop gives the same list as the comprehension of chat-anayalzer.py:136 |
| WordStats.TopWords | chat_1.py:214-222 | the scan ends with the largest count and the words holding it, in dictionary order; chat-anayalzer.py runs the same loop at 146-153 |
| WordStats.TopCountBounds | chat_1.py:207-222 | no word occurs more often than `max_word_count`, which is positive when any word is kept |
| WordStats.TopWordsAreMostFrequent | chat_1.py:214-222 | `most_used_words` holds exactly the words occurring `max_word_count` times |
| WordStats.TopWordsInFirstUseOrder | chat_1.py:214-222 | `most_used_words` lists each word once, in the order of its first use |
| Timestamps.ReadNumberOfPad | chat_1.py:246 | a numeric field written zero-padded to its width (`Pad(v, Width(d))`) and followed by a non-digit or nothing is read back by strptime's number reader as exactly its value `v`, consuming exactly the width |
| Timestamps.MatchNumber | chat_1.py:246 | the same field at the head of a format: the matcher returns `v` in front of the values the rest of the format reads from the tail |
| Timestamps.Match | chat_1.py:246 | whatever the pattern matcher accepts has one in-range value per field of the format |
| Timestamps.FitsTimestamp | chat_1.py:246 | values fitting `"%d/%m/%Y %I:%M %p"` are day 1-31, month 1-12, a 4-digit year, hour 1-12, minute 0-59 and AM/PM |
| Timestamps.TimestampFits | chat_1.py:246 | conversely, such values fit the format |
| Timestamps.Hour24Spec | chat_1.py:246 | `%I` with `%p` gives an hour below 24, in the afternoon exactly for PM (12 AM is 0, 12 PM is 12) |
| Timestamps.ParseTimestamp | chat_1.py:246 | an accepted timestamp is a real calendar date and time, with second and microsecond 0 |
| Timestamps.MatchRender | chat_1.py:246 | round trip of the matcher: rendering fitting values and matching the text gives them back |
| Timestamps.Hour12Round | chat_1.py:246 | converting a 24-hour hour to `%I`/`%p` and back gives it again |
| Timestamps.ParseFormatted | chat_1.py:246 | round trip: a timestamp written in the export's format parses back to itself |
| Timestamps.BeforeOrder | chat_1.py:260 | datetime comparison is a strict total order |
| Timeline.Insert | chat_1.py:260 | insertion adds exactly the one element |
| Timeline.SortTimes | chat_1.py:260 | the sorted keys are a permutation of the keys |
| Timeline.SortTimesAscending | chat_1.py:260 | distinct keys come out strictly ascending |
| Timeline.AscendingUnique | chat_1.py:260 | two strictly ascending permutations of the same keys are equal, so any correct sort gives this result |
| Timeline.SumOfMultiplicities | chat_1.py:252-261 | the occurrence counts of distinct keys covering a list sum to its length |
| Timeline.SeriesTimes | chat_1.py:252-260 | `times` is strictly ascending, holds exactly the hours of the messages, and each has minute, second and microsecond 0 |
| Timeline.SeriesCounts | chat_1.py:252-261 | `values` (`ValuesAt`, read as `time_dict[t]` for each sorted `t`) has one entry per hour, each the positive number of messages sent in that hour, and the values sum to the number of timestamps |
| Timeline.ParseTimeline | chat_1.py:242-249 | the timeline holds the parsable timestamps in message order; the others are skipped |
| Timeline.ParseTimelineStrict | chat-anayalzer.py:164-167 | one timestamp per message, in order |
| Timeline.CountHours | chat_1.py:252-258 | `time_dict` is the tally of the hours `Hours` (each timestamp with minute, second and microsecond set to 0), and its counts sum to the number of timestamps; chat-anayalzer.py runs the same loop at 170-176 |
| Timeline.MessagesOverTime | chat_1.py:242-261 | there is no series exactly when no timestamp parses; otherwise the series is that of the parsed timestamps, and its counts sum to their number |
| Timeline.MessagesOverTimeStrict | chat-anayalzer.py:164-179 | the series of all timestamps, with counts summing to `len(user_data)` |
| Pipeline.Statistics | chat_1.py:127-222 | over the extracted messages: `d_0` is the author tally, the badge meets `MostInteractive` (the tie-break to the earliest writer included), and the top words are the words at the top count, in dictionary order |
| Pipeline.AnalyzeLenient | chat_1.py:46-261 | the whole script: the records of chat_1.py's parsers for the reassembled entries, at most one per line holding `-`; `d_0`, the badge and the top words of those records; and no series exactly when no timestamp parses |
| Pipeline.AnalyzeEntriesStrict | chat-anayalzer.py:49-179 | on readable entries: one strict record per entry; `d_0`, the badge and the top words of those records; and a series counting every message |
| Pipeline.AnalyzeStrict | chat-anayalzer.py:28-179 | the whole script, on an export it does not stop on: each record is the strict parse of its reassembled entry, one per line holding `-`; `d_0`, the badge and the top words of those records; and a series counting every message |

## Left out

- The Streamlit page, the uploader, the banner and `time.sleep`, and all Plotly and `st.*` rendering: these are UI and only consume the modelled values.
- UTF-8 decoding and `splitlines()`: the model takes the export as a sequence of lines. This also makes `rstrip('\n')` a no-op, so it is not modelled.
- The dead `len(l) < 2` test of chat_1.py:57: `split('-', 1)` on a line holding `-` always has two pieces, so the branch never runs.
- `str.lower()`, `split()` and `strip()` follow Unicode in Python. The model uses ASCII lower-casing and the ASCII characters Python counts as whitespace. `string.punctuation` is the fixed ASCII set.
- Timestamps.ParseTimestamp: a strict parser for `"%d/%m/%Y %I:%M %p"` stands in for `datetime.strptime`. It reads 1-2 digit day, month, hour and minute, a 4-digit year, a run of whitespace for each space of the format and `AM`/`PM` in any case, and checks the calendar. Padding with spaces, locale AM/PM names and Unicode digits and spaces are not modelled.
- Timeline.ParseTimeline: the bare `except:` of chat_1.py:248 is modelled as catching a failed parse (`ValueError`), the only error `strptime` raises on a string.
- Timeline.SortTimes: `sorted()` is modelled as insertion sort. `AscendingUnique` shows that every strictly ascending permutation is the same sequence, so the result does not depend on the algorithm.
- Pipeline.AnalyzeStrict: the `IndexError` and `ValueError` that chat-anayalzer.py raises on malformed input are modelled as a precondition (`StrictReadable`), not as a stopped run.
- Plain `dict` hashing and identity are not modelled. A dictionary is an ordered sequence of key-count pairs, compared by value equality.
