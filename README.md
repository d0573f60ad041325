# lecture-me: a verified model of the study bot's core

lecture-me is a Telegram bot that quizzes a user on their own markdown notes. The notes
directory holds subjects; each subject holds topic directories, and each topic holds
markdown files. The bot picks a passage from a file, asks a question about it and scores
the answer. This project models the three pieces of logic under the Telegram and LLM
plumbing.

- **Corpus filter, topic lookup and passage extraction** (`NotesService`). The notes
  directory is an abstract tree of `Entry` values. Its listing order is given, not chosen.
  - The listing loops are methods proved equal to specification functions. Lemmas then
    characterise exactly what those functions keep.
  - Passages come from splitting on the literal separator `"\n\n"`, stripping, filtering and removing four
    markup patterns (`Markup`), each piece tagged with its position in the split.
  - The random file and passage choices are index parameters.
- **The per-user session state machine** (`Bot`). A `TelegramBot` class holds
  `userSessions: map<int, UserSession>`, which its command methods update.
  - Every method's new state is given by a pure transition function on one session.
  - Lemmas state which selection invariants those transitions keep.
- **The mock scorer and feedback builder** (`LlmService`). These are pure functions over
  exact `real` ratios. The 20% roll, the ±1 direction and the template picks are
  parameters.

`Text` writes out the Python `str` operations the core uses. `DataModels` holds the
dataclasses, and `Wrappers` holds `Option`.

On one point the code departs from its evident intent: a pending question only makes sense
while a subject and a topic are selected. `study_command` clears the subject and the topic
but not `current_question`, so it breaks that invariant. The consequence: once `/study` is
sent with a question pending, the next text is still routed to answer handling.
`Bot.SelectionClearedKeepsTopicInvariant` and `Bot.StudyKeepsPendingQuestion` state the gap.
`Bot.StudyCleared` is the intended transition, which also drops the pending question and
keeps both invariants. The `TelegramBot` class follows the code as written, so that its
methods keep describing what the bot does; the finding below records both halves.

## Model

| member | source | states |
|---|---|---|
| DataModels.NewSession | lecture_me/models/data_models.py:37-43 | a new session has the given id, no question, topic or subject, and zero score and answer count |
| Text.Strip | lecture_me/services/notes_service.py:120 | the result is a contiguous middle of the input with only white space cut off either end, and it neither starts nor ends with white space |
| Text.StripKeeps | lecture_me/services/notes_service.py:120 | text that neither starts nor ends with white space is unchanged by strip |
| Text.SplitOn | lecture_me/services/notes_service.py:116 | joining the pieces with the separator gives the text back; no piece contains the separator; each cut is at the leftmost occurrence |
| Text.SplitOnAbsent | lecture_me/services/notes_service.py:116 | text in which the separator does not occur splits into itself alone |
| Text.Words | lecture_me/services/llm_service.py:65-66 | `split()` yields non-empty words free of white space; which words they are is fixed by Text.WordsOfSpace, Text.WordsOfWordThenSpace and Text.WordsAppend, and Text.WordsAreRuns gives their concatenation and count |
| Text.WordsAreRuns | lecture_me/services/llm_service.py:65-66 | joined without gaps, the words of `split()` are the text with its white space removed, and there is one word per position where a non-space character starts the text or follows white space |
| Text.WordsOfWord | lecture_me/services/llm_service.py:65-66 | a single run of non-space characters splits into itself alone |
| Text.WordsOfWordThenSpace | lecture_me/services/llm_service.py:65-66 | a run of non-space characters followed by white space, or by nothing, splits into that run alone |
| Text.WordsOfSpace | lecture_me/services/llm_service.py:65-66 | text made only of white space has no words |
| Text.WordsAppend | lecture_me/services/llm_service.py:65-66 | text cut at its start or right after white space splits into the words before the cut followed by the words after it; any text is leading white space followed by pieces of one word and the white space after it (empty only at the end), so cutting after each piece and applying Text.WordsOfSpace and Text.WordsOfWordThenSpace gives exactly those words, in order |
| Text.WordsOfJoin | lecture_me/services/llm_service.py:150-152 | words joined by single spaces split back into the same words |
| Text.Lower | lecture_me/services/llm_service.py:61-62 | lowercasing keeps the length, leaves no ASCII capital, keeps every character that is not an ASCII capital, and moves each capital to its lower-case letter |
| Text.LowerIdempotent | lecture_me/services/llm_service.py:61-62 | lowercasing twice is lowercasing once |
| Markup.LazyClose | lecture_me/services/notes_service.py:131-133 | the non-greedy `(.*?)` group, when it closes, ends at an occurrence of the closing delimiter at or after its start, with no newline inside the group |
| Markup.LazyCloseLeftmost | lecture_me/services/notes_service.py:131-133 | the lazy group is the shortest: no earlier position closes it; and when it does not close, no occurrence of the delimiter is reachable on the same line |
| Markup.LazyLink | lecture_me/services/notes_service.py:134 | a link match ends its text at a `](` and its target at a `)`, at or after the start, with no newline inside either group |
| Markup.LazyLinkLeftmost | lecture_me/services/notes_service.py:134 | the link text is the shortest: no earlier `](` on the line is followed by a closing `)`; when there is no match, no `](` reachable on the line has one |
| Markup.LazyLinkTarget | lecture_me/services/notes_service.py:134 | the link target ends at the first `)` after the `](` on the same line |
| Markup.SubPair | lecture_me/services/notes_service.py:131-133 | a pass of `re.sub` with a lazy delimited group; its meaning is given by Markup.SubPairStripsPair and Markup.SubPairPlainPrefix |
| Markup.SubLink | lecture_me/services/notes_service.py:134 | the link pass of `re.sub`; its meaning is given by Markup.SubLinkStripsLink and Markup.SubLinkPlainPrefix |
| Markup.CleanMarkup | lecture_me/services/notes_service.py:131-134 | the four passes in the order bold, italic, inline code, links; its meaning is given by Markup.PlainTextUnchanged and Markup.CleanMarkupOfEachKind |
| Markup.SubPairStripsPair | lecture_me/services/notes_service.py:131-133 | a delimited span whose text is free of the delimiter's first character and of newlines is replaced by its text, and substitution continues after it |
| Markup.SubPairPlainPrefix | lecture_me/services/notes_service.py:131-133 | text without the delimiter's first character is copied unchanged |
| Markup.SubLinkStripsLink | lecture_me/services/notes_service.py:134 | `[text](url)` becomes `text`; the URL is dropped |
| Markup.SubLinkPlainPrefix | lecture_me/services/notes_service.py:134 | text without `[` is copied unchanged by the link pass |
| Markup.PlainTextUnchanged | lecture_me/services/notes_service.py:131-134 | text with no `*`, backquote or `[` is unchanged by the cleaning chain |
| Markup.BoldPass | lecture_me/services/notes_service.py:131 | the bold pass removes `**x**` and leaves a following `*y*` alone |
| Markup.DelimitedPass | lecture_me/services/notes_service.py:132-133 | the italic and code passes remove a delimited span's delimiters and keep its text and everything around it |
| Markup.ItalicStage | lecture_me/services/notes_service.py:132 | after the bold pass, the italic pass drops the two stars of `*y*` and copies the surrounding plain text |
| Markup.CodeStage | lecture_me/services/notes_service.py:133 | the code pass drops the two backquotes of an inline code span and copies the surrounding plain text |
| Markup.LinkStage | lecture_me/services/notes_service.py:134 | the link pass replaces `[t](u)` by `t` and copies the plain text before it |
| Markup.LinkPass | lecture_me/services/notes_service.py:134 | the link pass keeps the link text and drops the URL |
| Markup.CleanMarkupOfEachKind | lecture_me/services/notes_service.py:131-134 | bold, italic, code and a link in sequence come out as their plain texts, applied bold, then italic, then code, then links |
| NotesService.IsMarkdownName | lecture_me/services/notes_service.py:55-57 | the file-name test of the markdown filter; NotesService.MarkdownNameIff states which names pass |
| NotesService.MarkdownFilesOf | lecture_me/services/notes_service.py:49-61 | the markdown files of a topic directory; NotesService.MarkdownFilesExactly states which are kept |
| NotesService.TopicsOf | lecture_me/services/notes_service.py:31-47 | the topics of a subject directory; NotesService.TopicsExactly states which are kept |
| NotesService.Subjects | lecture_me/services/notes_service.py:13-29 | the subjects of the notes directory; NotesService.SubjectsExactly and NotesService.SubjectsWellFormed state which are kept and their shape |
| NotesService.TopicsNamed | lecture_me/services/notes_service.py:63-69 | the first-match topic lookup; NotesService.TopicsNamedFirstMatch states its result |
| NotesService.Suffix | lecture_me/services/notes_service.py:56 | a suffix is empty or starts with a dot, ends the name and is shorter than it |
| NotesService.SuffixIs | lecture_me/services/notes_service.py:56 | a lowercased suffix equals a single-dot extension iff the lowercased name ends with it after at least one more character |
| NotesService.MarkdownNameIff | lecture_me/services/notes_service.py:53-59 | a name is a markdown name iff it ends in `.md` or `.markdown` in any case after at least one more character, and it is not `state.md` |
| NotesService.KeepExactly | lecture_me/services/notes_service.py:20-27 | a filtering loop keeps a value iff some listing entry yields it |
| NotesService.MarkdownFilesExactly | lecture_me/services/notes_service.py:53-59 | a path is listed iff it names a regular file of the directory with a markdown name |
| NotesService.TopicsExactly | lecture_me/services/notes_service.py:35-45 | a topic is listed iff it comes from a non-hidden directory whose markdown list is not empty, with that list, owner and path |
| NotesService.SubjectsExactly | lecture_me/services/notes_service.py:17-27 | a subject is listed iff the notes directory exists and the subject comes from a non-hidden directory with a non-empty topic list |
| NotesService.SubjectsWellFormed | lecture_me/services/notes_service.py:20-59 | every listed subject has topics; every topic names its subject and has files; every file path is subject, topic, then a markdown name |
| NotesService.GetMarkdownFiles | lecture_me/services/notes_service.py:49-61 | the loop returns exactly the markdown files of the listing, in listing order |
| NotesService.GetTopicsForSubjectDir | lecture_me/services/notes_service.py:31-47 | the loop returns exactly the kept topics, in listing order |
| NotesService.GetSubjects | lecture_me/services/notes_service.py:13-29 | the loop returns exactly the kept subjects, and none when the directory is missing |
| NotesService.TopicsNamedFirstMatch | lecture_me/services/notes_service.py:63-69 | lookup returns the topics of the first subject with that exact name, and `[]` when none matches |
| NotesService.TopicsNamedFound | lecture_me/services/notes_service.py:63-69 | when a subject of that name exists, the result is the topic list of one such subject |
| NotesService.KnownSubjectHasTopics | lecture_me/services/notes_service.py:23-69 | looking up a listed subject never returns `[]` |
| NotesService.GetTopicsForSubject | lecture_me/services/notes_service.py:63-69 | the early-return search loop computes the first-match lookup |
| NotesService.FindTopic | lecture_me/services/notes_service.py:78-82 | a found topic is in the list and has the name; none is found iff no topic has it |
| NotesService.FindEntry | lecture_me/services/notes_service.py:108 | a found entry is in the listing and has the name; none is found iff no entry has it |
| NotesService.FindTopicFirst | lecture_me/services/notes_service.py:79-82 | the topic found is the first with the name: every topic before it is named otherwise |
| NotesService.FindEntryFirst | lecture_me/services/notes_service.py:108 | the entry found is the first with the name: every entry before it is named otherwise |
| NotesService.Qualifies | lecture_me/services/notes_service.py:123-128 | the length and prefix filter on a stripped piece; NotesService.PassagesExactly and NotesService.ShortPassageAfterCleaning state how it decides |
| NotesService.PassageOf | lecture_me/services/notes_service.py:120-134 | the passage one piece yields, if any; NotesService.PassagesExactly states its result |
| NotesService.Passages | lecture_me/services/notes_service.py:116-138 | the enumerated passages of a file's text; NotesService.EnumerateSound, NotesService.EnumerateIncreasing, NotesService.EnumerateComplete and NotesService.PassagesExactly state which pairs it holds |
| NotesService.EnumerateSound | lecture_me/services/notes_service.py:118-136 | every collected pair is what its piece yields, tagged with that piece's index |
| NotesService.EnumerateIncreasing | lecture_me/services/notes_service.py:118-136 | collected indices are below the number of pieces and strictly increasing |
| NotesService.EnumerateComplete | lecture_me/services/notes_service.py:118-136 | every piece that yields a passage has it collected |
| NotesService.CleanPiece | lecture_me/services/notes_service.py:120-134 | the loop body computes a piece's passage: strip, filter, remove the four markup kinds |
| NotesService.CollectPassages | lecture_me/services/notes_service.py:115-138 | the loop collects exactly the enumerated passages |
| NotesService.ExtractParagraphs | lecture_me/services/notes_service.py:105-138 | extraction yields the file's passages, and none when it cannot be read |
| NotesService.PassagesExactly | lecture_me/services/notes_service.py:116-136 | each passage is the cleaned stripped piece at its index, which passes the length and prefix filter; indices increase; every qualifying piece is present |
| NotesService.CleanBoldOnly | lecture_me/services/notes_service.py:131-134 | a fully bold plain text cleans to its inner text |
| NotesService.ShortPassageAfterCleaning | lecture_me/services/notes_service.py:124-131 | the length test runs before cleaning, so a kept passage can be 50 characters or fewer |
| NotesService.RandomParagraph | lecture_me/services/notes_service.py:71-103 | the random-paragraph choice for two draws; NotesService.RandomParagraphNone and NotesService.RandomParagraphFound state its result |
| NotesService.GetRandomParagraph | lecture_me/services/notes_service.py:71-103 | the search-with-break loop and the two draws compute the random-paragraph choice |
| NotesService.TopicsNamedSource | lecture_me/services/notes_service.py:63-69 | a non-empty lookup result is the topic list of a subject with that name |
| NotesService.FoundTopicListed | lecture_me/services/notes_service.py:75-84 | a found topic belongs to a listed subject of that name and has files |
| NotesService.RandomParagraphNone | lecture_me/services/notes_service.py:84-94 | the result is None iff the topic is absent or the one drawn file yields no passages; no other file is tried |
| NotesService.RandomParagraphFound | lecture_me/services/notes_service.py:97-103 | a returned paragraph's file is listed under that subject and topic, and its content and index are among that file's passages |
| LlmService.Terms | lecture_me/services/llm_service.py:61-77 | the lowercased word set without the stop words; Text.WordsAppend, Text.WordsOfWordThenSpace, Text.WordsOfSpace, Text.WordsAreRuns and Text.Lower state what goes in |
| LlmService.IntersectionCard | lecture_me/services/llm_service.py:83 | the overlap is at most the reference set's size, and is equal only when the reference is covered |
| LlmService.OverlapRatio | lecture_me/services/llm_service.py:83-84 | the ratio lies in [0,1]; it is 1 iff the answer covers every reference term, and 0 iff they share none |
| LlmService.LengthFactor | lecture_me/services/llm_service.py:87 | the length factor lies in [0,1] and is 1 iff the answer has at least 20 words |
| LlmService.UnderstandingBonus | lecture_me/services/llm_service.py:90-95 | the bonus is 0, 0.1 or 0.2; it is at least 0.1 iff an explanatory or example word occurs in the lowercased answer, and 0.2 iff both kinds occur |
| LlmService.BaseScore | lecture_me/services/llm_service.py:98 | the base score lies in [0, 1.4] |
| LlmService.ThresholdScore | lecture_me/services/llm_service.py:101-108 | the score is 3 iff the base is at least 0.8, at least 2 iff at least 0.6, and at least 1 iff at least 0.3 |
| LlmService.ThresholdMonotone | lecture_me/services/llm_service.py:101-108 | a larger base never gives a smaller score |
| LlmService.Adjust | lecture_me/services/llm_service.py:111-113 | the adjusted score stays in [0,3] and within one of the original; it is unchanged unless the roll is below 0.2; otherwise it is raised or lowered by one, clamped |
| LlmService.MockScore | lecture_me/services/llm_service.py:59-115 | the score lies in 0..3; it is 1 when no reference term is left; otherwise it is within one of the threshold score, and equal to it when the roll is at least 0.2 |
| LlmService.FullOverlapScoresHigh | lecture_me/services/llm_service.py:83-113 | a long answer covering every reference term scores 3 before adjustment and at least 2 after |
| LlmService.NoOverlapScoresLow | lecture_me/services/llm_service.py:83-108 | a short answer sharing no reference term scores 0 before adjustment |
| LlmService.FeedbackTemplates | lecture_me/services/llm_service.py:119-140 | templates exist exactly for the scores 0..3, three per score |
| LlmService.GenerateFeedback | lecture_me/services/llm_service.py:117-155 | None for a score without templates; otherwise the drawn template comes first; the request for detail follows iff the score is below 2 and the answer has fewer than 10 words; the key-phrase suggestion ends it iff the score is below 3 and the reference has more than 10 words; its length is exactly the template plus the parts present, so nothing else is in it |
| LlmService.SuggestionShape | lecture_me/services/llm_service.py:153 | a suggestion ends with a closing quote and full stop, and does not start like the request for detail |
| LlmService.FeedbackShape | lecture_me/services/llm_service.py:142-155 | a template plus an optional request and an optional suggestion shows each part iff it is present |
| LlmService.KeyPhrase | lecture_me/services/llm_service.py:150-152 | the key phrase of a reference; LlmService.KeyPhraseWords states which words it joins |
| LlmService.KeyPhraseWords | lecture_me/services/llm_service.py:150-152 | the key phrase is words n//3, n//3+1 and n//3+2 of the reference joined by single spaces |
| LlmService.Excerpt | lecture_me/services/llm_service.py:22-26 | the excerpt is a prefix of the content, the first 100 characters or all of it |
| LlmService.GenerateQuestion | lecture_me/services/llm_service.py:15-29 | a question is one of the five prefixes, then the excerpt, then "..." |
| LlmService.QuestionShowsExcerpt | lecture_me/services/llm_service.py:21-29 | the excerpt can be read back out of the question between the drawn prefix and the ellipsis |
| LlmService.QuestionDeterminesShortContent | lecture_me/services/llm_service.py:21-29 | for contents of at most 100 characters, the same question means the same content |
| LlmService.ScoreAnswer | lecture_me/services/llm_service.py:31-57 | the pair is the mock score, in 0..3, and the feedback for that score |
| Bot.NewSessionInvariants | lecture_me/bot/telegram_bot.py:28-30 | a created session satisfies both selection invariants and routes text to subject selection |
| Bot.Registered | lecture_me/bot/telegram_bot.py:26-30 | lookup adds the id; a missing id gets a default session; every existing entry is unchanged |
| Bot.Restarted | lecture_me/bot/telegram_bot.py:37-40 | a restart clears question, topic and subject and keeps the id, score and answer count |
| Bot.RestartedInvariants | lecture_me/bot/telegram_bot.py:37-40 | restarting is idempotent, keeps both invariants and routes text to subject selection |
| Bot.SelectionCleared | lecture_me/bot/telegram_bot.py:67-68 | `/study` clears subject and topic and keeps the question, id, score and count |
| Bot.SelectionClearedKeepsTopicInvariant | lecture_me/bot/telegram_bot.py:67-68 | after `/study` a topic still needs a subject; a question needs its selection iff none was pending |
| Bot.StudyKeepsPendingQuestion | lecture_me/bot/telegram_bot.py:67-100 | a session with a pending question breaks the question invariant after `/study` and still routes text to answer handling |
| Bot.StudyCleared | lecture_me/bot/telegram_bot.py:67-68 | `/study` as evidently intended: question, topic and subject cleared and statistics kept, so both invariants hold and the next text goes to subject selection |
| Bot.StudyClearedDiffers | lecture_me/bot/telegram_bot.py:67-68 | the intended `/study` differs from the written one exactly when a question is pending, and equals the `/start` reset |
| Bot.RouteMessage | lecture_me/bot/telegram_bot.py:98-110 | exactly one route: a pending question gives answer handling; otherwise a falsy subject gives subject selection; otherwise a falsy topic gives topic selection; otherwise nothing |
| Bot.Statistics | lecture_me/bot/telegram_bot.py:80-83 | no division when nothing is answered; otherwise the average times the count is the score |
| Bot.SubjectNamesListed | lecture_me/bot/telegram_bot.py:119-121 | a name is in the name list iff a listed subject carries it |
| Bot.SelectSubject | lecture_me/bot/telegram_bot.py:117-146 | an unknown name leaves the session unchanged; a known one sets only the subject and offers its non-empty topics plus the random option |
| Bot.SelectSubjectInvariants | lecture_me/bot/telegram_bot.py:121-127 | choosing a subject keeps both invariants |
| Bot.ResolveTopic | lecture_me/bot/telegram_bot.py:154-158 | the sentinel becomes the name of some topic when there are topics; any other text is kept |
| Bot.SelectTopic | lecture_me/bot/telegram_bot.py:153-164 | the resolved name is accepted iff a topic of the selected subject has it |
| Bot.RandomTopicAccepted | lecture_me/bot/telegram_bot.py:154-164 | with a listed subject selected, the sentinel is always accepted |
| Bot.TopicNameChecked | lecture_me/bot/telegram_bot.py:161-164 | other text is accepted exactly when it names a topic of the selected subject |
| Bot.TelegramBot.constructor | lecture_me/bot/telegram_bot.py:20-24 | the bot starts with no sessions |
| Bot.TelegramBot.GetUserSession | lecture_me/bot/telegram_bot.py:26-30 | the registry becomes the registered map, and the returned session is the stored one and belongs to the requested user |
| Bot.TelegramBot.StartCommand | lecture_me/bot/telegram_bot.py:32-40 | the user's stored session is replaced by its restart, and no other entry changes |
| Bot.TelegramBot.StudyCommand | lecture_me/bot/telegram_bot.py:48-73 | with no subjects only the lookup happens; otherwise the selection is cleared and the subject names are offered |
| Bot.TelegramBot.StatsCommand | lecture_me/bot/telegram_bot.py:75-89 | only the lookup changes the registry, and the reply is the session's statistics |
| Bot.TelegramBot.HandleSubjectSelection | lecture_me/bot/telegram_bot.py:112-146 | the user's session becomes the one subject selection gives, with its reply |
| Bot.TelegramBot.HandleTopicSelection | lecture_me/bot/telegram_bot.py:148-164 | no session field changes, and the reply is the topic decision |
| Bot.TelegramBot.TopicsOfSelection | lecture_me/bot/telegram_bot.py:155-161 | the topics of the optional selected subject, and none when unset |
| Bot.TelegramBot.HandleMessage | lecture_me/bot/telegram_bot.py:91-110 | the route decides the one handler run; its effect on the registry and its outcome are those of that handler |

## Left out

- Filesystem I/O: `exists`, `iterdir`, `is_dir`, `is_file` and `open` become an `Entry` tree. A missing notes directory is `None`, and an unreadable file is a file with no text. Listing order is whatever the tree holds, and the model assumes nothing about it. The tree is fixed, so it cannot change between two calls.
- Paths are relative to the notes directory (subject, topic, file name) instead of absolute `Path`s.
- Regular expressions in general: only the four non-greedy patterns are written out as scanners, and in them `.` does not match a newline.
- Markup.CleanMarkupOfEachKind: the example `**bold** and *italic* and `code` and [text](url)` is covered as an instance of this general lemma, not as a literal.
- Text.Lower: only ASCII letters are folded; Unicode case mapping is not modelled.
- Randomness: `random.choice` becomes a draw index taken modulo the list length, and `random.random() < 0.2` with `random.choice([-1, 1])` becomes a real roll and a boolean. Uniformity is not modelled.
- `asyncio.sleep`, the unused scoring prompt and the `LLMService` constructor fields do nothing to any result.
- Floating point: ratios and the average are exact reals, so IEEE rounding at the score thresholds and the `:.1f` formatting of the average are not modelled.
- Telegram transport: updates, reply texts, keyboards, handlers and logging. A reply is a value saying which answer is given.
- `handle_answer` and everything after line 165 of `lecture_me/bot/telegram_bot.py` are not part of this model. The answer route changes no session. What happens after a topic name is accepted is not part of this model either.
- Bot.TelegramBot.HandleTopicSelection: models the steps up to the check of the topic name, which change no session field; the topic and question assignment that follows is not modelled.
- Bot.TelegramBot.HandleMessage: on the answer route the registry is left as it was, standing in for `handle_answer`, which is not part of this model.
- `handle_message` assumes the message has text; messages without text are not modelled.
- `lecture_me/scripts/main.py` (configuration wiring) is not part of this model.

## Findings

| source | as written | input that shows it | evidently intended | confidence | as-written member | corrected member |
|---|---|---|---|---|---|---|
| lecture_me/bot/telegram_bot.py:67-68 | `/study` resets `selected_subject` and `selected_topic` and keeps `current_question`, and `handle_message` routes on `current_question` first | a session with a pending question, subject `s` and topic `t` receives `/study`; its next text, meant as a subject name, goes to answer handling | `/study` also clears `current_question`, so a question is only pending while a subject and a topic are selected | medium; not executed | Bot.StudyKeepsPendingQuestion | Bot.StudyCleared |
