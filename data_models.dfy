/**
 * The records the bot and the notes service pass around. A path is the list of
 * its components below the notes directory: `[subject, topic, file]` for a note.
 */
module DataModels {
  import opened Wrappers

  type Path = seq<string>

  /** A subject directory and the topics kept for it. */
  datatype Subject = Subject(name: string, path: Path, topics: seq<Topic>)

  /** A topic directory, the name of the subject that owns it, and its markdown notes. */
  datatype Topic = Topic(name: string, subject: string, path: Path, markdownFiles: seq<Path>)

  /** A passage of a note: its cleaned text, its file and its place in that file's raw split. */
  datatype Paragraph = Paragraph(content: string, filePath: Path, paragraphIndex: int)

  /** A question, the passage it was made from, and that passage's topic and subject. */
  datatype Question = Question(text: string, sourceParagraph: Paragraph, topic: string, subject: string)

  /** What the bot remembers about one user between messages. */
  datatype UserSession = UserSession(
    userId: int,
    currentQuestion: Option<Question>,
    selectedTopic: Option<string>,
    selectedSubject: Option<string>,
    score: int,
    questionsAnswered: int)

  /** `UserSession(user_id)` with every other field at its default. */
  function NewSession(userId: int): (s: UserSession)
    ensures s.userId == userId
    ensures s.currentQuestion.None? && s.selectedTopic.None? && s.selectedSubject.None?
    ensures s.score == 0 && s.questionsAnswered == 0
  {
    UserSession(userId, None, None, None, 0, 0)
  }
}
