/**
 * The bot's per-user session state machine. The bot keeps a map from user id
 * to session; each command looks the session up (creating it on a miss) and
 * replaces it with the updated one. Telegram itself is left out: a command is
 * a method call and a reply is a value saying which answer the bot gives.
 */
module Bot {
  import opened Wrappers
  import opened DataModels
  import opened NotesService

  /** The extra keyboard entry that asks for a topic chosen at random. */
  const RandomTopic: string := "\U{1F3B2} Random Topic"

  /** Python truthiness of an optional string: present and not empty. */
  predicate Truthy(o: Option<string>) {
    o.Some? && o.value != ""
  }

  /** A topic is only chosen once a subject is. */
  predicate TopicNeedsSubject(s: UserSession) {
    s.selectedTopic.Some? ==> s.selectedSubject.Some?
  }

  /** A question is only pending once both a subject and a topic are chosen. */
  predicate QuestionNeedsSelection(s: UserSession) {
    s.currentQuestion.Some? ==> s.selectedSubject.Some? && s.selectedTopic.Some?
  }

  /** A fresh session satisfies both selection invariants. */
  lemma NewSessionInvariants(userId: int)
    ensures TopicNeedsSubject(NewSession(userId)) && QuestionNeedsSelection(NewSession(userId))
    ensures RouteMessage(NewSession(userId)) == ToSubjectSelection
  {
  }

  /** The sessions after `get_user_session(id)`. */
  function Registered(sessions: map<int, UserSession>, id: int): (r: map<int, UserSession>)
    ensures r.Keys == sessions.Keys + {id}
    ensures forall k :: k in sessions ==> r[k] == sessions[k]
    ensures id !in sessions ==> r[id] == NewSession(id)
  {
    if id in sessions then sessions else sessions[id := NewSession(id)]
  }

  /** The session after `/start`: selection and pending question cleared, statistics kept. */
  function Restarted(s: UserSession): (r: UserSession)
    ensures r.currentQuestion.None? && r.selectedTopic.None? && r.selectedSubject.None?
    ensures r.userId == s.userId && r.score == s.score && r.questionsAnswered == s.questionsAnswered
  {
    s.(currentQuestion := None, selectedTopic := None, selectedSubject := None)
  }

  /** The session after `/study` finds subjects: subject and topic cleared, nothing else touched. */
  function SelectionCleared(s: UserSession): (r: UserSession)
    ensures r.selectedTopic.None? && r.selectedSubject.None?
    ensures r.currentQuestion == s.currentQuestion
    ensures r.userId == s.userId && r.score == s.score && r.questionsAnswered == s.questionsAnswered
  {
    s.(selectedSubject := None, selectedTopic := None)
  }

  /** Restarting twice is restarting once, and a restarted session satisfies both invariants. */
  lemma RestartedInvariants(s: UserSession)
    ensures Restarted(Restarted(s)) == Restarted(s)
    ensures TopicNeedsSubject(Restarted(s)) && QuestionNeedsSelection(Restarted(s))
    ensures RouteMessage(Restarted(s)) == ToSubjectSelection
  {
  }

  /** `/study` keeps "topic needs subject" but, as written, keeps a pending question without its selection. */
  lemma SelectionClearedKeepsTopicInvariant(s: UserSession)
    ensures TopicNeedsSubject(SelectionCleared(s))
    ensures QuestionNeedsSelection(SelectionCleared(s)) <==> s.currentQuestion.None?
  {
  }

  /**
   * `/study` as evidently intended: the pending question is dropped together with
   * the selection, so both selection invariants hold afterwards and the next text
   * goes to subject selection. Statistics are kept.
   */
  function StudyCleared(s: UserSession): (r: UserSession)
    ensures r.currentQuestion.None? && r.selectedTopic.None? && r.selectedSubject.None?
    ensures r.userId == s.userId && r.score == s.score && r.questionsAnswered == s.questionsAnswered
    ensures TopicNeedsSubject(r) && QuestionNeedsSelection(r) && RouteMessage(r) == ToSubjectSelection
  {
    SelectionCleared(s).(currentQuestion := None)
  }

  /** The intended `/study` differs from the written one exactly when a question is pending. */
  lemma StudyClearedDiffers(s: UserSession)
    ensures StudyCleared(s) == SelectionCleared(s) <==> s.currentQuestion.None?
    ensures StudyCleared(s) == Restarted(s)
  {
  }

  /** A concrete session on which `/study` breaks "question needs selection". */
  lemma StudyKeepsPendingQuestion()
    ensures var q := Question("q", Paragraph("p", ["s", "t", "n.md"], 0), "t", "s");
      var s := UserSession(1, Some(q), Some("t"), Some("s"), 0, 0);
      QuestionNeedsSelection(s) && !QuestionNeedsSelection(SelectionCleared(s)) &&
      RouteMessage(SelectionCleared(s)) == ToAnswer
  {
  }

  /** Which handler `handle_message` hands the text to. */
  datatype Route = ToAnswer | ToSubjectSelection | ToTopicSelection | ToNothing

  /** The dispatch in `handle_message`: a pending question first, then a missing subject, then a missing topic. */
  function RouteMessage(s: UserSession): (r: Route)
    ensures r == ToAnswer <==> s.currentQuestion.Some?
    ensures r == ToSubjectSelection <==> s.currentQuestion.None? && !Truthy(s.selectedSubject)
    ensures r == ToTopicSelection <==> s.currentQuestion.None? && Truthy(s.selectedSubject) && !Truthy(s.selectedTopic)
    ensures r == ToNothing <==> s.currentQuestion.None? && Truthy(s.selectedSubject) && Truthy(s.selectedTopic)
  {
    if s.currentQuestion.Some? then ToAnswer
    else if !Truthy(s.selectedSubject) then ToSubjectSelection
    else if !Truthy(s.selectedTopic) then ToTopicSelection
    else ToNothing
  }

  /** What `/stats` reports. */
  datatype StatsReply = NoAnswersYet | Average(answered: int, score: int, average: real)

  /** `stats_command`: never divides when no question has been answered. */
  function Statistics(s: UserSession): (r: StatsReply)
    ensures r.NoAnswersYet? <==> s.questionsAnswered == 0
    ensures r.Average? ==>
      r.answered == s.questionsAnswered && r.score == s.score &&
      r.average * (s.questionsAnswered as real) == s.score as real
  {
    if s.questionsAnswered == 0 then NoAnswersYet
    else Average(s.questionsAnswered, s.score, s.score as real / s.questionsAnswered as real)
  }

  /** The names of `xs`, in order: the `[x.name for x in xs]` the keyboards are built from. */
  function Names<T>(xs: seq<T>, nameOf: T -> string): (names: seq<string>)
    ensures |names| == |xs|
    ensures forall i :: 0 <= i < |xs| ==> names[i] == nameOf(xs[i])
  {
    seq(|xs|, i requires 0 <= i < |xs| => nameOf(xs[i]))
  }

  function SubjectName(s: Subject): string { s.name }

  function TopicName(t: Topic): string { t.name }

  /** What `/study` answers: nothing to study, or the subjects to choose from. */
  datatype StudyReply = NoMaterials | ChooseSubject(subjects: seq<string>)

  /** What the bot answers to a subject name. */
  datatype SubjectReply =
    | SubjectNotFound(name: string, known: seq<string>)
    | NoTopicsFor(name: string)
    | ChooseTopic(name: string, options: seq<string>)

  /** Whether the listed subjects include one called `name`. */
  predicate KnownSubject(notes: Notes, name: string) {
    exists s :: s in Subjects(notes) && s.name == name
  }

  /** A name is among the subject names exactly when some listed subject carries it. */
  lemma SubjectNamesListed(subjects: seq<Subject>, name: string)
    ensures name in Names(subjects, SubjectName) <==> exists s :: s in subjects && s.name == name
  {
    if name in Names(subjects, SubjectName) {
      var i :| 0 <= i < |subjects| && Names(subjects, SubjectName)[i] == name;
      assert subjects[i] in subjects;
    }
    if exists s :: s in subjects && s.name == name {
      var t :| t in subjects && t.name == name;
      var i :| 0 <= i < |subjects| && subjects[i] == t;
      assert Names(subjects, SubjectName)[i] == name;
    }
  }

  /**
   * `handle_subject_selection` on one session: an unknown name changes nothing;
   * a known one becomes the selected subject, and no other field changes.
   */
  function SelectSubject(notes: Notes, s: UserSession, name: string): (r: (UserSession, SubjectReply))
    ensures !KnownSubject(notes, name) ==> r.0 == s && r.1.SubjectNotFound?
    ensures KnownSubject(notes, name) ==>
      r.0 == s.(selectedSubject := Some(name)) &&
      r.1 == ChooseTopic(name, Names(TopicsNamed(Subjects(notes), name), TopicName) + [RandomTopic]) &&
      TopicsNamed(Subjects(notes), name) != []
  {
    var subjects := Subjects(notes);
    SubjectNamesListed(subjects, name);
    if name !in Names(subjects, SubjectName) then
      (s, SubjectNotFound(name, Names(subjects, SubjectName)))
    else
      KnownSubjectHasTopics(notes, name);
      var topics := TopicsNamed(subjects, name);
      (s.(selectedSubject := Some(name)), if topics == [] then NoTopicsFor(name) else ChooseTopic(name, Names(topics, TopicName) + [RandomTopic]))
  }

  /** Choosing a subject keeps both selection invariants. */
  lemma SelectSubjectInvariants(notes: Notes, s: UserSession, name: string)
    requires TopicNeedsSubject(s) && QuestionNeedsSelection(s)
    ensures TopicNeedsSubject(SelectSubject(notes, s, name).0) && QuestionNeedsSelection(SelectSubject(notes, s, name).0)
  {
  }

  /** The topics the selected subject offers (`get_topics_for_subject(session.selected_subject)`). */
  function TopicsFor(notes: Notes, subject: Option<string>): seq<Topic> {
    match subject
    case None => []
    case Some(name) => TopicsNamed(Subjects(notes), name)
  }

  /** The topic name a reply stands for: the sentinel becomes the drawn topic when there is one. */
  function ResolveTopic(topics: seq<Topic>, text: string, draw: nat): (name: string)
    ensures text == RandomTopic && topics != [] ==> exists t :: t in topics && t.name == name
    ensures text != RandomTopic || topics == [] ==> name == text
  {
    if text == RandomTopic && topics != [] then topics[draw % |topics|].name else text
  }

  /** What `handle_topic_selection` decides about a topic name before it assigns the topic and a question. */
  datatype TopicReply = TopicNotFound(name: string) | TopicChosen(name: string)

  /** `handle_topic_selection` up to its check of the name; it changes no session field. */
  function SelectTopic(notes: Notes, s: UserSession, text: string, draw: nat): (r: TopicReply)
    ensures r.TopicChosen? <==> exists t :: t in TopicsFor(notes, s.selectedSubject) && t.name == r.name
    ensures r.name == ResolveTopic(TopicsFor(notes, s.selectedSubject), text, draw)
  {
    var topics := TopicsFor(notes, s.selectedSubject);
    var name := ResolveTopic(topics, text, draw);
    if FindTopic(topics, name).Some? then TopicChosen(name) else TopicNotFound(name)
  }

  /** With a listed subject selected, the sentinel always resolves to one of its topics and is accepted. */
  lemma RandomTopicAccepted(notes: Notes, s: UserSession, draw: nat)
    requires s.selectedSubject.Some? && KnownSubject(notes, s.selectedSubject.value)
    ensures SelectTopic(notes, s, RandomTopic, draw).TopicChosen?
    ensures SelectTopic(notes, s, RandomTopic, draw).name != RandomTopic ||
      exists t :: t in TopicsFor(notes, s.selectedSubject) && t.name == RandomTopic
  {
    KnownSubjectHasTopics(notes, s.selectedSubject.value);
  }

  /** Any other text is accepted exactly when it names a topic of the selected subject. */
  lemma TopicNameChecked(notes: Notes, s: UserSession, text: string, draw: nat)
    requires text != RandomTopic
    ensures SelectTopic(notes, s, text, draw) ==
      if exists t :: t in TopicsFor(notes, s.selectedSubject) && t.name == text then TopicChosen(text) else TopicNotFound(text)
  {
  }

  /** What `handle_message` did with a text. */
  datatype MessageOutcome =
    | AnswerHandled
    | SubjectStep(subjectReply: SubjectReply)
    | TopicStep(topicReply: TopicReply)
    | Ignored

  class TelegramBot {
    const notes: Notes
    var userSessions: map<int, UserSession>

    /** Each session is stored under its own user id and chooses a topic only after a subject. */
    ghost predicate Valid()
      reads this
    {
      forall id :: id in userSessions ==> userSessions[id].userId == id && TopicNeedsSubject(userSessions[id])
    }

    constructor(notes: Notes)
      ensures this.notes == notes && userSessions == map[]
      ensures Valid()
    {
      this.notes := notes;
      userSessions := map[];
    }

    /** `get_user_session`: an existing session is returned as is; a missing one is created with defaults. */
    method GetUserSession(userId: int) returns (session: UserSession)
      requires Valid()
      modifies this
      ensures userSessions == Registered(old(userSessions), userId)
      ensures session == userSessions[userId] && session.userId == userId
      ensures Valid()
    {
      if userId !in userSessions {
        userSessions := userSessions[userId := NewSession(userId)];
      }
      session := userSessions[userId];
    }

    /** `start_command`. */
    method StartCommand(userId: int)
      requires Valid()
      modifies this
      ensures var m := Registered(old(userSessions), userId);
        userSessions == m[userId := Restarted(m[userId])]
      ensures Valid()
    {
      var session := GetUserSession(userId);
      userSessions := userSessions[userId := Restarted(session)];
    }

    /** `study_command`: with no subjects the session is left alone; otherwise subject and topic are cleared. */
    method StudyCommand(userId: int) returns (reply: StudyReply)
      requires Valid()
      modifies this
      ensures var m := Registered(old(userSessions), userId);
        var subjects := Subjects(notes);
        if subjects == [] then userSessions == m && reply == NoMaterials
        else userSessions == m[userId := SelectionCleared(m[userId])] && reply == ChooseSubject(Names(subjects, SubjectName))
      ensures Valid()
    {
      var session := GetUserSession(userId);
      var subjects := GetSubjects(notes);
      if subjects == [] {
        return NoMaterials;
      }
      userSessions := userSessions[userId := SelectionCleared(session)];
      reply := ChooseSubject(Names(subjects, SubjectName));
    }

    /** `stats_command`. */
    method StatsCommand(userId: int) returns (reply: StatsReply)
      requires Valid()
      modifies this
      ensures userSessions == Registered(old(userSessions), userId)
      ensures reply == Statistics(userSessions[userId])
      ensures Valid()
    {
      var session := GetUserSession(userId);
      reply := Statistics(session);
    }

    /** `handle_subject_selection`. */
    method HandleSubjectSelection(userId: int, name: string) returns (reply: SubjectReply)
      requires Valid()
      modifies this
      ensures var m := Registered(old(userSessions), userId);
        var r := SelectSubject(notes, m[userId], name);
        userSessions == m[userId := r.0] && reply == r.1
      ensures Valid()
    {
      var session := GetUserSession(userId);
      var subjects := GetSubjects(notes);
      var names := Names(subjects, SubjectName);
      if name !in names {
        return SubjectNotFound(name, names);
      }
      userSessions := userSessions[userId := session.(selectedSubject := Some(name))];
      var topics := GetTopicsForSubject(notes, name);
      if topics == [] {
        return NoTopicsFor(name);
      }
      reply := ChooseTopic(name, Names(topics, TopicName) + [RandomTopic]);
    }

    /** `handle_topic_selection` up to its check of the name: resolve the sentinel, then check the name (the topic and question assignment is not modelled). */
    method HandleTopicSelection(userId: int, text: string, draw: nat) returns (reply: TopicReply)
      requires Valid()
      modifies this
      ensures userSessions == Registered(old(userSessions), userId)
      ensures reply == SelectTopic(notes, userSessions[userId], text, draw)
      ensures Valid()
    {
      var session := GetUserSession(userId);
      var name := text;
      if text == RandomTopic {
        var topics := TopicsOfSelection(session.selectedSubject);
        if topics != [] {
          name := topics[draw % |topics|].name;
        }
      }
      var topics := TopicsOfSelection(session.selectedSubject);
      if FindTopic(topics, name).None? {
        return TopicNotFound(name);
      }
      reply := TopicChosen(name);
    }

    /** `get_topics_for_subject` called with the session's optional subject. */
    method TopicsOfSelection(subject: Option<string>) returns (topics: seq<Topic>)
      ensures topics == TopicsFor(notes, subject)
    {
      if subject.None? {
        return [];
      }
      topics := GetTopicsForSubject(notes, subject.value);
    }

    /**
     * `handle_message`: the session's state picks exactly one handler. Answer
     * handling is not part of this model, so on that route no session changes.
     */
    method HandleMessage(userId: int, text: string, draw: nat) returns (outcome: MessageOutcome)
      requires Valid()
      modifies this
      ensures var m := Registered(old(userSessions), userId);
        match RouteMessage(m[userId])
        case ToAnswer => userSessions == m && outcome == AnswerHandled
        case ToSubjectSelection =>
          var r := SelectSubject(notes, m[userId], text);
          userSessions == m[userId := r.0] && outcome == SubjectStep(r.1)
        case ToTopicSelection =>
          userSessions == m && outcome == TopicStep(SelectTopic(notes, m[userId], text, draw))
        case ToNothing => userSessions == m && outcome == Ignored
      ensures Valid()
    {
      var session := GetUserSession(userId);
      if session.currentQuestion.Some? {
        return AnswerHandled;
      }
      if !Truthy(session.selectedSubject) {
        var reply := HandleSubjectSelection(userId, text);
        return SubjectStep(reply);
      }
      if !Truthy(session.selectedTopic) {
        var reply := HandleTopicSelection(userId, text, draw);
        return TopicStep(reply);
      }
      return Ignored;
    }
  }
}
