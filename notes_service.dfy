/**
 * The notes service: which files, topics and subjects of the notes directory are
 * offered, how a note is cut into passages, and how a random passage is drawn.
 * The directory is a tree of entries listed in the order the file system gives
 * them; the two random choices are indices passed in by the caller.
 */
module NotesService {
  import opened Wrappers
  import opened Text
  import opened Markup
  import opened DataModels

  /**
   * One entry of a directory listing: a regular file (with its text, or None when
   * opening or decoding it fails), a directory, or anything that is neither.
   */
  datatype Entry = File(name: string, text: Option<string>) | Dir(name: string, children: seq<Entry>) | Other(name: string)

  /** The notes directory: None when it does not exist, otherwise its listing. */
  type Notes = Option<seq<Entry>>

  predicate Hidden(name: string) {
    StartsWith(name, ".")
  }

  /** `Path.suffix`: from the last `.` on, unless that dot leads the name or ends it. */
  function Suffix(name: string): (r: string)
    ensures r == [] || (r[0] == '.' && EndsWith(name, r) && |r| < |name|)
  {
    match RFind(name, '.')
    case None => ""
    case Some(i) => if 0 < i < |name| - 1 then name[i..] else ""
  }

  /** A dot-led extension with no further dot, such as `.md`. */
  predicate Extension(ext: string) {
    |ext| >= 2 && ext[0] == '.' && forall k :: 1 <= k < |ext| ==> ext[k] != '.'
  }

  /** The lowercased suffix is `ext` exactly when the lowercased name ends in `ext` after at least one other character. */
  lemma SuffixIs(name: string, ext: string)
    requires Extension(ext)
    ensures Lower(Suffix(name)) == ext <==> |name| > |ext| && Lower(name[|name| - |ext|..]) == ext
  {
    if |name| > |ext| && Lower(name[|name| - |ext|..]) == ext {
      var i0 := |name| - |ext|;
      assert name[i0..][0] == name[i0];
      assert LowerChar(name[i0]) == '.';
      forall k | i0 < k < |name| ensures name[k] != '.' {
        assert name[i0..][k - i0] == name[k];
        assert LowerChar(name[k]) == ext[k - i0];
      }
      assert RFind(name, '.') == Some(i0);
    }
  }

  /** `_get_markdown_files`' test on a name: a `.md` or `.markdown` suffix in any case, and not `state.md`. */
  predicate IsMarkdownName(name: string) {
    var ext := Lower(Suffix(name));
    (ext == ".md" || ext == ".markdown") && name != "state.md"
  }

  lemma MarkdownNameIff(name: string)
    ensures IsMarkdownName(name) <==>
      name != "state.md" &&
      ((|name| > 3 && Lower(name[|name| - 3..]) == ".md") || (|name| > 9 && Lower(name[|name| - 9..]) == ".markdown"))
  {
    SuffixIs(name, ".md");
    SuffixIs(name, ".markdown");
  }

  predicate IsMarkdownFile(e: Entry) {
    e.File? && IsMarkdownName(e.name)
  }

  /** What one listing entry contributes to a list built by a filtering loop. */
  function Keep<T>(f: Entry -> Option<T>, entries: seq<Entry>): seq<T>
    decreases |entries|
  {
    if entries == [] then []
    else
      Keep(f, entries[..|entries| - 1]) +
      (match f(entries[|entries| - 1]) case Some(x) => [x] case None => [])
  }

  /** A filtering loop keeps exactly what the entries accepted map to. */
  lemma {:induction false} KeepExactly<T>(f: Entry -> Option<T>, entries: seq<Entry>, x: T)
    ensures x in Keep(f, entries) <==> exists k :: 0 <= k < |entries| && f(entries[k]) == Some(x)
    decreases |entries|
  {
    if entries != [] {
      var n := |entries| - 1;
      var init := entries[..n];
      var last := match f(entries[n]) case Some(y) => [y] case None => [];
      assert Keep(f, entries) == Keep(f, init) + last;
      assert x in last <==> f(entries[n]) == Some(x);
      KeepExactly(f, init, x);
      if exists k :: 0 <= k < |entries| && f(entries[k]) == Some(x) {
        var k :| 0 <= k < |entries| && f(entries[k]) == Some(x);
        if k < n {
          assert init[k] == entries[k];
        }
      }
      if exists k :: 0 <= k < |init| && f(init[k]) == Some(x) {
        var k :| 0 <= k < |init| && f(init[k]) == Some(x);
        assert entries[k] == init[k];
      }
    }
  }

  function FileOf(dir: Path, e: Entry): Option<Path> {
    if IsMarkdownFile(e) then Some(dir + [e.name]) else None
  }

  /** The paths `_get_markdown_files` returns for the directory `dir` whose listing is `entries`. */
  function MarkdownFilesOf(dir: Path, entries: seq<Entry>): seq<Path> {
    Keep(e => FileOf(dir, e), entries)
  }

  function TopicOf(subject: string, dir: Path, e: Entry): Option<Topic> {
    if e.Dir? && !Hidden(e.name) && MarkdownFilesOf(dir + [e.name], e.children) != [] then
      Some(Topic(e.name, subject, dir + [e.name], MarkdownFilesOf(dir + [e.name], e.children)))
    else None
  }

  /** The topics `_get_topics_for_subject` returns for the subject directory `dir`. */
  function TopicsOf(subject: string, dir: Path, entries: seq<Entry>): seq<Topic> {
    Keep(e => TopicOf(subject, dir, e), entries)
  }

  function SubjectOf(e: Entry): Option<Subject> {
    if e.Dir? && !Hidden(e.name) && TopicsOf(e.name, [e.name], e.children) != [] then
      Some(Subject(e.name, [e.name], TopicsOf(e.name, [e.name], e.children)))
    else None
  }

  /** The subjects `get_subjects` returns. */
  function Subjects(notes: Notes): seq<Subject> {
    match notes
    case None => []
    case Some(entries) => Keep(SubjectOf, entries)
  }

  /** A path is listed for a topic iff it names a regular markdown file of that directory. */
  lemma MarkdownFilesExactly(dir: Path, entries: seq<Entry>, p: Path)
    ensures p in MarkdownFilesOf(dir, entries) <==>
      exists k :: 0 <= k < |entries| && IsMarkdownFile(entries[k]) && p == dir + [entries[k].name]
  {
    KeepExactly(e => FileOf(dir, e), entries, p);
  }

  /** A topic is listed iff it comes from a visible child directory that has a markdown file. */
  lemma TopicsExactly(subject: string, dir: Path, entries: seq<Entry>, t: Topic)
    ensures t in TopicsOf(subject, dir, entries) <==>
      exists k :: 0 <= k < |entries| && entries[k].Dir? && !Hidden(entries[k].name) &&
        t.name == entries[k].name && t.subject == subject && t.path == dir + [t.name] &&
        t.markdownFiles == MarkdownFilesOf(t.path, entries[k].children) && t.markdownFiles != []
  {
    KeepExactly(e => TopicOf(subject, dir, e), entries, t);
  }

  /** A subject is listed iff it comes from a visible top-level directory that has a listed topic. */
  lemma SubjectsExactly(notes: Notes, s: Subject)
    ensures s in Subjects(notes) <==>
      notes.Some? &&
      exists k :: 0 <= k < |notes.value| && notes.value[k].Dir? && !Hidden(notes.value[k].name) &&
        s.name == notes.value[k].name && s.path == [s.name] &&
        s.topics == TopicsOf(s.name, s.path, notes.value[k].children) && s.topics != []
  {
    if notes.Some? {
      KeepExactly(SubjectOf, notes.value, s);
    }
  }

  /**
   * What every listed subject promises: it has topics; each topic names that subject,
   * sits directly under it and has markdown files; each file sits directly under
   * its topic and has a markdown name.
   */
  lemma SubjectsWellFormed(notes: Notes, s: Subject)
    requires s in Subjects(notes)
    ensures s.topics != [] && s.path == [s.name] && !Hidden(s.name)
    ensures forall t :: t in s.topics ==>
      t.subject == s.name && t.path == s.path + [t.name] && !Hidden(t.name) && t.markdownFiles != [] &&
      forall f :: f in t.markdownFiles ==> |f| == 3 && f[..2] == t.path && IsMarkdownName(f[2])
  {
    SubjectsExactly(notes, s);
    var k :| 0 <= k < |notes.value| && notes.value[k].Dir? && !Hidden(notes.value[k].name) &&
      s.name == notes.value[k].name && s.path == [s.name] &&
      s.topics == TopicsOf(s.name, s.path, notes.value[k].children) && s.topics != [];
    forall t | t in s.topics
      ensures t.subject == s.name && t.path == s.path + [t.name] && !Hidden(t.name) && t.markdownFiles != [] &&
        forall f :: f in t.markdownFiles ==> |f| == 3 && f[..2] == t.path && IsMarkdownName(f[2])
    {
      var children := notes.value[k].children;
      TopicsExactly(s.name, s.path, children, t);
      var j :| 0 <= j < |children| && children[j].Dir? && !Hidden(children[j].name) &&
        t.name == children[j].name && t.subject == s.name && t.path == s.path + [t.name] &&
        t.markdownFiles == MarkdownFilesOf(t.path, children[j].children) && t.markdownFiles != [];
      forall f | f in t.markdownFiles ensures |f| == 3 && f[..2] == t.path && IsMarkdownName(f[2]) {
        MarkdownFilesExactly(t.path, children[j].children, f);
      }
    }
  }

  /** One more entry adds its path when it is a markdown file. */
  lemma MarkdownFilesStep(dir: Path, entries: seq<Entry>, i: nat)
    requires i < |entries|
    ensures MarkdownFilesOf(dir, entries[..i + 1]) ==
      MarkdownFilesOf(dir, entries[..i]) + (if IsMarkdownFile(entries[i]) then [dir + [entries[i].name]] else [])
  {
    assert entries[..i + 1][..i] == entries[..i];
  }

  /** The loop in `_get_markdown_files`. */
  method GetMarkdownFiles(dir: Path, entries: seq<Entry>) returns (files: seq<Path>)
    ensures files == MarkdownFilesOf(dir, entries)
  {
    files := [];
    for i := 0 to |entries|
      invariant files == MarkdownFilesOf(dir, entries[..i])
    {
      MarkdownFilesStep(dir, entries, i);
      var e := entries[i];
      if e.File? && IsMarkdownName(e.name) {
        files := files + [dir + [e.name]];
      }
    }
    assert entries[..|entries|] == entries;
  }

  /** The loop in `_get_topics_for_subject`. */
  method GetTopicsForSubjectDir(subject: string, dir: Path, entries: seq<Entry>) returns (topics: seq<Topic>)
    ensures topics == TopicsOf(subject, dir, entries)
  {
    topics := [];
    for i := 0 to |entries|
      invariant topics == TopicsOf(subject, dir, entries[..i])
    {
      var e := entries[i];
      if e.Dir? && !Hidden(e.name) {
        var files := GetMarkdownFiles(dir + [e.name], e.children);
        if files != [] {
          topics := topics + [Topic(e.name, subject, dir + [e.name], files)];
        }
      }
      assert entries[..i + 1][..i] == entries[..i];
    }
    assert entries[..|entries|] == entries;
  }

  /** `get_subjects`. */
  method GetSubjects(notes: Notes) returns (subjects: seq<Subject>)
    ensures subjects == Subjects(notes)
  {
    subjects := [];
    if notes.None? {
      return;
    }
    var entries := notes.value;
    for i := 0 to |entries|
      invariant subjects == Keep(SubjectOf, entries[..i])
    {
      var e := entries[i];
      if e.Dir? && !Hidden(e.name) {
        var topics := GetTopicsForSubjectDir(e.name, [e.name], e.children);
        if topics != [] {
          subjects := subjects + [Subject(e.name, [e.name], topics)];
        }
      }
      assert entries[..i + 1][..i] == entries[..i];
    }
    assert entries[..|entries|] == entries;
  }

  /** The topics of the first subject called `name`, or none. */
  function TopicsNamed(subjects: seq<Subject>, name: string): seq<Topic> {
    if subjects == [] then []
    else if subjects[0].name == name then subjects[0].topics
    else TopicsNamed(subjects[1..], name)
  }

  /** `TopicsNamed` is a first-match search: the first subject with that name decides, and no match gives `[]`. */
  lemma {:induction false} TopicsNamedFirstMatch(subjects: seq<Subject>, name: string)
    ensures (forall k :: 0 <= k < |subjects| ==> subjects[k].name != name) ==> TopicsNamed(subjects, name) == []
    ensures forall k ::
      (0 <= k < |subjects| && subjects[k].name == name && (forall j :: 0 <= j < k ==> subjects[j].name != name)) ==>
        TopicsNamed(subjects, name) == subjects[k].topics
  {
    if subjects != [] {
      var rest := subjects[1..];
      TopicsNamedFirstMatch(rest, name);
      forall k | 0 <= k < |subjects| && subjects[k].name == name &&
        (forall j :: 0 <= j < k ==> subjects[j].name != name)
        ensures TopicsNamed(subjects, name) == subjects[k].topics
      {
        if k > 0 {
          assert subjects[0].name != name;
          assert rest[k - 1] == subjects[k];
          forall j | 0 <= j < k - 1 ensures rest[j].name != name {
            assert rest[j] == subjects[j + 1];
          }
        }
      }
      if forall k :: 0 <= k < |subjects| ==> subjects[k].name != name {
        assert subjects[0].name != name;
        forall k | 0 <= k < |rest| ensures rest[k].name != name {
          assert rest[k] == subjects[k + 1];
        }
      }
    }
  }

  /** When some subject has the name, the lookup returns the topics of one such subject. */
  lemma {:induction false} TopicsNamedFound(subjects: seq<Subject>, name: string)
    requires exists k :: 0 <= k < |subjects| && subjects[k].name == name
    ensures exists k :: 0 <= k < |subjects| && subjects[k].name == name && TopicsNamed(subjects, name) == subjects[k].topics
  {
    if subjects[0].name != name {
      var rest := subjects[1..];
      var k :| 0 <= k < |subjects| && subjects[k].name == name;
      assert rest[k - 1] == subjects[k];
      TopicsNamedFound(rest, name);
      var j :| 0 <= j < |rest| && rest[j].name == name && TopicsNamed(rest, name) == rest[j].topics;
      assert subjects[j + 1] == rest[j];
    }
  }

  /** A subject the service lists always yields at least one topic when looked up by its name. */
  lemma KnownSubjectHasTopics(notes: Notes, name: string)
    requires exists s :: s in Subjects(notes) && s.name == name
    ensures TopicsNamed(Subjects(notes), name) != []
  {
    var subjects := Subjects(notes);
    var s :| s in subjects && s.name == name;
    TopicsNamedFound(subjects, name);
    var k :| 0 <= k < |subjects| && subjects[k].name == name && TopicsNamed(subjects, name) == subjects[k].topics;
    SubjectsWellFormed(notes, subjects[k]);
  }

  /** `get_topics_for_subject`: a search over `get_subjects` that returns at the first name match. */
  method GetTopicsForSubject(notes: Notes, name: string) returns (topics: seq<Topic>)
    ensures topics == TopicsNamed(Subjects(notes), name)
  {
    var subjects := GetSubjects(notes);
    for i := 0 to |subjects|
      invariant TopicsNamed(subjects[i..], name) == TopicsNamed(subjects, name)
    {
      if subjects[i].name == name {
        return subjects[i].topics;
      }
      assert subjects[i..][1..] == subjects[i + 1..];
    }
    return [];
  }

  /** The first topic called `name`, if any. */
  function FindTopic(topics: seq<Topic>, name: string): (r: Option<Topic>)
    ensures r.Some? ==> r.value in topics && r.value.name == name
    ensures r.None? <==> forall t :: t in topics ==> t.name != name
  {
    if topics == [] then None
    else if topics[0].name == name then Some(topics[0])
    else FindTopic(topics[1..], name)
  }

  /** The first entry of a listing called `name`, if any. */
  function FindEntry(entries: seq<Entry>, name: string): (r: Option<Entry>)
    ensures r.Some? ==> r.value in entries && r.value.name == name
    ensures r.None? <==> forall e :: e in entries ==> e.name != name
  {
    if entries == [] then None
    else if entries[0].name == name then Some(entries[0])
    else FindEntry(entries[1..], name)
  }

  /** The topic found is the first one carrying the name: every topic before it has another name. */
  lemma {:induction false} FindTopicFirst(topics: seq<Topic>, name: string)
    ensures FindTopic(topics, name).Some? ==>
      exists k :: 0 <= k < |topics| && topics[k] == FindTopic(topics, name).value &&
        forall j :: 0 <= j < k ==> topics[j].name != name
    decreases |topics|
  {
    if topics != [] && topics[0].name != name {
      FindTopicFirst(topics[1..], name);
      if FindTopic(topics, name).Some? {
        var k :| 0 <= k < |topics[1..]| && topics[1..][k] == FindTopic(topics, name).value &&
          forall j :: 0 <= j < k ==> topics[1..][j].name != name;
        assert topics[k + 1] == FindTopic(topics, name).value;
        assert forall j :: 0 <= j < k + 1 ==> topics[j].name != name by {
          forall j | 0 < j < k + 1 ensures topics[j].name != name {
            assert topics[j] == topics[1..][j - 1];
          }
        }
      }
    } else if topics != [] {
      assert topics[0] == FindTopic(topics, name).value;
    }
  }

  /** The entry found is the first one carrying the name: every entry before it has another name. */
  lemma {:induction false} FindEntryFirst(entries: seq<Entry>, name: string)
    ensures FindEntry(entries, name).Some? ==>
      exists k :: 0 <= k < |entries| && entries[k] == FindEntry(entries, name).value &&
        forall j :: 0 <= j < k ==> entries[j].name != name
    decreases |entries|
  {
    if entries != [] && entries[0].name != name {
      FindEntryFirst(entries[1..], name);
      if FindEntry(entries, name).Some? {
        var k :| 0 <= k < |entries[1..]| && entries[1..][k] == FindEntry(entries, name).value &&
          forall j :: 0 <= j < k ==> entries[1..][j].name != name;
        assert entries[k + 1] == FindEntry(entries, name).value;
        assert forall j :: 0 <= j < k + 1 ==> entries[j].name != name by {
          forall j | 0 < j < k + 1 ensures entries[j].name != name {
            assert entries[j] == entries[1..][j - 1];
          }
        }
      }
    } else if entries != [] {
      assert entries[0] == FindEntry(entries, name).value;
    }
  }

  /** The entry a path leads to from a listing. */
  function Lookup(entries: seq<Entry>, path: Path): Option<Entry>
    decreases |path|
  {
    if path == [] then None
    else
      match FindEntry(entries, path[0])
      case None => None
      case Some(e) =>
        if |path| == 1 then Some(e)
        else if e.Dir? then Lookup(e.children, path[1..])
        else None
  }

  /** The text `open(path).read()` gives, or None when it raises. */
  function ReadFile(notes: Notes, path: Path): Option<string> {
    match notes
    case None => None
    case Some(entries) =>
      match Lookup(entries, path)
      case Some(File(_, text)) => text
      case _ => None
  }

  /** `_extract_paragraphs`' test on a stripped piece: longer than 50 and not a heading, fence or rule. */
  predicate Qualifies(c: string) {
    |c| > 50 && !StartsWith(c, "#") && !StartsWith(c, "```") && !StartsWith(c, "---")
  }

  /** The passage one raw piece yields: its stripped text, cleaned of markup, if that qualifies. */
  function PassageOf(piece: string): Option<string> {
    var c := Strip(piece);
    if Qualifies(c) then Some(CleanMarkup(c)) else None
  }

  /** What a loop over `enumerate(pieces)` collects when piece `i` contributes `(x, i)` whenever `f` yields `x`. */
  function Enumerate<T>(f: string -> Option<T>, pieces: seq<string>): seq<(T, nat)>
    decreases |pieces|
  {
    if pieces == [] then []
    else
      var n := |pieces| - 1;
      Enumerate(f, pieces[..n]) + (match f(pieces[n]) case Some(x) => [(x, n)] case None => [])
  }

  /** One more piece adds its contribution, if any, tagged with its position. */
  lemma EnumerateStep<T>(f: string -> Option<T>, pieces: seq<string>, i: nat)
    requires i < |pieces|
    ensures Enumerate(f, pieces[..i + 1]) ==
      Enumerate(f, pieces[..i]) + (match f(pieces[i]) case Some(x) => [(x, i)] case None => [])
  {
    assert pieces[..i + 1][..i] == pieces[..i];
  }

  /** Each pair's index is a position in `pieces`, and its value is what `f` yields for that piece. */
  lemma {:induction false} EnumerateSound<T>(f: string -> Option<T>, pieces: seq<string>)
    ensures forall k :: 0 <= k < |Enumerate(f, pieces)| ==>
      Enumerate(f, pieces)[k].1 < |pieces| && f(pieces[Enumerate(f, pieces)[k].1]) == Some(Enumerate(f, pieces)[k].0)
    decreases |pieces|
  {
    if pieces != [] {
      var n := |pieces| - 1;
      var init := pieces[..n];
      EnumerateSound(f, init);
      var before, ps := Enumerate(f, init), Enumerate(f, pieces);
      forall k | 0 <= k < |ps| ensures ps[k].1 < |pieces| && f(pieces[ps[k].1]) == Some(ps[k].0) {
        if k < |before| {
          assert ps[k] == before[k];
          assert init[before[k].1] == pieces[before[k].1];
        }
      }
    }
  }

  /** The indices of the pairs strictly increase. */
  lemma {:induction false} EnumerateIncreasing<T>(f: string -> Option<T>, pieces: seq<string>)
    ensures forall k :: 0 <= k < |Enumerate(f, pieces)| ==> Enumerate(f, pieces)[k].1 < |pieces|
    ensures forall a, b :: 0 <= a < b < |Enumerate(f, pieces)| ==> Enumerate(f, pieces)[a].1 < Enumerate(f, pieces)[b].1
    decreases |pieces|
  {
    if pieces != [] {
      var n := |pieces| - 1;
      var init := pieces[..n];
      EnumerateIncreasing(f, init);
      var before, ps := Enumerate(f, init), Enumerate(f, pieces);
      forall k | 0 <= k < |before| ensures ps[k] == before[k] { }
    }
  }

  /** Every piece for which `f` yields something is present among the pairs. */
  lemma {:induction false} EnumerateComplete<T>(f: string -> Option<T>, pieces: seq<string>)
    ensures forall i :: 0 <= i < |pieces| && f(pieces[i]).Some? ==> (f(pieces[i]).value, i) in Enumerate(f, pieces)
    decreases |pieces|
  {
    if pieces != [] {
      var n := |pieces| - 1;
      var init := pieces[..n];
      EnumerateComplete(f, init);
      forall i | 0 <= i < n ensures init[i] == pieces[i] { }
    }
  }

  function Pieces(text: string): seq<string> {
    SplitOn(text, "\n\n")
  }

  /** What `_extract_paragraphs` returns for a file's text (None: the read failed). */
  function Passages(text: Option<string>): seq<(string, nat)> {
    match text
    case None => []
    case Some(t) => Enumerate(PassageOf, Pieces(t))
  }

  /** The body of `_extract_paragraphs`' loop: strip, test, then remove bold, italic, code and links. */
  method CleanPiece(piece: string) returns (cleaned: Option<string>)
    ensures cleaned == PassageOf(piece)
  {
    var c := Strip(piece);
    if |c| > 50 && !StartsWith(c, "#") && !StartsWith(c, "```") && !StartsWith(c, "---") {
      c := SubPair(c, "**");
      c := SubPair(c, "*");
      c := SubPair(c, "`");
      c := SubLink(c);
      return Some(c);
    }
    return None;
  }

  /** The `enumerate` loop of `_extract_paragraphs` over the raw pieces. */
  method CollectPassages(pieces: seq<string>) returns (passages: seq<(string, nat)>)
    ensures passages == Enumerate(PassageOf, pieces)
  {
    passages := [];
    for i := 0 to |pieces|
      invariant passages == Enumerate(PassageOf, pieces[..i])
    {
      EnumerateStep(PassageOf, pieces, i);
      var cleaned := CleanPiece(pieces[i]);
      if cleaned.Some? {
        passages := passages + [(cleaned.value, i)];
      }
    }
    assert pieces[..|pieces|] == pieces;
  }

  /** `_extract_paragraphs`: read the file, split it on the literal two-newline separator `"\n\n"`, collect the passages. */
  method ExtractParagraphs(notes: Notes, path: Path) returns (passages: seq<(string, nat)>)
    ensures passages == Passages(ReadFile(notes, path))
  {
    var text := ReadFile(notes, path);
    if text.None? {
      return [];
    }
    var pieces := Pieces(text.value);
    passages := CollectPassages(pieces);
  }

  /**
   * What `_extract_paragraphs` promises about the pairs it returns for a file's text:
   * each index is a position in the split on `"\n\n"` whose stripped piece qualifies,
   * and the pair's text is that piece with its markup removed; the indices strictly
   * increase; and every qualifying piece is present.
   */
  lemma PassagesExactly(text: string)
    ensures forall k :: 0 <= k < |Passages(Some(text))| ==>
      var (c, i) := Passages(Some(text))[k];
      i < |Pieces(text)| && Qualifies(Strip(Pieces(text)[i])) && c == CleanMarkup(Strip(Pieces(text)[i]))
    ensures forall a, b :: 0 <= a < b < |Passages(Some(text))| ==> Passages(Some(text))[a].1 < Passages(Some(text))[b].1
    ensures forall i :: 0 <= i < |Pieces(text)| && Qualifies(Strip(Pieces(text)[i])) ==>
      (CleanMarkup(Strip(Pieces(text)[i])), i) in Passages(Some(text))
  {
    var pieces := Pieces(text);
    EnumerateSound(PassageOf, pieces);
    EnumerateIncreasing(PassageOf, pieces);
    EnumerateComplete(PassageOf, pieces);
  }

  /** A piece yields a passage iff its stripped text qualifies; the passage is that text with its markup removed. */
  lemma PassageOfIff(piece: string, c: string)
    ensures PassageOf(piece) == Some(c) <==> Qualifies(Strip(piece)) && c == CleanMarkup(Strip(piece))
  {
  }

  /** Bold around plain text is the only markup removed. */
  lemma CleanBoldOnly(x: string)
    requires Plain(x)
    ensures CleanMarkup("**" + x + "**") == x
  {
    var s := "**" + x + "**";
    assert s == "**" + (x + ("**" + ""));
    SubPairStripsPair(x, "", "**");
    assert SubPair("", "**") == "";
    assert x + "" == x;
    assert SubPair(s, "**") == x;
    SubPairPlainPrefix(x, "", "*");
    SubPairPlainPrefix(x, "", "`");
    SubLinkPlainPrefix(x, "");
  }

  /** Text without a newline is a single piece, so its passages are what that piece yields. */
  lemma {:induction false} OnePiece(s: string, c: string)
    requires '\n' !in s && PassageOf(s) == Some(c)
    ensures Passages(Some(s)) == [(c, 0)]
  {
    AbsentFirstChar(s, "\n\n");
    SplitOnAbsent(s, "\n\n");
    EnumerateOne(PassageOf, s, c);
  }

  /** A single piece that yields `c` gives the one pair `(c, 0)`. */
  lemma EnumerateOne<T>(f: string -> Option<T>, s: string, c: T)
    requires f(s) == Some(c)
    ensures Enumerate(f, [s]) == [(c, 0)]
  {
    EnumerateStep(f, [s], 0);
    assert [s][..1] == [s];
    assert [s][..0] == [];
  }

  /** Bold plain text of 47 or 48 characters passes the length test only because of its markers. */
  lemma {:induction false} ShortBoldPassage(x: string)
    requires Plain(x) && 47 <= |x| <= 48
    ensures PassageOf("**" + x + "**") == Some(x)
  {
    var s := "**" + x + "**";
    StripKeeps(s);
    assert s[..1] != "#" && s[..3] != "```" && s[..3] != "---";
    assert Qualifies(s);
    CleanBoldOnly(x);
  }

  /** Passages are judged on length before markup is removed, so a kept passage can be 50 characters or shorter. */
  lemma ShortPassageAfterCleaning(x: string)
    requires Plain(x) && 47 <= |x| <= 48
    ensures Passages(Some("**" + x + "**")) == [(x, 0)]
    ensures |x| <= 50 < |"**" + x + "**"|
  {
    var s := "**" + x + "**";
    assert '\n' !in s by {
      forall k | 0 <= k < |s| ensures s[k] != '\n' {
        if 2 <= k < 2 + |x| { assert s[k] == x[k - 2]; }
      }
    }
    ShortBoldPassage(x);
    OnePiece(s, x);
  }

  /**
   * `get_random_paragraph` with its two `random.choice` draws given as indices:
   * the file is `files[fileDraw % |files|]`, the passage `passages[passageDraw % |passages|]`.
   */
  function RandomParagraph(notes: Notes, subject: string, topic: string, fileDraw: nat, passageDraw: nat): Option<Paragraph> {
    match FindTopic(TopicsNamed(Subjects(notes), subject), topic)
    case None => None
    case Some(t) =>
      if t.markdownFiles == [] then None
      else
        var file := t.markdownFiles[fileDraw % |t.markdownFiles|];
        var passages := Passages(ReadFile(notes, file));
        if passages == [] then None
        else
          var (content, index) := passages[passageDraw % |passages|];
          Some(Paragraph(content, file, index))
  }

  /** `get_random_paragraph`. */
  method GetRandomParagraph(notes: Notes, subject: string, topic: string, fileDraw: nat, passageDraw: nat)
    returns (p: Option<Paragraph>)
    ensures p == RandomParagraph(notes, subject, topic, fileDraw, passageDraw)
  {
    var topics := GetTopicsForSubject(notes, subject);
    var target: Option<Topic> := None;
    var i := 0;
    while i < |topics|
      invariant i <= |topics|
      invariant FindTopic(topics[i..], topic) == FindTopic(topics, topic)
    {
      if topics[i].name == topic {
        target := Some(topics[i]);
        break;
      }
      assert topics[i..][1..] == topics[i + 1..];
      i := i + 1;
    }
    assert target.Some? || topics[i..] == [];
    if target.None? || target.value.markdownFiles == [] {
      return None;
    }
    var files := target.value.markdownFiles;
    var file := files[fileDraw % |files|];
    var passages := ExtractParagraphs(notes, file);
    if passages == [] {
      return None;
    }
    var (content, index) := passages[passageDraw % |passages|];
    return Some(Paragraph(content, file, index));
  }

  /** The lookup returns `[]` or the topics of some subject of that name. */
  lemma TopicsNamedSource(subjects: seq<Subject>, name: string)
    ensures TopicsNamed(subjects, name) == [] ||
      exists k :: 0 <= k < |subjects| && subjects[k].name == name && TopicsNamed(subjects, name) == subjects[k].topics
  {
    if exists k :: 0 <= k < |subjects| && subjects[k].name == name {
      TopicsNamedFound(subjects, name);
    } else {
      TopicsNamedFirstMatch(subjects, name);
    }
  }

  /** A topic found for a subject is a listed topic of a listed subject of that name. */
  lemma FoundTopicListed(notes: Notes, subject: string, topic: string)
    requires FindTopic(TopicsNamed(Subjects(notes), subject), topic).Some?
    ensures var t := FindTopic(TopicsNamed(Subjects(notes), subject), topic).value;
      t.name == topic && t.subject == subject && t.markdownFiles != [] &&
      exists s :: s in Subjects(notes) && s.name == subject && t in s.topics
  {
    var subjects := Subjects(notes);
    TopicsNamedSource(subjects, subject);
    var k :| 0 <= k < |subjects| && subjects[k].name == subject && TopicsNamed(subjects, subject) == subjects[k].topics;
    SubjectsWellFormed(notes, subjects[k]);
  }

  /**
   * `get_random_paragraph` gives None exactly when the subject has no topic of that
   * name or the one file drawn yields no passage; another file is never tried.
   */
  lemma RandomParagraphNone(notes: Notes, subject: string, topic: string, fileDraw: nat, passageDraw: nat)
    ensures var found := FindTopic(TopicsNamed(Subjects(notes), subject), topic);
      (found.Some? ==> found.value.markdownFiles != []) &&
      (RandomParagraph(notes, subject, topic, fileDraw, passageDraw).None? <==>
        found.None? ||
        (found.value.markdownFiles != [] &&
         Passages(ReadFile(notes, found.value.markdownFiles[fileDraw % |found.value.markdownFiles|])) == []))
  {
    if FindTopic(TopicsNamed(Subjects(notes), subject), topic).Some? {
      FoundTopicListed(notes, subject, topic);
    }
  }

  /**
   * A paragraph `get_random_paragraph` returns comes from a markdown file of a listed
   * topic of that name under a listed subject of that name, and its text and index
   * are one of the pairs extracted from that file.
   */
  lemma RandomParagraphFound(notes: Notes, subject: string, topic: string, fileDraw: nat, passageDraw: nat)
    requires RandomParagraph(notes, subject, topic, fileDraw, passageDraw).Some?
    ensures var p := RandomParagraph(notes, subject, topic, fileDraw, passageDraw).value;
      (exists s, t :: s in Subjects(notes) && s.name == subject && t in s.topics && t.name == topic &&
        p.filePath in t.markdownFiles) &&
      |p.filePath| == 3 && p.filePath[..2] == [subject, topic] && IsMarkdownName(p.filePath[2]) &&
      p.paragraphIndex >= 0 && (p.content, p.paragraphIndex as nat) in Passages(ReadFile(notes, p.filePath))
  {
    var p := RandomParagraph(notes, subject, topic, fileDraw, passageDraw).value;
    var t := FindTopic(TopicsNamed(Subjects(notes), subject), topic).value;
    FoundTopicListed(notes, subject, topic);
    var s :| s in Subjects(notes) && s.name == subject && t in s.topics;
    var file := t.markdownFiles[fileDraw % |t.markdownFiles|];
    var passages := Passages(ReadFile(notes, file));
    var k := passageDraw % |passages|;
    assert p == Paragraph(passages[k].0, file, passages[k].1);
    assert passages[k] in passages;
    ListedFileShape(notes, s, t, file);
  }

  /** A file listed for a listed topic is named by subject, topic and a markdown file name. */
  lemma ListedFileShape(notes: Notes, s: Subject, t: Topic, file: Path)
    requires s in Subjects(notes) && t in s.topics && file in t.markdownFiles
    ensures |file| == 3 && file[..2] == [s.name, t.name] && IsMarkdownName(file[2])
  {
    SubjectsWellFormed(notes, s);
    assert t.path == [s.name, t.name];
  }
}
