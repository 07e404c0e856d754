/**
 The knowledge store (`_get_knowledge_file`, `_append_to_knowledge`): one
 markdown file per day under a configured root, to which each analysis is
 appended under a "Captured at" heading. The file system is a map from path
 to content; the date and the clock reading are passed in as the strings
 `strftime("%Y%m%d")` and `strftime("%H:%M:%S")` produce.
 */
module Knowledge {
  import opened Strings

  type Store = map<string, string>

  const NotSetMessage: string := "KNOWLEDGE_SOURCE_PATH not set in environment"
  const FilePrefix: string := "running_knowledge_"
  const FileSuffix: string := ".md"
  const Heading: string := "\n\n## Captured at "
  const HeadingEnd: string := "\n\n"
  const Trailer: string := "\n\n---\n"

  /** The root counts as configured when it is present and non-empty (Python truthiness). */
  predicate IsSet(root: Option<string>) {
    root.Some? && root.value != ""
  }

  /** `f"running_knowledge_{today}.md"`. */
  function FileName(day: string): (r: string)
    ensures |r| == |FilePrefix| + |day| + |FileSuffix|
    ensures r[..|FilePrefix|] == FilePrefix
    ensures r[|FilePrefix|..|FilePrefix| + |day|] == day
    ensures r[|FilePrefix| + |day|..] == FileSuffix
  {
    FilePrefix + day + FileSuffix
  }

  /** Different days never share a file. */
  lemma FileNameInjective(d1: string, d2: string)
    requires FileName(d1) == FileName(d2)
    ensures d1 == d2
  {
    assert |d1| == |d2|;
  }

  /** POSIX `os.path.join(root, name)` for a relative `name`. */
  function JoinPath(root: string, name: string): (r: string)
    requires root != ""
    ensures |r| >= |root| + |name|
    ensures r[..|root|] == root && r[|r| - |name|..] == name
    ensures root[|root| - 1] == '/' ==> r == root + name
    ensures root[|root| - 1] != '/' ==> r == root + "/" + name
  {
    if root[|root| - 1] == '/' then root + name else root + "/" + name
  }

  /** `_get_knowledge_file`: the day's file, or the error raised when no root is set. */
  function KnowledgeFile(root: Option<string>, day: string): (r: Result<string>)
    ensures r.Failure? <==> !IsSet(root)
    ensures r.Failure? ==> r.error == NotSetMessage
    ensures r.Success? ==> r.value == JoinPath(root.value, FileName(day))
  {
    if !IsSet(root) then Failure(NotSetMessage)
    else Success(JoinPath(root.value, FileName(day)))
  }

  /** The text one `_append_to_knowledge` call writes. */
  function Entry(clock: string, analysis: string): (r: string)
    ensures |r| == |Heading| + |clock| + |HeadingEnd| + |analysis| + |Trailer|
    ensures r[..|Heading|] == Heading
    ensures r[|Heading|..|Heading| + |clock|] == clock
    ensures r[|Heading| + |clock| + |HeadingEnd|..|r| - |Trailer|] == analysis
    ensures r[|r| - |Trailer|..] == Trailer
  {
    Heading + clock + HeadingEnd + analysis + Trailer
  }

  /** The entry's clock reading and analysis can be read back from it. */
  lemma EntryDeterminesParts(c1: string, a1: string, c2: string, a2: string)
    requires |c1| == |c2|
    requires Entry(c1, a1) == Entry(c2, a2)
    ensures c1 == c2 && a1 == a2
  {
    var e := Entry(c1, a1);
    assert c1 == e[|Heading|..|Heading| + |c1|] == c2;
    assert a1 == e[|Heading| + |c1| + |HeadingEnd|..|e| - |Trailer|] == a2;
  }

  lemma EntryContainsAnalysis(clock: string, analysis: string)
    ensures Contains(Entry(clock, analysis), analysis)
  {
    ContainsMiddle(Heading + clock + HeadingEnd, analysis, Trailer);
  }

  /** Current content of a file; opening in append mode creates a missing file empty. */
  function Contents(store: Store, path: string): string {
    if path in store then store[path] else ""
  }

  /**
   `_append_to_knowledge(analysis)`: without a root the error is caught and
   nothing is written; otherwise the entry is added at the end of the day's file.
   */
  function Append(store: Store, root: Option<string>, day: string, clock: string, analysis: string): (r: Store)
    ensures !IsSet(root) ==> r == store
    ensures IsSet(root) ==>
      var path := KnowledgeFile(root, day).value;
      && r.Keys == store.Keys + {path}
      && r[path] == Contents(store, path) + Entry(clock, analysis)
      && Contains(r[path], analysis)
    ensures forall q :: q in store && (!IsSet(root) || q != KnowledgeFile(root, day).value) ==>
      q in r && r[q] == store[q]
  {
    match KnowledgeFile(root, day)
    case Failure(_) => store
    case Success(path) =>
      EntryContainsAnalysis(clock, analysis);
      ContainsExtended(Contents(store, path), Entry(clock, analysis), "", analysis);
      assert Contents(store, path) + Entry(clock, analysis) + ""
          == Contents(store, path) + Entry(clock, analysis);
      store[path := Contents(store, path) + Entry(clock, analysis)]
  }

  /**
   Appends on the same day accumulate in order: earlier content stays a
   prefix and each entry follows the previous one.
   */
  lemma AppendsAccumulate(store: Store, root: Option<string>, day: string,
                          c1: string, a1: string, c2: string, a2: string)
    requires IsSet(root)
    ensures
      var path := KnowledgeFile(root, day).value;
      var after := Append(Append(store, root, day, c1, a1), root, day, c2, a2);
      after[path] == Contents(store, path) + Entry(c1, a1) + Entry(c2, a2)
  {
  }

  /** Appending never loses what the file held before. */
  lemma AppendKeepsPrefix(store: Store, root: Option<string>, day: string, clock: string, analysis: string)
    requires IsSet(root)
    ensures
      var path := KnowledgeFile(root, day).value;
      var after := Append(store, root, day, clock, analysis)[path];
      |after| > |Contents(store, path)| && after[..|Contents(store, path)|] == Contents(store, path)
  {
  }
}
