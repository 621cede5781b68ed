/** The reconcilers as the source states them, where that differs from what it
    evidently means, next to the lemmas that show the difference. The rest of the
    model uses the corrected definitions. */
module Findings {
  import opened Wrappers
  import opened KnowledgeBase
  import opened Resolver
  import opened RunState
  import Articles

  /** The exceptions the source raises. */
  datatype PyError = TypeError | AttributeError

  /** `match_input` declares five parameters, none with a default. */
  const MatchInputParams := 5

  /** Every call site in the reconcilers passes four arguments, leaving out the
      disambiguation file. */
  const CallSiteArgs := 4

  /** A call of `match_input` with the given number of positional arguments: any other
      number than the five declared raises `TypeError` before the body runs. */
  function CallMatchInput(kb: Kb, term: string, c: Category, byName: bool, args: nat, log: seq<LogEntry>)
    : Result<Resolution, PyError>
  {
    if args == MatchInputParams then Ok(MatchInput(kb, term, c, byName, log)) else Err(TypeError)
  }

  /** `add_authors` as written: the first name is never in the empty result map, so it
      reaches the four-argument call; the exception raised, if any. */
  function AddAuthorsAsWritten(run: Run, authors: seq<string>): Option<PyError> {
    if authors == [] then None
    else
      match CallMatchInput(run.kb, authors[0], Person, true, CallSiteArgs, run.log)
      case Err(e) => Some(e)
      case Ok(_) => None
  }

  /** As written, `add_authors` raises on every batch that holds a name. */
  lemma AuthorsAsWrittenRaises(run: Run, authors: seq<string>)
    ensures AddAuthorsAsWritten(run, authors).Some? <==> authors != []
    ensures AddAuthorsAsWritten(run, authors).Some? ==> AddAuthorsAsWritten(run, authors).value == TypeError
  {
  }

  /** `add_journals` as written: the first pair reaches the four-argument name lookup. */
  function AddJournalsAsWritten(run: Run, journals: seq<(string, string)>): Option<PyError> {
    if journals == [] then None
    else
      match CallMatchInput(run.kb, journals[0].1, Journal, true, CallSiteArgs, run.log)
      case Err(e) => Some(e)
      case Ok(_) => None
  }

  /** As written, `add_journals` raises on every batch that holds a journal. */
  lemma JournalsAsWrittenRaises(run: Run, journals: seq<(string, string)>)
    ensures AddJournalsAsWritten(run, journals).Some? <==> journals != []
    ensures AddJournalsAsWritten(run, journals).Some? ==> AddJournalsAsWritten(run, journals).value == TypeError
  {
  }

  /** `add_articles` as written: records of other types are skipped, and the first
      journal article (whose title cannot be among the values of the still empty result
      map) reaches the four-argument title lookup. */
  function AddArticlesAsWritten(run: Run, pubs: seq<Articles.Pub>): Option<PyError>
    decreases |pubs|
  {
    if pubs == [] then None
    else if pubs[0].kind != Articles.JournalArticle then AddArticlesAsWritten(run, pubs[1..])
    else
      match CallMatchInput(run.kb, pubs[0].title, AcademicArticle, true, CallSiteArgs, run.log)
      case Err(e) => Some(e)
      case Ok(_) => None
  }

  /** As written, `add_articles` raises exactly on the batches that hold a journal
      article. */
  lemma {:induction false} ArticlesAsWrittenRaises(run: Run, pubs: seq<Articles.Pub>)
    ensures AddArticlesAsWritten(run, pubs).Some? <==> exists p :: p in pubs && p.kind == Articles.JournalArticle
    ensures AddArticlesAsWritten(run, pubs).Some? ==> AddArticlesAsWritten(run, pubs).value == TypeError
    decreases |pubs|
  {
    if pubs != [] {
      ArticlesAsWrittenRaises(run, pubs[1..]);
      assert pubs[0] in pubs;
      if exists p :: p in pubs && p.kind == Articles.JournalArticle {
        var p :| p in pubs && p.kind == Articles.JournalArticle;
        if p != pubs[0] {
          assert p in pubs[1..];
        }
      }
      if exists p :: p in pubs[1..] && p.kind == Articles.JournalArticle {
        var p :| p in pubs[1..] && p.kind == Articles.JournalArticle;
        assert p in pubs;
      }
    }
  }

  /** The text the ambiguity branch writes: the format template itself, since the
      formatting is applied to what `write` returns. */
  const LogTemplate := "{} has possible uris: \n{}\n"

  /** The outcome of `match_input` as written, against the disambiguation file's text:
      the identifier found, the file afterwards and the exception raised, if any. An
      ambiguous name appends the raw template and then raises `AttributeError`, because
      the count `write` returns has no `format`. */
  datatype WrittenOutcome = WrittenOutcome(found: Option<Id>, file: string, raised: Option<PyError>)

  function MatchInputAsWritten(kb: Kb, term: string, c: Category, byName: bool, file: string): (r: WrittenOutcome)
    ensures r.raised.Some? ==> r.file == file + LogTemplate && r.raised.value == AttributeError
    ensures r.raised.None? ==> r.file == file
  {
    if byName && |ActiveHits(kb, c, term)| >= 2 then WrittenOutcome(None, file + LogTemplate, Some(AttributeError))
    else WrittenOutcome(MatchInput(kb, term, c, byName, []).found, file, None)
  }

  /** As written, every ambiguous name raises, and the text it leaves in the file is the
      same whatever the name and the candidates: neither is recorded. */
  lemma AmbiguityAsWrittenRaises(kb: Kb, c: Category, file: string, term1: string, term2: string)
    requires |ActiveHits(kb, c, term1)| >= 2 && |ActiveHits(kb, c, term2)| >= 2
    ensures MatchInputAsWritten(kb, term1, c, true, file).raised == Some(AttributeError)
    ensures MatchInputAsWritten(kb, term1, c, true, file).file == MatchInputAsWritten(kb, term2, c, true, file).file
  {
  }

  /** Corrected, an ambiguous name records an entry that tells names and candidate sets
      apart: different names or different candidates give different entries, and no
      exception is raised. */
  lemma CorrectedLogRecordsAmbiguity(kb: Kb, c: Category, log: seq<LogEntry>, term1: string, term2: string)
    requires |ActiveHits(kb, c, term1)| >= 2 && |ActiveHits(kb, c, term2)| >= 2
    ensures var e1 := MatchInput(kb, term1, c, true, log).log[|log|];
      var e2 := MatchInput(kb, term2, c, true, log).log[|log|];
      e1 == e2 <==> term1 == term2
  {
    var r1 := MatchInput(kb, term1, c, true, log);
    var r2 := MatchInput(kb, term2, c, true, log);
    assert r1.log[|log|] == LogEntry(term1, ActiveHits(kb, c, term1));
    assert r2.log[|log|] == LogEntry(term2, ActiveHits(kb, c, term2));
  }
}
