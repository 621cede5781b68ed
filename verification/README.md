# Hermes entity reconciliation, modelled in Dafny

Hermes takes one batch of PubMed records and reconciles it with a VIVO knowledge
base. It resolves author names, journals and articles to knowledge-base identifiers
("n-numbers"), and creates the entities that do not resolve. It then writes the
authorship links the knowledge base does not hold yet. Every write goes through a
`TripleHandler` fixed to one of two modes:

- API mode runs the write against the knowledge base at once.
- RDF mode buffers the rendered statement in `triples` for a later upload.

This project models that core of `hermes.py` as pure functions over immutable data:

- `wrappers.dfy`: `Option` and `Result`.
- `text.dfy`: the Python string operations the core relies on. These are
  `str.split(sep)`, `split(sep, 1)`, `in`, ASCII `lower()`, dropping one trailing
  space, and decimal rendering, together with their occurrence-counting lemmas.
- `knowledge_base.dfy`: the knowledge-base snapshot and the logical writes.
  - The snapshot holds labelled entities by category, ISSNs, DOIs and authorship links.
  - A logical write is `make_person`, `make_journal`, `make_academic_article` or
    `add_author_to_pub`.
  - The queries are functions over the snapshot: candidates of a category, ISSN and
    DOI lookups, and the link check.
- `triple_handler.dfy`: `TripleHandler.update/upload/add_trips`.
- `resolver.dfy`: `match_input`.
  - Identifier mode: an ISSN or DOI lookup.
  - Name mode: tier 1 is an exact, case-folded match on the label with one trailing
    space dropped. Tier 2 is case-folded containment, used only when tier 1 is empty.
  - The disambiguation log is a sequence of (term, candidate identifiers) entries.
- `run_state.dfy`: the state threaded through a run. It holds the snapshot, the
  triple handler, the log and a counter of identifiers handed out.
- `authors.dfy`, `journals.dfy`, `articles.dfy`, `links.dfy`: `add_authors` (with the
  name split), `add_journals`, `add_articles` (with `add_valid_data` and the page split)
  and `add_authors_to_pubs`.
- `pipeline.dfy`: the order in which `main` calls the four reconcilers.
- `findings.dfy`: the two source defects below, as written, next to the corrected
  behaviour the rest of the model uses.

Identifiers are non-empty strings, as n-numbers are. So every identifier a lookup returns passes the source's truth tests (`if not author_n:` and the like), and a miss is exactly an absent result.

Dictionaries that the source iterates (`journals`, `pub_auth`) are sequences of their
items in iteration order. A `KeyError` the source raises is an `Err` result.

Where the documented intent and the code differ, the model follows the code:

- Authorship links: a link whose pmid or author name was never resolved is meant to be
  skipped. The code indexes `vivo_pubs[pub]` and `vivo_authors[author]` directly and
  raises. `Links.ResolvePairs` models the raise. `Pipeline.UnreconciledAuthorshipFails`
  shows that an authorship under a pmid that is not a journal article fails the run.
- Title deduplication: deduplication of articles within a batch by title is meant. The
  code compares the title with `vivo_pubs.values()`, which are identifiers. The test is
  modelled as written (`Articles.Reconciled`).

## Model

| member | source | states |
|---|---|---|
| TripleHandler.Update | hermes.py:39-43 | the mode is kept; in API mode the buffered statements are unchanged and the knowledge base reflects the write; in RDF mode the knowledge base is unchanged and exactly one statement, the write, is appended after the existing ones |
| TripleHandler.Upload | hermes.py:45-46 | after running a write the knowledge base reflects it and keeps every link it had |
| TripleHandler.AddTrips | hermes.py:48-50 | exactly one statement is appended; the earlier ones and the mode are kept |
| KnowledgeBase.Candidates | hermes.py:205 | the candidates of a category are exactly the entities of that category, and each is paired with that entity's label |
| KnowledgeBase.IssnHits | hermes.py:195 | definition: the identifiers whose ISSN equals the value looked up |
| KnowledgeBase.DoiHits | hermes.py:200 | definition: the identifiers whose DOI equals the value looked up |
| KnowledgeBase.HasLink | hermes.py:177 | definition: whether the knowledge base already holds the (article, author) link |
| RunState.Create | hermes.py:123-129 | a creation takes the next identifier from the counter and issues one write, which the knowledge base reflects (API mode) or the buffer ends with (RDF mode) |
| KnowledgeBase.MintInjective | hermes.py:100 | different counter values give different identifiers, so two creations of one run never share one |
| RunState.CreateTraced | hermes.py:123-129 | a creation makes no identifier known other than the one it was handed |
| RunState.TracedTrans | hermes.py:87-111 | identifiers accounted for over two consecutive stretches of a run are accounted for over the whole |
| Resolver.Choose | hermes.py:213-229 | the result is the hit when there is exactly one, none otherwise; one log entry carrying the term and all hits is appended exactly when there are two or more |
| Resolver.MatchInput | hermes.py:186-229 | identifier mode never logs; it decides on the ISSN hits for journals and the DOI hits for articles, and finds nothing for people; name mode decides on the tier-1 hits, or the tier-2 hits when tier 1 has none, and logs exactly one entry exactly when that tier has two or more |
| Resolver.ExactMatch | hermes.py:206-209 | definition of tier 1: the label with one trailing space dropped equals the term up to case |
| Resolver.LooseMatch | hermes.py:218-219 | definition of tier 2: the label as stored contains the term up to case |
| Resolver.ExactPrecedence | hermes.py:205-214 | a single exact candidate is returned with the log untouched, however many other candidates merely contain the term |
| Resolver.LooseFallback | hermes.py:216-223 | when no candidate matches exactly, the single candidate whose label contains the term is returned |
| Resolver.ExactImpliesLoose | hermes.py:206-220 | a tier-1 match is also a tier-2 match |
| Resolver.NameMatchFound | hermes.py:204-223 | a name-mode result is a candidate of the category whose label contains the term; it matched exactly and no other candidate did, or no candidate matched exactly and no other contains the term; the log is unchanged |
| Resolver.AmbiguityLogged | hermes.py:225-228 | two exact candidates give no result and exactly one new log entry, whose term is the input and whose candidates are precisely the exact candidates |
| Resolver.IdentifierMatchFound | hermes.py:193-202 | an identifier-mode result is never a person; a journal result carries exactly the ISSN looked up and is the only one; an article result likewise for its DOI |
| Resolver.FoundIgnoresLog | hermes.py:186-229 | the identifier found depends on the snapshot and the term, never on the log written so far |
| Resolver.FoundHeld | hermes.py:193-223 | whatever is found is known to the snapshot in the category asked for |
| Text.SplitCount | hermes.py:93 | for a separator that cannot overlap itself, such as ", ", `split` gives one more part than there are occurrences, so exactly two parts means exactly one ", " |
| Text.SplitFirst | hermes.py:95 | `split(" ", 1)` gives two parts exactly when the text contains a space; they rebuild the text around the first space and the first part has no space; otherwise the text is returned whole |
| Text.Split | hermes.py:93 | `split` of a text without the separator is the text alone; with it, at least two parts |
| Authors.SplitName | hermes.py:91-99 | with exactly one ", " the last name is the text before it and holds no ", "; the remainder is first + " " + middle with a space-free first name when it holds a space, and is the first name (middle empty) when it does not; without exactly one ", " the whole name is the last name and first and middle are empty |
| Authors.NameRejoins | hermes.py:91-99 | with exactly one ", " the parts rebuild the name |
| Authors.SplitNameOfJoin | hermes.py:93-95 | a name built from a last name without ", ", a space-free first name and a middle part splits back into exactly those parts |
| Authors.SplitNameOfJoinNoMiddle | hermes.py:93-97 | a name whose remainder has no space splits into that last name and that first name, with no middle |
| Authors.SplitNameWithoutComma | hermes.py:92-99 | a name without ", " is all last name |
| Authors.PersonWrite | hermes.py:100-106 | the person written carries the full name and the last part, and the first and middle parts exactly when they are non-empty |
| Authors.ResolveAuthor | hermes.py:89-109 | a name the resolver matches returns that match, only the log changes, and nothing is created; a name it misses gets the next identifier and exactly one person, the write with the parts of the split name, which the knowledge base reflects (API mode) or is the one statement buffered (RDF mode) |
| Authors.ResolveAuthorWrites | hermes.py:100-108 | what one resolution buffers is nothing or one `make_person` for that very name |
| Authors.AuthorStep | hermes.py:88-111 | a name already resolved is skipped with nothing created; any other name is recorded with what resolving it returns, and earlier entries keep their identifiers |
| Authors.AuthorStepTraced | hermes.py:88-111 | the identifier recorded is a person the snapshot knew or the identifier just handed out, and the knowledge base learns nothing else |
| Authors.AddAuthorsFrom | hermes.py:86-112 | the result's keys are exactly the names resolved before plus the batch's names, and a name resolved first keeps its identifier |
| Authors.AuthorRunGrows | hermes.py:87-111 | the run only grows, and in RDF mode the statements buffered match the creations one for one |
| Authors.AuthorCreationsBounded | hermes.py:87-111 | at most one person is created per distinct name not resolved before |
| Authors.CreatesOnlyUnresolvedNames | hermes.py:88-108 | every statement buffered is a `make_person` for a name of the batch that was not already resolved |
| Authors.AuthorIdsTraced | hermes.py:86-112 | every identifier recorded for a new name is a person the starting snapshot knew or an identifier handed out during the batch |
| Authors.AuthorResolvedOnce | hermes.py:87-111 | in RDF mode each new name of the batch maps to the resolver's match and buffers nothing when the match exists, and otherwise buffers exactly one `make_person` and maps to an identifier handed out during the batch, however often it recurs |
| Authors.AddAuthors | hermes.py:84-112 | the result's keys are exactly the distinct names of the batch, each mapped to a person the starting snapshot knew or an identifier handed out during the batch; the run only grows, and at most one person is created per distinct name |
| Authors.DuplicateNameCreatesOnce | hermes.py:87-111 | in RDF mode a name the resolver misses, repeated in the batch, buffers exactly one `make_person` and maps to an identifier handed out during the batch |
| Journals.ResolveJournal | hermes.py:119-129 | a journal is created exactly when its name does not resolve and its ISSN is not held by exactly one journal; the new journal takes the next identifier and is what the knowledge base reflects (API mode) or the one statement buffered (RDF mode) |
| Journals.NameResolvesFirst | hermes.py:119-121 | a name that resolves decides the result whatever the ISSN lookup would say, and nothing is created |
| Journals.IssnResolvesSecond | hermes.py:120-122 | when the name does not resolve, the one journal holding the ISSN is the result and nothing is created |
| Journals.JournalStep | hermes.py:118-131 | an ISSN already resolved is skipped with nothing created; any other is recorded with what resolving its pair returns, and earlier entries keep their identifiers |
| Journals.JournalStepTraced | hermes.py:118-131 | the identifier recorded is a journal the snapshot knew by name or ISSN, or the identifier just handed out |
| Journals.AddJournalsFrom | hermes.py:116-133 | the result's keys are exactly the ISSNs resolved before plus the batch's ISSNs, and an ISSN resolved first keeps its identifier |
| Journals.JournalRunGrows | hermes.py:117-131 | the run only grows, and in RDF mode the statements buffered match the creations one for one |
| Journals.JournalCreationsBounded | hermes.py:117-131 | at most one journal is created per ISSN not resolved before |
| Journals.ResolveJournalWrites | hermes.py:123-127 | what one resolution buffers is nothing or the `make_journal` for that very name and ISSN |
| Journals.CreatesOnlyUnresolvedJournals | hermes.py:117-131 | every statement buffered is a `make_journal` for a pair of the batch whose ISSN was not already resolved |
| Journals.KnownIssnsCreateNothing | hermes.py:117-131 | when every ISSN of the batch is already held by exactly one journal, nothing is created and the knowledge base and the buffer are unchanged |
| Journals.JournalIdsTraced | hermes.py:116-133 | every identifier recorded for a new ISSN is a journal the starting snapshot knew or an identifier handed out during the batch |
| Journals.AddJournals | hermes.py:114-133 | the result's keys are exactly the batch's ISSNs, each mapped to a journal the starting snapshot knew or an identifier handed out during the batch; the run only grows, and at most one journal is created per ISSN |
| Articles.AddValidData | hermes.py:182-184 | an empty value changes nothing; a non-empty value sets its attribute and leaves the others as they were |
| Articles.PageSplit | hermes.py:153-159 | with exactly one dash the two dash-free sides rebuild the range and become start and end page; otherwise the whole range is the start page and there is no end page |
| Articles.PageSplitOfJoin | hermes.py:154-156 | two dash-free sides joined by a dash split back into exactly those sides |
| Articles.PageSplitWithoutDash | hermes.py:157-159 | a range without a dash is the start page alone |
| Articles.PageSplitExamples | hermes.py:153-159 | "100-110" gives "100" and "110"; "100" gives "100" and no end page |
| Articles.AddPages | hermes.py:153-159 | the start page is set exactly when non-empty; the end page exactly when there is one and it is non-empty; no other attribute changes |
| Articles.RecordFieldsCarry | hermes.py:147-151 | volume, issue, year, DOI and pmid are each set exactly when the record's value is non-empty, and then hold it |
| Articles.RecordFields | hermes.py:147-151 | the attributes set before the pages hold no page attribute |
| Articles.ArticleFields | hermes.py:147-159 | definition: the record attributes, then the pages; `ArticleFieldsCarry` states what they hold |
| Articles.ArticleFieldsCarry | hermes.py:147-159 | every attribute of a created article is present exactly when the record's value for it is non-empty, and then holds that value |
| Articles.NoEmptyFields | hermes.py:147-159 | no attribute of a created article is empty; in particular an empty DOI never becomes a DOI attribute |
| Articles.PageFieldsExample | hermes.py:153-156 | a record with pages "100-110" gets start page "100" and end page "110" |
| Articles.ResolveArticle | hermes.py:141-166 | a title match is returned with only the log changed; otherwise the one article holding the DOI is returned with nothing created; an article is created exactly when both miss and the journal can be found; the step fails exactly when both miss and the journal cannot be found |
| Articles.ResolveArticleWrites | hermes.py:145-166 | a creation takes the next identifier and is exactly the article with this record's title and attributes, attached to the journal its pmid leads to |
| Articles.ArticleWrite | hermes.py:145-163 | the article written carries the record's title, exactly the attributes whose values are non-empty with those values, and the journal identifier its pmid leads to |
| Articles.KeyMissing | hermes.py:161-162 | definition: the record's pmid is not a key of `pub_journ`, or the ISSN found is not a key of `vivo_journals` |
| Articles.Reconciled | hermes.py:138-140 | definition: the record is a journal article whose title is not among the values recorded so far |
| Articles.ArticleStep | hermes.py:139-168 | a record that fails the type or title test changes nothing; one that passes is recorded under its pmid with what resolving it returns; only a journal article can fail, and only for a missing key |
| Articles.ArticleStepTraced | hermes.py:139-168 | the identifier recorded is an article the snapshot knew by title or DOI, or the identifier just handed out |
| Articles.AddArticlesFrom | hermes.py:137-169 | keys recorded before stay recorded, and every new key is the pmid of a journal article of the batch |
| Articles.NonJournalIgnored | hermes.py:138-139 | the batch is reconciled exactly as its journal articles alone would be |
| Articles.ArticleRunGrows | hermes.py:138-168 | the run only grows, statements match creations one for one in RDF mode, and at most one article is created per journal article |
| Articles.FailsOnlyOnMissingKey | hermes.py:161-162 | the run fails only when some journal article's pmid or ISSN is missing from the lookup maps |
| Articles.TitlesNotIdsCarry | hermes.py:140 | no title becomes confusable with an article identifier while the run only adds articles it can account for |
| Articles.TitlesNotIdsAfter | hermes.py:138-168 | after one iteration, no later title equals a recorded identifier or a known or fresh article identifier |
| Articles.AllJournalArticlesRecorded | hermes.py:137-169 | when no journal article's title equals a recorded identifier, a known article identifier or any identifier that could be handed out, a successful run records exactly the earlier keys plus every journal article's pmid |
| Articles.KeysPresentSucceeds | hermes.py:161-162 | when every journal article's pmid and ISSN can be looked up, the run succeeds |
| Articles.CreatesOnlyJournalArticles | hermes.py:145-165 | every statement buffered creates a journal article of the batch with that record's title and attributes, attached to the journal identifier its pmid leads to |
| Articles.ArticleIdsTraced | hermes.py:137-169 | on success every identifier recorded is an earlier entry, an article the starting snapshot knew, or an identifier handed out during the batch |
| Articles.AddArticles | hermes.py:135-169 | on success the keys are pmids of journal articles, each mapped to an article the starting snapshot knew or an identifier handed out during the batch; the run only grows, and at most one article is created per journal article; failure means a missing key; when no title can be confused with an identifier, the keys are exactly the journal articles' pmids |
| Links.AssociationsMembers | hermes.py:172-173 | the pairs visited are exactly the (pmid, author) pairs where the author is listed under that pmid |
| Links.Associations | hermes.py:172-173 | definition: the (pmid, author name) pairs in the order the nested loops visit them; `AssociationsMembers` states which they are |
| Links.ResolvePairs | hermes.py:175-176 | the lookups succeed exactly when every pair's pmid and author name are resolved, and then give one identifier pair per name pair, in order |
| Links.LinkStep | hermes.py:174-179 | an existing link issues nothing; a missing link is added (API mode) or gets exactly one statement (RDF mode); the log and counter are untouched |
| Links.LinkAll | hermes.py:172-179 | definition: the linking loop over identifier pairs; `LinkAllApi`, `LinkAllRdf` and `LinkAllKeeps` state its effect |
| Links.LinkAllKeeps | hermes.py:172-179 | linking keeps the mode, the log and the identifier counter |
| Links.LinkAllApi | hermes.py:172-179 | in API mode the knowledge base ends with exactly its links plus the batch's pairs, nothing else changes, and no statement is buffered |
| Links.LinkAllRdf | hermes.py:172-179 | in RDF mode the knowledge base is untouched and the buffer gains one statement per pair it lacks, in order |
| Links.LinkAllGrows | hermes.py:172-179 | linking only grows the run |
| Links.LinkStatementsIff | hermes.py:177-179 | in RDF mode a link statement is buffered for a pair exactly when the pair is in the batch and the knowledge base lacks it |
| Links.LinkingIdempotent | hermes.py:177-179 | over a knowledge base that already holds every pair, linking changes nothing, in either mode |
| Links.SecondRunNoOp | hermes.py:172-179 | in API mode, linking the same pairs again after a run is a no-op |
| Links.LinkTargets | hermes.py:172-176 | definition: the identifier pairs of the listed authorships |
| Links.ResolvedTargets | hermes.py:174-176 | the identifier pairs the lookups produce are exactly the link targets of the listed authorships |
| Links.AddAuthorsToPubs | hermes.py:171-180 | the step succeeds exactly when every listed pair is resolved; then, in API mode, the knowledge base ends with exactly its links plus the listed authorships' identifier pairs; in RDF mode the knowledge base is untouched and a link statement is buffered exactly for a listed pair it lacks; the log and counter are untouched |
| Pipeline.Reconcile | hermes.py:261-264 | a successful run only grows the state, resolves every author name and ISSN of the batch, records only journal articles' pmids, and has every listed authorship resolved |
| Pipeline.ReconcileSucceeds | hermes.py:261-264 | a run succeeds when every journal article's pmid leads to an ISSN of the batch, no title can be confused with an article identifier, and every listed authorship names a journal article and an author of the batch |
| Pipeline.UnreconciledAuthorshipFails | hermes.py:175-176 | an authorship listed under a pmid that is not a journal article of the batch makes the run fail |
| Findings.AuthorsAsWrittenRaises | hermes.py:89 | as written, `add_authors` raises `TypeError` exactly on batches that hold a name |
| Findings.JournalsAsWrittenRaises | hermes.py:119 | as written, `add_journals` raises `TypeError` exactly on batches that hold a journal |
| Findings.ArticlesAsWrittenRaises | hermes.py:141 | as written, `add_articles` raises `TypeError` exactly on batches that hold a journal article |
| Findings.MatchInputAsWritten | hermes.py:225-228 | as written, an ambiguous name appends the raw template to the file and raises `AttributeError`; otherwise the file is untouched |
| Findings.AmbiguityAsWrittenRaises | hermes.py:228 | as written, every ambiguous name raises, and the text left in the file is the same whatever the name and candidates |
| Findings.CorrectedLogRecordsAmbiguity | hermes.py:225-228 | corrected, the entries two ambiguous names log are equal exactly when the names are |

## Left out

- `main`, `get_config` and the command line: configuration, date-named file paths and writing the RDF file are I/O. Only `main`'s order of reconcilers is kept, as `Pipeline.Reconcile`.
- `search_pubmed`, `PHandler` and `Connection`: network clients outside this file.
- `sql_insert`: MySQL bookkeeping that resolution never consults.
- The `vivo_queries` modules are not part of this model, including query text, `run` and `write_rdf`. Each query is a function over the snapshot. A buffered statement is represented by the logical write it renders.
- The disambiguation file: the log is a sequence of (term, candidate set) entries rather than appended text.
- Case folding covers ASCII letters only. Python's `lower()` folds all of Unicode.
- Fresh identifiers are `"n"` followed by the counter. They differ from each other (`KnowledgeBase.MintInjective`). That they differ from identifiers already in the knowledge base is a property of `get_params`, which is not part of this model.
- The end-to-end scenario over concrete data is not stated as one lemma. The scenario is one new author, one journal known by ISSN, one new article and one link. The lemmas closest to its parts are stated for all inputs: `Authors.AuthorResolvedOnce` (an unmatched name buffers exactly one person), `Journals.KnownIssnsCreateNothing`, `Articles.ResolveArticle` with `Articles.ResolveArticleWrites` (one record that neither title nor DOI resolves creates exactly one article), and `Links.LinkAllRdf`. How these compose over one concrete batch is not stated.
- Articles.AddArticles: on a `KeyError` the model returns `Err` and drops the state reached so far. In API mode the source would leave the earlier writes in the knowledge base.
- Links.AddAuthorsToPubs: every lookup happens before any link is written. On a missing key the model issues no link, where the source would already have written the links of earlier pairs.
- Articles.KeyMissing: the pmid attribute read back when the journal is looked up is taken to be the record's pmid. An unset attribute (empty pmid) is taken to read as the empty string. The `Article` class that defines its default is not part of this model.
- Articles.AddArticlesFrom: its own contract only bounds the new keys by the journal articles' pmids. The title test compares titles with identifiers, so a record is skipped when its title equals a recorded identifier. `Articles.AllJournalArticlesRecorded` states equality for batches whose titles cannot be identifiers. The identifiers are left to `Articles.ArticleIdsTraced` and `Articles.AddArticles`.
- AddAuthorsFrom: its own contract states the keys and first-wins only. The identifiers recorded are stated by `Authors.AuthorIdsTraced`, `Authors.AuthorResolvedOnce` and `Authors.AddAuthors`, so that the recursive function stays cheap to check.
- AddJournalsFrom: its own contract states the keys and first-wins only. The identifiers recorded are stated by `Journals.JournalIdsTraced` and `Journals.AddJournals`.
- Authors.AuthorResolvedOnce: the exact resolution of each name is stated in RDF mode, where the snapshot does not change during the batch. In API mode a person created earlier in the batch can be matched by a later name, and only the accounting of `Authors.AuthorIdsTraced` is stated.
- Journals.AddJournals and Articles.AddArticles: which journal or article each key maps to is stated as "known to the starting snapshot, or handed out during the batch". The exact match is stated per item, by `Journals.ResolveJournal` and `Articles.ResolveArticle`.

## Findings

| source | as written | input that shows it | evidently intended | confidence | as-written member | corrected member |
|---|---|---|---|---|---|---|
| hermes.py:89 | `match_input` is called with four arguments but declares five, so the call raises `TypeError` | `add_authors` on any non-empty list of names | pass `disamb_file` as the fifth argument | not executed | Findings.AuthorsAsWrittenRaises | Authors.AddAuthors |
| hermes.py:119 | the same four-argument call in `add_journals` (and again at line 121) | `add_journals` on any non-empty dictionary | pass `disamb_file` | not executed | Findings.JournalsAsWrittenRaises | Journals.AddJournals |
| hermes.py:141 | the same four-argument call in `add_articles` (and again at line 143) | `add_articles` on a batch with one "Journal Article" record | pass `disamb_file` | not executed | Findings.ArticlesAsWrittenRaises | Articles.AddArticles |
| hermes.py:228 | `.format` is applied to the count `write` returns: the raw template is written, then `AttributeError` is raised | a name with two exact candidates, such as two people labelled "Smith, John" | format the template, then write it, recording the term and the candidates | not executed | Findings.AmbiguityAsWrittenRaises | Findings.CorrectedLogRecordsAmbiguity |
