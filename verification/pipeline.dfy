/** The four reconcilers in the order a run applies them: authors, journals,
    articles, then authorship links, each seeing the state the previous one left. */
module Pipeline {
  import opened Wrappers
  import opened KnowledgeBase
  import opened RunState
  import Authors
  import Journals
  import Articles
  import Links

  /** One batch as the PubMed parser hands it over. */
  datatype Batch = Batch(
    authors: seq<string>,
    journals: seq<(string, string)>,
    pubs: seq<Articles.Pub>,
    pubJourn: map<string, string>,
    pubAuth: seq<(string, seq<string>)>)

  /** The `KeyError` that ends a run, by the reconciler that raises it. */
  datatype Failure = ArticleFailure(article: Articles.MissingKey) | LinkFailure(link: Links.LinkKeyMissing)

  /** The state after a run, with the three resolved maps. */
  datatype Resolved = Resolved(
    run: Run,
    authorIds: map<string, Id>,
    journalIds: map<string, Id>,
    articleIds: map<string, Id>)

  /** The reconciler sequence of `main`. A successful run only grows the state, resolves
      every author name and every ISSN of the batch, records only journal articles'
      pmids, and has every listed (pmid, author) pair resolved; a run fails only through
      the `KeyError` of the articles step or of the link step. */
  function Reconcile(run: Run, b: Batch): (r: Result<Resolved, Failure>)
    ensures r.Ok? ==> Grows(run, r.value.run)
    ensures r.Ok? ==>
              && r.value.authorIds.Keys == Authors.Names(b.authors)
              && r.value.journalIds.Keys == Journals.Issns(b.journals)
              && r.value.articleIds.Keys <= Articles.JournalPmids(b.pubs)
              && Links.Resolvable(Links.Associations(b.pubAuth), r.value.articleIds, r.value.authorIds)
  {
    var (run1, authorIds) := Authors.AddAuthors(run, b.authors);
    var (run2, journalIds) := Journals.AddJournals(run1, b.journals);
    match Articles.AddArticles(run2, b.pubs, b.pubJourn, journalIds)
    case Err(e) => Err(ArticleFailure(e))
    case Ok((run3, articleIds)) =>
      match Links.AddAuthorsToPubs(run3, b.pubAuth, articleIds, authorIds)
      case Err(e) => Err(LinkFailure(e))
      case Ok(run4) =>
        GrowsTrans(run, run1, run2);
        GrowsTrans(run, run2, run3);
        GrowsTrans(run, run3, run4);
        Ok(Resolved(run4, authorIds, journalIds, articleIds))
  }

  /** A run succeeds when every journal article's pmid leads to an ISSN of the batch,
      no title can be mistaken for an article identifier, and every listed authorship
      names a journal article of the batch and an author of the batch. */
  lemma ReconcileSucceeds(run: Run, b: Batch)
    requires forall p :: p in b.pubs && p.kind == Articles.JournalArticle ==>
               p.pmid in b.pubJourn && b.pubJourn[p.pmid] in Journals.Issns(b.journals)
    requires Articles.TitlesNotIds(run.kb, b.pubs, map[])
    requires forall x :: x in Links.Associations(b.pubAuth) ==>
               x.0 in Articles.JournalPmids(b.pubs) && x.1 in Authors.Names(b.authors)
    ensures Reconcile(run, b).Ok?
  {
    var (run1, authorIds) := Authors.AddAuthors(run, b.authors);
    var (run2, journalIds) := Journals.AddJournals(run1, b.journals);
    Authors.AuthorIdsTraced(run, b.authors, map[]);
    Journals.JournalIdsTraced(run1, b.journals, map[]);
    Articles.TitlesNotIdsCarry(run, run1, b.pubs);
    Articles.TitlesNotIdsCarry(run1, run2, b.pubs);
    forall p | p in b.pubs && p.kind == Articles.JournalArticle
      ensures !Articles.KeyMissing(p, b.pubJourn, journalIds)
    {
    }
    Articles.KeysPresentSucceeds(run2, b.pubs, b.pubJourn, journalIds, map[]);
    var r3 := Articles.AddArticles(run2, b.pubs, b.pubJourn, journalIds);
    assert r3.Ok? && r3.value.1.Keys == Articles.JournalPmids(b.pubs);
    assert Links.Resolvable(Links.Associations(b.pubAuth), r3.value.1, authorIds);
  }

  /** An authorship listed under a pmid that is not a journal article of the batch is
      never resolved, so the link step raises instead of skipping the pair. */
  lemma UnreconciledAuthorshipFails(run: Run, b: Batch, i: nat, author: string)
    requires i < |b.pubAuth| && author in b.pubAuth[i].1
    requires b.pubAuth[i].0 !in Articles.JournalPmids(b.pubs)
    ensures Reconcile(run, b).Err?
  {
    var x := (b.pubAuth[i].0, author);
    Links.AssociationsMembers(b.pubAuth, x);
    assert x in Links.Associations(b.pubAuth);
  }
}
