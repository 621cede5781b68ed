/** `add_articles`: resolve every "Journal Article" record of the batch, by title
    first, then by DOI, creating the article (with its optional fields and its
    journal) when neither resolves it. The result is keyed by pmid. */
module Articles {
  import opened Wrappers
  import opened Text
  import opened KnowledgeBase
  import opened Resolver
  import opened RunState

  /** An incoming record, in the order of the source's tuple:
      (doi, title, year, volume, issue, page range, article type, pmid). */
  datatype Pub = Pub(
    doi: string,
    title: string,
    year: string,
    volume: string,
    issue: string,
    pages: string,
    kind: string,
    pmid: string)

  /** The two dictionary lookups of the creation path that raise `KeyError`. */
  datatype MissingKey = MissingPmid(pmid: string) | MissingIssn(issn: string)

  /** The only article type that is reconciled. */
  const JournalArticle := "Journal Article"

  /** `add_valid_data(article, feature, value)`: the attribute is set only when the value
      is non-empty; an empty value neither sets nor clears anything. */
  function AddValidData(fields: map<Field, string>, f: Field, v: string): (r: map<Field, string>)
    ensures v == "" ==> r == fields
    ensures forall g :: g in r <==> g in fields || (g == f && v != "")
    ensures forall g :: g in r ==> r[g] == if g == f && v != "" then v else fields[g]
  {
    if v != "" then fields[f := v] else fields
  }

  lemma DashNonOverlapping()
    ensures NonOverlapping("-")
  {
  }

  /** The page-range split: `start_page, end_page = pages.split("-")`, falling back to
      the whole range as the start page when the split does not give two parts. With
      exactly one dash the two sides, both dash-free, rebuild the range; otherwise there
      is no end page. */
  function PageSplit(pages: string): (r: (string, Option<string>))
    ensures CountOf(pages, "-") != 1 ==> r == (pages, None)
    ensures CountOf(pages, "-") == 1 ==>
              && r.1.Some?
              && pages == r.0 + "-" + r.1.value
              && !Contains(r.0, "-")
              && !Contains(r.1.value, "-")
  {
    DashNonOverlapping();
    SplitCount(pages, "-");
    var parts := Split(pages, "-");
    if |parts| == 2 then
      SplitPair(pages, "-");
      (parts[0], Some(parts[1]))
    else
      (pages, None)
  }

  /** A text without a dash character does not contain "-". */
  lemma NoDash(s: string)
    requires forall i :: 0 <= i < |s| ==> s[i] != '-'
    ensures !Contains(s, "-")
  {
    forall j: nat
      ensures !OccursAt(s, "-", j)
    {
      NotAtWithoutFirst(s, "-", j);
    }
    ContainsIff(s, "-");
  }

  /** The converse of the split: two dash-free sides joined by a dash split back into
      exactly those sides. */
  lemma PageSplitOfJoin(start: string, end: string)
    requires !Contains(start, "-") && !Contains(end, "-")
    ensures PageSplit(start + "-" + end) == (start, Some(end))
  {
    IndexOfJoin(start, "-", end);
    SplitOfJoin(start, "-", end);
  }

  /** A range without a dash is the start page alone. */
  lemma PageSplitWithoutDash(pages: string)
    requires !Contains(pages, "-")
    ensures PageSplit(pages) == (pages, None)
  {
    IndexOfAbsent(pages, "-");
  }

  /** "100-110" gives start page "100" and end page "110"; "100" gives start page "100"
      and no end page. */
  lemma PageSplitExamples()
    ensures PageSplit("100-110") == ("100", Some("110"))
    ensures PageSplit("100") == ("100", None)
  {
    NoDash("100");
    NoDash("110");
    assert "100-110" == "100" + "-" + "110";
    PageSplitOfJoin("100", "110");
    PageSplitWithoutDash("100");
  }

  /** Both page attributes of a range, each through `add_valid_data`, on top of
      attributes that hold no page yet. */
  function AddPages(fields: map<Field, string>, pages: string): (r: map<Field, string>)
    requires StartPage !in fields && EndPage !in fields
    ensures forall g :: g != StartPage && g != EndPage ==>
              (g in r <==> g in fields) && (g in r ==> r[g] == fields[g])
    ensures StartPage in r <==> PageSplit(pages).0 != ""
    ensures StartPage in r ==> r[StartPage] == PageSplit(pages).0
    ensures EndPage in r <==> PageSplit(pages).1.Some? && PageSplit(pages).1.value != ""
    ensures EndPage in r ==> r[EndPage] == PageSplit(pages).1.value
  {
    var split := PageSplit(pages);
    var withStart := AddValidData(fields, StartPage, split.0);
    if split.1.Some? then AddValidData(withStart, EndPage, split.1.value) else withStart
  }

  /** The value each attribute takes from a record; the empty string stands for a
      value that is absent (no end page without a dash). */
  function FieldValue(p: Pub, f: Field): string {
    match f
    case Volume => p.volume
    case Issue => p.issue
    case PublicationYear => p.year
    case Doi => p.doi
    case Pmid => p.pmid
    case StartPage => PageSplit(p.pages).0
    case EndPage => if PageSplit(p.pages).1.Some? then PageSplit(p.pages).1.value else ""
  }

  /** The attributes set before the pages: volume, issue, publication year, DOI and
      pmid, in that order, each through `add_valid_data`. */
  function RecordFields(p: Pub): (r: map<Field, string>)
    ensures StartPage !in r && EndPage !in r
  {
    var f1 := AddValidData(map[], Volume, p.volume);
    var f2 := AddValidData(f1, Issue, p.issue);
    var f3 := AddValidData(f2, PublicationYear, p.year);
    var f4 := AddValidData(f3, Doi, p.doi);
    AddValidData(f4, Pmid, p.pmid)
  }

  /** The attributes a created article carries: the record's attributes, then the pages. */
  function ArticleFields(p: Pub): map<Field, string> {
    AddPages(RecordFields(p), p.pages)
  }

  /** Each record attribute is set exactly when the record's value is non-empty, and
      then holds that value. */
  lemma RecordFieldsCarry(p: Pub, f: Field)
    requires f != StartPage && f != EndPage
    ensures f in RecordFields(p) <==> FieldValue(p, f) != ""
    ensures f in RecordFields(p) ==> RecordFields(p)[f] == FieldValue(p, f)
  {
  }

  /** Each attribute of a created article is present exactly when the record's value for
      it is non-empty, and then holds that value: no attribute is ever empty, and an
      empty DOI, say, never becomes a DOI attribute. */
  lemma ArticleFieldsCarry(p: Pub, f: Field)
    ensures f in ArticleFields(p) <==> FieldValue(p, f) != ""
    ensures f in ArticleFields(p) ==> ArticleFields(p)[f] == FieldValue(p, f)
  {
    if f != StartPage && f != EndPage {
      RecordFieldsCarry(p, f);
    }
  }

  /** No attribute of a created article is empty. */
  lemma NoEmptyFields(p: Pub)
    ensures forall f :: f in ArticleFields(p) ==> ArticleFields(p)[f] != ""
  {
    forall f | f in ArticleFields(p)
      ensures ArticleFields(p)[f] != ""
    {
      ArticleFieldsCarry(p, f);
    }
  }

  /** "100-110" as the page range gives start page "100" and end page "110". */
  lemma PageFieldsExample(p: Pub)
    requires p.pages == "100-110"
    ensures StartPage in ArticleFields(p) && ArticleFields(p)[StartPage] == "100"
    ensures EndPage in ArticleFields(p) && ArticleFields(p)[EndPage] == "110"
  {
    PageSplitExamples();
    ArticleFieldsCarry(p, StartPage);
    ArticleFieldsCarry(p, EndPage);
  }

  /** The creation path cannot find the record's journal: its pmid is not a key of
      `pub_journ`, or its ISSN is not a key of `vivo_journals`. The pmid attribute read
      back is the record's own pmid (an unset attribute is taken as the empty string,
      which is then also the record's pmid). */
  predicate KeyMissing(p: Pub, pubJourn: map<string, string>, vivoJournals: map<string, Id>) {
    p.pmid !in pubJourn || pubJourn[p.pmid] !in vivoJournals
  }

  /** The `make_academic_article` write for a record, under the given identifier: the
      record's title, every attribute whose value is non-empty and only those, and the
      journal the record's pmid leads to through `pub_journ` and `vivo_journals`. */
  function ArticleWrite(id: Id, p: Pub, pubJourn: map<string, string>, vivoJournals: map<string, Id>): (w: Write)
    requires !KeyMissing(p, pubJourn, vivoJournals)
    ensures w.MakeArticle? && w.id == id && w.title == p.title
    ensures w.journal == vivoJournals[pubJourn[p.pmid]]
    ensures forall f :: f in w.fields <==> FieldValue(p, f) != ""
    ensures forall f :: f in w.fields ==> w.fields[f] == FieldValue(p, f)
  {
    forall f
      ensures f in ArticleFields(p) <==> FieldValue(p, f) != ""
      ensures f in ArticleFields(p) ==> ArticleFields(p)[f] == FieldValue(p, f)
    {
      ArticleFieldsCarry(p, f);
    }
    MakeArticle(id, p.title, ArticleFields(p), vivoJournals[pubJourn[p.pmid]])
  }

  /** The body of `add_articles` for one record that passes both tests: by title, then
      by DOI, then create. The journal lookups happen only on the creation path, so the
      run fails exactly when neither lookup resolves the record and its journal cannot be
      found. */
  function ResolveArticle(run: Run, p: Pub, pubJourn: map<string, string>, vivoJournals: map<string, Id>)
    : (r: Result<(Run, Id), MissingKey>)
    ensures r.Err? <==>
              && MatchInput(run.kb, p.title, AcademicArticle, true, run.log).found.None?
              && |DoiHits(run.kb, p.doi)| != 1
              && KeyMissing(p, pubJourn, vivoJournals)
    ensures r.Ok? ==> Grows(run, r.value.0) && OneStatementPerCreation(run, r.value.0)
    ensures r.Ok? ==> r.value.0.minted <= run.minted + 1
    ensures var m := MatchInput(run.kb, p.title, AcademicArticle, true, run.log);
      m.found.Some? ==> r == Ok((run.(log := m.log), m.found.value))
    ensures var m := MatchInput(run.kb, p.title, AcademicArticle, true, run.log);
      m.found.None? && |DoiHits(run.kb, p.doi)| == 1 ==>
        r.Ok? && r.value.0 == run.(log := m.log) && DoiHits(run.kb, p.doi) == {r.value.1}
    ensures (r.Ok? && r.value.0.minted == run.minted + 1) <==>
              && MatchInput(run.kb, p.title, AcademicArticle, true, run.log).found.None?
              && |DoiHits(run.kb, p.doi)| != 1
              && !KeyMissing(p, pubJourn, vivoJournals)
  {
    var (byTitle, run1) := Resolve(run, p.title, AcademicArticle, true);
    match byTitle
    case Some(id) => Ok((run1, id))
    case None =>
      var (byDoi, run2) := Resolve(run1, p.doi, AcademicArticle, false);
      match byDoi
      case Some(id) => Ok((run2, id))
      case None =>
        var id := NextId(run2);
        if p.pmid !in pubJourn then Err(MissingPmid(p.pmid))
        else if pubJourn[p.pmid] !in vivoJournals then Err(MissingIssn(pubJourn[p.pmid]))
        else Ok((Create(run2, ArticleWrite(id, p, pubJourn, vivoJournals)), id))
  }

  /** What one resolution creates: nothing, or exactly the article of this record under
      the next identifier, attached to the journal its pmid leads to; in RDF mode that is
      the one buffered statement, in API mode the knowledge base reflects it. */
  lemma ResolveArticleWrites(run: Run, p: Pub, pubJourn: map<string, string>, vivoJournals: map<string, Id>)
    requires ResolveArticle(run, p, pubJourn, vivoJournals).Ok?
    ensures var (r, id) := ResolveArticle(run, p, pubJourn, vivoJournals).value;
      && (r.minted == run.minted ==> Appended(run, r) == [])
      && (r.minted == run.minted + 1 ==>
            && !KeyMissing(p, pubJourn, vivoJournals)
            && id == Mint(run.minted)
            && (!run.tripler.api ==> Appended(run, r) == [ArticleWrite(id, p, pubJourn, vivoJournals)])
            && (run.tripler.api ==> Reflects(r.kb, ArticleWrite(id, p, pubJourn, vivoJournals))))
  {
    var (r, id) := ResolveArticle(run, p, pubJourn, vivoJournals).value;
    if r.minted == run.minted {
      assert r.tripler.triples == run.tripler.triples;
    }
  }

  /** Whether a record reaches the resolver: it is a journal article whose title is not
      among the values recorded so far. Those values are identifiers, so the title test
      is kept as the source states it. */
  predicate Reconciled(p: Pub, acc: map<string, Id>) {
    p.kind == JournalArticle && p.title !in acc.Values
  }

  /** One iteration of `add_articles`: a record that is not reconciled is skipped; any
      other is resolved (or created) and recorded under its pmid, replacing any earlier
      entry for the same pmid. */
  function ArticleStep(run: Run, p: Pub, pubJourn: map<string, string>, vivoJournals: map<string, Id>, acc: map<string, Id>)
    : (r: Result<(Run, map<string, Id>), MissingKey>)
    ensures r.Err? ==> p.kind == JournalArticle && KeyMissing(p, pubJourn, vivoJournals)
    ensures r.Ok? ==> r.value.1.Keys == acc.Keys + (if Reconciled(p, acc) then {p.pmid} else {})
    ensures r.Ok? ==> Grows(run, r.value.0) && OneStatementPerCreation(run, r.value.0)
    ensures r.Ok? ==> r.value.0.minted - run.minted <= if p.kind == JournalArticle then 1 else 0
    ensures p.kind != JournalArticle ==> r == Ok((run, acc))
    ensures !Reconciled(p, acc) ==> r == Ok((run, acc))
    ensures Reconciled(p, acc) && r.Ok? ==>
              var res := ResolveArticle(run, p, pubJourn, vivoJournals);
              res.Ok? && r.value == (res.value.0, acc[p.pmid := res.value.1])
  {
    if !Reconciled(p, acc) then Ok((run, acc))
    else
      match ResolveArticle(run, p, pubJourn, vivoJournals)
      case Err(e) => Err(e)
      case Ok((run1, id)) => Ok((run1, acc[p.pmid := id]))
  }

  /** The pmids of the journal articles of a batch. */
  function JournalPmids(pubs: seq<Pub>): set<string> {
    set p | p in pubs && p.kind == JournalArticle :: p.pmid
  }

  lemma JournalPmidsCons(pubs: seq<Pub>)
    requires |pubs| > 0
    ensures JournalPmids(pubs) ==
              (if pubs[0].kind == JournalArticle then {pubs[0].pmid} else {}) + JournalPmids(pubs[1..])
  {
    forall s | s in JournalPmids(pubs)
      ensures s in (if pubs[0].kind == JournalArticle then {pubs[0].pmid} else {}) + JournalPmids(pubs[1..])
    {
      var i :| 0 <= i < |pubs| && pubs[i].kind == JournalArticle && pubs[i].pmid == s;
      if i > 0 {
        assert pubs[1..][i - 1] == pubs[i];
      }
    }
    forall s | s in JournalPmids(pubs[1..])
      ensures s in JournalPmids(pubs)
    {
      var i :| 0 <= i < |pubs[1..]| && pubs[1..][i].kind == JournalArticle && pubs[1..][i].pmid == s;
      assert pubs[i + 1] == pubs[1..][i];
    }
  }

  /** `add_articles` from the first record onwards, with `acc` the articles recorded so
      far. Afterwards every key recorded before is still recorded, and every new key is
      the pmid of a journal article of the batch. */
  function AddArticlesFrom(run: Run, pubs: seq<Pub>, pubJourn: map<string, string>, vivoJournals: map<string, Id>,
                           acc: map<string, Id>): (r: Result<(Run, map<string, Id>), MissingKey>)
    ensures r.Ok? ==> acc.Keys <= r.value.1.Keys <= acc.Keys + JournalPmids(pubs)
    decreases |pubs|
  {
    if pubs == [] then Ok((run, acc))
    else
      JournalPmidsCons(pubs);
      match ArticleStep(run, pubs[0], pubJourn, vivoJournals, acc)
      case Err(e) => Err(e)
      case Ok((run1, acc1)) => AddArticlesFrom(run1, pubs[1..], pubJourn, vivoJournals, acc1)
  }

  /** The journal articles of a batch, in order. */
  function JournalOnly(pubs: seq<Pub>): (r: seq<Pub>)
    ensures forall p :: p in r <==> p in pubs && p.kind == JournalArticle
    ensures |r| <= |pubs|
  {
    if pubs == [] then []
    else if pubs[0].kind == JournalArticle then [pubs[0]] + JournalOnly(pubs[1..])
    else JournalOnly(pubs[1..])
  }

  /** Records of any other type are ignored: the batch is reconciled exactly as its
      journal articles alone would be. */
  lemma {:induction false} NonJournalIgnored(run: Run, pubs: seq<Pub>, pubJourn: map<string, string>,
                                             vivoJournals: map<string, Id>, acc: map<string, Id>)
    ensures AddArticlesFrom(run, pubs, pubJourn, vivoJournals, acc)
         == AddArticlesFrom(run, JournalOnly(pubs), pubJourn, vivoJournals, acc)
    decreases |pubs|
  {
    if pubs != [] {
      var p := pubs[0];
      if p.kind != JournalArticle {
        NonJournalIgnored(run, pubs[1..], pubJourn, vivoJournals, acc);
      } else {
        var only := JournalOnly(pubs);
        assert only[0] == p && only[1..] == JournalOnly(pubs[1..]);
        match ArticleStep(run, p, pubJourn, vivoJournals, acc)
        case Err(_) =>
        case Ok((run1, acc1)) =>
          NonJournalIgnored(run1, pubs[1..], pubJourn, vivoJournals, acc1);
      }
    }
  }

  /** The run only grows, each creation buffers exactly one statement in RDF mode, and
      at most one article is created per journal article of the batch. */
  lemma {:induction false} ArticleRunGrows(run: Run, pubs: seq<Pub>, pubJourn: map<string, string>,
                                           vivoJournals: map<string, Id>, acc: map<string, Id>)
    ensures var r := AddArticlesFrom(run, pubs, pubJourn, vivoJournals, acc);
      r.Ok? ==>
        && Grows(run, r.value.0)
        && OneStatementPerCreation(run, r.value.0)
        && r.value.0.minted - run.minted <= |JournalOnly(pubs)|
    decreases |pubs|
  {
    if pubs != [] {
      match ArticleStep(run, pubs[0], pubJourn, vivoJournals, acc)
      case Err(_) =>
      case Ok((run1, acc1)) =>
        ArticleRunGrows(run1, pubs[1..], pubJourn, vivoJournals, acc1);
    }
  }

  /** The run fails only on a journal article whose journal cannot be found. */
  lemma {:induction false} FailsOnlyOnMissingKey(run: Run, pubs: seq<Pub>, pubJourn: map<string, string>,
                                                 vivoJournals: map<string, Id>, acc: map<string, Id>)
    ensures AddArticlesFrom(run, pubs, pubJourn, vivoJournals, acc).Err? ==>
              exists p :: p in pubs && p.kind == JournalArticle && KeyMissing(p, pubJourn, vivoJournals)
    decreases |pubs|
  {
    if pubs != [] {
      match ArticleStep(run, pubs[0], pubJourn, vivoJournals, acc)
      case Err(_) =>
        assert pubs[0] in pubs;
      case Ok((run1, acc1)) =>
        FailsOnlyOnMissingKey(run1, pubs[1..], pubJourn, vivoJournals, acc1);
        if AddArticlesFrom(run, pubs, pubJourn, vivoJournals, acc).Err? {
          var p :| p in pubs[1..] && p.kind == JournalArticle && KeyMissing(p, pubJourn, vivoJournals);
          assert p in pubs;
        }
    }
  }

  /** Conversely, when every journal article's journal can be found, the run succeeds. */
  lemma {:induction false} KeysPresentSucceeds(run: Run, pubs: seq<Pub>, pubJourn: map<string, string>,
                                               vivoJournals: map<string, Id>, acc: map<string, Id>)
    requires forall p :: p in pubs && p.kind == JournalArticle ==> !KeyMissing(p, pubJourn, vivoJournals)
    ensures AddArticlesFrom(run, pubs, pubJourn, vivoJournals, acc).Ok?
    decreases |pubs|
  {
    if pubs != [] {
      assert pubs[0] in pubs;
      match ArticleStep(run, pubs[0], pubJourn, vivoJournals, acc)
      case Ok((run1, acc1)) =>
        KeysPresentSucceeds(run1, pubs[1..], pubJourn, vivoJournals, acc1);
    }
  }

  /** A `make_academic_article` write for some journal article of the batch whose keys
      are present. */
  ghost predicate FromBatch(w: Write, pubs: seq<Pub>, pubJourn: map<string, string>, vivoJournals: map<string, Id>) {
    w.MakeArticle? &&
    exists p :: p in pubs && p.kind == JournalArticle && !KeyMissing(p, pubJourn, vivoJournals)
                && w == ArticleWrite(w.id, p, pubJourn, vivoJournals)
  }

  lemma FromBatchTail(w: Write, pubs: seq<Pub>, pubJourn: map<string, string>, vivoJournals: map<string, Id>)
    requires |pubs| > 0 && FromBatch(w, pubs[1..], pubJourn, vivoJournals)
    ensures FromBatch(w, pubs, pubJourn, vivoJournals)
  {
    var q :| q in pubs[1..] && q.kind == JournalArticle && !KeyMissing(q, pubJourn, vivoJournals)
             && w == ArticleWrite(w.id, q, pubJourn, vivoJournals);
    assert q in pubs;
  }

  /** In RDF mode every statement `add_articles` buffers creates a journal article of the
      batch, with that record's title and non-empty attributes, attached to the journal
      identifier its pmid leads to. */
  lemma {:induction false} CreatesOnlyJournalArticles(run: Run, pubs: seq<Pub>, pubJourn: map<string, string>,
                                                      vivoJournals: map<string, Id>, acc: map<string, Id>)
    ensures var r := AddArticlesFrom(run, pubs, pubJourn, vivoJournals, acc);
      r.Ok? ==>
        && Grows(run, r.value.0)
        && forall w :: w in Appended(run, r.value.0) ==> FromBatch(w, pubs, pubJourn, vivoJournals)
    decreases |pubs|
  {
    ArticleRunGrows(run, pubs, pubJourn, vivoJournals, acc);
    if pubs != [] {
      var p := pubs[0];
      match ArticleStep(run, p, pubJourn, vivoJournals, acc)
      case Err(_) =>
      case Ok((run1, acc1)) =>
        var r := AddArticlesFrom(run, pubs, pubJourn, vivoJournals, acc);
        CreatesOnlyJournalArticles(run1, pubs[1..], pubJourn, vivoJournals, acc1);
        if r.Ok? {
          AppendedSplit(run, run1, r.value.0);
          if Reconciled(p, acc) {
            ResolveArticleWrites(run, p, pubJourn, vivoJournals);
          } else {
            assert Appended(run, run1) == [];
          }
          forall w | w in Appended(run, r.value.0)
            ensures FromBatch(w, pubs, pubJourn, vivoJournals)
          {
            if w in Appended(run, run1) {
              assert p in pubs;
            } else {
              assert w in Appended(run1, r.value.0);
              FromBatchTail(w, pubs, pubJourn, vivoJournals);
            }
          }
        }
    }
  }

  /** `add_articles(connection, pubs, pub_journ, vivo_journals, tripler, disamb_file)`. */
  function AddArticles(run: Run, pubs: seq<Pub>, pubJourn: map<string, string>, vivoJournals: map<string, Id>)
    : (r: Result<(Run, map<string, Id>), MissingKey>)
    ensures r.Ok? ==> r.value.1.Keys <= JournalPmids(pubs)
    ensures r.Ok? ==> Grows(run, r.value.0) && OneStatementPerCreation(run, r.value.0)
    ensures r.Ok? ==> r.value.0.minted - run.minted <= |JournalOnly(pubs)|
    ensures r.Err? ==> exists p :: p in pubs && p.kind == JournalArticle && KeyMissing(p, pubJourn, vivoJournals)
    ensures r.Ok? ==> forall k :: k in r.value.1 ==>
              Holds(run.kb, AcademicArticle, r.value.1[k]) || MintedBetween(run.minted, r.value.0.minted, r.value.1[k])
    ensures r.Ok? && TitlesNotIds(run.kb, pubs, map[]) ==> r.value.1.Keys == JournalPmids(pubs)
  {
    AllJournalArticlesRecorded(run, pubs, pubJourn, vivoJournals, map[]);
    ArticleIdsTraced(run, pubs, pubJourn, vivoJournals, map[]);
    ArticleRunGrows(run, pubs, pubJourn, vivoJournals, map[]);
    FailsOnlyOnMissingKey(run, pubs, pubJourn, vivoJournals, map[]);
    AddArticlesFrom(run, pubs, pubJourn, vivoJournals, map[])
  }

  /** One iteration only records identifiers it can account for: an article the snapshot
      knows by title or by DOI, or the identifier it has just handed out. */
  lemma ArticleStepTraced(run: Run, p: Pub, pubJourn: map<string, string>, vivoJournals: map<string, Id>,
                          acc: map<string, Id>)
    ensures var r := ArticleStep(run, p, pubJourn, vivoJournals, acc);
      r.Ok? ==> Traced(run, acc, r.value.0, r.value.1, AcademicArticle)
  {
    var r := ArticleStep(run, p, pubJourn, vivoJournals, acc);
    if r.Ok? {
      if !Reconciled(p, acc) {
        SameKbTraced(run, run);
      } else {
        var (byTitle, run1) := Resolve(run, p.title, AcademicArticle, true);
        FoundHeld(run.kb, p.title, AcademicArticle, true, run.log);
        if byTitle.None? {
          var (byDoi, run2) := Resolve(run1, p.doi, AcademicArticle, false);
          FoundHeld(run1.kb, p.doi, AcademicArticle, false, run1.log);
          if byDoi.None? {
            CreateTraced(run2, ArticleWrite(NextId(run2), p, pubJourn, vivoJournals));
            assert MintedBetween(run.minted, r.value.0.minted, r.value.1[p.pmid]);
          }
        }
      }
    }
  }

  /** A title that can never be mistaken for a recorded identifier: it is empty, or no
      article of the knowledge base has it as identifier and no identifier handed out has
      that spelling. */
  ghost predicate TitleNotId(kb: Kb, t: string) {
    t == "" || (!Holds(kb, AcademicArticle, t) && forall i :: t != Mint(i))
  }

  /** No journal article of the batch has a title that is, or could become, a value of
      the result map. */
  ghost predicate TitlesNotIds(kb: Kb, pubs: seq<Pub>, acc: map<string, Id>) {
    forall p :: p in pubs && p.kind == JournalArticle ==> p.title !in acc.Values && TitleNotId(kb, p.title)
  }

  /** The title condition survives any stretch of a run that only adds articles it can
      account for. */
  lemma TitlesNotIdsCarry(start: Run, now: Run, pubs: seq<Pub>)
    requires Traceable(start, now)
    requires TitlesNotIds(start.kb, pubs, map[])
    ensures TitlesNotIds(now.kb, pubs, map[])
  {
    forall p | p in pubs && p.kind == JournalArticle
      ensures TitleNotId(now.kb, p.title)
    {
      assert p.title != "" ==> !MintedBetween(start.minted, now.minted, p.title);
    }
  }

  /** After one iteration the title condition still holds for the rest of the batch:
      every value recorded since is an article known before or a fresh identifier. */
  lemma TitlesNotIdsAfter(run: Run, acc: map<string, Id>, run1: Run, acc1: map<string, Id>, pubs: seq<Pub>)
    requires |pubs| > 0
    requires Traced(run, acc, run1, acc1, AcademicArticle)
    requires TitlesNotIds(run.kb, pubs, acc)
    ensures TitlesNotIds(run1.kb, pubs[1..], acc1)
  {
    forall p | p in pubs[1..] && p.kind == JournalArticle
      ensures p.title !in acc1.Values && TitleNotId(run1.kb, p.title)
    {
      assert p in pubs;
      forall k | k in acc1
        ensures acc1[k] != p.title
      {
        if k in acc && acc1[k] == acc[k] {
          assert acc[k] in acc.Values;
        }
      }
    }
  }

  /** When no title can collide with an identifier, the title test of `add_articles`
      never skips a record, so a successful run records every journal article of the
      batch under its pmid. */
  lemma {:induction false} AllJournalArticlesRecorded(run: Run, pubs: seq<Pub>, pubJourn: map<string, string>,
                                                      vivoJournals: map<string, Id>, acc: map<string, Id>)
    ensures var r := AddArticlesFrom(run, pubs, pubJourn, vivoJournals, acc);
      r.Ok? && TitlesNotIds(run.kb, pubs, acc) ==> r.value.1.Keys == acc.Keys + JournalPmids(pubs)
    decreases |pubs|
  {
    if pubs != [] && TitlesNotIds(run.kb, pubs, acc) {
      JournalPmidsCons(pubs);
      match ArticleStep(run, pubs[0], pubJourn, vivoJournals, acc)
      case Err(_) =>
      case Ok((run1, acc1)) =>
        ArticleStepTraced(run, pubs[0], pubJourn, vivoJournals, acc);
        TitlesNotIdsAfter(run, acc, run1, acc1, pubs);
        AllJournalArticlesRecorded(run1, pubs[1..], pubJourn, vivoJournals, acc1);
    }
  }

  /** Every identifier `add_articles` records is an article the snapshot already knew or
      an identifier handed out during the batch. */
  lemma {:induction false} ArticleIdsTraced(run: Run, pubs: seq<Pub>, pubJourn: map<string, string>,
                                            vivoJournals: map<string, Id>, acc: map<string, Id>)
    ensures var r := AddArticlesFrom(run, pubs, pubJourn, vivoJournals, acc);
      r.Ok? ==> Traced(run, acc, r.value.0, r.value.1, AcademicArticle)
    decreases |pubs|
  {
    if pubs == [] {
      SameKbTraced(run, run);
    } else {
      match ArticleStep(run, pubs[0], pubJourn, vivoJournals, acc)
      case Err(_) =>
      case Ok((run1, acc1)) =>
        var r := AddArticlesFrom(run, pubs, pubJourn, vivoJournals, acc);
        ArticleStepTraced(run, pubs[0], pubJourn, vivoJournals, acc);
        ArticleIdsTraced(run1, pubs[1..], pubJourn, vivoJournals, acc1);
        ArticleRunGrows(run1, pubs[1..], pubJourn, vivoJournals, acc1);
        if r.Ok? {
          TracedTrans(run, acc, run1, acc1, r.value.0, r.value.1, AcademicArticle);
        }
    }
  }
}
