/** The knowledge base as the pipeline sees it: a snapshot of entities with
    their labels, ISSNs, DOIs and authorship links, the logical writes the
    pipeline issues against it, and the lookups it runs over it. Query text and
    the query modules' own behaviour are not modelled: each query is an
    abstract function over the snapshot. */
module KnowledgeBase {
  import opened Wrappers
  import Text

  /** A knowledge-base identifier ("n-number"). It is never empty, so every identifier
      a lookup returns passes the source's truth tests (`if not author_n:` and the like). */
  type Id = s: string | s != "" witness "n"

  /** The entity categories the resolver distinguishes (`category` in `match_input`). */
  datatype Category = Person | Journal | AcademicArticle

  /** An entity: its category and its stored label (`name`). */
  datatype Entity = Entity(kind: Category, name: string)

  /** A snapshot: labelled entities, the ISSN of each journal, the DOI of each
      article, and the existing (article, author) authorship links. */
  datatype Kb = Kb(
    entities: map<Id, Entity>,
    issns: map<Id, string>,
    dois: map<Id, string>,
    links: set<(Id, Id)>)

  /** The article attributes that are set through `add_valid_data`. */
  datatype Field = Volume | Issue | PublicationYear | Doi | Pmid | StartPage | EndPage

  /** One logical write: the parameters of `make_person`, `make_journal`,
      `make_academic_article` or `add_author_to_pub`. */
  datatype Write =
    | MakePerson(id: Id, name: string, last: string, first: Option<string>, middle: Option<string>)
    | MakeJournal(id: Id, name: string, issn: string)
    | MakeArticle(id: Id, title: string, fields: map<Field, string>, journal: Id)
    | AddAuthorToPub(article: Id, author: Id)

  /** The identifier `get_params` pre-assigns from a counter of identifiers handed out. */
  function Mint(k: nat): Id {
    "n" + Text.Decimal(k)
  }

  /** Different counter values give different identifiers, so no two creations of one
      run share an identifier. */
  lemma MintInjective(i: nat, j: nat)
    requires Mint(i) == Mint(j)
    ensures i == j
  {
    assert Text.Decimal(i) == Mint(i)[1..];
    assert Text.Decimal(j) == Mint(j)[1..];
    Text.DecimalInjective(i, j);
  }

  /** The snapshot holds what the write asserts. */
  predicate Reflects(kb: Kb, w: Write) {
    match w
    case MakePerson(id, name, _, _, _) =>
      id in kb.entities && kb.entities[id] == Entity(Person, name)
    case MakeJournal(id, name, issn) =>
      id in kb.entities && kb.entities[id] == Entity(Journal, name)
      && id in kb.issns && kb.issns[id] == issn
    case MakeArticle(id, title, fields, _) =>
      id in kb.entities && kb.entities[id] == Entity(AcademicArticle, title)
      && (Doi in fields ==> id in kb.dois && kb.dois[id] == fields[Doi])
    case AddAuthorToPub(article, author) =>
      (article, author) in kb.links
  }

  /** The identifier a write creates, if it creates one. */
  function Created(w: Write): Option<Id> {
    if w.AddAuthorToPub? then None else Some(w.id)
  }

  /** Running a write against the knowledge base (API mode): afterwards the snapshot
      reflects it, no other entity changes, and no existing link is lost. */
  function Apply(kb: Kb, w: Write): (r: Kb)
    ensures Reflects(r, w)
    ensures kb.links <= r.links
    ensures w.AddAuthorToPub? ==> r == kb.(links := kb.links + {(w.article, w.author)})
    ensures !w.AddAuthorToPub? ==> r.links == kb.links
    ensures forall id :: Created(w) != Some(id) ==>
      Lookup(kb.entities, id) == Lookup(r.entities, id)
      && Lookup(kb.issns, id) == Lookup(r.issns, id)
      && Lookup(kb.dois, id) == Lookup(r.dois, id)
  {
    match w
    case MakePerson(id, name, _, _, _) =>
      kb.(entities := kb.entities[id := Entity(Person, name)])
    case MakeJournal(id, name, issn) =>
      kb.(entities := kb.entities[id := Entity(Journal, name)], issns := kb.issns[id := issn])
    case MakeArticle(id, title, fields, _) =>
      kb.(entities := kb.entities[id := Entity(AcademicArticle, title)],
          dois := if Doi in fields then kb.dois[id := fields[Doi]] else kb.dois)
    case AddAuthorToPub(article, author) =>
      kb.(links := kb.links + {(article, author)})
  }

  /** A map lookup as an optional value. */
  function Lookup<V>(m: map<Id, V>, k: Id): Option<V> {
    if k in m then Some(m[k]) else None
  }

  /** `find_n_for_label`: every entity of the category, with its stored label. */
  function Candidates(kb: Kb, c: Category): (m: map<Id, string>)
    ensures forall k :: k in m <==> k in kb.entities && kb.entities[k].kind == c
    ensures forall k :: k in m ==> m[k] == kb.entities[k].name
  {
    map k | k in kb.entities && kb.entities[k].kind == c :: kb.entities[k].name
  }

  /** `find_n_for_issn`: the identifiers whose ISSN equals the value. */
  function IssnHits(kb: Kb, issn: string): set<Id> {
    set k | k in kb.issns && kb.issns[k] == issn
  }

  /** `find_n_for_doi`: the identifiers whose DOI equals the value. */
  function DoiHits(kb: Kb, doi: string): set<Id> {
    set k | k in kb.dois && kb.dois[k] == doi
  }

  /** The snapshot knows the identifier as an entity of the category; a journal is also
      known by its ISSN entry and an article by its DOI entry, since those are what the
      identifier lookups return. */
  predicate Holds(kb: Kb, c: Category, id: Id) {
    || (id in kb.entities && kb.entities[id].kind == c)
    || (c == Journal && id in kb.issns)
    || (c == AcademicArticle && id in kb.dois)
  }

  /** `check_author_on_pub`: whether the authorship link already exists. */
  predicate HasLink(kb: Kb, article: Id, author: Id) {
    (article, author) in kb.links
  }
}
