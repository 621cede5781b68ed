/** `add_authors_to_pubs`: write one authorship link per (article, author) pair of
    the batch, unless the knowledge base already holds it. The batch is the
    `pub_auth` dictionary's items in iteration order, as (pmid, author names). */
module Links {
  import opened Wrappers
  import opened KnowledgeBase
  import opened RunState

  /** The two dictionary lookups of a pair that raise `KeyError`: the article's pmid is
      not among the resolved articles, or the author's name is not among the resolved
      authors. */
  datatype LinkKeyMissing = UnknownArticle(pmid: string) | UnknownAuthor(name: string)

  /** The (pmid, author name) pairs of the batch, in the order the nested loops visit them. */
  function Associations(pubAuth: seq<(string, seq<string>)>): (r: seq<(string, string)>)
    decreases |pubAuth|
  {
    if pubAuth == [] then []
    else
      var (pmid, authors) := pubAuth[0];
      seq(|authors|, k requires 0 <= k < |authors| => (pmid, authors[k])) + Associations(pubAuth[1..])
  }

  /** A pair is visited exactly when its author is listed for its pmid. */
  lemma {:induction false} AssociationsMembers(pubAuth: seq<(string, seq<string>)>, x: (string, string))
    ensures x in Associations(pubAuth) <==>
              exists i :: 0 <= i < |pubAuth| && pubAuth[i].0 == x.0 && x.1 in pubAuth[i].1
    decreases |pubAuth|
  {
    if pubAuth != [] {
      var (pmid, authors) := pubAuth[0];
      var head := seq(|authors|, k requires 0 <= k < |authors| => (pmid, authors[k]));
      AssociationsMembers(pubAuth[1..], x);
      assert x in head <==> x.0 == pmid && x.1 in authors by {
        if x.0 == pmid && x.1 in authors {
          var k :| 0 <= k < |authors| && authors[k] == x.1;
          assert head[k] == x;
        }
      }
      if exists i :: 0 <= i < |pubAuth[1..]| && pubAuth[1..][i].0 == x.0 && x.1 in pubAuth[1..][i].1 {
        var i :| 0 <= i < |pubAuth[1..]| && pubAuth[1..][i].0 == x.0 && x.1 in pubAuth[1..][i].1;
        assert pubAuth[i + 1] == pubAuth[1..][i];
      }
      if exists i :: 0 <= i < |pubAuth| && pubAuth[i].0 == x.0 && x.1 in pubAuth[i].1 {
        var i :| 0 <= i < |pubAuth| && pubAuth[i].0 == x.0 && x.1 in pubAuth[i].1;
        if i > 0 {
          assert pubAuth[1..][i - 1] == pubAuth[i];
        }
      }
    }
  }

  /** Every pair's pmid and author name are resolved. */
  predicate Resolvable(pairs: seq<(string, string)>, vivoPubs: map<string, Id>, vivoAuthors: map<string, Id>) {
    forall x :: x in pairs ==> x.0 in vivoPubs && x.1 in vivoAuthors
  }

  /** `vivo_pubs[pub]` then `vivo_authors[author]` for each pair in turn: the identifier
      pairs, one per name pair and in the same order, or the first key that is missing. */
  function ResolvePairs(pairs: seq<(string, string)>, vivoPubs: map<string, Id>, vivoAuthors: map<string, Id>)
    : (r: Result<seq<(Id, Id)>, LinkKeyMissing>)
    ensures r.Ok? <==> Resolvable(pairs, vivoPubs, vivoAuthors)
    ensures r.Ok? ==>
              && |r.value| == |pairs|
              && forall k :: 0 <= k < |pairs| ==>
                   r.value[k] == (vivoPubs[pairs[k].0], vivoAuthors[pairs[k].1])
    decreases |pairs|
  {
    if pairs == [] then Ok([])
    else
      var (pmid, author) := pairs[0];
      if pmid !in vivoPubs then Err(UnknownArticle(pmid))
      else if author !in vivoAuthors then Err(UnknownAuthor(author))
      else
        match ResolvePairs(pairs[1..], vivoPubs, vivoAuthors)
        case Err(e) =>
          assert !Resolvable(pairs, vivoPubs, vivoAuthors) by {
            var x :| x in pairs[1..] && !(x.0 in vivoPubs && x.1 in vivoAuthors);
            assert x in pairs;
          }
          Err(e)
        case Ok(rest) =>
          assert forall x :: x in pairs ==> x == pairs[0] || x in pairs[1..];
          Ok([(vivoPubs[pmid], vivoAuthors[author])] + rest)
  }

  /** One pair: `check_author_on_pub`, then `add_author_to_pub` only when the link is
      not there. */
  function LinkStep(run: Run, pair: (Id, Id)): (r: Run)
    ensures r.log == run.log && r.minted == run.minted && r.tripler.api == run.tripler.api
    ensures run.tripler.api ==> r.tripler == run.tripler && r.kb == run.kb.(links := run.kb.links + {pair})
    ensures !run.tripler.api ==> r.kb == run.kb
    ensures !run.tripler.api ==>
              r.tripler.triples == run.tripler.triples + (if pair in run.kb.links then [] else [AddAuthorToPub(pair.0, pair.1)])
  {
    if HasLink(run.kb, pair.0, pair.1) then run
    else RunState.Issue(run, AddAuthorToPub(pair.0, pair.1))
  }

  /** The linking loop over identifier pairs. */
  function LinkAll(run: Run, pairs: seq<(Id, Id)>): Run
    decreases |pairs|
  {
    if pairs == [] then run else LinkAll(LinkStep(run, pairs[0]), pairs[1..])
  }

  /** The pairs of a sequence, as a set. */
  function PairSet(pairs: seq<(Id, Id)>): set<(Id, Id)> {
    set x | x in pairs
  }

  /** The pairs a knowledge base lacks, in order and with repetitions. */
  function MissingPairs(pairs: seq<(Id, Id)>, links: set<(Id, Id)>): (r: seq<(Id, Id)>)
    ensures forall x :: x in r <==> x in pairs && x !in links
    ensures |r| <= |pairs|
  {
    if pairs == [] then []
    else (if pairs[0] in links then [] else [pairs[0]]) + MissingPairs(pairs[1..], links)
  }

  /** The statements that create the given links. */
  function LinkWrites(pairs: seq<(Id, Id)>): (r: seq<Write>)
    ensures |r| == |pairs|
    ensures forall k :: 0 <= k < |pairs| ==> r[k] == AddAuthorToPub(pairs[k].0, pairs[k].1)
  {
    seq(|pairs|, k requires 0 <= k < |pairs| => AddAuthorToPub(pairs[k].0, pairs[k].1))
  }

  lemma LinkWritesAppend(a: seq<(Id, Id)>, b: seq<(Id, Id)>)
    ensures LinkWrites(a + b) == LinkWrites(a) + LinkWrites(b)
  {
  }

  /** Linking never touches the log or the identifier counter, and keeps the mode. */
  lemma {:induction false} LinkAllKeeps(run: Run, pairs: seq<(Id, Id)>)
    ensures var r := LinkAll(run, pairs);
      r.log == run.log && r.minted == run.minted && r.tripler.api == run.tripler.api
    decreases |pairs|
  {
    if pairs != [] {
      LinkAllKeeps(LinkStep(run, pairs[0]), pairs[1..]);
    }
  }

  /** API mode: the knowledge base ends up with exactly the links it had plus the
      batch's pairs, nothing else in it changes, and no statement is buffered. */
  lemma {:induction false} LinkAllApi(run: Run, pairs: seq<(Id, Id)>)
    requires run.tripler.api
    ensures var r := LinkAll(run, pairs);
      r.tripler == run.tripler && r.kb == run.kb.(links := run.kb.links + PairSet(pairs))
    decreases |pairs|
  {
    if pairs != [] {
      var run1 := LinkStep(run, pairs[0]);
      LinkAllApi(run1, pairs[1..]);
      assert PairSet(pairs) == {pairs[0]} + PairSet(pairs[1..]);
    }
  }

  /** RDF mode: the knowledge base is untouched and exactly one statement is buffered
      per pair it lacks, in order; a pair the knowledge base already holds gets none. */
  lemma {:induction false} LinkAllRdf(run: Run, pairs: seq<(Id, Id)>)
    requires !run.tripler.api
    ensures var r := LinkAll(run, pairs);
      r.kb == run.kb && r.tripler.triples == run.tripler.triples + LinkWrites(MissingPairs(pairs, run.kb.links))
    decreases |pairs|
  {
    if pairs != [] {
      var run1 := LinkStep(run, pairs[0]);
      LinkAllRdf(run1, pairs[1..]);
      var head := if pairs[0] in run.kb.links then [] else [pairs[0]];
      var rest := MissingPairs(pairs[1..], run.kb.links);
      assert MissingPairs(pairs, run.kb.links) == head + rest;
      LinkWritesAppend(head, rest);
      assert run1.tripler.triples == run.tripler.triples + LinkWrites(head);
    }
  }

  /** Linking only grows a run. */
  lemma LinkAllGrows(run: Run, pairs: seq<(Id, Id)>)
    ensures var r := LinkAll(run, pairs);
      r.log == run.log && r.minted == run.minted && Grows(run, r)
  {
    LinkAllKeeps(run, pairs);
    if run.tripler.api {
      LinkAllApi(run, pairs);
    } else {
      LinkAllRdf(run, pairs);
    }
  }

  /** In RDF mode, a link statement is buffered exactly for the pairs of the batch that
      the knowledge base lacks. */
  lemma LinkStatementsIff(run: Run, pairs: seq<(Id, Id)>, x: (Id, Id))
    requires !run.tripler.api
    ensures var r := LinkAll(run, pairs);
      |run.tripler.triples| <= |r.tripler.triples|
      && (AddAuthorToPub(x.0, x.1) in r.tripler.triples[|run.tripler.triples|..] <==>
            x in pairs && x !in run.kb.links)
  {
    LinkAllRdf(run, pairs);
    var missing := MissingPairs(pairs, run.kb.links);
    var r := LinkAll(run, pairs);
    assert r.tripler.triples[|run.tripler.triples|..] == LinkWrites(missing);
    if AddAuthorToPub(x.0, x.1) in LinkWrites(missing) {
      var k :| 0 <= k < |missing| && LinkWrites(missing)[k] == AddAuthorToPub(x.0, x.1);
      assert missing[k] == x;
    }
    if x in missing {
      var k :| 0 <= k < |missing| && missing[k] == x;
      assert LinkWrites(missing)[k] == AddAuthorToPub(x.0, x.1);
    }
  }

  /** Idempotence: over a knowledge base that already holds every pair, linking changes
      nothing at all, in either mode. */
  lemma {:induction false} LinkingIdempotent(run: Run, pairs: seq<(Id, Id)>)
    requires PairSet(pairs) <= run.kb.links
    ensures LinkAll(run, pairs) == run
    decreases |pairs|
  {
    if pairs != [] {
      assert pairs[0] in PairSet(pairs);
      assert PairSet(pairs[1..]) <= PairSet(pairs);
      LinkingIdempotent(run, pairs[1..]);
    }
  }

  /** Re-running the linking over the run it produced (API mode) is a no-op. */
  lemma SecondRunNoOp(run: Run, pairs: seq<(Id, Id)>)
    requires run.tripler.api
    ensures LinkAll(LinkAll(run, pairs), pairs) == LinkAll(run, pairs)
  {
    LinkAllApi(run, pairs);
    LinkingIdempotent(LinkAll(run, pairs), pairs);
  }

  /** The identifier pairs of the listed authorships whose keys are resolved. */
  function LinkTargets(pairs: seq<(string, string)>, vivoPubs: map<string, Id>, vivoAuthors: map<string, Id>)
    : set<(Id, Id)>
  {
    set x | x in pairs && x.0 in vivoPubs && x.1 in vivoAuthors :: (vivoPubs[x.0], vivoAuthors[x.1])
  }

  /** The resolved identifier pairs are exactly the link targets of the name pairs. */
  lemma ResolvedTargets(pairs: seq<(string, string)>, vivoPubs: map<string, Id>, vivoAuthors: map<string, Id>)
    requires ResolvePairs(pairs, vivoPubs, vivoAuthors).Ok?
    ensures PairSet(ResolvePairs(pairs, vivoPubs, vivoAuthors).value) == LinkTargets(pairs, vivoPubs, vivoAuthors)
  {
    var ids := ResolvePairs(pairs, vivoPubs, vivoAuthors).value;
    forall y | y in PairSet(ids)
      ensures y in LinkTargets(pairs, vivoPubs, vivoAuthors)
    {
      var k :| 0 <= k < |ids| && ids[k] == y;
      assert pairs[k] in pairs;
    }
    forall y | y in LinkTargets(pairs, vivoPubs, vivoAuthors)
      ensures y in PairSet(ids)
    {
      var x :| x in pairs && x.0 in vivoPubs && x.1 in vivoAuthors && y == (vivoPubs[x.0], vivoAuthors[x.1]);
      var k :| 0 <= k < |pairs| && pairs[k] == x;
      assert ids[k] == y;
    }
  }

  /** `add_authors_to_pubs(connection, pub_auth, vivo_pubs, vivo_authors, tripler)`. It
      fails exactly when some listed pair has an unresolved pmid or author name. On
      success, in API mode the knowledge base ends with exactly its links plus the
      listed authorships' identifier pairs; in RDF mode one link statement is buffered
      for a pair exactly when it is listed and the knowledge base lacks it. */
  function AddAuthorsToPubs(run: Run, pubAuth: seq<(string, seq<string>)>,
                            vivoPubs: map<string, Id>, vivoAuthors: map<string, Id>)
    : (r: Result<Run, LinkKeyMissing>)
    ensures r.Ok? <==> Resolvable(Associations(pubAuth), vivoPubs, vivoAuthors)
    ensures r.Ok? ==>
              && r.value.log == run.log && r.value.minted == run.minted
              && Grows(run, r.value)
    ensures r.Ok? && run.tripler.api ==>
              && r.value.tripler == run.tripler
              && r.value.kb == run.kb.(links := run.kb.links + LinkTargets(Associations(pubAuth), vivoPubs, vivoAuthors))
    ensures r.Ok? && !run.tripler.api ==>
              && r.value.kb == run.kb
              && forall article, author :: AddAuthorToPub(article, author) in Appended(run, r.value) <==>
                   (article, author) in LinkTargets(Associations(pubAuth), vivoPubs, vivoAuthors)
                   && (article, author) !in run.kb.links
  {
    match ResolvePairs(Associations(pubAuth), vivoPubs, vivoAuthors)
    case Err(e) => Err(e)
    case Ok(pairs) =>
      LinkAllGrows(run, pairs);
      ResolvedTargets(Associations(pubAuth), vivoPubs, vivoAuthors);
      if run.tripler.api then
        LinkAllApi(run, pairs);
        Ok(LinkAll(run, pairs))
      else
        LinkAllRdf(run, pairs);
        forall article, author
          ensures AddAuthorToPub(article, author) in Appended(run, LinkAll(run, pairs)) <==>
                    (article, author) in pairs && (article, author) !in run.kb.links
        {
          LinkStatementsIff(run, pairs, (article, author));
        }
        Ok(LinkAll(run, pairs))
  }
}
