/** The state one run threads through the reconcilers: the knowledge-base
    snapshot, the triple handler, the disambiguation log and the count of
    identifiers handed out so far. */
module RunState {
  import opened Wrappers
  import opened KnowledgeBase
  import opened TripleHandler
  import opened Resolver

  datatype Run = Run(kb: Kb, tripler: Tripler, log: seq<LogEntry>, minted: nat)

  /** The identifier the next `get_params` of a creation query pre-assigns. */
  function NextId(run: Run): Id {
    Mint(run.minted)
  }

  /** `tripler.update(query, **params)` for one logical write. */
  function Issue(run: Run, w: Write): (r: Run)
    ensures r.log == run.log && r.minted == run.minted
    ensures r.tripler.api == run.tripler.api
    ensures run.tripler.api ==> r.tripler == run.tripler && Reflects(r.kb, w)
    ensures !run.tripler.api ==> r.kb == run.kb && r.tripler.triples == run.tripler.triples + [w]
    ensures r.kb.links == run.kb.links + (if w.AddAuthorToPub? && run.tripler.api then {(w.article, w.author)} else {})
    ensures w.AddAuthorToPub? && run.tripler.api ==> r.kb == run.kb.(links := run.kb.links + {(w.article, w.author)})
  {
    var (t, kb) := Update(run.tripler, run.kb, w);
    run.(tripler := t, kb := kb)
  }

  /** A creation: take the next identifier, then issue the write that creates it. */
  function Create(run: Run, w: Write): (r: Run)
    requires !w.AddAuthorToPub?
    ensures r.minted == run.minted + 1
    ensures r.log == run.log
    ensures r.kb.links == run.kb.links
    ensures r.tripler.api == run.tripler.api
    ensures run.tripler.api ==> r.tripler == run.tripler && Reflects(r.kb, w)
    ensures !run.tripler.api ==> r.kb == run.kb && r.tripler.triples == run.tripler.triples + [w]
  {
    Issue(run.(minted := run.minted + 1), w)
  }

  /** `match_input` against the current snapshot, with the log threaded through. */
  function Resolve(run: Run, term: string, c: Category, byName: bool): (r: (Option<Id>, Run))
    ensures r.1 == run.(log := MatchInput(run.kb, term, c, byName, run.log).log)
    ensures r.0 == MatchInput(run.kb, term, c, byName, run.log).found
  {
    var m := MatchInput(run.kb, term, c, byName, run.log);
    (m.found, run.(log := m.log))
  }

  /** What every step of a run keeps: the mode, the statements, log and links so far
      (only appended to), and the identifier counter (only increased). */
  predicate Grows(run: Run, r: Run) {
    && r.tripler.api == run.tripler.api
    && run.tripler.triples <= r.tripler.triples
    && run.log <= r.log
    && run.minted <= r.minted
    && run.kb.links <= r.kb.links
  }

  /** Each creation costs exactly one buffered statement in RDF mode and none in API
      mode, where the knowledge base itself changes instead. */
  predicate OneStatementPerCreation(run: Run, r: Run)
    requires Grows(run, r)
  {
    && (run.tripler.api ==> r.tripler.triples == run.tripler.triples)
    && (!run.tripler.api ==>
          r.kb == run.kb && |r.tripler.triples| - |run.tripler.triples| == r.minted - run.minted)
  }

  /** The statements buffered between two states. */
  function Appended(run: Run, r: Run): seq<Write>
    requires Grows(run, r)
  {
    r.tripler.triples[|run.tripler.triples|..]
  }

  /** The statements buffered over two consecutive stretches of a run. */
  lemma AppendedSplit(a: Run, b: Run, c: Run)
    requires Grows(a, b) && Grows(b, c)
    ensures Grows(a, c)
    ensures Appended(a, c) == Appended(a, b) + Appended(b, c)
  {
    var t := c.tripler.triples;
    assert a.tripler.triples <= t;
  }

  /** Growth composes. */
  lemma GrowsTrans(a: Run, b: Run, c: Run)
    requires Grows(a, b) && Grows(b, c)
    ensures Grows(a, c)
  {
  }

  /** Resolving one more key of a batch: the keys still to be resolved shrink by one
      exactly when the key was not resolved before. */
  lemma ToResolveStep<K>(keys: set<K>, rest: set<K>, done: set<K>, k: K)
    requires keys == {k} + rest
    ensures |rest - (done + {k})| + (if k in done then 0 else 1) == |keys - done|
  {
    if k in done {
      assert done + {k} == done;
      assert keys - done == rest - done;
    } else {
      assert keys - done == (rest - (done + {k})) + {k};
    }
  }

  /** The identifier was handed out by the counter between two of its values. */
  ghost predicate MintedBetween(lo: nat, hi: nat, id: Id) {
    exists i :: lo <= i < hi && id == Mint(i)
  }

  /** Every identifier the later snapshot knows in a category was known in it by the
      earlier snapshot, or was handed out in between. */
  ghost predicate Traceable(start: Run, now: Run) {
    forall c, id :: Holds(now.kb, c, id) ==>
      Holds(start.kb, c, id) || MintedBetween(start.minted, now.minted, id)
  }

  /** Each value of a result map is an earlier entry kept as it was, an identifier of the
      category in the starting snapshot, or one handed out since. */
  ghost predicate Traced(start: Run, acc: map<string, Id>, now: Run, res: map<string, Id>, c: Category) {
    && Traceable(start, now)
    && forall k :: k in res ==>
         || (k in acc && res[k] == acc[k])
         || Holds(start.kb, c, res[k])
         || MintedBetween(start.minted, now.minted, res[k])
  }

  /** A creation makes only its own identifier known. */
  lemma CreateTraced(run: Run, w: Write)
    requires !w.AddAuthorToPub?
    requires w.id == NextId(run)
    ensures Traceable(run, Create(run, w))
  {
    var r := Create(run, w);
    forall c, id | Holds(r.kb, c, id)
      ensures Holds(run.kb, c, id) || MintedBetween(run.minted, r.minted, id)
    {
      if id != w.id {
        assert Lookup(run.kb.entities, id) == Lookup(r.kb.entities, id);
        assert Lookup(run.kb.issns, id) == Lookup(r.kb.issns, id);
        assert Lookup(run.kb.dois, id) == Lookup(r.kb.dois, id);
      } else {
        assert id == Mint(run.minted);
      }
    }
  }

  /** A step that only resolves, or only threads the log, makes nothing new known. */
  lemma SameKbTraced(run: Run, r: Run)
    requires r.kb == run.kb
    ensures Traceable(run, r)
  {
  }

  /** Tracing composes over consecutive stretches of a run. */
  lemma {:induction false} TracedTrans(a: Run, accA: map<string, Id>, b: Run, accB: map<string, Id>,
                                       d: Run, accD: map<string, Id>, c: Category)
    requires a.minted <= b.minted <= d.minted
    requires Traced(a, accA, b, accB, c) && Traced(b, accB, d, accD, c)
    ensures Traced(a, accA, d, accD, c)
  {
    forall cat, id | Holds(d.kb, cat, id)
      ensures Holds(a.kb, cat, id) || MintedBetween(a.minted, d.minted, id)
    {
      if !Holds(b.kb, cat, id) {
        var i :| b.minted <= i < d.minted && id == Mint(i);
        assert a.minted <= i;
      } else if !Holds(a.kb, cat, id) {
        var i :| a.minted <= i < b.minted && id == Mint(i);
        assert i < d.minted;
      }
    }
    forall k | k in accD
      ensures || (k in accA && accD[k] == accA[k])
              || Holds(a.kb, c, accD[k])
              || MintedBetween(a.minted, d.minted, accD[k])
    {
      var v := accD[k];
      if k in accB && v == accB[k] {
        if !(k in accA && v == accA[k]) && !Holds(a.kb, c, v) {
          var i :| a.minted <= i < b.minted && v == Mint(i);
          assert i < d.minted;
        }
      } else if Holds(b.kb, c, v) {
        if !Holds(a.kb, c, v) {
          var i :| a.minted <= i < b.minted && v == Mint(i);
          assert i < d.minted;
        }
      } else {
        var i :| b.minted <= i < d.minted && v == Mint(i);
        assert a.minted <= i;
      }
    }
  }
}
