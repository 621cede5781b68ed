/** `TripleHandler`: the output sink, fixed once per run to one of two modes.
    In API mode a write is run against the knowledge base at once; in RDF mode
    it is rendered as a statement and appended to `triples` for a later upload.
    The rendering itself is not modelled: the logical write stands for its
    statement. */
module TripleHandler {
  import opened KnowledgeBase

  /** `api` selects the mode; `triples` holds the statements buffered so far. */
  datatype Tripler = Tripler(api: bool, triples: seq<Write>)

  /** `upload`: run the write against the knowledge base. */
  function Upload(kb: Kb, w: Write): (r: Kb)
    ensures Reflects(r, w)
    ensures kb.links <= r.links
  {
    Apply(kb, w)
  }

  /** `add_trips`: render the write and append the statement. */
  function AddTrips(t: Tripler, w: Write): (r: Tripler)
    ensures r.api == t.api
    ensures |r.triples| == |t.triples| + 1
    ensures r.triples[..|t.triples|] == t.triples && r.triples[|t.triples|] == w
  {
    t.(triples := t.triples + [w])
  }

  /** `update`: dispatch on the mode. API mode leaves the statements alone and the
      knowledge base then reflects the write; RDF mode leaves the knowledge base
      alone and appends exactly one statement, the write, after the existing ones. */
  function Update(t: Tripler, kb: Kb, w: Write): (r: (Tripler, Kb))
    ensures r.0.api == t.api
    ensures t.api ==> r.0.triples == t.triples && Reflects(r.1, w)
    ensures t.api ==> r.1.links == kb.links + (if w.AddAuthorToPub? then {(w.article, w.author)} else {})
    ensures !t.api ==> r.1 == kb
    ensures !t.api ==>
              |r.0.triples| == |t.triples| + 1
              && r.0.triples[..|t.triples|] == t.triples
              && r.0.triples[|t.triples|] == w
  {
    if t.api then (t, Upload(kb, w)) else (AddTrips(t, w), kb)
  }
}
