/** `add_journals`: resolve every ISSN of the batch to a journal, by name first,
    then by ISSN, creating the journal when neither resolves it. The batch is the
    `journals` dictionary's items in iteration order, as (ISSN, name) pairs. */
module Journals {
  import opened Wrappers
  import opened KnowledgeBase
  import opened Resolver
  import opened RunState

  /** The body of `add_journals` for an ISSN not yet resolved. A creation happens
      exactly when the name does not resolve and the ISSN is not held by exactly one
      journal; it takes the next identifier and, in RDF mode, buffers one
      `make_journal` statement for this very name and ISSN. */
  function ResolveJournal(run: Run, issn: string, name: string): (r: (Run, Id))
    ensures Grows(run, r.0)
    ensures OneStatementPerCreation(run, r.0)
    ensures r.0.minted <= run.minted + 1
    ensures r.0.minted == run.minted + 1 <==>
              MatchInput(run.kb, name, Journal, true, run.log).found.None? && |IssnHits(run.kb, issn)| != 1
    ensures r.0.minted == run.minted + 1 ==> r.1 == Mint(run.minted)
    ensures !run.tripler.api && r.0.minted == run.minted + 1 ==>
              Appended(run, r.0) == [MakeJournal(Mint(run.minted), name, issn)]
    ensures run.tripler.api && r.0.minted == run.minted + 1 ==>
              Reflects(r.0.kb, MakeJournal(r.1, name, issn))
  {
    var (byName, run1) := Resolve(run, name, Journal, true);
    match byName
    case Some(id) =>
      assert Appended(run, run1) == [];
      (run1, id)
    case None =>
      var (byIssn, run2) := Resolve(run1, issn, Journal, false);
      match byIssn
      case Some(id) =>
        assert Appended(run, run2) == [];
        (run2, id)
      case None =>
        var id := NextId(run2);
        var run3 := Create(run2, MakeJournal(id, name, issn));
        assert !run.tripler.api ==> Appended(run, run3) == [MakeJournal(id, name, issn)];
        (run3, id)
  }

  /** Name first: a journal whose name resolves is that journal, whatever the ISSN
      lookup would say, and nothing is created. */
  lemma NameResolvesFirst(run: Run, issn: string, name: string)
    requires MatchInput(run.kb, name, Journal, true, run.log).found.Some?
    ensures ResolveJournal(run, issn, name).1 == MatchInput(run.kb, name, Journal, true, run.log).found.value
    ensures ResolveJournal(run, issn, name).0 == run.(log := MatchInput(run.kb, name, Journal, true, run.log).log)
  {
  }

  /** ISSN second: when the name does not resolve and exactly one journal carries the
      ISSN, that journal is the result and nothing is created. */
  lemma IssnResolvesSecond(run: Run, issn: string, name: string, k: Id)
    requires MatchInput(run.kb, name, Journal, true, run.log).found.None?
    requires IssnHits(run.kb, issn) == {k}
    ensures ResolveJournal(run, issn, name).1 == k
    ensures ResolveJournal(run, issn, name).0 == run.(log := MatchInput(run.kb, name, Journal, true, run.log).log)
  {
  }

  /** The ISSNs of a batch. */
  function Issns(journals: seq<(string, string)>): set<string> {
    set p | p in journals :: p.0
  }

  lemma IssnsCons(journals: seq<(string, string)>)
    requires |journals| > 0
    ensures Issns(journals) == {journals[0].0} + Issns(journals[1..])
  {
    forall s | s in Issns(journals)
      ensures s in {journals[0].0} + Issns(journals[1..])
    {
      var i :| 0 <= i < |journals| && journals[i].0 == s;
      if i > 0 {
        assert journals[1..][i - 1] == journals[i];
      }
    }
    forall s | s in Issns(journals[1..])
      ensures s in Issns(journals)
    {
      var i :| 0 <= i < |journals[1..]| && journals[1..][i].0 == s;
      assert journals[i + 1] == journals[1..][i];
    }
  }

  /** One iteration of `add_journals`: an ISSN already resolved is skipped, any other
      is resolved (or created) and recorded. */
  function JournalStep(run: Run, journal: (string, string), acc: map<string, Id>): (r: (Run, map<string, Id>))
    ensures r.1.Keys == acc.Keys + {journal.0}
    ensures forall s :: s in acc ==> r.1[s] == acc[s]
    ensures journal.0 !in acc ==>
              var (run1, id) := ResolveJournal(run, journal.0, journal.1);
              r == (run1, acc[journal.0 := id])
    ensures Grows(run, r.0)
    ensures OneStatementPerCreation(run, r.0)
    ensures r.0.minted - run.minted <= if journal.0 in acc then 0 else 1
  {
    var (issn, name) := journal;
    if issn in acc then (run, acc)
    else
      var (run1, id) := ResolveJournal(run, issn, name);
      (run1, acc[issn := id])
  }

  /** `add_journals` from the first pair onwards, with `acc` the ISSNs already resolved.
      Afterwards exactly the ISSNs of `acc` and of the batch are resolved, and an ISSN
      already resolved keeps its identifier. */
  function AddJournalsFrom(run: Run, journals: seq<(string, string)>, acc: map<string, Id>): (r: (Run, map<string, Id>))
    ensures r.1.Keys == acc.Keys + Issns(journals)
    ensures forall s :: s in acc ==> r.1[s] == acc[s]
    decreases |journals|
  {
    if journals == [] then (run, acc)
    else
      IssnsCons(journals);
      var (run1, acc1) := JournalStep(run, journals[0], acc);
      AddJournalsFrom(run1, journals[1..], acc1)
  }

  /** The run only grows, and each creation buffers exactly one statement in RDF mode. */
  lemma {:induction false} JournalRunGrows(run: Run, journals: seq<(string, string)>, acc: map<string, Id>)
    ensures Grows(run, AddJournalsFrom(run, journals, acc).0)
    ensures OneStatementPerCreation(run, AddJournalsFrom(run, journals, acc).0)
    decreases |journals|
  {
    if journals != [] {
      var (run1, acc1) := JournalStep(run, journals[0], acc);
      JournalRunGrows(run1, journals[1..], acc1);
    }
  }

  /** At most one journal is created per ISSN not resolved before. */
  lemma {:induction false} JournalCreationsBounded(run: Run, journals: seq<(string, string)>, acc: map<string, Id>)
    ensures AddJournalsFrom(run, journals, acc).0.minted - run.minted <= |Issns(journals) - acc.Keys|
    decreases |journals|
  {
    if journals != [] {
      var (run1, acc1) := JournalStep(run, journals[0], acc);
      JournalCreationsBounded(run1, journals[1..], acc1);
      IssnsCons(journals);
      ToResolveStep(Issns(journals), Issns(journals[1..]), acc.Keys, journals[0].0);
    }
  }

  /** What one resolution buffers: nothing, or the one `make_journal` for this pair. */
  lemma ResolveJournalWrites(run: Run, issn: string, name: string)
    ensures var r := ResolveJournal(run, issn, name).0;
      forall w :: w in Appended(run, r) ==> w == MakeJournal(Mint(run.minted), name, issn)
  {
  }

  /** In RDF mode every statement `add_journals` buffers is a `make_journal` for a pair
      of the batch whose ISSN was not already resolved. */
  lemma {:induction false} CreatesOnlyUnresolvedJournals(run: Run, journals: seq<(string, string)>, acc: map<string, Id>)
    ensures var r := AddJournalsFrom(run, journals, acc);
      Grows(run, r.0) &&
      forall w :: w in Appended(run, r.0) ==>
        w.MakeJournal? && (w.issn, w.name) in journals && w.issn !in acc
    decreases |journals|
  {
    var r := AddJournalsFrom(run, journals, acc);
    JournalRunGrows(run, journals, acc);
    if journals != [] {
      var (issn, name) := journals[0];
      var (run1, acc1) := JournalStep(run, journals[0], acc);
      CreatesOnlyUnresolvedJournals(run1, journals[1..], acc1);
      AppendedSplit(run, run1, r.0);
      if issn !in acc {
        ResolveJournalWrites(run, issn, name);
      }
      forall w | w in Appended(run, r.0)
        ensures w.MakeJournal? && (w.issn, w.name) in journals && w.issn !in acc
      {
        if w !in Appended(run, run1) {
          assert w in Appended(run1, r.0);
          assert (w.issn, w.name) in journals[1..];
        }
      }
    }
  }

  /** Journals already known by ISSN are never created again: when every ISSN of the
      batch is held by exactly one journal, the batch creates nothing and leaves the
      knowledge base and the buffered statements as they were. */
  lemma {:induction false} KnownIssnsCreateNothing(run: Run, journals: seq<(string, string)>, acc: map<string, Id>)
    requires forall i :: 0 <= i < |journals| ==> |IssnHits(run.kb, journals[i].0)| == 1
    ensures var r := AddJournalsFrom(run, journals, acc).0;
      r.minted == run.minted && r.kb == run.kb && r.tripler == run.tripler
    decreases |journals|
  {
    if journals != [] {
      assert |IssnHits(run.kb, journals[0].0)| == 1;
      var (run1, acc1) := JournalStep(run, journals[0], acc);
      assert run1.minted == run.minted;
      assert forall i :: 0 <= i < |journals[1..]| ==> journals[1..][i] == journals[i + 1];
      KnownIssnsCreateNothing(run1, journals[1..], acc1);
    }
  }

  /** `add_journals(connection, journals, tripler, disamb_file)`. */
  function AddJournals(run: Run, journals: seq<(string, string)>): (r: (Run, map<string, Id>))
    ensures r.1.Keys == Issns(journals)
    ensures Grows(run, r.0)
    ensures OneStatementPerCreation(run, r.0)
    ensures r.0.minted - run.minted <= |Issns(journals)|
    ensures forall s :: s in r.1 ==>
              Holds(run.kb, Journal, r.1[s]) || MintedBetween(run.minted, r.0.minted, r.1[s])
  {
    JournalIdsTraced(run, journals, map[]);
    JournalRunGrows(run, journals, map[]);
    JournalCreationsBounded(run, journals, map[]);
    AddJournalsFrom(run, journals, map[])
  }

  /** One iteration only records identifiers it can account for: a journal the snapshot
      knows by name or by ISSN, or the identifier it has just handed out. */
  lemma JournalStepTraced(run: Run, journal: (string, string), acc: map<string, Id>)
    ensures var r := JournalStep(run, journal, acc);
      Traced(run, acc, r.0, r.1, Journal)
  {
    var (issn, name) := journal;
    var r := JournalStep(run, journal, acc);
    if issn !in acc {
      var (byName, run1) := Resolve(run, name, Journal, true);
      FoundHeld(run.kb, name, Journal, true, run.log);
      if byName.None? {
        var (byIssn, run2) := Resolve(run1, issn, Journal, false);
        FoundHeld(run1.kb, issn, Journal, false, run1.log);
        if byIssn.None? {
          CreateTraced(run2, MakeJournal(NextId(run2), name, issn));
          assert MintedBetween(run.minted, r.0.minted, r.1[issn]);
        }
      }
    }
  }

  /** Every identifier `add_journals` records for a new ISSN is a journal the snapshot
      already knew or an identifier handed out during the batch. */
  lemma {:induction false} JournalIdsTraced(run: Run, journals: seq<(string, string)>, acc: map<string, Id>)
    ensures var r := AddJournalsFrom(run, journals, acc);
      Traced(run, acc, r.0, r.1, Journal)
    decreases |journals|
  {
    var r := AddJournalsFrom(run, journals, acc);
    if journals == [] {
      SameKbTraced(run, run);
    } else {
      var (run1, acc1) := JournalStep(run, journals[0], acc);
      JournalStepTraced(run, journals[0], acc);
      JournalIdsTraced(run1, journals[1..], acc1);
      JournalRunGrows(run1, journals[1..], acc1);
      TracedTrans(run, acc, run1, acc1, r.0, r.1, Journal);
    }
  }
}
