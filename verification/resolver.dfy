/** `match_input`: the tiered entity resolver, with the disambiguation log as
    an explicit sequence of entries instead of a file. */
module Resolver {
  import opened Wrappers
  import opened Text
  import opened KnowledgeBase

  /** One disambiguation-log entry: the input term and every candidate identifier. */
  datatype LogEntry = LogEntry(term: string, candidates: set<Id>)

  /** The outcome of one resolution: the identifier found, if any, and the log after it. */
  datatype Resolution = Resolution(found: Option<Id>, log: seq<LogEntry>)

  /** Tier 1: the stored label, with one trailing space dropped, equals the term
      up to case. */
  predicate ExactMatch(term: string, stored: string) {
    Lower(term) == Lower(DropTrailingSpace(stored))
  }

  /** Tier 2: the stored label (as stored) contains the term, up to case. */
  predicate LooseMatch(term: string, stored: string) {
    Contains(Lower(stored), Lower(term))
  }

  /** The candidates of the category that survive tier 1. */
  function ExactHits(kb: Kb, c: Category, term: string): set<Id> {
    var m := Candidates(kb, c);
    set k | k in m && ExactMatch(term, m[k])
  }

  /** The candidates of the category that survive tier 2. */
  function LooseHits(kb: Kb, c: Category, term: string): set<Id> {
    var m := Candidates(kb, c);
    set k | k in m && LooseMatch(term, m[k])
  }

  /** The one element of a singleton set. */
  function TheOnly(s: set<Id>): (k: Id)
    requires |s| == 1
    ensures s == {k}
  {
    SingletonHasElement(s);
    var k :| k in s;
    k
  }

  lemma SingletonHasElement(s: set<Id>)
    requires |s| == 1
    ensures exists k :: s == {k}
  {
    var k :| k in s;
    assert |s - {k}| == 0;
    assert s == {k};
  }

  /** `found` is the hit when there is exactly one, and nothing otherwise. */
  predicate Decided(hits: set<Id>, found: Option<Id>) {
    && (found.Some? ==> hits == {found.value})
    && (found.None? ==> hits == {} || |hits| >= 2)
  }

  /** The hits of the tier that decides a name-mode resolution: tier 1, or tier 2
      when tier 1 is empty. */
  function ActiveHits(kb: Kb, c: Category, term: string): set<Id> {
    var exact := ExactHits(kb, c, term);
    if exact != {} then exact else LooseHits(kb, c, term)
  }

  /** Pick the one hit, logging the term and all hits when there are several. */
  function Choose(term: string, hits: set<Id>, log: seq<LogEntry>): (r: Resolution)
    ensures Decided(hits, r.found)
    ensures |hits| >= 2 ==> r.log == log + [LogEntry(term, hits)]
    ensures |hits| < 2 ==> r.log == log
  {
    if |hits| == 1 then Resolution(Some(TheOnly(hits)), log)
    else if |hits| > 1 then Resolution(None, log + [LogEntry(term, hits)])
    else Resolution(None, log)
  }

  /** `match_input(connection, label, category, name, disamb_file)`.
      Identifier mode (`byName` false) looks the term up as an ISSN for journals and
      as a DOI for articles, never logs, and finds nothing for people. Name mode
      decides on the tier-1 hits, or on the tier-2 hits when tier 1 has none, and
      logs exactly one entry when the deciding tier has several hits. */
  function MatchInput(kb: Kb, term: string, c: Category, byName: bool, log: seq<LogEntry>): (r: Resolution)
    ensures !byName ==> r.log == log
    ensures !byName && c == Person ==> r.found == None
    ensures !byName && c == Journal ==> Decided(IssnHits(kb, term), r.found)
    ensures !byName && c == AcademicArticle ==> Decided(DoiHits(kb, term), r.found)
    ensures byName ==> Decided(ActiveHits(kb, c, term), r.found)
    ensures byName && |ActiveHits(kb, c, term)| >= 2 ==>
              r.log == log + [LogEntry(term, ActiveHits(kb, c, term))]
    ensures byName && |ActiveHits(kb, c, term)| < 2 ==> r.log == log
  {
    if !byName then
      match c
      case Journal => Resolution(Choose(term, IssnHits(kb, term), []).found, log)
      case AcademicArticle => Resolution(Choose(term, DoiHits(kb, term), []).found, log)
      case Person => Resolution(None, log)
    else
      var exact := ExactHits(kb, c, term);
      if exact != {} then Choose(term, exact, log)
      else Choose(term, LooseHits(kb, c, term), log)
  }

  /** Tier 1 wins: when exactly one candidate matches exactly, it is returned and the log
      is untouched, however many candidates merely contain the term. */
  lemma ExactPrecedence(kb: Kb, c: Category, term: string, k: Id, log: seq<LogEntry>)
    requires k in Candidates(kb, c) && ExactMatch(term, Candidates(kb, c)[k])
    requires forall j :: j in Candidates(kb, c) && ExactMatch(term, Candidates(kb, c)[j]) ==> j == k
    ensures MatchInput(kb, term, c, true, log) == Resolution(Some(k), log)
  {
    assert ExactHits(kb, c, term) == {k};
  }

  /** Tier 2 decides only when no candidate matches exactly: then the one candidate
      whose label contains the term is returned. */
  lemma LooseFallback(kb: Kb, c: Category, term: string, k: Id, log: seq<LogEntry>)
    requires forall j :: j in Candidates(kb, c) ==> !ExactMatch(term, Candidates(kb, c)[j])
    requires k in Candidates(kb, c) && LooseMatch(term, Candidates(kb, c)[k])
    requires forall j :: j in Candidates(kb, c) && LooseMatch(term, Candidates(kb, c)[j]) ==> j == k
    ensures MatchInput(kb, term, c, true, log) == Resolution(Some(k), log)
  {
    assert ExactHits(kb, c, term) == {};
    assert LooseHits(kb, c, term) == {k};
  }

  /** An exact match is also a containment match: folding the label with its trailing
      space dropped gives a prefix of the folded label. */
  lemma ExactImpliesLoose(term: string, stored: string)
    requires ExactMatch(term, stored)
    ensures LooseMatch(term, stored)
  {
    var d := DropTrailingSpace(stored);
    assert d == stored[..|d|];
    LowerOfPrefix(stored, |d|);
    assert Lower(term) <= Lower(stored);
  }

  /** What a name-mode match means for the identifier returned: it is a candidate of
      the category whose label contains the term; either it matches exactly or no
      candidate does; and no other candidate matches in the tier that chose it. */
  lemma {:induction false} NameMatchFound(kb: Kb, c: Category, term: string, log: seq<LogEntry>)
    ensures var r := MatchInput(kb, term, c, true, log);
      r.found.Some? ==>
        var m := Candidates(kb, c);
        var k := r.found.value;
        && k in m
        && LooseMatch(term, m[k])
        && r.log == log
        && (ExactMatch(term, m[k]) ==> forall j :: j in m && ExactMatch(term, m[j]) ==> j == k)
        && (!ExactMatch(term, m[k]) ==>
              (forall j :: j in m ==> !ExactMatch(term, m[j]))
              && (forall j :: j in m && LooseMatch(term, m[j]) ==> j == k))
  {
    var r := MatchInput(kb, term, c, true, log);
    if r.found.Some? {
      var m := Candidates(kb, c);
      var k := r.found.value;
      var exact := ExactHits(kb, c, term);
      if exact != {} {
        assert exact == {k};
        assert k in exact;
        ExactImpliesLoose(term, m[k]);
        forall j | j in m && ExactMatch(term, m[j])
          ensures j == k
        {
          assert j in exact;
        }
      } else {
        var loose := LooseHits(kb, c, term);
        assert loose == {k};
        assert k in loose;
        assert k !in exact;
        forall j | j in m
          ensures !ExactMatch(term, m[j])
        {
          assert j !in exact;
        }
        forall j | j in m && LooseMatch(term, m[j])
          ensures j == k
        {
          assert j in loose;
        }
      }
    }
  }

  /** Ambiguity: two distinct exact candidates give no match and exactly one new log
      entry, carrying the term and precisely the exact candidates. */
  lemma AmbiguityLogged(kb: Kb, c: Category, term: string, k1: Id, k2: Id, log: seq<LogEntry>)
    requires k1 != k2
    requires k1 in Candidates(kb, c) && ExactMatch(term, Candidates(kb, c)[k1])
    requires k2 in Candidates(kb, c) && ExactMatch(term, Candidates(kb, c)[k2])
    ensures var r := MatchInput(kb, term, c, true, log);
      && r.found == None
      && |r.log| == |log| + 1
      && r.log[..|log|] == log
      && r.log[|log|].term == term
      && (forall j :: j in r.log[|log|].candidates <==>
            j in Candidates(kb, c) && ExactMatch(term, Candidates(kb, c)[j]))
  {
    var exact := ExactHits(kb, c, term);
    assert {k1, k2} <= exact;
    assert |{k1, k2}| == 2;
    SubsetCard({k1, k2}, exact);
  }

  lemma SubsetCard(a: set<Id>, b: set<Id>)
    requires a <= b
    ensures |a| <= |b|
  {
    assert b == a + (b - a);
  }

  /** Identifier mode: a returned journal carries exactly the ISSN looked up and is the
      only one that does; a returned article likewise for its DOI. */
  lemma IdentifierMatchFound(kb: Kb, c: Category, term: string, log: seq<LogEntry>)
    ensures var r := MatchInput(kb, term, c, false, log);
      r.found.Some? ==>
        && c != Person
        && (c == Journal ==>
              && r.found.value in kb.issns && kb.issns[r.found.value] == term
              && forall j :: j in kb.issns && kb.issns[j] == term ==> j == r.found.value)
        && (c == AcademicArticle ==>
              && r.found.value in kb.dois && kb.dois[r.found.value] == term
              && forall j :: j in kb.dois && kb.dois[j] == term ==> j == r.found.value)
  {
    var r := MatchInput(kb, term, c, false, log);
    if r.found.Some? {
      var k := r.found.value;
      if c == Journal {
        var hits := IssnHits(kb, term);
        assert hits == {k};
        assert k in hits;
        forall j | j in kb.issns && kb.issns[j] == term
          ensures j == k
        {
          assert j in hits;
        }
      } else if c == AcademicArticle {
        var hits := DoiHits(kb, term);
        assert hits == {k};
        assert k in hits;
        forall j | j in kb.dois && kb.dois[j] == term
          ensures j == k
        {
          assert j in hits;
        }
      }
    }
  }

  /** The identifier found depends on the snapshot and the term only, never on the log
      written so far. */
  lemma FoundIgnoresLog(kb: Kb, term: string, c: Category, byName: bool, log1: seq<LogEntry>, log2: seq<LogEntry>)
    ensures MatchInput(kb, term, c, byName, log1).found == MatchInput(kb, term, c, byName, log2).found
  {
  }

  /** A name-mode or identifier-mode result is known to the snapshot in its category. */
  lemma FoundHeld(kb: Kb, term: string, c: Category, byName: bool, log: seq<LogEntry>)
    ensures var r := MatchInput(kb, term, c, byName, log);
      r.found.Some? ==> Holds(kb, c, r.found.value)
  {
    var r := MatchInput(kb, term, c, byName, log);
    if r.found.Some? {
      if byName {
        NameMatchFound(kb, c, term, log);
      } else {
        IdentifierMatchFound(kb, c, term, log);
      }
    }
  }
}
