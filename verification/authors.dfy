/** `add_authors`: resolve every distinct author name of the batch, creating a
    person for each name that does not resolve, after splitting the name into
    last, first and middle parts. */
module Authors {
  import opened Wrappers
  import opened Text
  import opened KnowledgeBase
  import opened Resolver
  import opened RunState

  /** The parts `add_authors` derives from a name of the form "Last, First Middle". */
  datatype PersonName = PersonName(last: string, first: string, middle: string)

  lemma CommaSpaceNonOverlapping()
    ensures NonOverlapping(", ")
  {
    assert ", "[1..] == " ";
    assert ", "[..1] == ",";
  }

  /** The name split of `add_authors`: `last, rest = author.split(", ")`, then
      `first, middle = rest.split(" ", 1)`, each unpacking falling back when the
      split does not give exactly two parts. With exactly one ", " in the name,
      `last` is the text before it and contains no ", "; the remainder after it is
      `first + " " + middle` with `first` free of spaces when it holds a space, and
      is `first` (with `middle` empty) when it does not. Without exactly one ", ",
      the whole name is `last`. */
  function SplitName(author: string): (n: PersonName)
    ensures CountOf(author, ", ") != 1 ==> n == PersonName(author, "", "")
    ensures CountOf(author, ", ") == 1 ==>
              && |n.last| + 2 <= |author|
              && author[..|n.last| + 2] == n.last + ", "
              && !Contains(n.last, ", ")
              && !Contains(n.first, " ")
              && (Contains(author[|n.last| + 2..], " ") ==>
                    author[|n.last| + 2..] == n.first + " " + n.middle)
              && (!Contains(author[|n.last| + 2..], " ") ==>
                    n.first == author[|n.last| + 2..] && n.middle == "")
  {
    CommaSpaceNonOverlapping();
    SplitCount(author, ", ");
    var parts := Split(author, ", ");
    if |parts| == 2 then
      SplitPair(author, ", ");
      assert author[..|parts[0]| + 2] == parts[0] + ", ";
      assert author[|parts[0]| + 2..] == parts[1];
      var rest := parts[1];
      var fm := SplitFirst(rest, " ");
      if |fm| == 2 then PersonName(parts[0], fm[0], fm[1])
      else PersonName(parts[0], rest, "")
    else
      PersonName(author, "", "")
  }

  /** The parts rebuild the name whenever it holds exactly one ", ". */
  lemma NameRejoins(author: string)
    requires CountOf(author, ", ") == 1
    ensures var n := SplitName(author);
      || author == n.last + ", " + n.first + " " + n.middle
      || (author == n.last + ", " + n.first && n.middle == "")
  {
    var n := SplitName(author);
    Rejoin(author, n.last, n.first, n.middle);
  }

  lemma Rejoin(author: string, last: string, first: string, middle: string)
    requires |last| + 2 <= |author|
    requires author[..|last| + 2] == last + ", "
    requires Contains(author[|last| + 2..], " ") ==> author[|last| + 2..] == first + " " + middle
    requires !Contains(author[|last| + 2..], " ") ==> first == author[|last| + 2..] && middle == ""
    ensures || author == last + ", " + first + " " + middle
            || (author == last + ", " + first && middle == "")
  {
    var k := |last| + 2;
    var rest := author[k..];
    assert author == author[..k] + rest;
    if Contains(rest, " ") {
      assert author == (last + ", ") + (first + " " + middle);
    } else {
      assert author == (last + ", ") + first;
    }
  }

  /** No ", " straddles the end of a part followed by ", ". */
  lemma NoCommaSpaceStraddle(left: string)
    ensures forall j: nat :: j < |left| < j + 2 ==> !OccursAt(left + ", ", ", ", j)
  {
    forall j: nat | j < |left| < j + 2
      ensures !OccursAt(left + ", ", ", ", j)
    {
      assert (left + ", ")[j + 1] == ',';
      NotAtWithoutFirst((left + ", ")[j + 1..], " ", 0);
      if j + 2 <= |left + ", "| {
        assert (left + ", ")[j..j + 2][1] == ',';
      }
    }
  }

  /** The converse of the split: a name built from a last part free of ", ", a
      space-free first part and a middle part (with no ", " after the last part)
      splits back into exactly those parts. */
  lemma SplitNameOfJoin(last: string, first: string, middle: string)
    requires !Contains(last, ", ")
    requires !Contains(first, " ")
    requires !Contains(first + " " + middle, ", ")
    ensures SplitName(last + ", " + first + " " + middle) == PersonName(last, first, middle)
  {
    var rest := first + " " + middle;
    assert last + ", " + first + " " + middle == last + ", " + rest;
    NoCommaSpaceStraddle(last);
    IndexOfJoin(last, ", ", rest);
    SplitOfJoin(last, ", ", rest);
    IndexOfJoin(first, " ", middle);
    SplitFirstOfJoin(first, " ", middle);
  }

  /** A text without a space holds no ", " either. */
  lemma NoSpaceNoCommaSpace(s: string)
    requires !Contains(s, " ")
    ensures !Contains(s, ", ")
  {
    ContainsIff(s, " ");
    ContainsIff(s, ", ");
    if Contains(s, ", ") {
      var i: nat :| OccursAt(s, ", ", i);
      assert s[i + 1..i + 2] == s[i..i + 2][1..];
      assert OccursAt(s, " ", i + 1);
    }
  }

  /** Likewise for a name whose remainder has no space: it becomes the first part. */
  lemma SplitNameOfJoinNoMiddle(last: string, first: string)
    requires !Contains(last, ", ")
    requires !Contains(first, " ")
    ensures SplitName(last + ", " + first) == PersonName(last, first, "")
  {
    NoSpaceNoCommaSpace(first);
    NoCommaSpaceStraddle(last);
    IndexOfJoin(last, ", ", first);
    SplitOfJoin(last, ", ", first);
    IndexOfAbsent(first, " ");
  }

  /** Without ", " the whole name is the last part. */
  lemma SplitNameWithoutComma(author: string)
    requires !Contains(author, ", ")
    ensures SplitName(author) == PersonName(author, "", "")
  {
    IndexOfAbsent(author, ", ");
  }

  /** An optional attribute: set only when non-empty (`if first:` / `if middle:`). */
  function IfNonEmpty(s: string): Option<string>
  {
    if s != "" then Some(s) else None
  }

  /** The `make_person` parameters for a name that did not resolve: the full name, its
      last part, and the first and middle parts only when they are non-empty. */
  function PersonWrite(id: Id, author: string): (w: Write)
    ensures w.MakePerson? && w.id == id && w.name == author
    ensures w.last == SplitName(author).last
    ensures w.first.Some? <==> SplitName(author).first != ""
    ensures w.first.Some? ==> w.first.value == SplitName(author).first
    ensures w.middle.Some? <==> SplitName(author).middle != ""
    ensures w.middle.Some? ==> w.middle.value == SplitName(author).middle
  {
    var n := SplitName(author);
    MakePerson(id, author, n.last, IfNonEmpty(n.first), IfNonEmpty(n.middle))
  }

  /** The distinct names of a batch. */
  function Names(authors: seq<string>): set<string> {
    set a | a in authors
  }

  lemma NamesCons(authors: seq<string>)
    requires |authors| > 0
    ensures Names(authors) == {authors[0]} + Names(authors[1..])
  {
    forall a | a in Names(authors)
      ensures a in {authors[0]} + Names(authors[1..])
    {
      var i :| 0 <= i < |authors| && authors[i] == a;
      if i > 0 {
        assert authors[1..][i - 1] == a;
      }
    }
  }

  /** The body of `add_authors` for a name not yet resolved: resolve it by name as a
      person and, on a miss, create the person under the next identifier. A match is
      returned with nothing created; a miss creates exactly one person, with the parts
      of the name split, which in RDF mode is the one statement buffered. */
  function ResolveAuthor(run: Run, author: string): (r: (Run, Id))
    ensures Grows(run, r.0)
    ensures OneStatementPerCreation(run, r.0)
    ensures r.0.minted <= run.minted + 1
    ensures var m := MatchInput(run.kb, author, Person, true, run.log);
      m.found.Some? ==> r == (run.(log := m.log), m.found.value)
    ensures var m := MatchInput(run.kb, author, Person, true, run.log);
      m.found.None? ==>
        && r.1 == Mint(run.minted)
        && r.0.minted == run.minted + 1
        && r.0.log == m.log
        && (!run.tripler.api ==> Appended(run, r.0) == [PersonWrite(Mint(run.minted), author)])
        && (run.tripler.api ==> Reflects(r.0.kb, PersonWrite(Mint(run.minted), author)))
  {
    var (found, run1) := Resolve(run, author, Person, true);
    match found
    case Some(id) => (run1, id)
    case None =>
      var id := NextId(run1);
      (Create(run1, PersonWrite(id, author)), id)
  }

  /** What one resolution buffers: nothing, or the one `make_person` for this name. */
  lemma ResolveAuthorWrites(run: Run, author: string)
    ensures var r := ResolveAuthor(run, author).0;
      forall w :: w in Appended(run, r) ==> w.MakePerson? && w.name == author
  {
    var (found, run1) := Resolve(run, author, Person, true);
    if found.Some? {
      assert Appended(run, run1) == [];
    } else {
      var id := NextId(run1);
      var run2 := Create(run1, PersonWrite(id, author));
      assert !run.tripler.api ==> Appended(run, run2) == [PersonWrite(id, author)];
    }
  }

  /** One iteration of `add_authors`: a name already resolved is skipped, any other is
      resolved (or created) and recorded. */
  function AuthorStep(run: Run, author: string, acc: map<string, Id>): (r: (Run, map<string, Id>))
    ensures r.1.Keys == acc.Keys + {author}
    ensures forall a :: a in acc ==> r.1[a] == acc[a]
    ensures author !in acc ==> r == (ResolveAuthor(run, author).0, acc[author := ResolveAuthor(run, author).1])
    ensures Grows(run, r.0)
    ensures OneStatementPerCreation(run, r.0)
    ensures r.0.minted - run.minted <= if author in acc then 0 else 1
  {
    if author in acc then (run, acc)
    else
      var (run1, id) := ResolveAuthor(run, author);
      (run1, acc[author := id])
  }

  /** `add_authors` from the first name onwards, with `acc` the names already resolved.
      Afterwards exactly the names of `acc` and of the batch are resolved, and a name
      already resolved keeps its identifier (first occurrence wins). */
  function AddAuthorsFrom(run: Run, authors: seq<string>, acc: map<string, Id>): (r: (Run, map<string, Id>))
    ensures r.1.Keys == acc.Keys + Names(authors)
    ensures forall a :: a in acc ==> r.1[a] == acc[a]
    decreases |authors|
  {
    if authors == [] then (run, acc)
    else
      NamesCons(authors);
      var (run1, acc1) := AuthorStep(run, authors[0], acc);
      AddAuthorsFrom(run1, authors[1..], acc1)
  }

  /** The run only grows, and each creation buffers exactly one statement in RDF mode. */
  lemma {:induction false} AuthorRunGrows(run: Run, authors: seq<string>, acc: map<string, Id>)
    ensures Grows(run, AddAuthorsFrom(run, authors, acc).0)
    ensures OneStatementPerCreation(run, AddAuthorsFrom(run, authors, acc).0)
    decreases |authors|
  {
    if authors != [] {
      var (run1, acc1) := AuthorStep(run, authors[0], acc);
      AuthorRunGrows(run1, authors[1..], acc1);
    }
  }

  /** At most one person is created per distinct name not resolved before. */
  lemma {:induction false} AuthorCreationsBounded(run: Run, authors: seq<string>, acc: map<string, Id>)
    ensures AddAuthorsFrom(run, authors, acc).0.minted - run.minted <= |Names(authors) - acc.Keys|
    decreases |authors|
  {
    if authors != [] {
      var (run1, acc1) := AuthorStep(run, authors[0], acc);
      AuthorCreationsBounded(run1, authors[1..], acc1);
      NamesCons(authors);
      ToResolveStep(Names(authors), Names(authors[1..]), acc.Keys, authors[0]);
    }
  }

  /** Only names without a result yet are created: in RDF mode every statement
      `add_authors` buffers is a `make_person` for a name of the batch that was not
      already resolved. */
  lemma {:induction false} CreatesOnlyUnresolvedNames(run: Run, authors: seq<string>, acc: map<string, Id>)
    ensures var r := AddAuthorsFrom(run, authors, acc);
      Grows(run, r.0) &&
      forall w :: w in Appended(run, r.0) ==> w.MakePerson? && w.name in authors && w.name !in acc
    decreases |authors|
  {
    var r := AddAuthorsFrom(run, authors, acc);
    AuthorRunGrows(run, authors, acc);
    if authors != [] {
      var a := authors[0];
      var (run1, acc1) := AuthorStep(run, a, acc);
      CreatesOnlyUnresolvedNames(run1, authors[1..], acc1);
      AppendedSplit(run, run1, r.0);
      if a !in acc {
        ResolveAuthorWrites(run, a);
      }
      forall w | w in Appended(run, r.0)
        ensures w.MakePerson? && w.name in authors && w.name !in acc
      {
        if w !in Appended(run, run1) {
          assert w in Appended(run1, r.0);
          assert w.name in authors[1..];
        }
      }
    }
  }

  /** `add_authors(connection, authors, tripler, disamb_file)`. */
  function AddAuthors(run: Run, authors: seq<string>): (r: (Run, map<string, Id>))
    ensures r.1.Keys == Names(authors)
    ensures Grows(run, r.0)
    ensures OneStatementPerCreation(run, r.0)
    ensures r.0.minted - run.minted <= |Names(authors)|
    ensures forall a :: a in r.1 ==>
              Holds(run.kb, Person, r.1[a]) || MintedBetween(run.minted, r.0.minted, r.1[a])
  {
    AuthorIdsTraced(run, authors, map[]);
    AuthorRunGrows(run, authors, map[]);
    AuthorCreationsBounded(run, authors, map[]);
    AddAuthorsFrom(run, authors, map[])
  }

  /** A name the resolver misses is created once however often the batch repeats it:
      in RDF mode exactly one `make_person` for it is buffered, and every occurrence
      maps to the one identifier handed out for it during the batch. */
  lemma DuplicateNameCreatesOnce(run: Run, authors: seq<string>, i: nat, j: nat)
    requires !run.tripler.api
    requires i < j < |authors| && authors[i] == authors[j]
    requires MatchInput(run.kb, authors[j], Person, true, []).found.None?
    ensures var r := AddAuthors(run, authors);
      && PersonStatements(Appended(run, r.0), authors[j]) == 1
      && MintedBetween(run.minted, r.0.minted, r.1[authors[j]])
  {
    assert authors[j] in Names(authors);
    AuthorResolvedOnce(run, authors, map[], authors[j]);
  }

  /** One iteration only records identifiers it can account for: the resolver's match,
      which the snapshot knows as a person, or the identifier it has just handed out. */
  lemma AuthorStepTraced(run: Run, author: string, acc: map<string, Id>)
    ensures var r := AuthorStep(run, author, acc);
      Traced(run, acc, r.0, r.1, Person)
  {
    var r := AuthorStep(run, author, acc);
    if author !in acc {
      var (found, run1) := Resolve(run, author, Person, true);
      FoundHeld(run.kb, author, Person, true, run.log);
      if found.None? {
        CreateTraced(run1, PersonWrite(NextId(run1), author));
        assert MintedBetween(run.minted, r.0.minted, r.1[author]);
      }
    }
  }

  /** Every identifier `add_authors` records for a new name is a person the snapshot
      already knew or an identifier handed out during the batch. */
  lemma {:induction false} AuthorIdsTraced(run: Run, authors: seq<string>, acc: map<string, Id>)
    ensures var r := AddAuthorsFrom(run, authors, acc);
      Traced(run, acc, r.0, r.1, Person)
    decreases |authors|
  {
    var r := AddAuthorsFrom(run, authors, acc);
    if authors == [] {
      SameKbTraced(run, run);
    } else {
      var (run1, acc1) := AuthorStep(run, authors[0], acc);
      AuthorStepTraced(run, authors[0], acc);
      AuthorIdsTraced(run1, authors[1..], acc1);
      AuthorRunGrows(run1, authors[1..], acc1);
      TracedTrans(run, acc, run1, acc1, r.0, r.1, Person);
    }
  }

  /** The number of buffered `make_person` statements for a name. */
  function PersonStatements(ws: seq<Write>, name: string): nat {
    if ws == [] then 0
    else (if ws[0].MakePerson? && ws[0].name == name then 1 else 0) + PersonStatements(ws[1..], name)
  }

  lemma {:induction false} PersonStatementsAppend(x: seq<Write>, y: seq<Write>, name: string)
    ensures PersonStatements(x + y, name) == PersonStatements(x, name) + PersonStatements(y, name)
    decreases |x|
  {
    if x == [] {
      assert x + y == y;
    } else {
      assert (x + y)[1..] == x[1..] + y;
      PersonStatementsAppend(x[1..], y, name);
    }
  }

  lemma {:induction false} PersonStatementsNone(ws: seq<Write>, name: string)
    requires forall w :: w in ws ==> !(w.MakePerson? && w.name == name)
    ensures PersonStatements(ws, name) == 0
    decreases |ws|
  {
    if ws != [] {
      assert ws[0] in ws;
      assert forall w :: w in ws[1..] ==> w in ws;
      PersonStatementsNone(ws[1..], name);
    }
  }

  /** In RDF mode, where the snapshot stays as it was, each name of the batch not resolved
      before is decided against the starting snapshot: a name the resolver matches maps to
      that match and buffers nothing, and a name it misses buffers exactly one
      `make_person` and maps to an identifier handed out during the batch, however often
      the name recurs. */
  lemma {:induction false} AuthorResolvedOnce(run: Run, authors: seq<string>, acc: map<string, Id>, a: string)
    requires !run.tripler.api
    requires a in Names(authors) && a !in acc
    ensures var r := AddAuthorsFrom(run, authors, acc);
      var found := MatchInput(run.kb, a, Person, true, []).found;
      && Grows(run, r.0)
      && a in r.1
      && PersonStatements(Appended(run, r.0), a) == (if found.None? then 1 else 0)
      && (found.Some? ==> r.1[a] == found.value)
      && (found.None? ==> MintedBetween(run.minted, r.0.minted, r.1[a]))
    decreases |authors|
  {
    var r := AddAuthorsFrom(run, authors, acc);
    var found := MatchInput(run.kb, a, Person, true, []).found;
    var b := authors[0];
    var (run1, acc1) := AuthorStep(run, b, acc);
    NamesCons(authors);
    AuthorRunGrows(run1, authors[1..], acc1);
    AuthorRunGrows(run, authors, acc);
    AppendedSplit(run, run1, r.0);
    PersonStatementsAppend(Appended(run, run1), Appended(run1, r.0), a);
    FoundIgnoresLog(run.kb, a, Person, true, [], run.log);
    if b == a {
      CreatesOnlyUnresolvedNames(run1, authors[1..], acc1);
      PersonStatementsNone(Appended(run1, r.0), a);
      if found.Some? {
        assert Appended(run, run1) == [];
      } else {
        assert Appended(run, run1) == [PersonWrite(Mint(run.minted), a)];
        assert MintedBetween(run.minted, r.0.minted, r.1[a]);
      }
    } else {
      if b !in acc {
        ResolveAuthorWrites(run, b);
      }
      PersonStatementsNone(Appended(run, run1), a);
      AuthorResolvedOnce(run1, authors[1..], acc1, a);
      FoundIgnoresLog(run.kb, a, Person, true, [], run1.log);
      if found.None? {
        var i :| run1.minted <= i < r.0.minted && r.1[a] == Mint(i);
        assert run.minted <= i;
      }
    }
  }
}
