/** The string operations the resolver and the splitters rely on, written
    to follow Python's `str` semantics: `lower`, `in`, `endswith`,
    `split(sep)` and `split(sep, 1)`. */
module Text {
  import opened Wrappers

  /** ASCII case folding of one character. */
  function LowerChar(c: char): char {
    if 'A' <= c <= 'Z' then (c as int + 32) as char else c
  }

  /** `s.lower()`, restricted to ASCII letters. */
  function Lower(s: string): (r: string)
    ensures |r| == |s|
  {
    seq(|s|, i requires 0 <= i < |s| => LowerChar(s[i]))
  }

  /** Folding a prefix gives the prefix of the folded string. */
  lemma LowerOfPrefix(s: string, k: nat)
    requires k <= |s|
    ensures Lower(s[..k]) == Lower(s)[..k]
  {
  }

  /** `p` occurs in `s` starting at index `i`. */
  predicate OccursAt(s: string, p: string, i: nat) {
    i + |p| <= |s| && s[i..i + |p|] == p
  }

  /** Python's `p in s` for strings (the empty string is in every string). */
  function Contains(s: string, p: string): bool
    decreases |s|
  {
    p <= s || (|s| > 0 && Contains(s[1..], p))
  }

  /** Occurrences in `s[1..]` are the occurrences in `s` shifted by one. */
  lemma OccursShift(s: string, p: string, i: nat)
    requires |s| > 0
    ensures OccursAt(s[1..], p, i) <==> OccursAt(s, p, i + 1)
  {
    if i + 1 + |p| <= |s| {
      assert s[1..][i..i + |p|] == s[i + 1..i + 1 + |p|];
    }
  }

  /** Being a prefix is occurring at index zero. */
  lemma PrefixIsOccurrenceAtZero(s: string, p: string)
    ensures p <= s <==> OccursAt(s, p, 0)
  {
    if |p| <= |s| {
      assert s[0..|p|] == s[..|p|];
    }
  }

  /** The occurrences past index zero, all at once, for use inside function bodies. */
  lemma ShiftAll(s: string, p: string)
    requires |s| > 0
    ensures forall i: nat :: i > 0 ==> (OccursAt(s, p, i) <==> OccursAt(s[1..], p, i - 1))
  {
    forall i: nat | i > 0
      ensures OccursAt(s, p, i) <==> OccursAt(s[1..], p, i - 1)
    {
      OccursShift(s, p, i - 1);
    }
  }

  /** `Contains` holds exactly when there is an index where `p` occurs. */
  lemma {:induction false} ContainsIff(s: string, p: string)
    ensures Contains(s, p) <==> exists i: nat :: OccursAt(s, p, i)
    decreases |s|
  {
    PrefixIsOccurrenceAtZero(s, p);
    if p <= s {
      assert OccursAt(s, p, 0);
    } else if |s| > 0 {
      ContainsIff(s[1..], p);
      ShiftAll(s, p);
      if Contains(s[1..], p) {
        var i: nat :| OccursAt(s[1..], p, i);
        assert OccursAt(s, p, i + 1);
      } else {
        forall i: nat
          ensures !OccursAt(s, p, i)
        {
          if i > 0 {
            OccursShift(s, p, i - 1);
          }
        }
      }
    } else {
      forall i: nat
        ensures !OccursAt(s, p, i)
      {
      }
    }
  }

  /** The index of the first occurrence of a non-empty `p` in `s` (Python's `s.find(p)`,
      with `None` for -1). */
  function IndexOf(s: string, p: string): (r: Option<nat>)
    requires |p| > 0
    ensures r.Some? ==> OccursAt(s, p, r.value)
    ensures r.Some? ==> forall j: nat :: j < r.value ==> !OccursAt(s, p, j)
    ensures r.None? ==> forall j: nat :: !OccursAt(s, p, j)
    decreases |s|
  {
    PrefixIsOccurrenceAtZero(s, p);
    if |s| < |p| then None
    else if p <= s then Some(0)
    else
      var rest := IndexOf(s[1..], p);
      ShiftAll(s, p);
      match rest
      case None => None
      case Some(i) => Some(i + 1)
  }

  /** A pattern does not occur where its first character is missing. */
  lemma NotAtWithoutFirst(s: string, p: string, j: nat)
    requires |p| > 0
    requires j < |s| ==> s[j] != p[0]
    ensures !OccursAt(s, p, j)
  {
    if j + |p| <= |s| {
      assert s[j..j + |p|][0] == s[j];
    }
  }

  /** The first occurrence determines `IndexOf`. */
  lemma IndexOfIs(s: string, p: string, i: nat)
    requires |p| > 0
    requires OccursAt(s, p, i)
    requires forall j: nat :: j < i ==> !OccursAt(s, p, j)
    ensures IndexOf(s, p) == Some(i)
  {
  }

  /** In `left + sep + right`, the first occurrence of `sep` is the one after `left`
      when `left` holds none and none straddles the junction. */
  lemma IndexOfJoin(left: string, sep: string, right: string)
    requires |sep| > 0
    requires !Contains(left, sep)
    requires forall j: nat :: j < |left| < j + |sep| ==> !OccursAt(left + sep, sep, j)
    ensures IndexOf(left + sep + right, sep) == Some(|left|)
  {
    var s := left + sep + right;
    assert s[|left|..|left| + |sep|] == sep;
    ContainsIff(left, sep);
    forall j: nat | j < |left|
      ensures !OccursAt(s, sep, j)
    {
      if j + |sep| <= |left| {
        assert s[j..j + |sep|] == left[j..j + |sep|];
        assert !OccursAt(left, sep, j);
      } else {
        assert s[j..j + |sep|] == (left + sep)[j..j + |sep|];
        assert !OccursAt(left + sep, sep, j);
      }
    }
    IndexOfIs(s, sep, |left|);
  }

  /** Without an occurrence, `IndexOf` finds nothing. */
  lemma IndexOfAbsent(s: string, p: string)
    requires |p| > 0
    requires !Contains(s, p)
    ensures IndexOf(s, p) == None
  {
    ContainsIff(s, p);
  }

  /** The number of (possibly overlapping) positions at which `p` occurs in `s`. */
  function CountOf(s: string, p: string): nat
    requires |p| > 0
    decreases |s|
  {
    if |s| < |p| then 0
    else (if p <= s then 1 else 0) + CountOf(s[1..], p)
  }

  /** A separator none of whose proper suffixes is also a prefix: its occurrences
      cannot overlap (", " and "-" are such separators). */
  predicate NonOverlapping(sep: string) {
    forall m :: 0 < m < |sep| ==> sep[m..] != sep[..|sep| - m]
  }

  /** Python's `s.split(sep)` for a non-empty separator: cut at every occurrence,
      scanning from the left. */
  function Split(s: string, sep: string): (parts: seq<string>)
    requires |sep| > 0
    ensures IndexOf(s, sep).None? ==> parts == [s]
    ensures IndexOf(s, sep).Some? ==> |parts| >= 2
    decreases |s|
  {
    match IndexOf(s, sep)
    case None => [s]
    case Some(i) => [s[..i]] + Split(s[i + |sep|..], sep)
  }

  /** Python's `s.split(sep, 1)`: cut at the first occurrence only. */
  function SplitFirst(s: string, sep: string): (parts: seq<string>)
    requires |sep| > 0
    ensures |parts| == 2 <==> Contains(s, sep)
    ensures |parts| == 2 ==> s == parts[0] + sep + parts[1] && !Contains(parts[0], sep)
    ensures |parts| != 2 ==> parts == [s]
  {
    ContainsIff(s, sep);
    match IndexOf(s, sep)
    case None => [s]
    case Some(i) =>
      assert s == s[..i] + sep + s[i + |sep|..] by {
        assert s[i..i + |sep|] == sep;
      }
      NoOccurrenceBefore(s, sep, i);
      [s[..i], s[i + |sep|..]]
  }

  /** The text before the first occurrence of `sep` does not contain it. */
  lemma NoOccurrenceBefore(s: string, sep: string, i: nat)
    requires |sep| > 0
    requires i <= |s|
    requires forall j: nat :: j < i ==> !OccursAt(s, sep, j)
    ensures !Contains(s[..i], sep)
  {
    forall j: nat
      ensures !OccursAt(s[..i], sep, j)
    {
      if j + |sep| <= i {
        assert !OccursAt(s, sep, j);
        assert s[..i][j..j + |sep|] == s[j..j + |sep|];
      }
    }
    ContainsIff(s[..i], sep);
  }

  /** Skipping a prefix free of occurrences does not change the count. */
  lemma {:induction false} CountSkip(s: string, p: string, k: nat)
    requires |p| > 0
    requires k <= |s|
    requires forall j: nat :: j < k ==> !OccursAt(s, p, j)
    ensures CountOf(s, p) == CountOf(s[k..], p)
    decreases k
  {
    if k > 0 {
      if |s| >= |p| {
        PrefixIsOccurrenceAtZero(s, p);
        forall j: nat | j < k - 1
          ensures !OccursAt(s[1..], p, j)
        {
          OccursShift(s, p, j);
        }
        CountSkip(s[1..], p, k - 1);
        assert s[1..][k - 1..] == s[k..];
      }
    }
  }

  /** A string in which `p` never occurs has count zero. */
  lemma {:induction false} NoOccurrenceCountZero(s: string, p: string)
    requires |p| > 0
    requires forall j: nat :: !OccursAt(s, p, j)
    ensures CountOf(s, p) == 0
    decreases |s|
  {
    if |s| >= |p| {
      PrefixIsOccurrenceAtZero(s, p);
      forall j: nat
        ensures !OccursAt(s[1..], p, j)
      {
        OccursShift(s, p, j);
      }
      NoOccurrenceCountZero(s[1..], p);
    }
  }

  /** Right after an occurrence of a non-overlapping separator, the next
      `|sep| - 1` positions hold no occurrence. */
  lemma NoOverlapAfter(s: string, sep: string, i: nat, m: nat)
    requires NonOverlapping(sep)
    requires OccursAt(s, sep, i)
    requires 0 < m < |sep|
    ensures !OccursAt(s, sep, i + m)
  {
    if i + m + |sep| <= |s| {
      var w := s[i + m..i + m + |sep|];
      assert w[..|sep| - m] == s[i + m..i + |sep|];
      assert s[i + m..i + |sep|] == sep[m..] by {
        assert sep == s[i..i + |sep|];
      }
      assert sep[m..] != sep[..|sep| - m];
      assert w != sep;
    }
  }

  /** The suffix that starts one past an occurrence of a non-overlapping separator
      has no occurrence among its first `|sep| - 1` positions. */
  lemma QuietAfterOccurrence(s: string, sep: string, i: nat, v: string)
    requires |sep| > 0
    requires NonOverlapping(sep)
    requires OccursAt(s, sep, i)
    requires v == s[i + 1..]
    ensures forall j: nat :: j < |sep| - 1 ==> !OccursAt(v, sep, j)
  {
    forall j: nat | j < |sep| - 1
      ensures !OccursAt(v, sep, j)
    {
      NoOverlapAfter(s, sep, i, j + 1);
      if j + |sep| <= |v| {
        assert v[j..j + |sep|] == s[i + 1 + j..i + 1 + j + |sep|];
      }
    }
  }

  /** Past an occurrence of a non-overlapping separator, the count drops by exactly one
      once the separator itself is skipped. */
  lemma CountPastOccurrence(s: string, sep: string, i: nat)
    requires |sep| > 0
    requires NonOverlapping(sep)
    requires OccursAt(s, sep, i)
    ensures CountOf(s[i..], sep) == 1 + CountOf(s[i + |sep|..], sep)
  {
    var u := s[i..];
    var v := s[i + 1..];
    assert u[..|sep|] == sep by {
      assert s[i..i + |sep|] == sep;
    }
    assert u[1..] == v;
    assert CountOf(u, sep) == 1 + CountOf(v, sep);
    QuietAfterOccurrence(s, sep, i, v);
    CountSkip(v, sep, |sep| - 1);
    assert v[|sep| - 1..] == s[i + |sep|..];
  }

  /** For a non-overlapping separator, `split` yields one more part than there are
      occurrences. */
  lemma {:induction false} SplitCount(s: string, sep: string)
    requires |sep| > 0
    requires NonOverlapping(sep)
    ensures |Split(s, sep)| == CountOf(s, sep) + 1
    decreases |s|
  {
    match IndexOf(s, sep)
    case None =>
      NoOccurrenceCountZero(s, sep);
    case Some(i) =>
      var t := s[i + |sep|..];
      assert Split(s, sep) == [s[..i]] + Split(t, sep);
      SplitCount(t, sep);
      CountSkip(s, sep, i);
      CountPastOccurrence(s, sep, i);
      assert CountOf(s, sep) == 1 + CountOf(t, sep);
  }

  /** When `split` yields exactly two parts, they rebuild the string around the
      one separator and neither contains it. */
  lemma SplitPair(s: string, sep: string)
    requires |sep| > 0
    requires |Split(s, sep)| == 2
    ensures s == Split(s, sep)[0] + sep + Split(s, sep)[1]
    ensures !Contains(Split(s, sep)[0], sep)
    ensures !Contains(Split(s, sep)[1], sep)
  {
    var i :| IndexOf(s, sep) == Some(i);
    var t := s[i + |sep|..];
    assert Split(s, sep) == [s[..i]] + Split(t, sep);
    assert Split(t, sep) == [t];
    assert s[i..i + |sep|] == sep;
    assert s == s[..i] + sep + t;
    NoOccurrenceBefore(s, sep, i);
    ContainsIff(t, sep);
  }

  /** Splitting a string joined around its only separator gives back the two sides. */
  lemma SplitOfJoin(left: string, sep: string, right: string)
    requires |sep| > 0
    requires IndexOf(left + sep + right, sep) == Some(|left|)
    requires !Contains(right, sep)
    ensures Split(left + sep + right, sep) == [left, right]
  {
    var s := left + sep + right;
    assert s[..|left|] == left;
    assert s[|left| + |sep|..] == right;
    IndexOfAbsent(right, sep);
  }

  /** Splitting once at the first separator gives back the two sides of a join whose
      left side holds no separator. */
  lemma SplitFirstOfJoin(left: string, sep: string, right: string)
    requires |sep| > 0
    requires IndexOf(left + sep + right, sep) == Some(|left|)
    ensures SplitFirst(left + sep + right, sep) == [left, right]
  {
    var s := left + sep + right;
    assert s[..|left|] == left;
    assert s[|left| + |sep|..] == right;
  }

  /** Drop one trailing space, as `val[:-1]` after `val.endswith(" ")`. */
  function DropTrailingSpace(v: string): (r: string)
    ensures r <= v
    ensures r == v || r + " " == v
  {
    if |v| > 0 && v[|v| - 1] == ' ' then v[..|v| - 1] else v
  }

  /** The decimal rendering of a natural number. */
  function Decimal(n: nat): (r: string)
    ensures |r| > 0
    decreases n
  {
    if n < 10 then [('0' as int + n) as char]
    else Decimal(n / 10) + [('0' as int + n % 10) as char]
  }

  /** Distinct numbers render differently: the last digit fixes `n % 10` and the
      digits before it fix `n / 10`. */
  lemma {:induction false} DecimalInjective(n: nat, m: nat)
    requires Decimal(n) == Decimal(m)
    ensures n == m
    decreases n
  {
    var dn, dm := Decimal(n), Decimal(m);
    if n >= 10 && m >= 10 {
      assert dn[|dn| - 1] == dm[|dm| - 1];
      assert n % 10 == m % 10;
      assert dn[..|dn| - 1] == Decimal(n / 10);
      assert dm[..|dm| - 1] == Decimal(m / 10);
      DecimalInjective(n / 10, m / 10);
    } else if n < 10 && m < 10 {
      assert dn[0] == dm[0];
    }
  }
}
