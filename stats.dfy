/**
 * The per-domain result record and the slice of them that is sorted in place
 * by domain name through Len, Less and Swap.
 */
module Stats {
  import opened Strings

  /** The statistics of one domain: its name and how many addresses named it. */
  datatype DomainStats = DomainStats(domainName: string, addresses: nat)

  /** The number of records in the slice. */
  function Len(s: array<DomainStats>): (r: nat)
    reads s
    ensures r == |s[..]|
  {
    s.Length
  }

  /**
   * Record i sorts before record j: its domain name is lexicographically
   * smaller. Of two records with different names exactly one sorts first.
   */
  predicate Less(s: array<DomainStats>, i: int, j: int): (b: bool)
    requires 0 <= i < s.Length && 0 <= j < s.Length
    reads s
    ensures b ==> !LexLess(s[j].domainName, s[i].domainName)
    ensures !b && s[i].domainName != s[j].domainName ==> LexLess(s[j].domainName, s[i].domainName)
    ensures s[i].domainName == s[j].domainName ==> !b
  {
    var a, c := s[i].domainName, s[j].domainName;
    if LexLess(a, c) then LexLessAsymmetric(a, c); true
    else if a != c then LexLessTotal(a, c); false
    else LexLessIrreflexive(a); false
  }

  /** Exchanges records i and j. */
  method Swap(s: array<DomainStats>, i: int, j: int)
    requires 0 <= i < s.Length && 0 <= j < s.Length
    modifies s
    ensures s[..] == old(s[..])[i := old(s[j])][j := old(s[i])]
    ensures multiset(s[..]) == multiset(old(s[..]))
  {
    s[i], s[j] := s[j], s[i];
  }

  /** No record sorts before an earlier one. */
  ghost predicate Sorted(s: seq<DomainStats>)
  {
    forall p, q | 0 <= p < q < |s| :: !LexLess(s[q].domainName, s[p].domainName)
  }

  /** Every record sorts strictly before every later one. */
  ghost predicate StrictlyAscending(s: seq<DomainStats>)
  {
    forall p, q | 0 <= p < q < |s| :: LexLess(s[p].domainName, s[q].domainName)
  }

  /** No record occurs twice. */
  ghost predicate Distinct(s: seq<DomainStats>)
  {
    forall x :: multiset(s)[x] <= 1
  }

  /**
   * Sorts the slice in place by Less, exchanging records only through Swap
   * (insertion sort); the result is sorted and a permutation of the input.
   */
  method Sort(s: array<DomainStats>)
    modifies s
    ensures Sorted(s[..])
    ensures multiset(s[..]) == multiset(old(s[..]))
  {
    var i := 0;
    while i < Len(s)
      invariant 0 <= i <= s.Length
      invariant forall p, q | 0 <= p < q < i :: !LexLess(s[q].domainName, s[p].domainName)
      invariant multiset(s[..]) == multiset(old(s[..]))
    {
      var j := i;
      while 0 < j && Less(s, j, j - 1)
        invariant 0 <= j <= i < s.Length
        invariant forall p, q | 0 <= p < q <= i && p != j && q != j ::
                    !LexLess(s[q].domainName, s[p].domainName)
        invariant forall q | j < q <= i :: LexLess(s[j].domainName, s[q].domainName)
        invariant multiset(s[..]) == multiset(old(s[..]))
      {
        Swap(s, j - 1, j);
        j := j - 1;
      }
      forall p, q | 0 <= p < q <= i
        ensures !LexLess(s[q].domainName, s[p].domainName)
      {
        if q == j && p < j - 1 {
          NotLessTransitive(s[p].domainName, s[j - 1].domainName, s[j].domainName);
        } else if p == j {
          LexLessAsymmetric(s[p].domainName, s[q].domainName);
        }
      }
      i := i + 1;
    }
  }

  /** The total of the address counts. */
  ghost function Sum(s: seq<DomainStats>): int
  {
    if s == [] then 0 else Sum(s[..|s| - 1]) + s[|s| - 1].addresses
  }

  lemma {:induction false} SumConcat(a: seq<DomainStats>, b: seq<DomainStats>)
    ensures Sum(a + b) == Sum(a) + Sum(b)
  {
    if b != [] {
      assert (a + b)[..|a + b| - 1] == a + b[..|b| - 1];
      SumConcat(a, b[..|b| - 1]);
    } else {
      assert a + b == a;
    }
  }

  /** Reordering the records does not change the total. */
  lemma {:induction false} SumPermutation(s: seq<DomainStats>, t: seq<DomainStats>)
    requires multiset(s) == multiset(t)
    ensures Sum(s) == Sum(t)
    decreases |s|
  {
    if s == [] {
      assert |t| == |multiset(t)| == 0;
    } else {
      var x := s[|s| - 1];
      var s' := s[..|s| - 1];
      assert s == s' + [x];
      assert x in multiset(t);
      var j :| 0 <= j < |t| && t[j] == x;
      var t' := t[..j] + t[j + 1..];
      assert t == t[..j] + [x] + t[j + 1..];
      assert multiset(t) == multiset(t[..j]) + multiset{x} + multiset(t[j + 1..]);
      assert multiset(s) == multiset(s') + multiset{x};
      assert multiset(t') == multiset(t[..j]) + multiset(t[j + 1..]);
      forall y ensures multiset(s')[y] == multiset(t')[y] {
        assert multiset(s)[y] == multiset(s')[y] + multiset{x}[y];
        assert multiset(t)[y] == multiset(t[..j])[y] + multiset{x}[y] + multiset(t[j + 1..])[y];
        assert multiset(t')[y] == multiset(t[..j])[y] + multiset(t[j + 1..])[y];
      }
      assert multiset(s') == multiset(t');
      SumPermutation(s', t');
      SumConcat(t[..j] + [x], t[j + 1..]);
      SumConcat(t[..j], [x]);
      SumConcat(t[..j], t[j + 1..]);
    }
  }

  /** Appending a record that is not there yet keeps the records distinct. */
  lemma DistinctAppend(s: seq<DomainStats>, x: DomainStats)
    requires Distinct(s) && x !in s
    ensures Distinct(s + [x])
  {
    assert multiset(s + [x]) == multiset(s) + multiset{x};
  }

  /** In a sequence without repeated records, two positions hold different records. */
  lemma DistinctAt(s: seq<DomainStats>, p: int, q: int)
    requires Distinct(s) && 0 <= p < q < |s|
    ensures s[p] != s[q]
  {
    assert s == s[..q] + s[q..];
    assert s[p] in s[..q];
    assert s[q] == s[q..][0];
    assert multiset(s)[s[q]] == multiset(s[..q])[s[q]] + multiset(s[q..])[s[q]];
  }

  /** In a strictly ascending sequence, the tail holds exactly the records other than the head. */
  lemma AscendingTail(s: seq<DomainStats>, x: DomainStats)
    requires StrictlyAscending(s) && s != []
    ensures x in s[1..] <==> x in s && x != s[0]
  {
    LexLessIrreflexive(x.domainName);
    if x in s[1..] {
      var k :| 1 <= k < |s| && s[k] == x;
      assert LexLess(s[0].domainName, s[k].domainName);
    }
    if x in s && x != s[0] {
      var k :| 0 <= k < |s| && s[k] == x;
      assert s[1..][k - 1] == x;
    }
  }

  /** Two strictly ascending sequences holding the same records are equal. */
  lemma {:induction false} AscendingUnique(s: seq<DomainStats>, t: seq<DomainStats>)
    requires StrictlyAscending(s) && StrictlyAscending(t)
    requires forall x :: x in s <==> x in t
    ensures s == t
    decreases |s|
  {
    assert forall k | 0 <= k < |s| :: s[k] in s;
    assert forall k | 0 <= k < |t| :: t[k] in t;
    if s != [] && t != [] {
      var i :| 0 <= i < |s| && s[i] == t[0];
      var j :| 0 <= j < |t| && t[j] == s[0];
      if i != 0 {
        LexLessAsymmetric(s[0].domainName, s[i].domainName);
      }
      assert s[0] == t[0];
      forall x
        ensures x in s[1..] <==> x in t[1..]
      {
        AscendingTail(s, x);
        AscendingTail(t, x);
      }
      AscendingUnique(s[1..], t[1..]);
      assert s == [s[0]] + s[1..] && t == [t[0]] + t[1..];
    }
  }
}
