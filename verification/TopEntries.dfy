/**
 Keeping the greatest entries of a map (src/types_format.cpp:537-584, 646-706).
 */
module TopEntries {
  const TWO32: nat := 0x1_0000_0000
  const TWO64: nat := 0x1_0000_0000_0000_0000

  // A printed key with the number that its entry is sorted by.
  datatype Entry<K> = Entry(key: K, rank: int)

  predicate Ascending<K>(es: seq<Entry<K>>) {
    forall i, j :: 0 <= i < j < |es| ==> es[i].rank <= es[j].rank
  }

  // What std::ranges::sort leaves; it may order entries of one rank in any way.
  ghost predicate Arrangement<K>(entries: seq<Entry<K>>, sorted: seq<Entry<K>>) {
    multiset(sorted) == multiset(entries) && Ascending(sorted)
  }

  function Sum(counts: seq<nat>): nat {
    if counts == [] then 0 else Sum(counts[..|counts| - 1]) + counts[|counts| - 1]
  }

  // The entries of a histogram map, by the sum of their buckets in 64 bits.
  method TotalCounts<K>(counts: seq<(K, seq<nat>)>) returns (totals: seq<Entry<K>>)
    ensures |totals| == |counts|
    ensures forall i :: 0 <= i < |counts| ==> totals[i] == Entry(counts[i].0, Sum(counts[i].1) % TWO64)
  {
    totals := [];
    for i := 0 to |counts|
      invariant |totals| == i
      invariant forall j :: 0 <= j < i ==> totals[j] == Entry(counts[j].0, Sum(counts[j].1) % TWO64)
    {
      var values := counts[i].1;
      var sum := 0;
      for j := 0 to |values|
        invariant sum == Sum(values[..j]) % TWO64
      {
        assert values[..j + 1][..j] == values[..j];
        WrapOnce(Sum(values[..j]), values[j]);
        sum := (sum + values[j]) % TWO64;
      }
      assert values[..|values|] == values;
      totals := totals + [Entry(counts[i].0, sum)];
    }
  }

  lemma WrapOnce(a: nat, b: nat)
    ensures (a % TWO64 + b) % TWO64 == (a + b) % TWO64
  {
    var q := a / TWO64;
    assert a == q * TWO64 + a % TWO64;
    assert (a + b) % TWO64 == (a % TWO64 + b + q * TWO64) % TWO64;
  }

  // The last `top` entries, or all of them.
  function Kept<K>(sorted: seq<Entry<K>>, top: nat): (kept: seq<Entry<K>>)
    ensures |kept| == if top == 0 || |sorted| <= top then |sorted| else top
  {
    if top == 0 || |sorted| <= top then sorted else sorted[|sorted| - top..]
  }

  // The loop over the plain maps.
  method PrintMap<K>(sorted: seq<Entry<K>>, top: nat) returns (printed: seq<Entry<K>>)
    ensures printed == Kept(sorted, top)
  {
    printed := [];
    var done, total := 0, |sorted|;
    for k := 0 to total
      invariant top > 0 && total > top ==> done == k
      invariant printed == if top > 0 && total > top
                           then (if k <= total - top then [] else sorted[total - top..k])
                           else sorted[..k]
    {
      if top > 0 && total > top {
        var skip := done < total - top;
        done := done + 1;
        if skip {
          continue;
        }
      }
      printed := printed + [sorted[k]];
    }
  }

  // A map of the kernel has at most this many entries, the largest value of its 32-bit limit.
  const MAX_ENTRIES: nat := TWO32 - 1

  // The loop over the histogram maps counts entries in 32 bits.  That is enough for every map of the
  // kernel; of more than 2^32 entries it would drop some of the greatest, too, as soon as it drops any.
  method PrintHistograms<K>(sorted: seq<Entry<K>>, top: nat) returns (printed: seq<Entry<K>>)
    ensures printed == Kept(sorted, top) <==> top == 0 || |sorted| <= top || |sorted| <= TWO32
    ensures |sorted| <= MAX_ENTRIES ==> printed == Kept(sorted, top)
    ensures |printed| <= |Kept(sorted, top)|
  {
    printed := [];
    var i: nat, total := 0, |sorted|;
    ghost var limited, dropped := top > 0 && total > top, total - top;
    for k := 0 to total
      invariant limited ==> i == k % TWO32
      invariant !limited ==> printed == sorted[..k]
      invariant limited && k <= dropped ==> printed == []
      invariant limited && k > dropped ==> |printed| <= k - dropped
      invariant limited && k > dropped && k <= TWO32 ==> printed == sorted[dropped..k]
      invariant limited && k > dropped && k > TWO32 ==> |printed| < k - dropped
    {
      if top > 0 && total > top {
        var skip := i < total - top;
        i := (i + 1) % TWO32;
        if skip {
          continue;
        }
      }
      printed := printed + [sorted[k]];
    }
  }

  // What both loops are for: the entries kept are the greatest, in ascending order.
  lemma KeptAreGreatest<K>(entries: seq<Entry<K>>, sorted: seq<Entry<K>>, top: nat)
    requires Arrangement(entries, sorted)
    ensures var kept := Kept(sorted, top);
      var dropped := sorted[..|sorted| - |kept|];
      && Ascending(kept)
      && multiset(dropped) + multiset(kept) == multiset(entries)
      && |kept| == (if top == 0 || |entries| <= top then |entries| else top)
      && forall d, e :: d in dropped && e in kept ==> d.rank <= e.rank
  {
    SameSize(entries, sorted);
    var kept := Kept(sorted, top);
    var n := |sorted| - |kept|;
    SplitAt(sorted, n);
    assert kept == sorted[n..];
    hide Kept;
    SuffixIsGreatest(sorted, n);
  }

  lemma SplitAt<K>(s: seq<Entry<K>>, n: nat)
    requires n <= |s|
    ensures multiset(s[..n]) + multiset(s[n..]) == multiset(s)
  {
    assert s == s[..n] + s[n..];
  }

  lemma SuffixIsGreatest<K>(sorted: seq<Entry<K>>, n: nat)
    requires Ascending(sorted) && n <= |sorted|
    ensures Ascending(sorted[n..])
    ensures forall d, e :: d in sorted[..n] && e in sorted[n..] ==> d.rank <= e.rank
  {
  }

  lemma SameSize<K>(entries: seq<Entry<K>>, sorted: seq<Entry<K>>)
    requires multiset(sorted) == multiset(entries)
    ensures |sorted| == |entries|
  {
    assert |multiset(sorted)| == |sorted| && |multiset(entries)| == |entries|;
  }

  // The numbers kept do not depend on how the sort orders ties.

  function Ranks<K>(es: seq<Entry<K>>): seq<int> {
    seq(|es|, i requires 0 <= i < |es| => es[i].rank)
  }

  lemma KeptRanksUnique<K>(entries: seq<Entry<K>>, a: seq<Entry<K>>, b: seq<Entry<K>>, top: nat)
    requires Arrangement(entries, a) && Arrangement(entries, b)
    ensures Ranks(Kept(a, top)) == Ranks(Kept(b, top))
  {
    SameSize(entries, a);
    SameSize(entries, b);
    SortedRanksUnique(a, b);
    forall i | 0 <= i < |Kept(a, top)| ensures Ranks(Kept(a, top))[i] == Ranks(Kept(b, top))[i] {
      var n := |a| - |Kept(a, top)|;
      assert Ranks(a)[n + i] == Ranks(b)[n + i];
    }
  }

  // How many entries have a rank below r.
  function Below<K>(es: seq<Entry<K>>, r: int): nat {
    if es == [] then 0 else (if es[0].rank < r then 1 else 0) + Below(es[1..], r)
  }

  lemma {:induction false} BelowAppends<K>(a: seq<Entry<K>>, b: seq<Entry<K>>, r: int)
    ensures Below(a + b, r) == Below(a, r) + Below(b, r)
  {
    if a == [] {
      assert a + b == b;
    } else {
      assert (a + b)[1..] == a[1..] + b;
      BelowAppends(a[1..], b, r);
    }
  }

  lemma {:induction false} BelowSame<K>(a: seq<Entry<K>>, b: seq<Entry<K>>, r: int)
    requires multiset(a) == multiset(b)
    ensures Below(a, r) == Below(b, r)
    decreases |a|
  {
    if a == [] {
      assert b == [] by { assert |multiset(b)| == |b|; }
    } else {
      var j := Occurs(a, b);
      var rest := b[..j] + b[j + 1..];
      BelowSame(a[1..], rest, r);
      BelowWithout(b, j, r);
    }
  }

  lemma Occurs<K>(a: seq<Entry<K>>, b: seq<Entry<K>>) returns (j: nat)
    requires a != [] && multiset(a) == multiset(b)
    ensures j < |b| && b[j] == a[0] && multiset(a[1..]) == multiset(b[..j] + b[j + 1..])
  {
    assert a[0] in multiset(b);
    j :| 0 <= j < |b| && b[j] == a[0];
    assert a == [a[0]] + a[1..];
    assert b == b[..j] + ([b[j]] + b[j + 1..]);
    assert multiset(a) == multiset{a[0]} + multiset(a[1..]);
    assert multiset(b) == multiset(b[..j]) + (multiset{b[j]} + multiset(b[j + 1..]));
    assert multiset(a[1..]) == multiset(a) - multiset{a[0]};
    assert multiset(b[..j] + b[j + 1..]) == multiset(b) - multiset{b[j]};
  }

  lemma BelowWithout<K>(b: seq<Entry<K>>, j: nat, r: int)
    requires j < |b|
    ensures Below(b, r) == Below(b[..j] + b[j + 1..], r) + if b[j].rank < r then 1 else 0
  {
    BelowAppends(b[..j], b[j + 1..], r);
    BelowAppends(b[..j], b[j..], r);
    assert b == b[..j] + b[j..] && b[j..][1..] == b[j + 1..];
  }

  lemma {:induction false} BelowSorted<K>(es: seq<Entry<K>>, i: nat)
    requires Ascending(es) && i < |es|
    ensures Below(es, es[i].rank) <= i < Below(es, es[i].rank + 1)
    decreases |es|
  {
    var rest := es[1..];
    if i > 0 {
      BelowSorted(rest, i - 1);
      assert rest[i - 1] == es[i];
    } else {
      NoneBelow(rest, es[0].rank);
    }
  }

  lemma {:induction false} NoneBelow<K>(es: seq<Entry<K>>, r: int)
    requires forall i :: 0 <= i < |es| ==> r <= es[i].rank
    ensures Below(es, r) == 0
  {
    if es != [] {
      NoneBelow(es[1..], r);
    }
  }

  lemma {:induction false} BelowMonotonic<K>(es: seq<Entry<K>>, r: int, s: int)
    requires r <= s
    ensures Below(es, r) <= Below(es, s)
  {
    if es != [] {
      BelowMonotonic(es[1..], r, s);
    }
  }

  lemma SortedRanksUnique<K>(a: seq<Entry<K>>, b: seq<Entry<K>>)
    requires multiset(a) == multiset(b) && Ascending(a) && Ascending(b) && |a| == |b|
    ensures Ranks(a) == Ranks(b)
  {
    forall i | 0 <= i < |a| ensures a[i].rank == b[i].rank {
      NotLess(a, b, i);
      NotLess(b, a, i);
    }
  }

  lemma NotLess<K>(a: seq<Entry<K>>, b: seq<Entry<K>>, i: nat)
    requires multiset(a) == multiset(b) && Ascending(a) && Ascending(b) && i < |a| && i < |b|
    ensures a[i].rank >= b[i].rank
  {
    BelowSorted(a, i);
    BelowSorted(b, i);
    BelowSame(a, b, a[i].rank + 1);
    if a[i].rank + 1 <= b[i].rank {
      BelowMonotonic(b, a[i].rank + 1, b[i].rank);
    }
  }
}
