/**
 Sizes of the event buffers (src/bpftrace.cpp:1462-1504), in exact arithmetic.
 */
module BufferPages {
  import opened Prelude
  import opened Arithmetic

  // The exponent of the greatest power of two that is at most n.
  function FloorLog2(n: nat): (k: nat)
    requires n > 0
    ensures Pow2(k) <= n < Pow2(k + 1)
  {
    if n == 1 then 0
    else
      var k := FloorLog2(n / 2);
      assert Pow2(k + 1) == 2 * Pow2(k) && Pow2(k + 2) == 2 * Pow2(k + 1);
      k + 1
  }

  // The exponent of the least power of two that is at least n.
  function CeilLog2(n: nat): (k: nat)
    requires n > 0
    ensures n <= Pow2(k) && (k > 0 ==> Pow2(k - 1) < n)
  {
    var k := FloorLog2(n);
    if Pow2(k) == n then (assert k > 0 ==> Pow2(k) == 2 * Pow2(k - 1); k) else k + 1
  }

  // The logarithm of zero is minus infinity, and two to that power is zero.
  function FindClosestPowerOf2(n: nat): nat {
    if n == 0 then 0
    else
      var low := Pow2(FloorLog2(n));
      var high := Pow2(CeilLog2(n));
      if n - low <= high - n then low else high
  }

  function Distance(a: nat, b: nat): nat {
    if a < b then b - a else a - b
  }

  lemma {:induction false} Pow2Increases(i: nat, j: nat)
    requires i < j
    ensures 2 * Pow2(i) <= Pow2(j)
  {
    if i + 1 < j {
      Pow2Increases(i, j - 1);
    }
  }

  // The result is a power of two, no other power is closer, and of two equally close ones it is
  // the lower.
  lemma ClosestIsClosest(n: nat, j: nat)
    requires n > 0
    ensures exists k :: FindClosestPowerOf2(n) == Pow2(k)
    ensures Distance(n, FindClosestPowerOf2(n)) <= Distance(n, Pow2(j))
    ensures Distance(n, FindClosestPowerOf2(n)) == Distance(n, Pow2(j)) ==> FindClosestPowerOf2(n) <= Pow2(j)
  {
    var f := FloorLog2(n);
    if j < f {
      Pow2Increases(j, f);
    } else if j > f + 1 {
      Pow2Increases(f + 1, j);
    }
  }

  // It misses n by at most a third of n above, and by at most a third of itself below.
  lemma ClosestBounds(n: nat)
    requires n > 0
    ensures 2 * n <= 3 * FindClosestPowerOf2(n) <= 4 * n
  {
    var f := FloorLog2(n);
    assert Pow2(f + 1) == 2 * Pow2(f);
    if Pow2(f) != n {
      assert CeilLog2(n) == f + 1;
    }
  }

  const CEILING_KB: nat := 16544
  const FLOOR_KB: nat := 256

  function CeilDiv(a: nat, b: nat): nat
    requires b > 0
  {
    (a + b - 1) / b
  }

  // `configured` is the number of pages of the configuration, 0 when there is none; `available`
  // is the free memory in kilobytes, or the error of asking for it.
  function GetBufferPages<E>(configured: nat, available: Result<nat, E>, ncpus: nat, pageSize: nat, perCpu: bool):
      Result<nat, E>
    requires ncpus > 0 && pageSize > 0
  {
    if configured > 0 then
      if !perCpu then Ok(if configured < ncpus then ncpus else configured)
      else Ok(FindClosestPowerOf2(CeilDiv(configured, ncpus)))
    else if available.Err? then available
    else Ok(FindClosestPowerOf2(MemoryPages(available.value, ncpus, pageSize, perCpu)))
  }

  // The free memory within fixed limits, in bytes.
  function Budget(availableKb: nat): nat {
    var most := if availableKb < CEILING_KB then availableKb else CEILING_KB;
    (if most < FLOOR_KB then FLOOR_KB else most) * 1024
  }

  function MemoryPages(availableKb: nat, ncpus: nat, pageSize: nat, perCpu: bool): nat
    requires ncpus > 0 && pageSize > 0
  {
    Share(if perCpu then Share(Budget(availableKb), ncpus) else Budget(availableKb), pageSize)
  }

  function Share(a: nat, b: nat): nat
    requires b > 0
  {
    a / b
  }

  // The number of pages per processor is a power of two, unless a processor's share of the memory
  // is less than one page: then, and only then, it is zero.
  lemma PerCpuPages<E>(configured: nat, available: Result<nat, E>, ncpus: nat, pageSize: nat)
    requires ncpus > 0 && pageSize > 0
    ensures var r := GetBufferPages(configured, available, ncpus, pageSize, true);
      && (r.Err? <==> configured == 0 && available.Err?)
      && (r.Ok? && r.value == 0 <==>
           configured == 0 && available.Ok? && Budget(available.value) < ncpus * pageSize)
      && (r.Ok? && r.value != 0 ==> exists k :: r.value == Pow2(k))
      && (configured > 0 ==> 2 * configured <= 3 * r.value * ncpus)
  {
    assert FindClosestPowerOf2(0) == 0;
    if available.Ok? {
      NoWholePage(Budget(available.value), ncpus, pageSize);
    }
    hide FindClosestPowerOf2, Budget, Share, CeilDiv;
    if configured > 0 {
      EnoughPages(configured, ncpus);
    } else if available.Ok? {
      var n := MemoryPages(available.value, ncpus, pageSize, true);
      if n > 0 {
        ClosestIsClosest(n, 0);
        ClosestBounds(n);
      }
    }
  }

  // Less than a page for each processor.
  lemma NoWholePage(bytes: nat, ncpus: nat, pageSize: nat)
    requires ncpus > 0 && pageSize > 0
    ensures Share(Share(bytes, ncpus), pageSize) == 0 <==> bytes < ncpus * pageSize
  {
    var share := Share(bytes, ncpus);
    ShareFits(bytes, ncpus);
    assert bytes < (share + 1) * ncpus;
    if share < pageSize {
      Scaled(share + 1, pageSize, ncpus);
    } else {
      Scaled(pageSize, share, ncpus);
    }
  }

  // 200 kilobytes of free memory and 128 processors: no pages at all.
  lemma NoPages()
    ensures GetBufferPages<()>(0, Ok(200), 128, 4096, true) == Ok(0)
  {
    assert Budget(200) == 262144;
    NoWholePage(262144, 128, 4096);
  }

  // All processors together get at least two thirds of the configured pages.
  lemma EnoughPages(configured: nat, ncpus: nat)
    requires configured > 0 && ncpus > 0
    ensures var p := FindClosestPowerOf2(CeilDiv(configured, ncpus));
      p != 0 && (exists k :: p == Pow2(k)) && 2 * configured <= 3 * p * ncpus
  {
    var n := CeilDiv(configured, ncpus);
    CeilDivBounds(configured, ncpus);
    ClosestIsClosest(n, 0);
    ClosestBounds(n);
    hide CeilDiv, FindClosestPowerOf2;
    var p := FindClosestPowerOf2(n);
    Scaled(2 * n, 3 * p, ncpus);
    Associate(2, n, ncpus);
  }

  // Without division among processors there is at least one page for each.
  lemma SharedPages<E>(configured: nat, available: Result<nat, E>, ncpus: nat, pageSize: nat)
    requires configured > 0 && ncpus > 0 && pageSize > 0
    ensures var r := GetBufferPages(configured, available, ncpus, pageSize, false);
      r.Ok? && r.value >= ncpus && r.value >= configured && (r.value == ncpus || r.value == configured)
  {
  }

  // By default all buffers together take at most four thirds of the ceiling.
  lemma MemoryBound(availableKb: nat, ncpus: nat, pageSize: nat)
    requires ncpus > 0 && pageSize > 0
    ensures var p := FindClosestPowerOf2(MemoryPages(availableKb, ncpus, pageSize, true));
      3 * (p * pageSize * ncpus) <= 4 * CEILING_KB * 1024
  {
    var bytes := Budget(availableKb);
    var share := Share(bytes, ncpus);
    var n := Share(share, pageSize);
    var p := FindClosestPowerOf2(n);
    assert n == MemoryPages(availableKb, ncpus, pageSize, true);
    assert 3 * p <= 4 * n by {
      if n > 0 {
        ClosestBounds(n);
      }
    }
    hide FindClosestPowerOf2, MemoryPages;
    ShareFits(bytes, ncpus);
    ShareFits(share, pageSize);
    hide Share;
    Scaled(3 * p, 4 * n, pageSize);
    Associate(3, p, pageSize);
    Associate(4, n, pageSize);
    Scaled(3 * (p * pageSize), 4 * (n * pageSize), ncpus);
    Associate(3, p * pageSize, ncpus);
    Associate(4, n * pageSize, ncpus);
    Scaled(n * pageSize, share, ncpus);
  }

  lemma ShareFits(a: nat, b: nat)
    requires b > 0
    ensures Share(a, b) * b <= a
  {
    assert a == b * (a / b) + a % b;
  }

  lemma Associate(a: nat, b: nat, c: nat)
    ensures a * b * c == a * (b * c)
  {
  }

  lemma CeilDivBounds(a: nat, b: nat)
    requires a > 0 && b > 0
    ensures CeilDiv(a, b) > 0 && a <= CeilDiv(a, b) * b
  {
    var q := CeilDiv(a, b);
    assert a + b - 1 == b * q + (a + b - 1) % b;
    assert q * b == b * q;
  }

  lemma Scaled(a: nat, b: nat, c: nat)
    requires a <= b
    ensures a * c <= b * c
  {
    assert b * c - a * c == (b - a) * c;
  }

  // What the number of pages is, for every configuration.

  // The free memory, but at least 256 and at most 16544 kilobytes.
  predicate IsBudget(bytes: nat, availableKb: nat) {
    bytes == if availableKb <= 256 then 262144 else if availableKb >= 16544 then 16941056 else 1024 * availableKb
  }

  // No power of two is closer, and of two equally close ones p is the lower; none at all for zero.
  ghost predicate IsClosest(p: nat, n: nat) {
    if n == 0 then p == 0
    else (exists k :: p == Pow2(k)) && forall j :: NotCloser(n, p, Pow2(j))
  }

  predicate NotCloser(n: nat, p: nat, q: nat) {
    Distance(n, p) <= Distance(n, q) && (Distance(n, p) == Distance(n, q) ==> p <= q)
  }

  lemma FoundIsClosest(n: nat)
    ensures IsClosest(FindClosestPowerOf2(n), n)
  {
    if n > 0 {
      hide FindClosestPowerOf2;
      ClosestIsClosest(n, 0);
      forall j ensures NotCloser(n, FindClosestPowerOf2(n), Pow2(j)) {
        ClosestIsClosest(n, j);
      }
    }
  }

  // Without configuration, the pages are the power of two closest to the whole pages of the budget, or
  // of a processor's share of it.
  lemma DefaultPages<E>(available: Result<nat, E>, ncpus: nat, pageSize: nat, perCpu: bool, bytes: nat)
      returns (n: nat)
    requires ncpus > 0 && pageSize > 0 && (available.Ok? ==> IsBudget(bytes, available.value))
    ensures var r := GetBufferPages(0, available, ncpus, pageSize, perCpu);
      if available.Err? then r == available
      else
        var users := if perCpu then ncpus else 1;
        n * pageSize * users <= bytes < (n + 1) * pageSize * users && r.Ok? && IsClosest(r.value, n)
  {
    n := 0;
    if available.Ok? {
      n := MemoryPages(available.value, ncpus, pageSize, perCpu);
      FoundIsClosest(n);
      assert Budget(available.value) == bytes;
      if perCpu {
        ShareIs(bytes, ncpus);
        ShareIs(Share(bytes, ncpus), pageSize);
        hide Share, FindClosestPowerOf2, IsClosest;
        SharedOut(bytes, Share(bytes, ncpus), n, ncpus, pageSize);
      } else {
        ShareIs(bytes, pageSize);
      }
    }
  }

  lemma ShareIs(a: nat, b: nat)
    requires b > 0
    ensures Share(a, b) * b <= a < (Share(a, b) + 1) * b
  {
  }

  lemma SharedOut(bytes: nat, share: nat, n: nat, ncpus: nat, pageSize: nat)
    requires share * ncpus <= bytes < (share + 1) * ncpus
    requires n * pageSize <= share < (n + 1) * pageSize
    ensures n * pageSize * ncpus <= bytes < (n + 1) * pageSize * ncpus
  {
    Scaled(n * pageSize, share, ncpus);
    Scaled(share + 1, (n + 1) * pageSize, ncpus);
  }

  // Configured pages are shared out, rounded up and then to the closest power of two.
  lemma ConfiguredPages<E>(configured: nat, available: Result<nat, E>, ncpus: nat, pageSize: nat) returns (n: nat)
    requires configured > 0 && ncpus > 0 && pageSize > 0
    ensures n > 0 && (n - 1) * ncpus < configured <= n * ncpus
    ensures var r := GetBufferPages(configured, available, ncpus, pageSize, true);
      r.Ok? && IsClosest(r.value, n)
  {
    n := CeilDiv(configured, ncpus);
    CeilDivBounds(configured, ncpus);
    CeilDivLeast(configured, ncpus);
    FoundIsClosest(n);
  }

  lemma CeilDivLeast(a: nat, b: nat)
    requires a > 0 && b > 0
    ensures (CeilDiv(a, b) - 1) * b < a
  {
    var q := CeilDiv(a, b);
    assert q * b <= a + b - 1;
    assert (q - 1) * b == q * b - b;
  }
}
