/** The parallel-build budget: how many compile jobs fit in memory and cores. */
module BuildBudget {

  const KIB_PER_GIB: real := 1048576.0
  /** A fractional memory job at or above this share is rounded up. */
  const ROUND_UP_FRACTION: real := 0.8
  const RESERVED_CORES := 2

  datatype Host = Host(totalKb: int, availKb: int, cores: int)

  datatype Budget = Budget(jobs: int, totalGb: real, availGb: real, usableGb: real, memJobs: int, cpuJobs: int)

  function Gigabytes(kb: int): real {
    kb as real / KIB_PER_GIB
  }

  function Max(a: int, b: int): int {
    if a < b then b else a
  }

  function Min(a: int, b: int): int {
    if a < b then a else b
  }

  function Ceiling(x: real): int {
    if x.Floor as real == x then x.Floor else x.Floor + 1
  }

  /** What memory is left once the reserve is kept free. */
  function Usable(host: Host, reserve: real): real {
    var usable := Gigabytes(host.availKb) - Gigabytes(host.totalKb) * reserve;
    if usable < 0.0 then 0.0 else usable
  }

  function RawJobs(usable: real, ram: real): real {
    if ram > 0.0 then usable / ram else 0.0
  }

  function Rounded(raw: real): int {
    if raw - raw.Floor as real >= ROUND_UP_FRACTION then Ceiling(raw) else raw.Floor
  }

  function BuildBudget(host: Host, ram: real, reserve: real): Budget {
    var usable := Usable(host, reserve);
    var memJobs := Rounded(RawJobs(usable, ram));
    var cpuJobs := Max(1, (host.cores - RESERVED_CORES) / 2);
    Budget(Max(1, Min(memJobs, cpuJobs)), Gigabytes(host.totalKb), Gigabytes(host.availKb), usable, memJobs, cpuJobs)
  }

  /** Rounding picks the one integer at most 0.2 above and less than 0.8 below the fraction. */
  lemma RoundedIs(raw: real, n: int)
    ensures Rounded(raw) == n <==> raw - 0.8 < n as real <= raw + 0.2
  {
    var floor := raw.Floor;
    assert floor as real <= raw < floor as real + 1.0;
  }

  /**
   The core jobs are half the cores that are left besides the reserved ones, rounded down, but at least
   one; the usable memory is what is available beyond the reserved share of the total, if anything is.
   */
  lemma CoresAndMemory(host: Host, ram: real, reserve: real, n: int)
    ensures var budget := BuildBudget(host, ram, reserve);
      && (budget.cpuJobs == n <==> if host.cores < 4 then n == 1 else 2 * n + 2 <= host.cores < 2 * n + 4)
      && budget.usableGb >= 0.0
      && (host.availKb as real >= host.totalKb as real * reserve ==>
            budget.usableGb * 1048576.0 == host.availKb as real - host.totalKb as real * reserve)
      && (host.availKb as real <= host.totalKb as real * reserve ==> budget.usableGb == 0.0)
  {
    hide Rounded, RawJobs;
    var total, available := host.totalKb as real, host.availKb as real;
    ReservedShare(total, reserve);
    assert Usable(host, reserve) >= 0.0;
  }

  lemma ReservedShare(total: real, reserve: real)
    ensures (total / KIB_PER_GIB) * reserve == (total * reserve) / KIB_PER_GIB
  {
    var gigabytes := total / KIB_PER_GIB;
    assert total == gigabytes * KIB_PER_GIB;
  }

  lemma RoundedMonotone(a: real, b: real)
    requires a <= b
    ensures Rounded(a) <= Rounded(b)
  {
    RoundedIs(a, Rounded(a));
    RoundedIs(b, Rounded(b));
  }

  lemma Scaled(a: real, b: real, factor: real)
    requires factor > 0.0
    ensures a <= b <==> a * factor <= b * factor
  {
    if a <= b {
      assert (b - a) * factor >= 0.0;
    } else {
      assert (a - b) * factor > 0.0;
    }
  }

  /** A bound on a count, multiplied out by the memory of one job. */
  lemma ScaledBound(n: real, raw: real, margin: real, ram: real, usable: real)
    requires ram > 0.0 && raw * ram == usable
    ensures n <= raw + margin <==> n * ram <= usable + margin * ram
  {
    Scaled(n, raw + margin, ram);
    Distributed(raw, margin, ram);
  }

  lemma Distributed(a: real, b: real, factor: real)
    ensures (a + b) * factor == a * factor + b * factor
  {
  }

  lemma QuotientIs(usable: real, ram: real) returns (raw: real)
    requires ram > 0.0
    ensures raw == usable / ram && raw * ram == usable
  {
    raw := usable / ram;
  }

  lemma RoundedQuotient(usable: real, ram: real, n: int)
    requires ram > 0.0
    ensures Rounded(usable / ram) == n <==> usable - 0.8 * ram < n as real * ram <= usable + 0.2 * ram
  {
    hide Rounded;
    var raw := QuotientIs(usable, ram);
    RoundedIs(raw, n);
    ScaledBound(n as real, raw, 0.2, ram, usable);
    ScaledBound(n as real, raw, -0.8, ram, usable);
  }

  /** The memory jobs are exactly the count that overcommits by at most 0.2 job and wastes less than 0.8. */
  lemma MemoryJobsExact(host: Host, ram: real, reserve: real, n: int)
    requires ram > 0.0
    ensures var usable := Usable(host, reserve);
      BuildBudget(host, ram, reserve).memJobs == n <==> usable - 0.8 * ram < n as real * ram <= usable + 0.2 * ram
  {
    hide Rounded, Usable;
    RoundedQuotient(Usable(host, reserve), ram, n);
  }

  /** A count that overcommits by at most 0.2 job does not exceed one that wastes less than 0.8. */
  lemma FitsAtMost(usable: real, ram: real, n: int, mem: int)
    requires ram > 0.0
    requires n as real * ram <= usable + 0.2 * ram && usable - 0.8 * ram < mem as real * ram
    ensures n <= mem
  {
    if n > mem {
      Scaled((mem + 1) as real, n as real, ram);
    }
  }

  /**
   The jobs granted are the largest count within the cores whose memory overcommits by at most 0.2 job;
   when no such count exists, one job is granted all the same.
   */
  lemma JobsAreGreatest(host: Host, ram: real, reserve: real, n: int)
    requires ram > 0.0
    ensures var budget := BuildBudget(host, ram, reserve);
      && 1 <= budget.jobs <= budget.cpuJobs
      && (1 <= n <= budget.cpuJobs && n as real * ram <= budget.usableGb + 0.2 * ram ==> n <= budget.jobs)
      && (budget.jobs as real * ram <= budget.usableGb + 0.2 * ram <==> budget.usableGb >= 0.8 * ram)
  {
    hide Rounded, Usable;
    var budget := BuildBudget(host, ram, reserve);
    var mem := budget.memJobs;
    MemoryJobsExact(host, ram, reserve, mem);
    if n as real * ram <= budget.usableGb + 0.2 * ram {
      FitsAtMost(budget.usableGb, ram, n, mem);
    }
    if budget.usableGb >= 0.8 * ram {
      FitsAtMost(budget.usableGb, ram, 1, mem);
      Scaled(budget.jobs as real, mem as real, ram);
    } else if budget.jobs as real * ram <= budget.usableGb + 0.2 * ram {
      Scaled(1.0, budget.jobs as real, ram);
    }
  }

  lemma UsableMonotone(small: Host, large: Host, more: real, less: real)
    requires small.totalKb == large.totalKb >= 0
    requires small.availKb <= large.availKb && less <= more
    ensures Usable(small, more) <= Usable(large, less)
  {
    var total := Gigabytes(small.totalKb);
    assert total * (more - less) >= 0.0;
  }

  lemma RawMonotone(u: real, v: real, more: real, less: real)
    requires 0.0 <= u <= v && 0.0 < less <= more
    ensures RawJobs(u, more) <= RawJobs(v, less)
  {
    var a, b := u / more, v / less;
    assert a * more == u && b * less == v;
    assert b >= 0.0;
    assert b * (more - less) >= 0.0;
    Scaled(a, b, more);
  }

  /** More memory or cores, a smaller reserve or smaller jobs never cost a job. */
  lemma JobsMonotone(small: Host, large: Host, ram: real, reserve: real, lessRam: real, lessReserve: real)
    requires small.totalKb == large.totalKb >= 0
    requires small.availKb <= large.availKb && small.cores <= large.cores
    requires 0.0 < lessRam <= ram && lessReserve <= reserve
    ensures BuildBudget(small, ram, reserve).jobs <= BuildBudget(large, lessRam, lessReserve).jobs
  {
    UsableMonotone(small, large, reserve, lessReserve);
    RawMonotone(Usable(small, reserve), Usable(large, lessReserve), ram, lessRam);
    RoundedMonotone(RawJobs(Usable(small, reserve), ram), RawJobs(Usable(large, lessReserve), lessRam));
  }

  /** Without a positive job size the memory is not consulted: one job. */
  lemma NoJobSize(host: Host, ram: real, reserve: real)
    requires ram <= 0.0
    ensures BuildBudget(host, ram, reserve).jobs == 1
  {
    assert (0.0).Floor == 0;
  }
}
