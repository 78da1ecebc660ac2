/** The arithmetic of zones in os/rt-thread-nano/src/slab.c: which zone serves a request, how its
    chunks are laid out, and how they are aligned. */
module Zones {

  const PAGE: nat := 4096         // RT_MM_PAGE_SIZE
  const HEADER: nat := 36         // sizeof(slab_zone) with 32-bit pointers
  const NZONES: nat := 72
  const ZONE_LIMIT: nat := 16384  // ZALLOC_ZONE_LIMIT

  /** (n + m - 1) & ~(m - 1), for a power of two m. */
  function RoundUp(n: nat, m: nat): nat
    requires m > 0
  {
    (n + m - 1) / m * m
  }

  /** zoneindex: the index of the zones for a request, and the size of their chunks. A request that is
      too large is reported, and treated as index 0 with its own size. */
  function ZoneIndex(n: nat): (nat, nat)
    requires n > 0
  {
    if n < 128 then (RoundUp(n, 8) / 8 - 1, RoundUp(n, 8))
    else if n < 256 then (RoundUp(n, 16) / 16 + 7, RoundUp(n, 16))
    else if n < 512 then (RoundUp(n, 32) / 32 + 15, RoundUp(n, 32))
    else if n < 1024 then (RoundUp(n, 64) / 64 + 23, RoundUp(n, 64))
    else if n < 2048 then (RoundUp(n, 128) / 128 + 31, RoundUp(n, 128))
    else if n < 4096 then (RoundUp(n, 256) / 256 + 39, RoundUp(n, 256))
    else if n < 8192 then (RoundUp(n, 512) / 512 + 47, RoundUp(n, 512))
    else if n < ZONE_LIMIT then (RoundUp(n, 1024) / 1024 + 55, RoundUp(n, 1024))
    else (0, n)
  }

  predicate IsPowerOfTwo(n: nat) {
    n == 1 || (n > 1 && n % 2 == 0 && IsPowerOfTwo(n / 2))
  }

  /** Where the chunks start in a zone. */
  function Offset(chunk: nat): nat
    requires chunk > 0
  {
    if IsPowerOfTwo(chunk) then RoundUp(HEADER, chunk) else RoundUp(HEADER, 8)
  }

  /** z_nmax. */
  function ChunksIn(zoneSize: nat, chunk: nat): int
    requires chunk > 0
  {
    (zoneSize - Offset(chunk)) / chunk
  }

  /** The zone sizes that the loop of rt_system_heap_init can end with. */
  predicate IsZoneSize(zoneSize: nat) {
    zoneSize == 0x8000 || zoneSize == 0x1_0000 || zoneSize == 0x2_0000
  }

  /** zone_limit: larger requests go to the page allocator. */
  function Limit(zoneSize: nat): nat {
    if zoneSize / 4 > ZONE_LIMIT then ZONE_LIMIT else zoneSize / 4
  }

  method ZoneSize(limsize: nat) returns (zoneSize: nat)
    ensures IsZoneSize(zoneSize)
    ensures zoneSize > 0x8000 ==> zoneSize < limsize / 1024
    ensures zoneSize < 0x2_0000 ==> limsize / 1024 <= 2 * zoneSize
  {
    zoneSize := 0x8000;
    while zoneSize < 0x2_0000 && 2 * zoneSize < limsize / 1024
      invariant IsZoneSize(zoneSize) && (zoneSize > 0x8000 ==> zoneSize < limsize / 1024)
      decreases 0x2_0000 - zoneSize
    {
      zoneSize := 2 * zoneSize;
    }
  }

  // ---------- Division ----------

  lemma Scaled(x: nat, y: nat, b: nat)
    requires x <= y
    ensures x * b <= y * b
  {
  }

  lemma DivideAt(a: nat, b: nat, q: nat)
    requires b > 0 && q * b <= a < q * b + b
    ensures a / b == q
  {
    var d := a / b;
    assert d * b <= a < d * b + b;
    assert (d + 1) * b == d * b + b && (q + 1) * b == q * b + b;
    if d < q {
      Scaled(d + 1, q, b);
    }
    if d > q {
      Scaled(q + 1, d, b);
    }
  }

  lemma Multiples(q: nat, n: nat)
    requires n > 0
    ensures q * n / n == q && q * n % n == 0
  {
    DivideAt(q * n, n, q);
  }

  lemma RoundedUp(n: nat, m: nat)
    requires m > 0
    ensures var q := RoundUp(n, m) / m;
            RoundUp(n, m) == q * m && n <= RoundUp(n, m) < n + m
    ensures m % 8 == 0 ==> RoundUp(n, m) % 8 == 0
  {
    var a := n + m - 1;
    assert a / m * m <= a < a / m * m + m;
    Multiples(a / m, m);
    if m % 8 == 0 {
      assert a / m * m == a / m * (m / 8 * 8) == (a / m * (m / 8)) * 8;
      Multiples(a / m * (m / 8), 8);
    }
  }

  // ---------- Requests ----------

  /** The chunk size as a function of the zone index. */
  function ChunkOf(zi: nat): nat {
    if zi < 16 then 8 * (zi + 1)
    else if zi < 24 then 16 * (zi - 7)
    else if zi < 32 then 32 * (zi - 15)
    else if zi < 40 then 64 * (zi - 23)
    else if zi < 48 then 128 * (zi - 31)
    else if zi < 56 then 256 * (zi - 39)
    else if zi < 64 then 512 * (zi - 47)
    else 1024 * (zi - 55)
  }

  /** In every branch of zoneindex the chunk is the least multiple, q times, of the branch's rounding. */
  lemma SmallRequest(n: nat) returns (q: nat)
    requires 0 < n < 1024
    ensures n < 128 ==> n <= q * 8 < n + 8 && ZoneIndex(n) == (q - 1, q * 8)
    ensures 128 <= n < 256 ==> n <= q * 16 < n + 16 && ZoneIndex(n) == (q + 7, q * 16)
    ensures 256 <= n < 512 ==> n <= q * 32 < n + 32 && ZoneIndex(n) == (q + 15, q * 32)
    ensures 512 <= n < 1024 ==> n <= q * 64 < n + 64 && ZoneIndex(n) == (q + 23, q * 64)
  {
    hide RoundUp;
    if n < 128 {
      RoundedUp(n, 8);
      q := RoundUp(n, 8) / 8;
    } else if n < 256 {
      RoundedUp(n, 16);
      q := RoundUp(n, 16) / 16;
    } else if n < 512 {
      RoundedUp(n, 32);
      q := RoundUp(n, 32) / 32;
    } else {
      RoundedUp(n, 64);
      q := RoundUp(n, 64) / 64;
    }
  }

  lemma LargeRequest(n: nat) returns (q: nat)
    requires 1024 <= n < ZONE_LIMIT
    ensures n < 2048 ==> n <= q * 128 < n + 128 && ZoneIndex(n) == (q + 31, q * 128)
    ensures 2048 <= n < 4096 ==> n <= q * 256 < n + 256 && ZoneIndex(n) == (q + 39, q * 256)
    ensures 4096 <= n < 8192 ==> n <= q * 512 < n + 512 && ZoneIndex(n) == (q + 47, q * 512)
    ensures 8192 <= n < ZONE_LIMIT ==> n <= q * 1024 < n + 1024 && ZoneIndex(n) == (q + 55, q * 1024)
  {
    hide RoundUp;
    if n < 2048 {
      RoundedUp(n, 128);
      q := RoundUp(n, 128) / 128;
    } else if n < 4096 {
      RoundedUp(n, 256);
      q := RoundUp(n, 256) / 256;
    } else if n < 8192 {
      RoundedUp(n, 512);
      q := RoundUp(n, 512) / 512;
    } else {
      RoundedUp(n, 1024);
      q := RoundUp(n, 1024) / 1024;
    }
  }

  /** A chunk is large enough, wastes less than 8 bytes or less than an eighth of the request, and its
      size is a multiple of 8; there are 72 zone indices, and the index determines the chunk. */
  lemma ChunkFitsTightly(n: nat)
    requires 0 < n < ZONE_LIMIT
    ensures var (zi, chunk) := ZoneIndex(n);
            && zi < NZONES && n <= chunk <= ZONE_LIMIT
            && (chunk - n < 8 || 8 * (chunk - n) < n)
            && chunk == ChunkOf(zi)
    ensures ZoneIndex(n).1 % 8 == 0
  {
    assert ZoneIndex(n).1 % 8 == 0 by {
      ChunkIsGranular(n);
    }
    if n < 1024 {
      var q := SmallRequest(n);
      hide ZoneIndex;
    } else {
      var q := LargeRequest(n);
      hide ZoneIndex;
    }
  }

  lemma ChunkIsGranular(n: nat)
    requires 0 < n < ZONE_LIMIT
    ensures ZoneIndex(n).1 % 8 == 0
  {
    hide RoundUp;
    RoundedUp(n, 8);
    RoundedUp(n, 16);
    RoundedUp(n, 32);
    RoundedUp(n, 64);
    RoundedUp(n, 128);
    RoundedUp(n, 256);
    RoundedUp(n, 512);
    RoundedUp(n, 1024);
  }

  /** All requests served by one zone list have the same chunk size. */
  lemma SameIndexSameChunk(m: nat, n: nat)
    requires 0 < m < ZONE_LIMIT && 0 < n < ZONE_LIMIT && ZoneIndex(m).0 == ZoneIndex(n).0
    ensures ZoneIndex(m).1 == ZoneIndex(n).1
  {
    hide ZoneIndex;
    ChunkFitsTightly(m);
    ChunkFitsTightly(n);
  }

  // ---------- Layout ----------

  lemma OffsetBound(chunk: nat)
    requires chunk > 0 && chunk % 8 == 0
    ensures HEADER <= Offset(chunk) && Offset(chunk) % 8 == 0
    ensures Offset(chunk) <= if chunk <= 64 then 64 else chunk
    ensures IsPowerOfTwo(chunk) ==> Offset(chunk) % chunk == 0
  {
    RoundedUp(HEADER, chunk);
    Multiples(RoundUp(HEADER, chunk) / chunk, chunk);
    if IsPowerOfTwo(chunk) {
      if chunk >= HEADER {
        DivideAt(HEADER + chunk - 1, chunk, 1);
      } else {
        assert chunk == 8 || chunk == 16 || chunk == 24 || chunk == 32;
      }
    }
  }

  /** In every zone there is room for at least three chunks, and all chunks lie behind the header and
      inside the zone. */
  lemma ZoneHoldsItsChunks(zoneSize: nat, n: nat)
    requires IsZoneSize(zoneSize) && 0 < n < Limit(zoneSize)
    ensures var chunk := ZoneIndex(n).1;
            && chunk > 0 && HEADER <= Offset(chunk) && Offset(chunk) % 8 == 0
            && ChunksIn(zoneSize, chunk) >= 3
            && Offset(chunk) + ChunksIn(zoneSize, chunk) * chunk <= zoneSize
  {
    ChunkFitsTightly(n);
    var chunk := ZoneIndex(n).1;
    assert chunk <= Limit(zoneSize) by {
      ChunkWithinLimit(n);
    }
    hide ZoneIndex, ChunkOf;
    OffsetBound(chunk);
    hide Offset;
    Room(zoneSize, Offset(chunk), chunk);
  }

  lemma Room(total: nat, off: nat, chunk: nat)
    requires chunk > 0 && off + 3 * chunk <= total
    ensures (total - off) / chunk >= 3 && off + (total - off) / chunk * chunk <= total
  {
    var room := total - off;
    var d := room / chunk;
    assert d * chunk <= room < d * chunk + chunk;
    assert (d + 1) * chunk == d * chunk + chunk;
    if d < 3 {
      Scaled(d + 1, 3, chunk);
    }
  }

  lemma ChunkWithinLimit(n: nat)
    requires 0 < n < ZONE_LIMIT
    ensures n < 8192 ==> ZoneIndex(n).1 <= 8192
  {
    ChunkFitsTightly(n);
    if 4096 <= n < 8192 {
      var q := LargeRequest(n);
      hide ZoneIndex;
    }
  }

  // ---------- Alignment ----------

  predicate SmallPower(n: nat) {
    n == 8 || n == 16 || n == 32 || n == 64 || n == 128 || n == 256 || n == 512 || n == 1024 || n == 2048 || n == 4096
  }

  lemma {:induction false} SmallPowersArePowers(n: nat)
    requires 8 <= n <= 4096 && IsPowerOfTwo(n)
    ensures SmallPower(n)
  {
    if n >= 16 {
      SmallPowersArePowers(n / 2);
    } else {
      assert IsPowerOfTwo(n / 2) && IsPowerOfTwo(n / 2 / 2);
    }
  }

  /** A request that is a power of two from 8 to 4096 is served by a chunk of exactly that size, and every
      chunk of a page-aligned zone is aligned to it. */
  lemma PowersAreAligned(zone: nat, n: nat, k: nat)
    requires 8 <= n <= 4096 && IsPowerOfTwo(n)
    ensures ZoneIndex(n).1 == n
    ensures (zone * PAGE + Offset(n) + k * n) % n == 0
  {
    hide SmallPower;
    assert ZoneIndex(n).1 == n && PAGE % n == 0 && Offset(n) % n == 0 by {
      SmallPowersArePowers(n);
      PowerIsItsChunk(n);
      DividesPage(n);
      OffsetBound(n);
    }
    hide *;
    AlignedChunk(zone, Offset(n), k, n);
  }

  lemma AlignedChunk(zone: nat, off: nat, k: nat, n: nat)
    requires n > 0 && PAGE % n == 0 && off % n == 0
    ensures (zone * PAGE + off + k * n) % n == 0
  {
    SumOfMultiples(zone, PAGE, PAGE / n, off, off / n, k, n);
  }

  lemma DividesPage(n: nat)
    requires SmallPower(n)
    ensures n % 8 == 0 && PAGE % n == 0
  {
  }

  lemma PowerIsItsChunk(n: nat)
    requires SmallPower(n)
    ensures ZoneIndex(n).1 == n
  {
  }

  lemma SumOfMultiples(zone: nat, page: nat, p: nat, off: nat, q: nat, k: nat, n: nat)
    requires n > 0 && page == p * n && off == q * n
    ensures (zone * page + off + k * n) % n == 0
  {
    assert zone * page == (zone * p) * n;
    assert (zone * p) * n + q * n + k * n == (zone * p + q + k) * n;
    Multiples(zone * p + q + k, n);
  }
}
