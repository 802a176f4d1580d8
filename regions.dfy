/** The target's address space as the scanner sees it through
    `VirtualQueryEx` and `ReadProcessMemory`, the walk over its regions and
    the capped read of one region. */
module Regions {
  import opened Types
  import opened Sequences
  import opened Matcher

  /** `MEMORY_BASIC_INFORMATION.State` values. */
  const MEM_COMMIT: nat := 0x1000

  /** `MEMORY_BASIC_INFORMATION.Protect` values the walk accepts. */
  const PAGE_READONLY: nat := 0x02
  const PAGE_READWRITE: nat := 0x04
  const PAGE_EXECUTE_READ: nat := 0x20
  const PAGE_EXECUTE_READWRITE: nat := 0x40

  /** What one successful `VirtualQueryEx` reports. */
  datatype Descriptor = Descriptor(base: Addr, size: nat, state: nat, protect: nat)

  /** The target process as two answers: `query[a]` is the descriptor that
      `VirtualQueryEx` returns for address `a` (no key: the query fails), and
      `contents[b]` the bytes `ReadProcessMemory` can deliver starting at `b`
      (no key: the read fails). */
  datatype AddressSpace = AddressSpace(query: map<Addr, Descriptor>, contents: map<Addr, seq<byte>>)

  /** The operating system's promise about a query: the reported region
      contains the queried address and lies inside the address space. */
  ghost predicate WellFormed(query: map<Addr, Descriptor>)
  {
    forall a :: a in query ==> query[a].base <= a < query[a].base + query[a].size <= ADDR_LIMIT
  }

  /** Committed, and protected exactly read-write, read-only, execute-read or
      execute-read-write (a guard or no-cache modifier makes it unequal). */
  predicate Scannable(d: Descriptor)
  {
    d.state == MEM_COMMIT
    && (d.protect == PAGE_READWRITE || d.protect == PAGE_READONLY
        || d.protect == PAGE_EXECUTE_READ || d.protect == PAGE_EXECUTE_READWRITE)
  }

  /** `BaseAddress + RegionSize` as a `uintptr_t`. */
  function NextQuery(d: Descriptor): Addr
  {
    AddrAt(d.base, d.size)
  }

  /** The bases `get_memory_regions` collects when its walk reaches address
      `a`: query, keep the base if scannable, continue at `base + size`, stop
      when the query fails or the next address wraps to 0. */
  function RegionsFrom(query: map<Addr, Descriptor>, a: Addr): seq<Addr>
    requires WellFormed(query)
    decreases ADDR_LIMIT - a
  {
    if a !in query then []
    else
      var d := query[a];
      var here := if Scannable(d) then [d.base] else [];
      var next := NextQuery(d);
      if next == 0 then here
      else
        assert next == d.base + d.size > a;
        here + RegionsFrom(query, next)
  }

  /** One step of the walk at a successful query. */
  lemma RegionsFromStep(query: map<Addr, Descriptor>, a: Addr)
    requires WellFormed(query) && a in query
    ensures NextQuery(query[a]) != 0 ==> NextQuery(query[a]) > a
    ensures RegionsFrom(query, a)
         == (if Scannable(query[a]) then [query[a].base] else [])
            + (if NextQuery(query[a]) == 0 then [] else RegionsFrom(query, NextQuery(query[a])))
  {
  }

  /** The walk's loop invariant `found + RegionsFrom(query, a) == all` survives
      one step: keep the base if scannable, then stop or move to `base + size`. */
  lemma WalkStep(query: map<Addr, Descriptor>, a: Addr, found: seq<Addr>, kept: seq<Addr>, all: seq<Addr>)
    requires WellFormed(query) && a in query
    requires found + RegionsFrom(query, a) == all
    requires kept == found + (if Scannable(query[a]) then [query[a].base] else [])
    ensures NextQuery(query[a]) == 0 ==> kept == all
    ensures NextQuery(query[a]) != 0 ==>
              NextQuery(query[a]) > a && kept + RegionsFrom(query, NextQuery(query[a])) == all
  {
    RegionsFromStep(query, a);
    var here := if Scannable(query[a]) then [query[a].base] else [];
    var next := NextQuery(query[a]);
    if next != 0 {
      var rest := RegionsFrom(query, next);
      AppendAssoc(found, here, rest);
    } else {
      assert here + [] == here;
    }
  }

  /** Only the base of a committed, readable descriptor is ever collected. */
  lemma {:induction false} RegionsFromSound(query: map<Addr, Descriptor>, a: Addr)
    requires WellFormed(query)
    ensures forall r :: r in RegionsFrom(query, a) ==>
              exists q :: q in query && q >= a && query[q].base == r && Scannable(query[q])
    decreases ADDR_LIMIT - a
  {
    if a in query {
      var d := query[a];
      var next := NextQuery(d);
      if next != 0 {
        RegionsFromSound(query, next);
      }
    }
  }

  /** Every address the walk queries after the first reports a region that
      starts there: the query at `base + size` of one region lands on the
      next region's base. A query at any other address may report the base
      of the page it falls in. */
  ghost predicate SuccessorsAligned(query: map<Addr, Descriptor>)
  {
    forall a :: a in query && NextQuery(query[a]) != 0 && NextQuery(query[a]) in query ==>
      query[NextQuery(query[a])].base == NextQuery(query[a])
  }

  /** On a consistent snapshot the collected bases are strictly ascending and
      none lies below the address the walk started from. */
  lemma {:induction false} RegionsFromAscending(query: map<Addr, Descriptor>, a: Addr)
    requires WellFormed(query) && SuccessorsAligned(query)
    requires a in query ==> query[a].base == a
    ensures forall r :: r in RegionsFrom(query, a) ==> r >= a
    ensures StrictlyIncreasing(RegionsFrom(query, a))
    decreases ADDR_LIMIT - a
  {
    if a in query {
      var d := query[a];
      var next := NextQuery(d);
      if next != 0 {
        RegionsFromAscending(query, next);
        var rest := RegionsFrom(query, next);
        assert forall k :: 0 <= k < |rest| ==> rest[k] in rest;
      }
    }
  }

  /** A snapshot in which a query inside a page reports the page's base still
      meets the precondition of `RegionsFromAscending`, and its walk from 0
      collects both committed read-write pages in order. */
  lemma UnalignedQueryAccepted()
    ensures var d0 := Descriptor(0, 0x1000, MEM_COMMIT, PAGE_READWRITE);
            var d1 := Descriptor(0x1000, 0x1000, MEM_COMMIT, PAGE_READWRITE);
            var q: map<Addr, Descriptor> := map[0 := d0, 1 := d0, 0x1000 := d1];
            WellFormed(q) && SuccessorsAligned(q) && q[1].base != 1
            && RegionsFrom(q, 0) == [0, 0x1000]
  {
    var d0 := Descriptor(0, 0x1000, MEM_COMMIT, PAGE_READWRITE);
    var d1 := Descriptor(0x1000, 0x1000, MEM_COMMIT, PAGE_READWRITE);
    var q: map<Addr, Descriptor> := map[0 := d0, 1 := d0, 0x1000 := d1];
    assert WellFormed(q);
    assert NextQuery(d0) == 0x1000 && NextQuery(d1) == 0x2000;
    assert 0x2000 !in q;
    assert RegionsFrom(q, 0x2000) == [];
    assert RegionsFrom(q, 0x1000) == [0x1000];
  }

  /** The read length of a region: `RegionSize`, capped at `MAX_REGION_SIZE`. */
  function ReadLength(d: Descriptor): (n: nat)
    ensures n <= MAX_REGION_SIZE && n <= d.size
    ensures n == d.size || n == MAX_REGION_SIZE
  {
    if d.size > MAX_REGION_SIZE then MAX_REGION_SIZE else d.size
  }

  /** The bytes a read of at most `n` bytes delivers from `available`. */
  function Prefix(available: seq<byte>, n: nat): (r: seq<byte>)
    ensures |r| <= n && |r| <= |available| && r == available[..|r|]
    ensures |r| == n || r == available
  {
    if |available| <= n then available else available[..n]
  }

  /** The buffer `scan_memory_region` ends up with: nothing when the re-query
      fails, the region is not committed or the read fails; otherwise the
      bytes read, at most `min(RegionSize, MAX_REGION_SIZE)` of them. */
  function ReadRegion(space: AddressSpace, base: Addr): (r: Option<seq<byte>>)
    ensures r.Some? <==> base in space.query && space.query[base].state == MEM_COMMIT && base in space.contents
    ensures r.Some? ==> |r.value| <= MAX_REGION_SIZE && |r.value| <= space.query[base].size
    ensures r.Some? ==> |r.value| <= |space.contents[base]| && r.value == space.contents[base][..|r.value|]
    ensures r.Some? ==> |r.value| == ReadLength(space.query[base]) || r.value == space.contents[base]
  {
    if base !in space.query then None
    else
      var d := space.query[base];
      if d.state != MEM_COMMIT then None
      else if base !in space.contents then None
      else Some(Prefix(space.contents[base], ReadLength(d)))
  }

  /** All matches one region contributes; a failed re-query or read, or an
      uncommitted region, contributes none. */
  function RegionMatches(space: AddressSpace, base: Addr, value: Text, t: ValueType): seq<MemoryAddress>
  {
    match ReadRegion(space, base)
    case None => []
    case Some(buf) => MatchBuffer(buf, base, value, t)
  }

  lemma RegionMatchesTags(space: AddressSpace, base: Addr, value: Text, t: ValueType)
    ensures forall e :: e in RegionMatches(space, base, value, t) ==> e.value == value && e.vtype == t
    ensures ReadRegion(space, base).None? ==> RegionMatches(space, base, value, t) == []
  {
    if ReadRegion(space, base).Some? {
      MatchBufferTags(ReadRegion(space, base).value, base, value, t);
    }
  }
}
