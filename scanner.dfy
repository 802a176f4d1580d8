/** `MemoryScanner`: the result store and the four public operations, with
    the specification functions their methods are proved against. */
module Scanner {
  import opened Types
  import opened AddressText
  import opened Matcher
  import opened Regions

  /** One entry of the process snapshot, its executable name already narrow. */
  datatype ProcessEntry = ProcessEntry(name: string, pid: nat)

  /** What the operating system offers a scan: the process snapshot in
      enumeration order (an unavailable snapshot is an empty one), and the
      address space of every process `OpenProcess` succeeds on. */
  datatype Host = Host(processes: seq<ProcessEntry>, targets: map<nat, AddressSpace>)

  ghost predicate HostValid(host: Host)
  {
    forall pid :: pid in host.targets ==> WellFormed(host.targets[pid].query)
  }

  // ---------------------------------------------------------------- locating

  /** `find_process_by_name`: the pid of the first entry whose name equals
      `name` exactly, or the sentinel 0. */
  function FirstMatchPid(procs: seq<ProcessEntry>, name: string): nat
  {
    if procs == [] then 0
    else if procs[0].name == name then procs[0].pid
    else FirstMatchPid(procs[1..], name)
  }

  lemma {:induction false} FirstMatchPidFound(procs: seq<ProcessEntry>, name: string, i: nat)
    requires i < |procs| && procs[i].name == name
    requires forall j :: 0 <= j < i ==> procs[j].name != name
    ensures FirstMatchPid(procs, name) == procs[i].pid
  {
    if i > 0 {
      FirstMatchPidFound(procs[1..], name, i - 1);
    }
  }

  lemma {:induction false} FirstMatchPidAbsent(procs: seq<ProcessEntry>, name: string)
    requires forall j :: 0 <= j < |procs| ==> procs[j].name != name
    ensures FirstMatchPid(procs, name) == 0
  {
    if procs != [] {
      FirstMatchPidAbsent(procs[1..], name);
    }
  }

  // ---------------------------------------------------------------- scanning

  /** The regions actually scanned: the first `MAX_REGIONS` of them at most. */
  function Capped(regions: seq<Addr>): (r: seq<Addr>)
    ensures |r| <= MAX_REGIONS && |r| <= |regions| && r == regions[..|r|]
    ensures |r| == |regions| || |r| == MAX_REGIONS
  {
    if |regions| <= MAX_REGIONS then regions else regions[..MAX_REGIONS]
  }

  /** The matches of the given regions, concatenated in region order. */
  function Gather(space: AddressSpace, regions: seq<Addr>, value: Text, t: ValueType): seq<MemoryAddress>
  {
    if regions == [] then []
    else Gather(space, regions[..|regions| - 1], value, t) + RegionMatches(space, regions[|regions| - 1], value, t)
  }

  /** The region loop's invariant survives one region: its non-empty
      results are appended, empty ones change nothing. */
  lemma GatherStep(space: AddressSpace, regions: seq<Addr>, i: nat, value: Text, t: ValueType,
                   found: seq<MemoryAddress>, results: seq<MemoryAddress>)
    requires i < |regions|
    requires found == Gather(space, regions[..i], value, t)
    requires results == RegionMatches(space, regions[i], value, t)
    ensures found + results == Gather(space, regions[..i + 1], value, t)
    ensures results == [] ==> found == Gather(space, regions[..i + 1], value, t)
  {
    assert regions[..i + 1][..i] == regions[..i];
    if results == [] {
      assert found + [] == found;
    }
  }

  /** Every entry a scan gathers is tagged with the requested value and type. */
  lemma {:induction false} GatherTags(space: AddressSpace, regions: seq<Addr>, value: Text, t: ValueType)
    ensures forall e :: e in Gather(space, regions, value, t) ==> e.value == value && e.vtype == t
  {
    if regions != [] {
      GatherTags(space, regions[..|regions| - 1], value, t);
      RegionMatchesTags(space, regions[|regions| - 1], value, t);
    }
  }

  /** Gathering over a concatenation of region lists concatenates the results. */
  lemma {:induction false} GatherAppend(space: AddressSpace, rs: seq<Addr>, more: seq<Addr>, value: Text, t: ValueType)
    ensures Gather(space, rs + more, value, t) == Gather(space, rs, value, t) + Gather(space, more, value, t)
    decreases |more|
  {
    if more != [] {
      var init := more[..|more| - 1];
      assert (rs + more)[..|rs + more| - 1] == rs + init;
      GatherAppend(space, rs, init, value, t);
    } else {
      assert rs + more == rs;
    }
  }

  /** The matches of the regions a scan walks, cut off after `MAX_REGIONS` regions. */
  function ScanAll(space: AddressSpace, value: Text, t: ValueType): seq<MemoryAddress>
    requires WellFormed(space.query)
  {
    Gather(space, Capped(RegionsFrom(space.query, 0)), value, t)
  }

  /** The outcome of `scan_memory`. */
  function ScanOutcome(host: Host, processName: string, value: Text, t: ValueType): ScanResponse
    requires HostValid(host)
  {
    var pid := FirstMatchPid(host.processes, processName);
    if pid == 0 then ScanResponse([], 0, "Process not found: " + processName, false)
    else if pid !in host.targets then ScanResponse([], 0, "Failed to open process", false)
    else
      var found := ScanAll(host.targets[pid], value, t);
      ScanResponse(found, |found|, "Scan completed. Found " + Decimal(|found|) + " matches", true)
  }

  /** A failed scan reports nothing and says why; a successful one reports
      the matches of the (at most `MAX_REGIONS`) scanned regions of the first
      process with that exact name, with `count` their number. */
  lemma ScanOutcomeSpec(host: Host, processName: string, value: Text, t: ValueType)
    requires HostValid(host)
    ensures var r := ScanOutcome(host, processName, value, t);
            var pid := FirstMatchPid(host.processes, processName);
            (r.success <==> pid != 0 && pid in host.targets)
            && (!r.success ==> r.addresses == [] && r.count == 0 && r.message != "")
            && (r.success ==> r.count == |r.addresses|
                              && r.addresses == ScanAll(host.targets[pid], value, t)
                              && forall e :: e in r.addresses ==> e.value == value && e.vtype == t)
  {
    var pid := FirstMatchPid(host.processes, processName);
    if pid != 0 && pid in host.targets {
      var space := host.targets[pid];
      GatherTags(space, Capped(RegionsFrom(space.query, 0)), value, t);
    }
  }

  /** No process carries the requested name: the scan fails closed. */
  lemma UnknownProcessFails(host: Host, processName: string, value: Text, t: ValueType)
    requires HostValid(host)
    requires forall j :: 0 <= j < |host.processes| ==> host.processes[j].name != processName
    ensures var r := ScanOutcome(host, processName, value, t);
            !r.success && r.count == 0 && r.addresses == [] && r.message != ""
  {
    FirstMatchPidAbsent(host.processes, processName);
  }

  /** Regions past the first `MAX_REGIONS` do not reach the result: a walk
      that yields more regions still gives the matches of the first ones. */
  lemma RegionCap(space: AddressSpace, regions: seq<Addr>, more: seq<Addr>, value: Text, t: ValueType)
    requires |regions| == MAX_REGIONS
    ensures Gather(space, Capped(regions + more), value, t) == Gather(space, regions, value, t)
  {
    assert (regions + more)[..MAX_REGIONS] == regions;
  }

  // ---------------------------------------------------------------- listing

  /** The display strings of the first `n` stored addresses. */
  function Listed(store: seq<MemoryAddress>, n: nat): (r: seq<string>)
    requires n <= |store|
    ensures |r| == n
  {
    seq(n, i requires 0 <= i < n => Display(store[i].address))
  }

  function Min(a: nat, b: nat): nat
  {
    if a < b then a else b
  }

  /** The outcome of `get_addresses(maxCount)`. */
  function Listing(store: seq<MemoryAddress>, maxCount: nat): AddressesResponse
  {
    var count := Min(|store|, maxCount);
    AddressesResponse(Listed(store, count), count, "Retrieved " + Decimal(count) + " addresses", true)
  }

  /** A listing holds `min(|store|, maxCount)` strings, the `i`-th one naming
      the `i`-th stored address in a form that reads back to that address. */
  lemma ListingSpec(store: seq<MemoryAddress>, maxCount: nat)
    ensures var r := Listing(store, maxCount);
            r.success && r.count == |r.addresses|
            && r.count == (if |store| < maxCount then |store| else maxCount)
            && forall i :: 0 <= i < r.count ==>
                 r.addresses[i] == "0x" + HexDigits(store[i].address)
                 && ParseHex(r.addresses[i]) == store[i].address
  {
    var r := Listing(store, maxCount);
    forall i | 0 <= i < r.count
      ensures r.addresses[i] == "0x" + HexDigits(store[i].address)
      ensures ParseHex(r.addresses[i]) == store[i].address
    {
      ParseDisplay(store[i].address);
    }
  }

  /** An empty store lists nothing, whatever the limit. */
  lemma ListingEmpty(maxCount: nat)
    ensures Listing([], maxCount).count == 0 && Listing([], maxCount).addresses == []
    ensures Listing([], maxCount).success
  {
  }

  // ---------------------------------------------------------------- filtering

  /** The first stored entry whose address equals `a`. */
  function FirstWithAddress(store: seq<MemoryAddress>, a: Addr): (r: Option<MemoryAddress>)
    ensures r.None? <==> forall k :: 0 <= k < |store| ==> store[k].address != a
    ensures r.Some? ==> exists k :: 0 <= k < |store| && store[k] == r.value
                                    && forall j :: 0 <= j < k ==> store[j].address != a
    ensures r.Some? ==> r.value.address == a
  {
    if store == [] then None
    else if store[0].address == a then Some(store[0])
    else
      var r := FirstWithAddress(store[1..], a);
      assert r.Some? ==> exists k :: 0 < k < |store| && store[k] == r.value
                                     && forall j :: 0 <= j < k ==> store[j].address != a by {
        if r.Some? {
          var k :| 0 <= k < |store[1..]| && store[1..][k] == r.value
                   && forall j :: 0 <= j < k ==> store[1..][j].address != a;
          assert store[k + 1] == r.value;
          forall j | 0 <= j < k + 1 ensures store[j].address != a {
            if j > 0 { assert store[j] == store[1..][j - 1]; }
          }
        }
      }
      assert r.None? ==> forall k :: 0 <= k < |store| ==> store[k].address != a by {
        if r.None? {
          forall k | 0 <= k < |store| ensures store[k].address != a {
            if k > 0 { assert store[k] == store[1..][k - 1]; }
          }
        }
      }
      r
  }

  /** Some stored entry sits at address `a`. */
  predicate Stored(store: seq<MemoryAddress>, a: Addr)
  {
    exists k :: 0 <= k < |store| && store[k].address == a
  }

  /** What one input string contributes: the relabelled copy of the first
      stored entry at the parsed address, or nothing. */
  function Pick(store: seq<MemoryAddress>, text: string, newValue: Text, t: ValueType): seq<MemoryAddress>
  {
    match FirstWithAddress(store, ParseHex(text))
    case None => []
    case Some(e) => [e.(value := newValue, vtype := t)]
  }

  /** The entries `filter_addresses` returns, in input order. */
  function Filtered(store: seq<MemoryAddress>, inputs: seq<string>, newValue: Text, t: ValueType): seq<MemoryAddress>
  {
    if inputs == [] then []
    else Filtered(store, inputs[..|inputs| - 1], newValue, t) + Pick(store, inputs[|inputs| - 1], newValue, t)
  }

  lemma FilteredStep(store: seq<MemoryAddress>, inputs: seq<string>, i: nat, newValue: Text, t: ValueType)
    requires i < |inputs|
    ensures Filtered(store, inputs[..i + 1], newValue, t)
         == Filtered(store, inputs[..i], newValue, t) + Pick(store, inputs[i], newValue, t)
  {
    assert inputs[..i + 1][..i] == inputs[..i];
  }

  /** The outcome of `filter_addresses`. */
  function FilterOutcome(store: seq<MemoryAddress>, inputs: seq<string>, newValue: Text, t: ValueType): ScanResponse
  {
    var f := Filtered(store, inputs, newValue, t);
    ScanResponse(f, |f|, "Filtering completed. Found " + Decimal(|f|) + " addresses", true)
  }

  /** Every filtered entry is a stored entry relabelled with the new value and
      type; there are never more of them than inputs, and none at all from an
      empty store. */
  lemma {:induction false} FilteredSound(store: seq<MemoryAddress>, inputs: seq<string>, newValue: Text, t: ValueType)
    ensures |Filtered(store, inputs, newValue, t)| <= |inputs|
    ensures store == [] ==> Filtered(store, inputs, newValue, t) == []
    ensures forall e :: e in Filtered(store, inputs, newValue, t) ==>
              e.value == newValue && e.vtype == t
              && exists s :: s in store && e == s.(value := newValue, vtype := t)
  {
    if inputs != [] {
      FilteredSound(store, inputs[..|inputs| - 1], newValue, t);
      var r := FirstWithAddress(store, ParseHex(inputs[|inputs| - 1]));
      if r.Some? {
        var k :| 0 <= k < |store| && store[k] == r.value && forall j :: 0 <= j < k ==> store[j].address != r.value.address;
        assert store[k] in store;
      }
    }
  }

  /** Every input whose parsed address is stored shows up in the output, at
      that address; inputs without a stored address are the ones dropped. */
  lemma {:induction false} FilteredComplete(store: seq<MemoryAddress>, inputs: seq<string>, newValue: Text, t: ValueType)
    ensures forall i :: 0 <= i < |inputs| ==>
              (Stored(store, ParseHex(inputs[i]))
               <==> (exists e :: e in Filtered(store, inputs, newValue, t) && e.address == ParseHex(inputs[i])))
  {
    if inputs != [] {
      var init := inputs[..|inputs| - 1];
      var last := inputs[|inputs| - 1];
      FilteredComplete(store, init, newValue, t);
      FilteredSound(store, inputs, newValue, t);
      var f := Filtered(store, inputs, newValue, t);
      assert f == Filtered(store, init, newValue, t) + Pick(store, last, newValue, t);
      forall i | 0 <= i < |inputs|
        ensures Stored(store, ParseHex(inputs[i]))
                ==> (exists e :: e in f && e.address == ParseHex(inputs[i]))
      {
        if Stored(store, ParseHex(inputs[i])) {
          if i < |inputs| - 1 {
            assert inputs[i] == init[i];
            var e :| e in Filtered(store, init, newValue, t) && e.address == ParseHex(init[i]);
            assert e in f;
          } else {
            var r := FirstWithAddress(store, ParseHex(last));
            assert r.Some?;
            assert r.value.(value := newValue, vtype := t) in f;
          }
        }
      }
      forall i | 0 <= i < |inputs|
        ensures (exists e :: e in f && e.address == ParseHex(inputs[i]))
                ==> Stored(store, ParseHex(inputs[i]))
      {
        if exists e :: e in f && e.address == ParseHex(inputs[i]) {
          var e :| e in f && e.address == ParseHex(inputs[i]);
          var s :| s in store && e == s.(value := newValue, vtype := t);
          var k :| 0 <= k < |store| && store[k] == s;
          assert store[k].address == ParseHex(inputs[i]);
        }
      }
    }
  }

  /** When every input's parsed address is stored, the output has one entry
      per input, at that input's address. */
  lemma {:induction false} FilteredAllPresent(store: seq<MemoryAddress>, inputs: seq<string>, newValue: Text, t: ValueType)
    requires forall i :: 0 <= i < |inputs| ==> Stored(store, ParseHex(inputs[i]))
    ensures |Filtered(store, inputs, newValue, t)| == |inputs|
    ensures forall i :: 0 <= i < |inputs| ==> Filtered(store, inputs, newValue, t)[i].address == ParseHex(inputs[i])
  {
    if inputs != [] {
      var init := inputs[..|inputs| - 1];
      forall i | 0 <= i < |init|
        ensures Stored(store, ParseHex(init[i]))
      {
        assert init[i] == inputs[i];
      }
      FilteredAllPresent(store, init, newValue, t);
      var last := inputs[|inputs| - 1];
      var r := FirstWithAddress(store, ParseHex(last));
      assert Stored(store, ParseHex(last));
      assert r.Some?;
      var f0 := Filtered(store, init, newValue, t);
      var f := Filtered(store, inputs, newValue, t);
      assert f == f0 + [r.value.(value := newValue, vtype := t)];
      forall i | 0 <= i < |inputs| ensures f[i].address == ParseHex(inputs[i]) {
        if i < |init| {
          assert f[i] == f0[i] && inputs[i] == init[i];
        }
      }
    }
  }

  /** Filtering with a listing's own strings selects exactly the listed
      prefix of the store: the display form reads back to every address. */
  lemma FilterListedPrefix(store: seq<MemoryAddress>, maxCount: nat, newValue: Text, t: ValueType)
    ensures var listed := Listing(store, maxCount).addresses;
            var f := Filtered(store, listed, newValue, t);
            |f| == |listed|
            && forall i :: 0 <= i < |f| ==> f[i].address == store[i].address && f[i].value == newValue && f[i].vtype == t
  {
    var count := Min(|store|, maxCount);
    var listed := Listed(store, count);
    assert Listing(store, maxCount).addresses == listed;
    forall i | 0 <= i < |listed|
      ensures ParseHex(listed[i]) == store[i].address
      ensures Stored(store, ParseHex(listed[i]))
    {
      ParseDisplay(store[i].address);
    }
    FilteredAllPresent(store, listed, newValue, t);
    FilteredSound(store, listed, newValue, t);
    var f := Filtered(store, listed, newValue, t);
    forall i | 0 <= i < |f|
      ensures f[i].address == store[i].address && f[i].value == newValue && f[i].vtype == t
    {
      assert f[i] in f;
    }
  }

  // ---------------------------------------------------------------- the scanner

  class MemoryScanner {
    /** `found_addresses_`: the matches of the latest successful scan. */
    var foundAddresses: seq<MemoryAddress>

    constructor ()
      ensures foundAddresses == []
    {
      foundAddresses := [];
    }

    /** `scan_memory`: locate, open, walk, read and match; on success the
        store is replaced by exactly the reported matches, on failure it is
        left as it was. */
    method ScanMemory(host: Host, processName: string, value: Text, t: ValueType) returns (response: ScanResponse)
      requires HostValid(host)
      modifies this
      ensures response == ScanOutcome(host, processName, value, t)
      ensures response.success ==> foundAddresses == response.addresses
      ensures !response.success ==> foundAddresses == old(foundAddresses)
    {
      var processId := FindProcessByName(host.processes, processName);
      if processId == 0 {
        response := ScanResponse([], 0, "Process not found: " + processName, false);
        return;
      }
      if processId !in host.targets {
        response := ScanResponse([], 0, "Failed to open process", false);
        return;
      }
      var space := host.targets[processId];
      var memoryRegions := GetMemoryRegions(space.query);
      var allFound := ScanRegions(space, memoryRegions, value, t);
      foundAddresses := allFound;
      response := ScanResponse(allFound, |allFound|, "Scan completed. Found " + Decimal(|allFound|) + " matches", true);
    }

    /** The region loop of `scan_memory`: regions in order, stopping once
        `MAX_REGIONS` have been scanned, their matches appended. */
    method ScanRegions(space: AddressSpace, memoryRegions: seq<Addr>, value: Text, t: ValueType)
      returns (allFound: seq<MemoryAddress>)
      ensures allFound == Gather(space, Capped(memoryRegions), value, t)
    {
      allFound := [];
      var scannedRegions := 0;
      var i := 0;
      while i < |memoryRegions|
        invariant 0 <= i <= |memoryRegions| && i <= MAX_REGIONS
        invariant scannedRegions == i
        invariant allFound == Gather(space, memoryRegions[..i], value, t)
      {
        if scannedRegions >= MAX_REGIONS {
          break;
        }
        allFound := AppendRegion(space, memoryRegions, i, value, t, allFound);
        scannedRegions := scannedRegions + 1;
        i := i + 1;
      }
      assert memoryRegions[..i] == Capped(memoryRegions);
    }

    /** One iteration of the region loop: scan region `i` and append its
        results when there are any. */
    method AppendRegion(space: AddressSpace, memoryRegions: seq<Addr>, i: nat, value: Text, t: ValueType,
                        allFound: seq<MemoryAddress>) returns (extended: seq<MemoryAddress>)
      requires i < |memoryRegions|
      requires allFound == Gather(space, memoryRegions[..i], value, t)
      ensures extended == Gather(space, memoryRegions[..i + 1], value, t)
    {
      var regionResults := ScanMemoryRegion(space, memoryRegions[i], value, t);
      GatherStep(space, memoryRegions, i, value, t, allFound, regionResults);
      extended := allFound;
      if regionResults != [] {
        extended := allFound + regionResults;
      }
    }

    /** `get_addresses`: the first `min(|store|, maxCount)` stored addresses in
        display form; reads the store only. */
    method GetAddresses(maxCount: nat) returns (response: AddressesResponse)
      ensures response == Listing(foundAddresses, maxCount)
    {
      var count := Min(|foundAddresses|, maxCount);
      var addresses: seq<string> := [];
      for i := 0 to count
        invariant addresses == Listed(foundAddresses, i)
      {
        addresses := addresses + ["0x" + HexDigits(foundAddresses[i].address)];
      }
      response := AddressesResponse(addresses, count, "Retrieved " + Decimal(count) + " addresses", true);
    }

    /** `filter_addresses`: by input, the first stored entry at the parsed
        address, relabelled; the store itself is only read. */
    method FilterAddresses(addresses: seq<string>, newValue: Text, t: ValueType) returns (response: ScanResponse)
      ensures response == FilterOutcome(foundAddresses, addresses, newValue, t)
    {
      var filtered: seq<MemoryAddress> := [];
      for i := 0 to |addresses|
        invariant filtered == Filtered(foundAddresses, addresses[..i], newValue, t)
      {
        var address := ParseHex(addresses[i]);
        var entry := FindFirst(address);
        FilteredStep(foundAddresses, addresses, i, newValue, t);
        if entry.Some? {
          filtered := filtered + [entry.value.(value := newValue, vtype := t)];
        }
      }
      assert addresses[..|addresses|] == addresses;
      response := ScanResponse(filtered, |filtered|, "Filtering completed. Found " + Decimal(|filtered|) + " addresses", true);
    }

    /** The inner loop of `filter_addresses`: the first stored entry at `address`. */
    method FindFirst(address: Addr) returns (entry: Option<MemoryAddress>)
      ensures entry == FirstWithAddress(foundAddresses, address)
    {
      var store := foundAddresses;
      for j := 0 to |store|
        invariant FirstWithAddress(store, address) == FirstWithAddress(store[j..], address)
      {
        var found := store[j];
        if found.address == address {
          return Some(found);
        }
        assert store[j..][1..] == store[j + 1..];
      }
      return None;
    }

    /** `reset`: the store becomes empty; it always succeeds. */
    method Reset() returns (response: ResetResponse)
      modifies this
      ensures foundAddresses == []
      ensures response.success && response.message == "Scanner reset"
    {
      foundAddresses := [];
      response := ResetResponse("Scanner reset", true);
    }

    /** `find_process_by_name` over the snapshot. */
    method FindProcessByName(processes: seq<ProcessEntry>, processName: string) returns (processId: nat)
      ensures processId == FirstMatchPid(processes, processName)
    {
      var i := 0;
      while i < |processes|
        invariant 0 <= i <= |processes|
        invariant FirstMatchPid(processes, processName) == FirstMatchPid(processes[i..], processName)
      {
        if processes[i].name == processName {
          return processes[i].pid;
        }
        assert processes[i..][1..] == processes[i + 1..];
        i := i + 1;
      }
      return 0;
    }

    /** `get_memory_regions`: the walk from address 0. */
    method GetMemoryRegions(query: map<Addr, Descriptor>) returns (regions: seq<Addr>)
      requires WellFormed(query)
      ensures regions == RegionsFrom(query, 0)
    {
      regions := [];
      var address: Addr := 0;
      while address in query
        invariant regions + RegionsFrom(query, address) == RegionsFrom(query, 0)
        decreases ADDR_LIMIT - address
      {
        var mbi := query[address];
        ghost var found := regions;
        if Scannable(mbi) {
          regions := regions + [mbi.base];
        }
        WalkStep(query, address, found, regions, RegionsFrom(query, 0));
        var next := NextQuery(mbi);
        if next == 0 {
          break;
        }
        address := next;
      }
    }

    /** `scan_memory_region`: re-query, cap, read, then the string passes
        (narrow, then wide) or the raw byte pass. */
    method ScanMemoryRegion(space: AddressSpace, regionAddress: Addr, value: Text, t: ValueType)
      returns (found: seq<MemoryAddress>)
      ensures found == RegionMatches(space, regionAddress, value, t)
    {
      found := [];
      if regionAddress !in space.query {
        return;
      }
      var mbi := space.query[regionAddress];
      if mbi.state != MEM_COMMIT {
        return;
      }
      var regionSize := mbi.size;
      if regionSize > MAX_REGION_SIZE {
        regionSize := MAX_REGION_SIZE;
      }
      if regionAddress !in space.contents {
        return;
      }
      var available := space.contents[regionAddress];
      var buffer := if |available| <= regionSize then available else available[..regionSize];
      assert ReadRegion(space, regionAddress) == Some(buffer);

      if t == String {
        found := ScanPass(buffer, value, regionAddress, value, t);
        var wideTarget := WidenValue(value);
        var wideHits := ScanPass(buffer, wideTarget, regionAddress, value, t);
        found := found + wideHits;
      } else {
        found := RawPass(buffer, regionAddress, value, t);
      }
    }

    /** The `wchar_t` copy of the value, built one character at a time. */
    method WidenValue(value: Text) returns (wideTarget: seq<byte>)
      ensures wideTarget == Widen(value)
    {
      wideTarget := [];
      for k := 0 to |value|
        invariant wideTarget == Widen(value[..k])
      {
        assert value[..k + 1][..k] == value[..k];
        wideTarget := wideTarget + [value[k], HighByte(value[k])];
      }
      assert value[..|value|] == value;
    }

    /** One `memcmp` pass of the string branch: every start offset of
        `pattern` in `buffer`, recorded as `base + offset` and tagged with
        the requested value; no offsets when the buffer is too short. */
    method ScanPass(buffer: seq<byte>, pattern: seq<byte>, base: Addr, value: Text, t: ValueType)
      returns (hits: seq<MemoryAddress>)
      ensures hits == Tagged(base, Occurrences(buffer, pattern), value, t)
    {
      hits := [];
      if |buffer| >= |pattern| {
        for i := 0 to |buffer| - |pattern| + 1
          invariant hits == Tagged(base, OffsetsBelow(buffer, pattern, i), value, t)
        {
          TaggedStep(buffer, pattern, base, i, value, t);
          if buffer[i..i + |pattern|] == pattern {
            hits := hits + [MemoryAddress(AddrAt(base, i), value, t)];
          }
        }
      }
    }

    /** The inner loop of the non-string branch: the value's bytes compared
        one by one with the buffer from offset `i`, stopping at the first
        difference. */
    method CompareAt(buffer: seq<byte>, value: Text, i: nat) returns (matched: bool)
      requires i + |value| <= |buffer|
      ensures matched <==> MatchesAt(buffer, value, i)
    {
      matched := true;
      var j := 0;
      while j < |value|
        invariant 0 <= j <= |value|
        invariant buffer[i..i + j] == value[..j]
      {
        if buffer[i + j] != value[j] {
          matched := false;
          assert buffer[i..i + |value|][j] != value[j];
          return;
        }
        assert buffer[i..i + j + 1] == buffer[i..i + j] + [buffer[i + j]];
        assert value[..j + 1] == value[..j] + [value[j]];
        j := j + 1;
      }
      assert value[..j] == value;
    }

    /** The non-string branch of `scan_memory_region`: every start offset
        at which the value's raw bytes occur, no offsets when the buffer is
        too short. */
    method RawPass(buffer: seq<byte>, base: Addr, value: Text, t: ValueType) returns (hits: seq<MemoryAddress>)
      ensures hits == Tagged(base, Occurrences(buffer, value), value, t)
    {
      hits := [];
      if |buffer| >= |value| {
        for i := 0 to |buffer| - |value| + 1
          invariant hits == Tagged(base, OffsetsBelow(buffer, value, i), value, t)
        {
          var matched := CompareAt(buffer, value, i);
          TaggedStep(buffer, value, base, i, value, t);
          if matched {
            hits := hits + [MemoryAddress(AddrAt(base, i), value, t)];
          }
        }
      }
    }
  }

  /** After a reset the listing is empty for every limit, and a second reset
      succeeds as the first did. */
  method ResetThenList(scanner: MemoryScanner, maxCount: nat) returns (first: ResetResponse, second: ResetResponse, listed: AddressesResponse)
    modifies scanner
    ensures first.success && second.success
    ensures listed.success && listed.count == 0 && listed.addresses == []
    ensures scanner.foundAddresses == []
  {
    first := scanner.Reset();
    second := scanner.Reset();
    listed := scanner.GetAddresses(maxCount);
  }
}
