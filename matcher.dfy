/** The pattern matcher of `scan_memory_region`: exhaustive byte-wise search
    of a read buffer for the byte forms of a search value. */
module Matcher {
  import opened Types
  import opened Sequences

  /** `pat` occurs in `buf` starting at offset `i` (an empty pattern occurs at
      every offset up to and including `|buf|`, as `memcmp` of length 0 does). */
  predicate MatchesAt(buf: seq<byte>, pat: seq<byte>, i: nat)
  {
    i + |pat| <= |buf| && buf[i..i + |pat|] == pat
  }

  /** Offsets below `n` at which `pat` occurs, in ascending order. */
  function OffsetsBelow(buf: seq<byte>, pat: seq<byte>, n: nat): seq<nat>
  {
    if n == 0 then []
    else OffsetsBelow(buf, pat, n - 1) + (if MatchesAt(buf, pat, n - 1) then [n - 1] else [])
  }

  /** Every start offset `0 ..= |buf| - |pat|` is tried, and none at all when the
      buffer is shorter than the pattern (the guard the wide pass has). */
  function Occurrences(buf: seq<byte>, pat: seq<byte>): seq<nat>
  {
    if |buf| < |pat| then [] else OffsetsBelow(buf, pat, |buf| - |pat| + 1)
  }

  predicate StrictlyIncreasing(s: seq<nat>)
  {
    forall i, j :: 0 <= i < j < |s| ==> s[i] < s[j]
  }

  lemma {:induction false} OffsetsBelowMembers(buf: seq<byte>, pat: seq<byte>, n: nat)
    ensures forall i: nat :: i in OffsetsBelow(buf, pat, n) <==> i < n && MatchesAt(buf, pat, i)
  {
    if n > 0 {
      OffsetsBelowMembers(buf, pat, n - 1);
    }
  }

  lemma {:induction false} OffsetsBelowIncreasing(buf: seq<byte>, pat: seq<byte>, n: nat)
    ensures StrictlyIncreasing(OffsetsBelow(buf, pat, n))
  {
    if n > 0 {
      OffsetsBelowIncreasing(buf, pat, n - 1);
      OffsetsBelowMembers(buf, pat, n - 1);
      var prev := OffsetsBelow(buf, pat, n - 1);
      assert forall k :: 0 <= k < |prev| ==> prev[k] in prev;
    }
  }

  /** The search reports exactly the offsets at which the pattern occurs, each
      once, in ascending order. */
  lemma OccurrencesSpec(buf: seq<byte>, pat: seq<byte>)
    ensures forall i: nat :: i in Occurrences(buf, pat) <==> MatchesAt(buf, pat, i)
    ensures forall i :: i in Occurrences(buf, pat) ==> i + |pat| <= |buf|
    ensures StrictlyIncreasing(Occurrences(buf, pat))
  {
    if |buf| >= |pat| {
      var n := |buf| - |pat| + 1;
      assert Occurrences(buf, pat) == OffsetsBelow(buf, pat, n);
      OffsetsBelowMembers(buf, pat, n);
      OffsetsBelowIncreasing(buf, pat, n);
    } else {
      assert Occurrences(buf, pat) == [];
    }
  }

  /** A buffer shorter than the pattern yields nothing for that pattern. */
  lemma ShortBufferNoOccurrences(buf: seq<byte>, pat: seq<byte>)
    requires |buf| < |pat|
    ensures Occurrences(buf, pat) == []
  {
  }

  /** The value of byte `c` read as a signed `char` (two's complement). */
  function SignedChar(c: byte): (v: int)
    ensures -0x80 <= v < 0x80
    ensures v % 0x100 == c as int
  {
    if c >= 0x80 then c as int - 0x100 else c as int
  }

  /** The high byte of `static_cast<wchar_t>(c)` for a signed `char` c: the
      pair `c, h` is the 16-bit little-endian encoding of the signed value
      taken modulo 2^16, i.e. the `char` sign-extended to `wchar_t`. */
  function HighByte(c: byte): (h: byte)
    ensures c as int + 0x100 * h as int == (SignedChar(c) + 0x10000) % 0x10000
  {
    if c >= 0x80 then 0xFF else 0x00
  }

  /** The value as a little-endian 16-bit `wchar_t` string, one byte pair per char. */
  function Widen(value: Text): (w: seq<byte>)
    ensures |w| == 2 * |value|
    ensures forall k :: 0 <= k < |value| ==> w[2 * k] == value[k] && w[2 * k + 1] == HighByte(value[k])
  {
    if value == [] then []
    else
      var c := value[|value| - 1];
      Widen(value[..|value| - 1]) + [c, HighByte(c)]
  }

  /** On ASCII values the wide form is each byte followed by a zero byte. */
  lemma WidenAscii(value: Text, k: nat)
    requires k < |value| && value[k] < 0x80
    ensures Widen(value)[2 * k] == value[k] && Widen(value)[2 * k + 1] == 0
  {
  }

  /** Record one entry per offset: the absolute address `base + offset`,
      tagged with the value and type that were asked for. */
  function Tagged(base: Addr, offsets: seq<nat>, value: Text, t: ValueType): (r: seq<MemoryAddress>)
    ensures |r| == |offsets|
    ensures forall k :: 0 <= k < |offsets| ==> r[k] == MemoryAddress(AddrAt(base, offsets[k]), value, t)
  {
    if offsets == [] then []
    else Tagged(base, offsets[..|offsets| - 1], value, t) + [MemoryAddress(AddrAt(base, offsets[|offsets| - 1]), value, t)]
  }

  /** Trying one more start offset appends at most one entry. */
  lemma TaggedStep(buf: seq<byte>, pat: seq<byte>, base: Addr, i: nat, value: Text, t: ValueType)
    ensures Tagged(base, OffsetsBelow(buf, pat, i + 1), value, t)
         == Tagged(base, OffsetsBelow(buf, pat, i), value, t)
            + (if MatchesAt(buf, pat, i) then [MemoryAddress(AddrAt(base, i), value, t)] else [])
  {
    var prev := OffsetsBelow(buf, pat, i);
    if MatchesAt(buf, pat, i) {
      var offs := prev + [i];
      assert offs[..|offs| - 1] == prev;
    } else {
      assert prev + [] == prev;
    }
  }

  /** What one region's buffer contributes: for `String`, all narrow hits in
      ascending order and then all wide hits in ascending order, with no
      de-duplication; for any other type, the hits of the raw value bytes. */
  function MatchBuffer(buf: seq<byte>, base: Addr, value: Text, t: ValueType): seq<MemoryAddress>
  {
    if t == String then
      Tagged(base, Occurrences(buf, value), value, t) + Tagged(base, Occurrences(buf, Widen(value)), value, t)
    else
      Tagged(base, Occurrences(buf, value), value, t)
  }

  /** Every entry carries the requested value and type. */
  lemma MatchBufferTags(buf: seq<byte>, base: Addr, value: Text, t: ValueType)
    ensures forall e :: e in MatchBuffer(buf, base, value, t) ==> e.value == value && e.vtype == t
  {
    TaggedTags(base, Occurrences(buf, value), value, t);
    TaggedTags(base, Occurrences(buf, Widen(value)), value, t);
  }

  lemma TaggedTags(base: Addr, offsets: seq<nat>, value: Text, t: ValueType)
    ensures forall e :: e in Tagged(base, offsets, value, t) ==> e.value == value && e.vtype == t
  {
    var r := Tagged(base, offsets, value, t);
    forall e | e in r ensures e.value == value && e.vtype == t {
      var k :| 0 <= k < |r| && r[k] == e;
    }
  }

  /** For a non-string type, entry `k` is `base + offset` for the `k`-th
      occurrence of the raw value bytes. */
  lemma MatchBufferRaw(buf: seq<byte>, base: Addr, value: Text, t: ValueType)
    requires t != String
    ensures |MatchBuffer(buf, base, value, t)| == |Occurrences(buf, value)|
    ensures forall k :: 0 <= k < |Occurrences(buf, value)| ==>
              MatchBuffer(buf, base, value, t)[k].address == AddrAt(base, Occurrences(buf, value)[k])
              && MatchesAt(buf, value, Occurrences(buf, value)[k])
  {
    OccurrenceAt(buf, value);
  }

  /** Each reported offset, read by position, is a match. */
  lemma OccurrenceAt(buf: seq<byte>, pat: seq<byte>)
    ensures forall k :: 0 <= k < |Occurrences(buf, pat)| ==> MatchesAt(buf, pat, Occurrences(buf, pat)[k])
  {
    OccurrencesSpec(buf, pat);
    var occ := Occurrences(buf, pat);
    forall k | 0 <= k < |occ| ensures MatchesAt(buf, pat, occ[k]) {
      assert occ[k] in occ;
    }
  }

  /** Two tagged runs side by side: the second run's entries follow the first's. */
  lemma TaggedConcat(base: Addr, first: seq<nat>, second: seq<nat>, value: Text, t: ValueType)
    ensures |Tagged(base, first, value, t) + Tagged(base, second, value, t)| == |first| + |second|
    ensures forall k :: 0 <= k < |first| ==>
              (Tagged(base, first, value, t) + Tagged(base, second, value, t))[k].address == AddrAt(base, first[k])
    ensures forall k :: 0 <= k < |second| ==>
              (Tagged(base, first, value, t) + Tagged(base, second, value, t))[|first| + k].address == AddrAt(base, second[k])
  {
    var ft: seq<MemoryAddress> := Tagged(base, first, value, t);
    var st: seq<MemoryAddress> := Tagged(base, second, value, t);
    var r := ft + st;
    assert |r| == |first| + |second|;
    forall k | 0 <= k < |first| ensures r[k].address == AddrAt(base, first[k]) {
      assert r[k] == ft[k];
    }
    forall k | 0 <= k < |second| ensures r[|first| + k].address == AddrAt(base, second[k]) {
      AppendIndex(ft, st, k);
    }
  }

  /** For `String`, the first entries are the narrow occurrences and the rest
      the wide ones, each recorded at `base + offset`. */
  lemma MatchBufferString(buf: seq<byte>, base: Addr, value: Text)
    ensures |MatchBuffer(buf, base, value, String)| == |Occurrences(buf, value)| + |Occurrences(buf, Widen(value))|
    ensures forall k :: 0 <= k < |Occurrences(buf, value)| ==>
              MatchBuffer(buf, base, value, String)[k].address == AddrAt(base, Occurrences(buf, value)[k])
              && MatchesAt(buf, value, Occurrences(buf, value)[k])
    ensures forall k :: 0 <= k < |Occurrences(buf, Widen(value))| ==>
              MatchBuffer(buf, base, value, String)[|Occurrences(buf, value)| + k].address
                == AddrAt(base, Occurrences(buf, Widen(value))[k])
              && MatchesAt(buf, Widen(value), Occurrences(buf, Widen(value))[k])
  {
    var w := Widen(value);
    OccurrenceAt(buf, value);
    OccurrenceAt(buf, w);
    TaggedConcat(base, Occurrences(buf, value), Occurrences(buf, w), value, String);
  }

  /** The wide pass contributes nothing when the buffer holds fewer than
      `2 * |value|` bytes. */
  lemma WideGuard(buf: seq<byte>, base: Addr, value: Text)
    requires |buf| < 2 * |value|
    ensures MatchBuffer(buf, base, value, String) == Tagged(base, Occurrences(buf, value), value, String)
  {
    assert Occurrences(buf, Widen(value)) == [];
  }

  /** The loop bound of the narrow and numeric passes as the source computes
      it: `bytes_read - value.length()` on `size_t`, with no guard. */
  function UncheckedLastOffset(bytesRead: nat, len: nat): nat
    requires bytesRead < ADDR_LIMIT && len < ADDR_LIMIT
  {
    (bytesRead - len) % ADDR_LIMIT
  }

  /** When the buffer is shorter than the value the unchecked bound wraps
      around to at least `2^64 - len`: the loop visits offsets far beyond the
      bytes read (with 1 byte read and a 4-byte value, up to `2^64 - 3`), and
      already the comparison at offset 0 reads past them. */
  lemma UncheckedBoundOverruns(bytesRead: nat, len: nat)
    requires len < ADDR_LIMIT && bytesRead < len
    ensures UncheckedLastOffset(bytesRead, len) >= bytesRead
    ensures UncheckedLastOffset(bytesRead, len) >= ADDR_LIMIT - len
  {
    assert UncheckedLastOffset(bytesRead, len) == ADDR_LIMIT + bytesRead - len;
  }

  /** "AB" occurs narrow only at offset 0 of `41 42 41 00 42 00`. */
  lemma NarrowExample()
    ensures Occurrences([0x41, 0x42, 0x41, 0x00, 0x42, 0x00], [0x41, 0x42]) == [0]
  {
    var buf: seq<byte> := [0x41, 0x42, 0x41, 0x00, 0x42, 0x00];
    var v: seq<byte> := [0x41, 0x42];
    assert MatchesAt(buf, v, 0);
    assert buf[1..3][0] != v[0] && buf[2..4][1] != v[1] && buf[3..5][0] != v[0] && buf[4..6][0] != v[0];
    assert OffsetsBelow(buf, v, 1) == [0];
    assert OffsetsBelow(buf, v, 2) == [0];
    assert OffsetsBelow(buf, v, 3) == [0];
    assert OffsetsBelow(buf, v, 4) == [0];
  }

  /** The wide form of "AB" is `41 00 42 00`, which occurs only at offset 2. */
  lemma WideExample()
    ensures Widen([0x41, 0x42]) == [0x41, 0x00, 0x42, 0x00]
    ensures Occurrences([0x41, 0x42, 0x41, 0x00, 0x42, 0x00], [0x41, 0x00, 0x42, 0x00]) == [2]
  {
    var buf: seq<byte> := [0x41, 0x42, 0x41, 0x00, 0x42, 0x00];
    var w: seq<byte> := [0x41, 0x00, 0x42, 0x00];
    assert buf[0..4][1] != w[1] && buf[1..5][0] != w[0];
    assert MatchesAt(buf, w, 2);
    assert OffsetsBelow(buf, w, 1) == [];
    assert OffsetsBelow(buf, w, 2) == [];
  }

  /** A concrete instance: "AB" narrow at offset 0 and wide at offset 2 of
      the buffer `41 42 41 00 42 00` gives the two entries, narrow first. */
  lemma DualWidthExample(base: Addr)
    requires base < ADDR_LIMIT - 16
    ensures MatchBuffer([0x41, 0x42, 0x41, 0x00, 0x42, 0x00], base, [0x41, 0x42], String)
         == [MemoryAddress(base, [0x41, 0x42], String), MemoryAddress(base + 2, [0x41, 0x42], String)]
  {
    NarrowExample();
    WideExample();
    var v: Text := [0x41, 0x42];
    var nt: seq<MemoryAddress> := Tagged(base, [0], v, String);
    var wt: seq<MemoryAddress> := Tagged(base, [2], v, String);
    assert nt == [MemoryAddress(base, v, String)];
    assert wt == [MemoryAddress(base + 2, v, String)];
  }

  /** The two halves of the example below. */
  lemma SameOffsetOccurrences()
    ensures Occurrences([0x41, 0x00, 0x00, 0x00], [0x41, 0x00]) == [0]
    ensures Occurrences([0x41, 0x00, 0x00, 0x00], [0x41, 0x00, 0x00, 0x00]) == [0]
  {
    var buf: seq<byte> := [0x41, 0x00, 0x00, 0x00];
    var v: seq<byte> := [0x41, 0x00];
    assert MatchesAt(buf, v, 0) && buf[1..3][0] != v[0] && buf[2..4][0] != v[0];
    assert OffsetsBelow(buf, v, 1) == [0];
    assert OffsetsBelow(buf, v, 2) == [0];
    assert MatchesAt(buf, buf, 0);
  }

  /** Nothing is de-duplicated: the value `41 00` occurs narrow and, as
      `41 00 00 00`, wide at the same offset 0, and both entries are kept. */
  lemma SameOffsetTwice(base: Addr)
    ensures MatchBuffer([0x41, 0x00, 0x00, 0x00], base, [0x41, 0x00], String)
         == [MemoryAddress(base, [0x41, 0x00], String), MemoryAddress(base, [0x41, 0x00], String)]
  {
    SameOffsetOccurrences();
    assert Widen([0x41, 0x00]) == [0x41, 0x00, 0x00, 0x00];
    var v: Text := [0x41, 0x00];
    var e: seq<MemoryAddress> := Tagged(base, [0], v, String);
    assert e == [MemoryAddress(base, v, String)];
  }
}
