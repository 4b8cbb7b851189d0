/** The parameter counts that the raid and mirror target lines announce, and the
    words that follow them (_raid_emit_segment_line, _mirror_emit_segment_line). */
module SegmentCounts {
  import opened BitCount
  import opened Decimal
  import opened Wrappers

  // ---- counting the bits of a 64-bit word ----

  const TWO64: nat := 0x1_0000_0000_0000_0000

  lemma {:induction false} CountNext(x: nat, n: nat)
    ensures Count(x, n + 1) == Count(x, n) + if Bit(x, n) then 1 else 0
    decreases n
  {
    if n > 0 {
      CountNext(x / 2, n - 1);
    }
  }

  /** The bits from n on add to the count exactly when one of them is set. */
  lemma {:induction false} CountGrows(x: nat, n: nat, m: nat)
    requires n <= m
    ensures Count(x, n) <= Count(x, m)
    ensures Count(x, n) == Count(x, m) <==> NoneFrom(x, n, m)
    decreases m - n
  {
    if n < m {
      CountGrows(x, n, m - 1);
      CountNext(x, m - 1);
    }
  }

  /** No bit from n up to m is set. */
  ghost predicate NoneFrom(x: nat, n: nat, m: nat) {
    forall i :: n <= i < m ==> !Bit(x, i)
  }

  function Shifted(x: nat, m: nat): nat {
    if m == 0 then x else Shifted(x / 2, m - 1)
  }

  lemma {:induction false} CountSplits(x: nat, m: nat, n: nat)
    ensures Count(x, m + n) == Count(x, m) + Count(Shifted(x, m), n)
    decreases m
  {
    if m > 0 {
      CountSplits(x / 2, m - 1, n);
    }
  }

  lemma {:induction false} ShiftedTwice(x: nat, m: nat, n: nat)
    ensures Shifted(x, m + n) == Shifted(Shifted(x, m), n)
    decreases m
  {
    if m > 0 {
      ShiftedTwice(x / 2, m - 1, n);
    }
  }

  lemma Shift4(x: nat)
    ensures Shifted(x, 4) == x / 16
  {
    hide Shifted;
    Shift2(x);
    Shift2(x / 4);
    ShiftedTwice(x, 2, 2);
  }

  lemma Shift2(x: nat)
    ensures Shifted(x, 2) == x / 4
  {
    assert Shifted(x / 2, 1) == Shifted(x / 2 / 2, 0);
  }

  lemma Shift8(x: nat)
    ensures Shifted(x, 8) == x / 256
  {
    hide Shifted;
    Shift4(x);
    Shift4(x / 16);
    ShiftedTwice(x, 4, 4);
  }

  lemma Shift32(x: nat)
    ensures Shifted(x, 32) == x / TWO32
  {
    hide Shifted;
    Shift8(x);
    Shift8(x / 256);
    Shift8(x / 65536);
    Shift8(x / 0x1000000);
    ShiftedTwice(x, 8, 8);
    ShiftedTwice(x, 16, 8);
    ShiftedTwice(x, 24, 8);
  }

  lemma {:induction false} LowBitsCount(lo: nat, hi: nat, n: nat)
    ensures Count(lo + Power(2, n) * hi, n) == Count(lo, n)
    decreases n
  {
    if n > 0 {
      var p := Power(2, n - 1) * hi;
      assert Power(2, n) * hi == 2 * p;
      assert (lo + 2 * p) % 2 == lo % 2 && (lo + 2 * p) / 2 == lo / 2 + p;
      LowBitsCount(lo / 2, hi, n - 1);
    }
  }

  /** The two halves that the code hands to hweight32 account for all 64 bits. */
  lemma HalvesCount(x: nat)
    requires x < TWO64
    ensures Hweight32(x % TWO32) + Hweight32(x / TWO32) == Count(x, 64)
  {
    hide Count, Hweight32, Shifted, Power;
    HweightCounts(x % TWO32);
    HweightCounts(x / TWO32);
    CountSplits(x, 32, 32);
    Shift32(x);
    Width2();
    LowBitsCount(x % TWO32, x / TWO32, 32);
    assert x == x % TWO32 + TWO32 * (x / TWO32);
  }

  // ---- raid ----

  datatype RaidSegment = RaidSegment(
    stripeSize: nat,
    nosync: bool,             // DM_NOSYNC
    forcesync: bool,          // DM_FORCESYNC
    regionSize: nat,
    rebuilds: nat,            // 64-bit masks of device pairs
    writemostly: nat,
    writebehind: nat,
    minRecoveryRate: nat,
    maxRecoveryRate: nat,
    areaCount: nat)

  function Named(name: string, value: nat): seq<string> {
    if value == 0 then [] else [name, Natural(value)]
  }

  function BitWords(name: string, mask: nat, n: nat): seq<string> {
    if n == 0 then []
    else BitWords(name, mask, n - 1) + if Bit(mask, n - 1) then [name, Natural(n - 1)] else []
  }

  /** The words between the count and the number of device pairs. */
  function RaidWords(seg: RaidSegment): seq<string> {
    [Natural(seg.stripeSize)]
    + (if seg.nosync then ["nosync"] else if seg.forcesync then ["sync"] else [])
    + Named("region_size", seg.regionSize)
    + BitWords("rebuild", seg.rebuilds, seg.areaCount / 2)
    + BitWords("write_mostly", seg.writemostly, seg.areaCount / 2)
    + Named("writebehind", seg.writebehind)
    + Named("min_recovery_rate", seg.minRecoveryRate)
    + Named("max_recovery_rate", seg.maxRecoveryRate)
  }

  lemma {:induction false} BitWordsCount(name: string, mask: nat, n: nat)
    ensures |BitWords(name, mask, n)| == 2 * Count(mask, n)
  {
    if n > 0 {
      BitWordsCount(name, mask, n - 1);
      CountNext(mask, n - 1);
    }
  }

  function RaidParamCount(seg: RaidSegment): nat {
    1 + (if seg.nosync || seg.forcesync then 1 else 0)
    + (if seg.regionSize != 0 then 2 else 0) + (if seg.writebehind != 0 then 2 else 0)
    + (if seg.minRecoveryRate != 0 then 2 else 0) + (if seg.maxRecoveryRate != 0 then 2 else 0)
    + 2 * Hweight32(seg.rebuilds % TWO32) + 2 * Hweight32(seg.rebuilds / TWO32)
    + 2 * Hweight32(seg.writemostly % TWO32) + 2 * Hweight32(seg.writemostly / TWO32)
  }

  lemma MaskWords(name: string, mask: nat, n: nat)
    requires mask < TWO64 && n <= 64
    ensures |BitWords(name, mask, n)| <= 2 * Hweight32(mask % TWO32) + 2 * Hweight32(mask / TWO32)
    ensures |BitWords(name, mask, n)| == 2 * Hweight32(mask % TWO32) + 2 * Hweight32(mask / TWO32) <==>
      NoneFrom(mask, n, 64)
  {
    hide Count, Hweight32, BitWords, NoneFrom;
    HalvesCount(mask);
    BitWordsCount(name, mask, n);
    CountGrows(mask, n, 64);
  }

  /** The announced count is the number of words written exactly when both masks
      name existing device pairs only. */
  lemma RaidCountExact(seg: RaidSegment)
    requires seg.rebuilds < TWO64 && seg.writemostly < TWO64 && seg.areaCount / 2 <= 64
    ensures RaidParamCount(seg) >= |RaidWords(seg)|
    ensures RaidParamCount(seg) == |RaidWords(seg)| <==>
      NoneFrom(seg.rebuilds, seg.areaCount / 2, 64) && NoneFrom(seg.writemostly, seg.areaCount / 2, 64)
  {
    hide Hweight32, BitWords, NoneFrom;
    MaskWords("rebuild", seg.rebuilds, seg.areaCount / 2);
    MaskWords("write_mostly", seg.writemostly, seg.areaCount / 2);
  }

  /** With two device pairs, a rebuild bit for a third one is announced, not written. */
  lemma RebuildOfNoPair()
    ensures var seg := RaidSegment(0, false, false, 0, 4, 0, 0, 0, 0, 4); RaidParamCount(seg) != |RaidWords(seg)|
  {
    var seg := RaidSegment(0, false, false, 0, 4, 0, 0, 0, 0, 4);
    assert Bit(1, 0) && Bit(2, 1) && Bit(4, 2);
    hide Hweight32, BitWords;
    RaidCountExact(seg);
  }

  /** _raid_emit_segment_line, up to the number of device pairs. */
  method RaidParams(seg: RaidSegment) returns (paramCount: nat, words: seq<string>)
    requires seg.rebuilds < TWO64 && seg.writemostly < TWO64 && seg.areaCount / 2 <= 64
    ensures words == RaidWords(seg) && paramCount == RaidParamCount(seg) >= |words|
    ensures paramCount == |words| <==>
      NoneFrom(seg.rebuilds, seg.areaCount / 2, 64) && NoneFrom(seg.writemostly, seg.areaCount / 2, 64)
  {
    hide Hweight32, NoneFrom, RaidWords, RaidParamCount;
    RaidCountExact(seg);
    paramCount := CountRaidParams(seg);
    words := WriteRaidParams(seg);
  }

  method CountRaidParams(seg: RaidSegment) returns (paramCount: nat)
    ensures paramCount == RaidParamCount(seg)
  {
    hide Hweight32;
    paramCount := 1;
    if seg.nosync || seg.forcesync { paramCount := paramCount + 1; }
    if seg.regionSize != 0 { paramCount := paramCount + 2; }
    if seg.writebehind != 0 { paramCount := paramCount + 2; }
    if seg.minRecoveryRate != 0 { paramCount := paramCount + 2; }
    if seg.maxRecoveryRate != 0 { paramCount := paramCount + 2; }
    paramCount := paramCount + 2 * Hweight32(seg.rebuilds % TWO32) + 2 * Hweight32(seg.rebuilds / TWO32);
    paramCount := paramCount + 2 * Hweight32(seg.writemostly % TWO32) + 2 * Hweight32(seg.writemostly / TWO32);
  }

  method WriteRaidParams(seg: RaidSegment) returns (words: seq<string>)
    ensures words == RaidWords(seg)
  {
    words := [Natural(seg.stripeSize)];
    words := words + (if seg.nosync then ["nosync"] else if seg.forcesync then ["sync"] else []);
    words := words + Named("region_size", seg.regionSize);
    var part := BitParams("rebuild", seg.rebuilds, seg.areaCount / 2);
    words := words + part;
    part := BitParams("write_mostly", seg.writemostly, seg.areaCount / 2);
    words := words + part;
    words := words + Named("writebehind", seg.writebehind);
    words := words + Named("min_recovery_rate", seg.minRecoveryRate);
    words := words + Named("max_recovery_rate", seg.maxRecoveryRate);
  }

  method BitParams(name: string, mask: nat, pairs: nat) returns (words: seq<string>)
    ensures words == BitWords(name, mask, pairs)
  {
    words := [];
    for i := 0 to pairs
      invariant words == BitWords(name, mask, i)
    {
      if Bit(mask, i) {
        words := words + [name, Natural(i)];
      }
    }
  }

  // ---- mirror ----

  datatype MirrorSegment = MirrorSegment(
    flags: nat,                   // 32 bits: nosync, forcesync, block_on_error, corelog
    clustered: bool,
    uuid: Option<string>,
    log: Option<Option<string>>,  // the log device as major:minor, when it has one
    regionSize: nat)

  function KernelVersion(major: nat, minor: nat, release: nat): nat {
    major * 65536 + minor * 256 + release
  }

  /** The version in the up to three numbers of the kernel's release, if uname gives
      it: kernels before version 3 have all three. */
  function RunningKernel(release: Option<seq<nat>>): Option<nat> {
    if release.None? then None
    else
      var parts := release.value;
      if parts == [] || (parts[0] < 3 && |parts| < 3) then None
      else Some(KernelVersion(parts[0], if |parts| > 1 then parts[1] else 0, if |parts| > 2 then parts[2] else 0))
  }

  predicate Before(a: (nat, nat, nat), b: (nat, nat, nat)) {
    a.0 < b.0 || (a.0 == b.0 && (a.1 < b.1 || (a.1 == b.1 && a.2 < b.2)))
  }

  /** The packed version compares as the three numbers do, while the last two are bytes. */
  lemma VersionOrder(major: nat, minor: nat, release: nat, b: (nat, nat, nat))
    requires minor < 256 && release < 256 && b.1 < 256 && b.2 < 256
    ensures KernelVersion(major, minor, release) < KernelVersion(b.0, b.1, b.2) <==> Before((major, minor, release), b)
  {
  }

  /** A part that the release does not have is zero. */
  function Part(parts: seq<nat>, i: nat): nat {
    if i < |parts| then parts[i] else 0
  }

  /** So the release decides by its numbers, as far as they are bytes. */
  lemma ReleaseDecides(parts: seq<nat>, b: (nat, nat, nat))
    requires Part(parts, 1) < 256 && Part(parts, 2) < 256 && b.1 < 256 && b.2 < 256
    ensures RunningKernel(Some(parts)).Some? <==> parts != [] && (|parts| >= 3 || parts[0] >= 3)
    ensures RunningKernel(Some(parts)).Some? ==>
      (RunningKernel(Some(parts)).value < KernelVersion(b.0, b.1, b.2)
       <==> Before((Part(parts, 0), Part(parts, 1), Part(parts, 2)), b))
  {
    VersionOrder(Part(parts, 0), Part(parts, 1), Part(parts, 2), b);
  }

  /** 2.5.287 passes for 2.6.31. */
  lemma VersionOverflows()
    ensures Before((2, 5, 287), (2, 6, 31)) && KernelVersion(2, 5, 287) == KernelVersion(2, 6, 31)
  {
  }

  /** A cluster log has a uuid, and a log device its number. */
  predicate LogKnown(seg: MirrorSegment) {
    (seg.clustered ==> seg.uuid.Some?) && (seg.log.Some? ==> seg.log.value.Some?)
  }

  predicate NoSync(seg: MirrorSegment) { Bit(seg.flags, 0) }
  predicate ForceSync(seg: MirrorSegment) { Bit(seg.flags, 1) }
  predicate BlockOnError(seg: MirrorSegment) { Bit(seg.flags, 2) }
  predicate CoreLog(seg: MirrorSegment) { Bit(seg.flags, 3) }

  /** The log arguments: for a cluster log driven from userspace the uuid and log
      type come first, otherwise the uuid follows the region size; error handling is
      an argument of the log only on kernels before 2.6.22. */
  function MirrorWords(seg: MirrorSegment, kernel: nat): seq<string>
    requires LogKnown(seg)
  {
    var userspace := seg.clustered && kernel >= KernelVersion(2, 6, 31);
    (if userspace then [seg.uuid.value, "clustered-" + if seg.log.None? then "core" else "disk"] else [])
    + (if seg.log.Some? then [seg.log.value.value] else []) + [Natural(seg.regionSize)]
    + (if seg.clustered && !userspace then [seg.uuid.value] else [])
    + (if NoSync(seg) then ["nosync"] else if ForceSync(seg) then ["sync"] else [])
    + (if BlockOnError(seg) && kernel < KernelVersion(2, 6, 22) then ["block_on_error"] else [])
  }

  /** The announced number of log arguments. */
  function MirrorLogCount(seg: MirrorSegment, kernel: nat): int {
    1 + Hweight32(seg.flags)
    - (if BlockOnError(seg) && kernel >= KernelVersion(2, 6, 22) then 1 else 0)
    - (if CoreLog(seg) then 1 else 0)
    + (if seg.clustered then 1 else 0) + (if seg.clustered && kernel >= KernelVersion(2, 6, 31) then 1 else 0)
    + (if seg.log.Some? then 1 else 0)
  }

  /** It is right exactly when only the four mirror flags are used, and not both of
      the first two. */
  lemma MirrorCountExact(seg: MirrorSegment, kernel: nat)
    requires seg.flags < TWO32 && LogKnown(seg)
    ensures MirrorLogCount(seg, kernel) >= |MirrorWords(seg, kernel)|
    ensures MirrorLogCount(seg, kernel) == |MirrorWords(seg, kernel)| <==>
      seg.flags < 16 && !(NoSync(seg) && ForceSync(seg))
  {
    FlagCount(seg.flags);
    hide Hweight32, Bit;
  }

  /** With both sync flags two words are announced, and one is written. */
  lemma BothSyncFlags(kernel: nat)
    ensures var seg := MirrorSegment(3, false, None, None, 0); MirrorLogCount(seg, kernel) != |MirrorWords(seg, kernel)|
  {
    var seg := MirrorSegment(3, false, None, None, 0);
    assert Bit(3, 0) && Bit(1, 0) && Bit(3, 1);
    hide Hweight32;
    MirrorCountExact(seg, kernel);
  }

  /** Which log drives the mirror: on disk or in memory, for one node or a cluster, in
      the kernel or in userspace. */
  function MirrorLogType(seg: MirrorSegment, kernel: nat): string {
    if seg.clustered && kernel >= KernelVersion(2, 6, 31) then "userspace"
    else (if seg.clustered then "clustered-" else "") + (if seg.log.Some? then "disk" else "core")
  }

  /** _mirror_emit_segment_line, up to the number of mirror legs: the log type, the
      announced number of log arguments, and the arguments. */
  method MirrorLogParams(seg: MirrorSegment, release: Option<seq<nat>>)
    returns (r: Option<(string, int, seq<string>)>)
    ensures r.Some? <==> RunningKernel(release).Some? && LogKnown(seg)
    ensures r.Some? ==>
      var kernel := RunningKernel(release).value;
      r.value == (MirrorLogType(seg, kernel), MirrorLogCount(seg, kernel), MirrorWords(seg, kernel))
    ensures r.Some? && seg.flags < TWO32 ==>
      (r.value.1 == |r.value.2| <==> seg.flags < 16 && !(NoSync(seg) && ForceSync(seg)))
  {
    hide Hweight32, Bit, KernelVersion;
    var running := RunningKernel(release);
    if running.None? {
      return None;
    }
    var kernel := running.value;
    var handleErrors := BlockOnError(seg) && kernel >= KernelVersion(2, 6, 22);
    var blockOnError := BlockOnError(seg) && !handleErrors;
    if seg.clustered && seg.uuid.None? {
      return None;
    }
    var userspace := seg.clustered && kernel >= KernelVersion(2, 6, 31);
    var count := 1 + Hweight32(seg.flags);
    if handleErrors { count := count - 1; }
    if CoreLog(seg) { count := count - 1; }
    var prefix := "";
    if seg.clustered {
      count := count + 1;
      if !userspace { prefix := "clustered-"; } else { count := count + 1; }
    }
    var logType := if seg.log.None? then "core" else "disk";
    if seg.log.Some? {
      count := count + 1;
      if seg.log.value.None? {
        return None;
      }
    }
    if seg.flags < TWO32 {
      MirrorCountExact(seg, kernel);
    }

    var words := if userspace then [seg.uuid.value, "clustered-" + logType] else [];
    words := words + if seg.log.Some? then [seg.log.value.value] else [];
    words := words + [Natural(seg.regionSize)];
    words := words + if seg.clustered && !userspace then [seg.uuid.value] else [];
    words := words + if NoSync(seg) then ["nosync"] else if ForceSync(seg) then ["sync"] else [];
    words := words + if blockOnError then ["block_on_error"] else [];
    r := Some((if userspace then "userspace" else prefix + logType, count, words));
  }

  /** Bits beyond the four known flags are counted but never written. */
  lemma FlagCount(flags: nat)
    requires flags < TWO32
    ensures var known := (if Bit(flags, 0) then 1 else 0) + (if Bit(flags, 1) then 1 else 0)
                         + (if Bit(flags, 2) then 1 else 0) + (if Bit(flags, 3) then 1 else 0);
      Hweight32(flags) >= known && (Hweight32(flags) == known <==> flags < 16)
  {
    hide Hweight32, Bit, Count, Power;
    HweightCounts(flags);
    LowFour(flags);
    CountSplits(flags, 4, 28);
    Shift4(flags);
    Width28();
    ZeroCount(flags / 16, 28);
  }

  lemma LowFour(x: nat)
    ensures Count(x, 4) == (if Bit(x, 0) then 1 else 0) + (if Bit(x, 1) then 1 else 0)
                           + (if Bit(x, 2) then 1 else 0) + (if Bit(x, 3) then 1 else 0)
  {
    CountNext(x, 0);
    CountNext(x, 1);
    CountNext(x, 2);
    CountNext(x, 3);
    assert Count(x, 0) == 0;
    hide Count, Bit;
  }

  lemma Width28()
    ensures Power(2, 28) == 0x10000000
  {
    assert Power(2, 8) == 256 && Power(2, 16) == 65536 && Power(2, 24) == 0x1000000;
  }

  lemma {:induction false} ZeroCount(x: nat, n: nat)
    ensures Count(x, n) == 0 && x < Power(2, n) ==> x == 0
    ensures x == 0 ==> Count(x, n) == 0
    decreases n
  {
    if n > 0 {
      ZeroCount(x / 2, n - 1);
    }
  }
}
