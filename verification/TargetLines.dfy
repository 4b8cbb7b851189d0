/** The lines of RAID and mirror targets, as the kernel reads them: the words between
    spaces, the announced number of arguments, and what each argument means. */
module TargetLines {
  import opened BitCount
  import opened Decimal
  import opened KernelWords
  import opened SegmentCounts
  import TableLoad
  import opened Wrappers

  // ---- the words of a RAID line as the kernel reads them ----

  datatype RaidOptions = RaidOptions(
    nosync: bool, sync: bool, regionSize: nat, rebuild: set<nat>, writeMostly: set<nat>,
    writeBehind: nat, minRate: nat, maxRate: nat)

  /** An option with a value. */
  function WithOption(o: RaidOptions, name: string, value: nat): Option<RaidOptions> {
    if name == "region_size" then Some(o.(regionSize := value))
    else if name == "rebuild" then Some(o.(rebuild := o.rebuild + {value}))
    else if name == "write_mostly" then Some(o.(writeMostly := o.writeMostly + {value}))
    else if name == "writebehind" then Some(o.(writeBehind := value))
    else if name == "min_recovery_rate" then Some(o.(minRate := value))
    else if name == "max_recovery_rate" then Some(o.(maxRate := value))
    else None
  }

  function ReadOptions(ws: seq<string>, o: RaidOptions): Option<RaidOptions>
    decreases |ws|
  {
    if ws == [] then Some(o)
    else if ws[0] == "nosync" then ReadOptions(ws[1..], o.(nosync := true))
    else if ws[0] == "sync" then ReadOptions(ws[1..], o.(sync := true))
    else if |ws| == 1 || Number(ws[1]).None? then None
    else
      var next := WithOption(o, ws[0], Number(ws[1]).value);
      if next.None? then None else ReadOptions(ws[2..], next.value)
  }

  function NoOptions(): RaidOptions {
    RaidOptions(false, false, 0, {}, {}, 0, 0, 0)
  }

  /** The whole line: the target, the number of arguments, these, the number of device
      pairs and the devices. */
  datatype RaidTable = RaidTable(target: string, chunk: nat, options: RaidOptions, devices: seq<string>)

  function ReadRaid(ws: seq<string>): Option<RaidTable> {
    if |ws| < 2 || Number(ws[1]).None? then None
    else
      var n := Number(ws[1]).value;
      if n == 0 || |ws| < n + 3 || Number(ws[2]).None? || Number(ws[n + 2]).None? then None
      else
        var options, devices := ReadOptions(ws[3..n + 2], NoOptions()), ws[n + 3..];
        if options.None? || |devices| != 2 * Number(ws[n + 2]).value then None
        else Some(RaidTable(ws[0], Number(ws[2]).value, options.value, devices))
  }

  function Bits(mask: nat, n: nat): set<nat> {
    set i | 0 <= i < n && Bit(mask, i)
  }

  lemma BitsNext(mask: nat, n: nat)
    ensures Bits(mask, n + 1) == if Bit(mask, n) then Bits(mask, n) + {n} else Bits(mask, n)
  {
  }

  predicate IsOption(name: string) {
    name in {"region_size", "rebuild", "write_mostly", "writebehind", "min_recovery_rate", "max_recovery_rate"}
  }

  lemma PairRead(name: string, value: nat, rest: seq<string>, o: RaidOptions)
    requires IsOption(name)
    ensures WithOption(o, name, value).Some?
    ensures ReadOptions([name, Natural(value)] + rest, o) == ReadOptions(rest, WithOption(o, name, value).value)
  {
    hide Natural, Number;
    NumberBack(value);
    assert ([name, Natural(value)] + rest)[2..] == rest;
  }

  /** An option that may be given several times. */
  function WithBits(o: RaidOptions, name: string, bits: set<nat>): RaidOptions {
    if name == "rebuild" then o.(rebuild := o.rebuild + bits) else o.(writeMostly := o.writeMostly + bits)
  }

  lemma WithBitsNext(o: RaidOptions, name: string, bits: set<nat>, i: nat)
    requires name in {"rebuild", "write_mostly"}
    ensures WithBits(o, name, {}) == o
    ensures WithOption(WithBits(o, name, bits), name, i) == Some(WithBits(o, name, bits + {i}))
  {
    assert o.rebuild + {} == o.rebuild && o.writeMostly + {} == o.writeMostly;
    assert o.rebuild + bits + {i} == o.rebuild + (bits + {i});
    assert o.writeMostly + bits + {i} == o.writeMostly + (bits + {i});
  }

  lemma {:induction false} BitsRead(name: string, mask: nat, n: nat, rest: seq<string>, o: RaidOptions)
    requires name in {"rebuild", "write_mostly"}
    ensures ReadOptions(BitWords(name, mask, n) + rest, o) == ReadOptions(rest, WithBits(o, name, Bits(mask, n)))
    decreases n
  {
    hide ReadOptions, Natural, Bit, WithOption, WithBits;
    if n == 0 {
      assert [] + rest == rest && Bits(mask, 0) == {};
      WithBitsNext(o, name, {}, 0);
    } else {
      BitsNext(mask, n - 1);
      if Bit(mask, n - 1) {
        var pair := [name, Natural(n - 1)];
        assert BitWords(name, mask, n) + rest == BitWords(name, mask, n - 1) + (pair + rest);
        BitsRead(name, mask, n - 1, pair + rest, o);
        WithBitsNext(o, name, Bits(mask, n - 1), n - 1);
        PairRead(name, n - 1, rest, WithBits(o, name, Bits(mask, n - 1)));
      } else {
        assert BitWords(name, mask, n) == BitWords(name, mask, n - 1);
        BitsRead(name, mask, n - 1, rest, o);
      }
    }
  }

  /** A value of zero is not written and is the default. */
  lemma NamedRead(name: string, value: nat, rest: seq<string>, o: RaidOptions)
    requires IsOption(name)
    requires value == 0 ==> WithOption(o, name, 0) == Some(o)
    ensures WithOption(o, name, value).Some?
    ensures ReadOptions(Named(name, value) + rest, o) == ReadOptions(rest, WithOption(o, name, value).value)
  {
    hide ReadOptions, Natural;
    if value == 0 {
      assert [] + rest == rest;
    } else {
      PairRead(name, value, rest, o);
    }
  }

  /** What a segment asks for. */
  function RaidMeaning(seg: RaidSegment): RaidOptions {
    RaidOptions(seg.nosync, seg.forcesync && !seg.nosync, seg.regionSize,
                Bits(seg.rebuilds, seg.areaCount / 2), Bits(seg.writemostly, seg.areaCount / 2),
                seg.writebehind, seg.minRecoveryRate, seg.maxRecoveryRate)
  }

  lemma SyncRead(seg: RaidSegment, rest: seq<string>, o: RaidOptions)
    requires !o.nosync && !o.sync
    ensures ReadOptions((if seg.nosync then ["nosync"] else if seg.forcesync then ["sync"] else []) + rest, o)
      == ReadOptions(rest, o.(nosync := seg.nosync, sync := seg.forcesync && !seg.nosync))
  {
    assert (["nosync"] + rest)[1..] == rest && (["sync"] + rest)[1..] == rest;
    assert [] + rest == rest;
  }

  /** The options are read back as the segment has them. */
  lemma RaidOptionsRead(seg: RaidSegment)
    ensures ReadOptions(RaidWords(seg)[1..], NoOptions()) == Some(RaidMeaning(seg))
  {
    hide ReadOptions, Natural, Bit, BitWords, Named, Bits;
    var n := seg.areaCount / 2;
    var sync := if seg.nosync then ["nosync"] else if seg.forcesync then ["sync"] else [];
    var r7: seq<string> := [];
    var r6 := Named("max_recovery_rate", seg.maxRecoveryRate) + r7;
    var r5 := Named("min_recovery_rate", seg.minRecoveryRate) + r6;
    var r4 := Named("writebehind", seg.writebehind) + r5;
    var r3 := BitWords("write_mostly", seg.writemostly, n) + r4;
    var r2 := BitWords("rebuild", seg.rebuilds, n) + r3;
    var r1 := Named("region_size", seg.regionSize) + r2;
    assert RaidWords(seg)[1..] == sync + r1;
    SyncRead(seg, r1, NoOptions());
    var o1 := NoOptions().(nosync := seg.nosync, sync := seg.forcesync && !seg.nosync);
    NamedRead("region_size", seg.regionSize, r2, o1);
    var o2 := o1.(regionSize := seg.regionSize);
    BitsRead("rebuild", seg.rebuilds, n, r3, o2);
    assert {} + Bits(seg.rebuilds, n) == Bits(seg.rebuilds, n);
    var o3 := o2.(rebuild := Bits(seg.rebuilds, n));
    BitsRead("write_mostly", seg.writemostly, n, r4, o3);
    assert {} + Bits(seg.writemostly, n) == Bits(seg.writemostly, n);
    var o4 := o3.(writeMostly := Bits(seg.writemostly, n));
    NamedRead("writebehind", seg.writebehind, r5, o4);
    var o5 := o4.(writeBehind := seg.writebehind);
    NamedRead("min_recovery_rate", seg.minRecoveryRate, r6, o5);
    var o6 := o5.(minRate := seg.minRecoveryRate);
    NamedRead("max_recovery_rate", seg.maxRecoveryRate, r7, o6);
    NothingRead(RaidMeaning(seg));
  }

  lemma NothingRead(o: RaidOptions)
    ensures ReadOptions([], o) == Some(o)
  {
  }

  /** The line up to and with the devices. */
  function RaidLine(target: string, seg: RaidSegment, devices: seq<string>): seq<string> {
    [target, Natural(RaidParamCount(seg))] + RaidWords(seg) + [Natural(seg.areaCount / 2)] + devices
  }

  /** Where n arguments, of which the words are the first, end in a line. */
  lemma LineParts(target: string, count: string, words: seq<string>, pairs: string, devices: seq<string>, n: nat)
    requires words != [] && n >= |words|
    ensures var ws := [target, count] + words + [pairs] + devices;
      && |ws| == |words| + |devices| + 3 && ws[0] == target && ws[1] == count && ws[2] == words[0]
      && (n == |words| ==> ws[3..n + 2] == words[1..] && ws[n + 2] == pairs && ws[n + 3..] == devices)
  {
  }

  /** The kernel reads the line as it is meant exactly when no mask bit lies outside the
      device pairs: otherwise it takes devices for arguments. */
  lemma RaidRead(target: string, seg: RaidSegment, devices: seq<string>)
    requires seg.rebuilds < TWO64 && seg.writemostly < TWO64 && seg.areaCount / 2 <= 64
    requires |devices| == 2 * (seg.areaCount / 2)
    ensures
      var meant := RaidTable(target, seg.stripeSize, RaidMeaning(seg), devices);
      ReadRaid(RaidLine(target, seg, devices)) == Some(meant) <==>
      NoneFrom(seg.rebuilds, seg.areaCount / 2, 64) && NoneFrom(seg.writemostly, seg.areaCount / 2, 64)
  {
    RaidCountExact(seg);
    RaidOptionsRead(seg);
    var words, n := RaidWords(seg), RaidParamCount(seg);
    assert words[0] == Natural(seg.stripeSize);
    hide RaidWords, RaidParamCount, ReadOptions, Natural, Number, NoneFrom, RaidMeaning;
    NumberBack(n);
    NumberBack(seg.stripeSize);
    NumberBack(seg.areaCount / 2);
    LineParts(target, Natural(n), words, Natural(seg.areaCount / 2), devices, n);
  }

  // ---- the log arguments as the kernel reads them ----

  datatype MirrorLog = MirrorLog(
    userspace: bool, clustered: bool, uuid: Option<string>, device: Option<string>, regionSize: nat,
    nosync: bool, sync: bool, blockOnError: bool)

  /** From the region size on; the in-kernel cluster log has its uuid next. */
  function ReadTail(ws: seq<string>, log: MirrorLog, uuidNext: bool): Option<MirrorLog> {
    if ws == [] || Number(ws[0]).None? || (uuidNext && |ws| == 1) then None
    else
      var sized := log.(regionSize := Number(ws[0]).value);
      if uuidNext then ReadFlags(ws[2..], sized.(uuid := Some(ws[1]))) else ReadFlags(ws[1..], sized)
  }

  function ReadFlags(ws: seq<string>, log: MirrorLog): Option<MirrorLog>
    decreases |ws|
  {
    if ws == [] then Some(log)
    else if ws[0] == "nosync" then ReadFlags(ws[1..], log.(nosync := true))
    else if ws[0] == "sync" then ReadFlags(ws[1..], log.(sync := true))
    else if ws[0] == "block_on_error" then ReadFlags(ws[1..], log.(blockOnError := true))
    else None
  }

  /** A log on disk has its device first. */
  function ReadDevice(ws: seq<string>, log: MirrorLog, disk: bool, uuidNext: bool): Option<MirrorLog> {
    if !disk then ReadTail(ws, log, uuidNext)
    else if ws == [] then None
    else ReadTail(ws[1..], log.(device := Some(ws[0])), uuidNext)
  }

  function ReadLog(logType: string, ws: seq<string>): Option<MirrorLog> {
    var none := MirrorLog(false, false, None, None, 0, false, false, false);
    if logType == "core" || logType == "disk" then ReadDevice(ws, none, logType == "disk", false)
    else if logType == "clustered-core" || logType == "clustered-disk" then
      ReadDevice(ws, none.(clustered := true), logType == "clustered-disk", true)
    else if logType == "userspace" && |ws| > 1 && ws[1] in {"clustered-core", "clustered-disk"} then
      ReadDevice(ws[2..], none.(userspace := true, clustered := true, uuid := Some(ws[0])),
                 ws[1] == "clustered-disk", false)
    else None
  }

  /** What a mirror asks of its log. */
  function MirrorMeaning(seg: MirrorSegment, userspace: bool, blockOnError: bool): MirrorLog {
    MirrorLog(userspace, seg.clustered, if seg.clustered then seg.uuid else None,
              if seg.log.Some? then seg.log.value else None, seg.regionSize,
              NoSync(seg), ForceSync(seg) && !NoSync(seg), blockOnError)
  }

  lemma BlockRead(block: bool, log: MirrorLog)
    requires !log.blockOnError
    ensures ReadFlags(if block then ["block_on_error"] else [], log) == Some(log.(blockOnError := block))
  {
    assert ReadFlags([], log.(blockOnError := true)) == Some(log.(blockOnError := true));
  }

  /** [no]sync and block_on_error. */
  function FlagWords(nosync: bool, sync: bool, block: bool): seq<string> {
    (if nosync then ["nosync"] else if sync then ["sync"] else []) + (if block then ["block_on_error"] else [])
  }

  lemma FlagsRead(nosync: bool, sync: bool, block: bool, log: MirrorLog)
    requires !log.nosync && !log.sync && !log.blockOnError
    ensures ReadFlags(FlagWords(nosync, sync, block), log)
      == Some(log.(nosync := nosync, sync := sync && !nosync, blockOnError := block))
  {
    var tail := if block then ["block_on_error"] else [];
    assert (["nosync"] + tail)[1..] == tail && (["sync"] + tail)[1..] == tail && [] + tail == tail;
    BlockRead(block, log.(nosync := nosync, sync := sync && !nosync));
  }

  function Optional(w: Option<string>): seq<string> {
    if w.Some? then [w.value] else []
  }

  lemma TailRead(size: nat, uuid: Option<string>, flags: seq<string>, log: MirrorLog)
    ensures ReadTail([Natural(size)] + Optional(uuid) + flags, log, uuid.Some?)
      == ReadFlags(flags, log.(regionSize := size, uuid := if uuid.Some? then uuid else log.uuid))
  {
    hide Natural, Number, ReadFlags;
    NumberBack(size);
    var ws := [Natural(size)] + Optional(uuid) + flags;
    assert ws[|Optional(uuid)| + 1..] == flags;
  }

  lemma DeviceRead(device: Option<string>, rest: seq<string>, log: MirrorLog, uuidNext: bool)
    requires log.device.None?
    ensures ReadDevice(Optional(device) + rest, log, device.Some?, uuidNext)
      == ReadTail(rest, log.(device := device), uuidNext)
  {
    hide ReadTail;
    assert (Optional(device) + rest)[|Optional(device)|..] == rest;
  }

  /** The log type leads to the right reader. */
  lemma TypeRead(seg: MirrorSegment, kernel: nat, rest: seq<string>)
    requires LogKnown(seg)
    ensures
      var userspace := seg.clustered && kernel >= KernelVersion(2, 6, 31);
      var first := if userspace then [seg.uuid.value, "clustered-" + if seg.log.None? then "core" else "disk"] else [];
      ReadLog(MirrorLogType(seg, kernel), first + rest)
      == ReadDevice(rest, MirrorLog(userspace, seg.clustered, if userspace then seg.uuid else None, None, 0, false,
                                    false, false), seg.log.Some?, seg.clustered && !userspace)
  {
    hide ReadDevice, KernelVersion;
    assert "clustered-" + "core" == "clustered-core" && "clustered-" + "disk" == "clustered-disk";
    assert "" + "core" == "core" && "" + "disk" == "disk" && [] + rest == rest;
    if seg.clustered {
      var word := "clustered-" + if seg.log.None? then "core" else "disk";
      assert ([seg.uuid.value, word] + rest)[2..] == rest;
    }
  }

  lemma SixParts(a: seq<string>, b: seq<string>, c: seq<string>, d: seq<string>, e: seq<string>, f: seq<string>)
    ensures a + b + c + d + e + f == a + (b + (c + d + (e + f)))
  {
  }

  lemma MirrorParts(seg: MirrorSegment, kernel: nat)
    requires LogKnown(seg)
    ensures
      var userspace := seg.clustered && kernel >= KernelVersion(2, 6, 31);
      var first := if userspace then [seg.uuid.value, "clustered-" + if seg.log.None? then "core" else "disk"] else [];
      MirrorWords(seg, kernel) == first + (Optional(if seg.log.Some? then seg.log.value else None)
        + ([Natural(seg.regionSize)] + Optional(if seg.clustered && !userspace then seg.uuid else None)
          + FlagWords(NoSync(seg), ForceSync(seg), BlockOnError(seg) && kernel < KernelVersion(2, 6, 22))))
  {
    hide Natural, Bit, KernelVersion;
    var userspace := seg.clustered && kernel >= KernelVersion(2, 6, 31);
    SixParts(if userspace then [seg.uuid.value, "clustered-" + if seg.log.None? then "core" else "disk"] else [],
      if seg.log.Some? then [seg.log.value.value] else [],
      [Natural(seg.regionSize)],
      if seg.clustered && !userspace then [seg.uuid.value] else [],
      if NoSync(seg) then ["nosync"] else if ForceSync(seg) then ["sync"] else [],
      if BlockOnError(seg) && kernel < KernelVersion(2, 6, 22) then ["block_on_error"] else []);
  }

  /** Type and arguments of the log are read back as the segment has them: from
      userspace on kernels from 2.6.31 on, blocking errors on kernels before 2.6.22. */
  lemma MirrorRead(seg: MirrorSegment, kernel: nat)
    requires LogKnown(seg)
    ensures ReadLog(MirrorLogType(seg, kernel), MirrorWords(seg, kernel))
      == Some(MirrorMeaning(seg, seg.clustered && kernel >= KernelVersion(2, 6, 31),
                            BlockOnError(seg) && kernel < KernelVersion(2, 6, 22)))
  {
    var userspace := seg.clustered && kernel >= KernelVersion(2, 6, 31);
    var block := BlockOnError(seg) && kernel < KernelVersion(2, 6, 22);
    var device := if seg.log.Some? then seg.log.value else None;
    var uuid := if seg.clustered && !userspace then seg.uuid else None;
    var first := if userspace then [seg.uuid.value, "clustered-" + if seg.log.None? then "core" else "disk"] else [];
    var flags := FlagWords(NoSync(seg), ForceSync(seg), block);
    var tail := [Natural(seg.regionSize)] + Optional(uuid) + flags;
    MirrorParts(seg, kernel);
    hide Natural, Number, Bit, KernelVersion, ReadFlags, ReadDevice, ReadTail, ReadLog, MirrorWords, MirrorLogType,
      FlagWords;
    TypeRead(seg, kernel, Optional(device) + tail);
    var log := MirrorLog(userspace, seg.clustered, if userspace then seg.uuid else None, None, 0, false, false, false);
    DeviceRead(device, tail, log, uuid.Some?);
    TailRead(seg.regionSize, uuid, flags, log.(device := device));
    FlagsRead(NoSync(seg), ForceSync(seg), block,
      log.(device := device, regionSize := seg.regionSize, uuid := if uuid.Some? then uuid else log.uuid));
  }

  /** The whole line: the log, and the legs, each with its offset. */
  datatype MirrorTable = MirrorTable(log: MirrorLog, legs: seq<string>, handleErrors: bool)

  function ReadMirror(ws: seq<string>): Option<MirrorTable> {
    if |ws| < 2 || Number(ws[1]).None? then None
    else
      var n := Number(ws[1]).value;
      if |ws| < n + 3 || Number(ws[n + 2]).None? || |ws| < n + 3 + 2 * Number(ws[n + 2]).value then None
      else
        var log, end := ReadLog(ws[0], ws[2..n + 2]), n + 3 + 2 * Number(ws[n + 2]).value;
        if log.None? || ws[end..] !in {[], ["1", "handle_errors"]} then None
        else Some(MirrorTable(log.value, ws[n + 3..end], end < |ws|))
  }

  function MirrorLine(seg: MirrorSegment, kernel: nat, legs: seq<string>): seq<string>
    requires seg.flags < TWO32 && LogKnown(seg)
  {
    MirrorCountExact(seg, kernel);
    [MirrorLogType(seg, kernel), Natural(MirrorLogCount(seg, kernel))] + MirrorWords(seg, kernel)
    + [Natural(|legs| / 2)] + legs
    + if BlockOnError(seg) && kernel >= KernelVersion(2, 6, 22) then ["1", "handle_errors"] else []
  }

  lemma MirrorLineParts(a: string, count: string, words: seq<string>, legs: string, areas: seq<string>,
                        features: seq<string>)
    ensures var ws, n := [a, count] + words + [legs] + areas + features, |words|;
      && |ws| == n + 3 + |areas| + |features| && ws[0] == a && ws[1] == count
      && ws[2..n + 2] == words && ws[n + 2] == legs && ws[n + 3..n + 3 + |areas|] == areas
      && ws[n + 3 + |areas|..] == features
  {
  }

  /** The right number of arguments leads to the log, the legs and the features; with a
      larger one the legs would have to end too late. */
  lemma ReadParts(a: string, n: nat, words: seq<string>, legs: seq<string>, features: seq<string>)
    requires n >= |words| && |legs| % 2 == 0 && features in {[], ["1", "handle_errors"]}
    ensures
      var read := ReadMirror([a, Natural(n)] + words + [Natural(|legs| / 2)] + legs + features);
      var log := ReadLog(a, words);
      && (n == |words| ==> read == if log.None? then None else Some(MirrorTable(log.value, legs, features != [])))
      && (n > |words| && read.Some? && read.value.legs == legs ==> read.value.handleErrors != (features != []))
  {
    hide Natural, Number, ReadLog;
    NumberBack(n);
    NumberBack(|legs| / 2);
    MirrorLineParts(a, Natural(n), words, Natural(|legs| / 2), legs, features);
  }

  /** The kernel reads a mirror's line as it is meant exactly when only the four mirror
      flags are set and not both sync flags. */
  lemma MirrorLineRead(seg: MirrorSegment, kernel: nat, legs: seq<string>)
    requires seg.flags < TWO32 && LogKnown(seg) && |legs| % 2 == 0
    ensures
      var log := MirrorMeaning(seg, seg.clustered && kernel >= KernelVersion(2, 6, 31),
                               BlockOnError(seg) && kernel < KernelVersion(2, 6, 22));
      var meant := MirrorTable(log, legs, BlockOnError(seg) && kernel >= KernelVersion(2, 6, 22));
      ReadMirror(MirrorLine(seg, kernel, legs)) == Some(meant) <==> seg.flags < 16 && !(NoSync(seg) && ForceSync(seg))
  {
    MirrorCountExact(seg, kernel);
    hide Natural, Bit, KernelVersion, ReadLog, ReadMirror, MirrorWords, MirrorLogType, MirrorLogCount, MirrorMeaning;
    MirrorRead(seg, kernel);
    ReadParts(MirrorLogType(seg, kernel), MirrorLogCount(seg, kernel), MirrorWords(seg, kernel), legs,
      if BlockOnError(seg) && kernel >= KernelVersion(2, 6, 22) then ["1", "handle_errors"] else []);
  }

  // ---- from the words to the text ----

  /** Words with a space before each. */
  function Spaced(ws: seq<string>): string {
    if ws == [] then "" else " " + ws[0] + Spaced(ws[1..])
  }

  predicate AreWords(ws: seq<string>) {
    forall w <- ws :: IsWord(w)
  }

  lemma {:induction false} SpacedWords(w: string, ws: seq<string>)
    requires IsWord(w) && AreWords(ws)
    ensures Words(w + Spaced(ws)) == [w] + ws
    decreases |ws|
  {
    hide Words, IsWord;
    if ws == [] {
      OneWord(w);
      assert w + "" == w;
    } else {
      SpacedWords(ws[0], ws[1..]);
      WordsNext(w, ws[0] + Spaced(ws[1..]));
      assert w + Spaced(ws) == w + (" " + (ws[0] + Spaced(ws[1..])));
      assert ws == [ws[0]] + ws[1..];
    }
  }

  lemma Associative(a: string, b: string, c: string)
    ensures a + (b + c) == a + b + c
  {
  }

  lemma {:induction false} SpacedAppend(a: seq<string>, b: seq<string>)
    ensures Spaced(a + b) == Spaced(a) + Spaced(b)
  {
    if a == [] {
      assert a + b == b;
    } else {
      SpacedAppend(a[1..], b);
      assert (a + b)[1..] == a[1..] + b;
      Associative(" " + a[0], Spaced(a[1..]), Spaced(b));
    }
  }

  /** The pieces that are printed for them. */
  function Pieces(ws: seq<string>): seq<string> {
    seq(|ws|, i requires 0 <= i < |ws| => " " + ws[i])
  }

  /** A first word, and three groups of words behind it. */
  lemma LineText(w: string, a: seq<string>, b: seq<string>, c: seq<string>)
    requires IsWord(w) && AreWords(a) && AreWords(b) && AreWords(c)
    ensures Words(w + (Spaced(a) + Spaced(b) + Spaced(c))) == [w] + (a + b + c)
  {
    hide Words, IsWord, Spaced;
    SpacedAppend(a, b);
    SpacedAppend(a + b, c);
    SpacedWords(w, a + b + c);
  }

  lemma {:induction false} PiecesJoined(ws: seq<string>, more: seq<string>)
    ensures TableLoad.Join(Pieces(ws) + more) == Spaced(ws) + TableLoad.Join(more)
  {
    if ws == [] {
      assert Pieces(ws) + more == more;
    } else {
      PiecesJoined(ws[1..], more);
      assert (Pieces(ws) + more)[1..] == Pieces(ws[1..]) + more;
      Associative(" " + ws[0], Spaced(ws[1..]), TableLoad.Join(more));
    }
  }

  lemma HeadJoined(w: string, ws: seq<string>, more: seq<string>)
    ensures TableLoad.Join([w] + Pieces(ws) + more) == w + Spaced(ws) + TableLoad.Join(more)
  {
    hide Pieces, Spaced;
    PiecesJoined(ws, more);
    assert ([w] + Pieces(ws) + more)[1..] == Pieces(ws) + more;
  }

  function Devices(areas: seq<TableLoad.Area>): seq<string>
    requires TableLoad.DevicesKnown(areas)
  {
    seq(|areas|, i requires 0 <= i < |areas| => areas[i].dev.value)
  }

  lemma {:induction false} RaidAreas(areas: seq<TableLoad.Area>, i: nat)
    requires i <= |areas| && TableLoad.DevicesKnown(areas)
    ensures TableLoad.AreaText(areas, i, true) == Spaced(Devices(areas)[i..])
    decreases |areas| - i
  {
    if i < |areas| {
      RaidAreas(areas, i + 1);
      assert Devices(areas)[i..][1..] == Devices(areas)[i + 1..];
    }
  }

  lemma {:induction false} BitWordsAreWords(name: string, mask: nat, n: nat)
    requires IsWord(name)
    ensures AreWords(BitWords(name, mask, n))
    decreases n
  {
    if n > 0 {
      BitWordsAreWords(name, mask, n - 1);
    }
  }

  lemma NamedAreWords(name: string, value: nat)
    requires IsWord(name)
    ensures AreWords(Named(name, value))
  {
  }

  lemma RaidWordsAreWords(seg: RaidSegment)
    ensures AreWords(RaidWords(seg))
  {
    NumeralIsWord(seg.stripeSize);
    NamedAreWords("region_size", seg.regionSize);
    NamedAreWords("writebehind", seg.writebehind);
    NamedAreWords("min_recovery_rate", seg.minRecoveryRate);
    NamedAreWords("max_recovery_rate", seg.maxRecoveryRate);
    BitWordsAreWords("rebuild", seg.rebuilds, seg.areaCount / 2);
    BitWordsAreWords("write_mostly", seg.writemostly, seg.areaCount / 2);
    assert IsWord("nosync") && IsWord("sync");
    hide BitWords, Natural, Named, IsWord;
  }

  function RaidTarget(target: string, seg: RaidSegment, size: nat, areas: seq<TableLoad.Area>): TableLoad.Segment {
    var words := [Natural(RaidParamCount(seg))] + RaidWords(seg) + [Natural(seg.areaCount / 2)];
    TableLoad.Segment(TableLoad.Around(true), "raid", size, true, [target] + Pieces(words), areas, [])
  }

  /** The text of a RAID target has the words of its line. */
  lemma RaidText(target: string, seg: RaidSegment, size: nat, areas: seq<TableLoad.Area>)
    requires IsWord(target) && TableLoad.DevicesKnown(areas) && AreWords(Devices(areas))
    ensures Words(TableLoad.Text(RaidTarget(target, seg, size, areas))) == RaidLine(target, seg, Devices(areas))
  {
    hide Words, IsWord, Natural, RaidWords, RaidParamCount, Spaced, Pieces, Devices, TableLoad.AreaText;
    var words := [Natural(RaidParamCount(seg))] + RaidWords(seg) + [Natural(seg.areaCount / 2)];
    var devices := Devices(areas);
    assert [target] + Pieces(words) + [] == [target] + Pieces(words);
    HeadJoined(target, words, []);
    RaidAreas(areas, 0);
    assert devices[0..] == devices;
    SpacedAppend(words, devices);
    RaidWordsAreWords(seg);
    NumeralIsWord(RaidParamCount(seg));
    NumeralIsWord(seg.areaCount / 2);
    SpacedWords(target, words + devices);
    assert target + Spaced(words) + "" + Spaced(devices) + "" == target + (Spaced(words) + Spaced(devices));
    assert [target] + (words + devices) == RaidLine(target, seg, devices);
  }

  lemma {:induction false} LaterAreas(areas: seq<TableLoad.Area>, i: nat)
    requires 0 < i <= |areas| && TableLoad.DevicesKnown(areas)
    ensures TableLoad.AreaText(areas, i, false) == Spaced(TableLoad.AreaWords(areas, i))
    decreases |areas| - i
  {
    hide Natural, TableLoad.AreaText, Spaced;
    if i == |areas| {
      TableLoad.NoMoreAreas(areas);
      NoneSpaced();
    } else {
      LaterAreas(areas, i + 1);
      TableLoad.AreaTextNext(areas, i);
      SpacedPair(areas[i].dev.value, Natural(areas[i].offset), TableLoad.AreaWords(areas, i + 1));
    }
  }

  lemma NoneSpaced()
    ensures Spaced([]) == ""
  {
  }

  lemma MirrorAreas(areas: seq<TableLoad.Area>)
    requires areas != [] && TableLoad.DevicesKnown(areas)
    ensures " " + TableLoad.AreaText(areas, 0, false) == Spaced(TableLoad.AreaWords(areas, 0))
  {
    hide Natural, TableLoad.AreaText, Spaced;
    LaterAreas(areas, 1);
    TableLoad.ListText(areas);
    SpacedPair(areas[0].dev.value, Natural(areas[0].offset), TableLoad.AreaWords(areas, 1));
  }

  lemma SpacedPair(a: string, b: string, more: seq<string>)
    ensures Spaced([a, b] + more) == " " + (a + (" " + (b + Spaced(more))))
  {
    assert ([a, b] + more)[1..] == [b] + more && ([b] + more)[1..] == more;
    assert Spaced([b] + more) == " " + (b + Spaced(more));
  }

  lemma {:induction false} AreaWordsAreWords(areas: seq<TableLoad.Area>, i: nat)
    requires i <= |areas| && TableLoad.DevicesKnown(areas) && TableLoad.DevicesAreWords(areas)
    ensures AreWords(TableLoad.AreaWords(areas, i)) && |TableLoad.AreaWords(areas, i)| == 2 * (|areas| - i)
    decreases |areas| - i
  {
    hide Natural;
    if i < |areas| {
      AreaWordsAreWords(areas, i + 1);
      NumeralIsWord(areas[i].offset);
      assert areas[i] in areas;
      hide IsWord;
    }
  }

  predicate LogIsWords(seg: MirrorSegment)
    requires LogKnown(seg)
  {
    (seg.uuid.Some? ==> IsWord(seg.uuid.value)) && (seg.log.Some? ==> IsWord(seg.log.value.value))
  }

  lemma MirrorWordsAreWords(seg: MirrorSegment, kernel: nat)
    requires LogKnown(seg) && LogIsWords(seg)
    ensures AreWords(MirrorWords(seg, kernel)) && IsWord(MirrorLogType(seg, kernel))
  {
    NumeralIsWord(seg.regionSize);
    assert IsWord("nosync") && IsWord("sync") && IsWord("block_on_error") && IsWord("userspace");
    assert IsWord("clustered-" + "core") && IsWord("clustered-" + "disk") && IsWord("" + "core") && IsWord("" + "disk");
    hide Natural, IsWord, Bit, KernelVersion;
  }

  /** The words before the legs; the last piece has a space after it as well. */
  function MirrorTarget(seg: MirrorSegment, kernel: nat, size: nat, areas: seq<TableLoad.Area>): TableLoad.Segment
    requires seg.flags < TWO32 && LogKnown(seg)
  {
    MirrorCountExact(seg, kernel);
    var words := [Natural(MirrorLogCount(seg, kernel))] + MirrorWords(seg, kernel) + [Natural(|areas|)];
    TableLoad.Segment(TableLoad.Around(false), "mirror", size, true,
                      [MirrorLogType(seg, kernel)] + Pieces(words) + [" "], areas,
                      if BlockOnError(seg) && kernel >= KernelVersion(2, 6, 22) then [" 1 handle_errors"] else [])
  }

  lemma FeatureText(handle: bool)
    ensures TableLoad.Join(if handle then [" 1 handle_errors"] else [])
      == Spaced(if handle then ["1", "handle_errors"] else [])
    ensures AreWords(if handle then ["1", "handle_errors"] else [])
  {
    assert Spaced(["handle_errors"]) == " handle_errors";
    assert " 1" + " handle_errors" == " 1 handle_errors";
  }

  lemma HeadWords(seg: MirrorSegment, kernel: nat, legs: nat)
    requires seg.flags < TWO32 && LogKnown(seg) && LogIsWords(seg)
    ensures MirrorLogCount(seg, kernel) >= 0 && IsWord(MirrorLogType(seg, kernel))
    ensures AreWords([Natural(MirrorLogCount(seg, kernel))] + MirrorWords(seg, kernel) + [Natural(legs)])
  {
    MirrorCountExact(seg, kernel);
    MirrorWordsAreWords(seg, kernel);
    hide IsWord, Natural, Bit, KernelVersion, MirrorWords, MirrorLogType, MirrorLogCount;
    NumeralIsWord(MirrorLogCount(seg, kernel));
    NumeralIsWord(legs);
  }

  /** The text of a segment around a list of legs. */
  lemma AroundLegs(w: string, words: seq<string>, areas: seq<TableLoad.Area>, handle: bool, seg: TableLoad.Segment)
    requires areas != [] && TableLoad.DevicesKnown(areas) && seg.kind == TableLoad.Around(false) && seg.areas == areas
    requires seg.head == [w] + Pieces(words) + [" "] && seg.tail == if handle then [" 1 handle_errors"] else []
    ensures TableLoad.Text(seg) == w + (Spaced(words) + Spaced(TableLoad.AreaWords(areas, 0))
      + Spaced(if handle then ["1", "handle_errors"] else []))
  {
    hide Spaced, Pieces, TableLoad.AreaText, TableLoad.AreaWords, TableLoad.Join;
    HeadJoined(w, words, [" "]);
    OneSpace();
    MirrorAreas(areas);
    FeatureText(handle);
    TextParts(w, Spaced(words), TableLoad.AreaText(areas, 0, false),
      Spaced(if handle then ["1", "handle_errors"] else []));
  }

  /** The text of a mirror target with legs has the words of its line. */
  lemma MirrorText(seg: MirrorSegment, kernel: nat, size: nat, areas: seq<TableLoad.Area>)
    requires seg.flags < TWO32 && LogKnown(seg) && LogIsWords(seg)
    requires areas != [] && TableLoad.DevicesKnown(areas) && TableLoad.DevicesAreWords(areas)
    ensures Words(TableLoad.Text(MirrorTarget(seg, kernel, size, areas)))
      == MirrorLine(seg, kernel, TableLoad.AreaWords(areas, 0))
  {
    hide Words, IsWord, AreWords, Natural, Bit, KernelVersion, LogKnown, LogIsWords, MirrorWords, MirrorLogType,
      MirrorLogCount, Spaced, Pieces, TableLoad.AreaWords, TableLoad.Text, TableLoad.DevicesKnown,
      TableLoad.DevicesAreWords;
    HeadWords(seg, kernel, |areas|);
    var w, count, legs :=
      MirrorLogType(seg, kernel), Natural(MirrorLogCount(seg, kernel)), TableLoad.AreaWords(areas, 0);
    var words := [count] + MirrorWords(seg, kernel) + [Natural(|areas|)];
    var handle := BlockOnError(seg) && kernel >= KernelVersion(2, 6, 22);
    var features := if handle then ["1", "handle_errors"] else [];
    AreaWordsAreWords(areas, 0);
    FeatureText(handle);
    AroundLegs(w, words, areas, handle, MirrorTarget(seg, kernel, size, areas));
    LineText(w, words, legs, features);
    LineWords(w, count, MirrorWords(seg, kernel), Natural(|areas|), legs, features);
  }

  lemma LineWords(a: string, b: string, words: seq<string>, c: string, legs: seq<string>, features: seq<string>)
    ensures [a] + ([b] + words + [c] + legs + features) == [a, b] + words + [c] + legs + features
  {
  }

  lemma OneSpace()
    ensures TableLoad.Join([" "]) == " "
  {
    assert " " + TableLoad.Join([]) == " ";
  }

  lemma TextParts(a: string, b: string, c: string, d: string)
    ensures a + b + " " + c + d == a + (b + (" " + c) + d)
  {
  }
}
