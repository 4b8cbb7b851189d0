/** Loading a table: target parameters printed into a buffer that is doubled until
    they fit, and targets that follow each other (_emit_segment_line, _emit_segment,
    _load_node), and the clamp on thin metadata devices. */
module TableLoad {
  import opened Decimal
  import opened KernelWords
  import opened Wrappers

  const INITIAL_PARAMSIZE: nat := 4096
  const MAX_TARGET_PARAMSIZE: nat := 500000
  const LARGEST_TRIED: nat := 262144

  /** A device area; dev is its number as text, unless it cannot be formatted. */
  datatype Area = Area(dev: Option<string>, offset: nat)

  /** How _emit_segment_line treats a segment type: no parameters (error, zero), its
      own header and the areas (linear, striped, crypt), its own text only
      (snapshots), text from a function whose out-of-space result goes unnoticed
      (thin, thin-pool, cache, bittern), or such text around an area list, where only
      the list must fit (mirror, raid). */
  datatype Kind = Bare | WithAreas | Own | Delegated | Around(raid: bool)

  /** `ready` says that everything else the text needs could be had: the numbers of
      the other devices, the version of the kernel. In a RAID list a missing device
      is "-". */
  datatype Segment = Segment(kind: Kind, target: string, size: nat, ready: bool, head: seq<string>, areas: seq<Area>,
      tail: seq<string>)

  function LinearSegment(size: nat, areas: seq<Area>): Segment {
    Segment(WithAreas, "linear", size, true, [], areas, [])
  }

  function StripedSegment(size: nat, stripeSize: nat, areas: seq<Area>): Segment {
    Segment(WithAreas, "striped", size, true, [Natural(|areas|) + " " + Natural(stripeSize) + " "], areas, [])
  }

  datatype Target = Target(start: nat, size: nat, target: string, params: string)

  // ---- the text without any buffer ----

  function Join(pieces: seq<string>): string {
    if pieces == [] then "" else pieces[0] + Join(pieces[1..])
  }

  function AreaPiece(dev: string, offset: nat, first: bool, raid: bool): string {
    if raid then " " + dev else (if first then "" else " ") + dev + " " + Natural(offset)
  }

  /** The areas from i on, up to the first one without a device number. */
  function AreaText(areas: seq<Area>, i: nat, raid: bool): string
    requires i <= |areas|
    decreases |areas| - i
  {
    if i == |areas| || areas[i].dev.None? then ""
    else AreaPiece(areas[i].dev.value, areas[i].offset, i == 0, raid) + AreaText(areas, i + 1, raid)
  }

  predicate DevicesKnown(areas: seq<Area>) {
    forall i :: 0 <= i < |areas| ==> areas[i].dev.Some?
  }

  function Text(seg: Segment): string {
    match seg.kind
    case Bare => ""
    case WithAreas => Join(seg.head) + AreaText(seg.areas, 0, false)
    case Own => Join(seg.head)
    case Delegated => Join(seg.head)
    case Around(raid) => Join(seg.head) + AreaText(seg.areas, 0, raid) + Join(seg.tail)
  }

  lemma {:induction false} JoinAppend(pieces: seq<string>, i: nat)
    requires i < |pieces|
    ensures Join(pieces[i..]) == pieces[i] + Join(pieces[i + 1..])
  {
    assert pieces[i..][1..] == pieces[i + 1..];
  }

  // ---- the text as the kernel reads it ----

  /** Each area as a device and an offset. */
  function AreaWords(areas: seq<Area>, i: nat): seq<string>
    requires i <= |areas| && DevicesKnown(areas)
    decreases |areas| - i
  {
    if i == |areas| then [] else [areas[i].dev.value, Natural(areas[i].offset)] + AreaWords(areas, i + 1)
  }

  predicate DevicesAreWords(areas: seq<Area>)
    requires DevicesKnown(areas)
  {
    forall a <- areas :: IsWord(a.dev.value)
  }

  lemma NoMoreAreas(areas: seq<Area>)
    ensures AreaText(areas, |areas|, false) == ""
  {
  }

  lemma AreaTextNext(areas: seq<Area>, i: nat)
    requires 0 < i < |areas| && DevicesKnown(areas)
    ensures AreaText(areas, i, false)
      == " " + (areas[i].dev.value + (" " + (Natural(areas[i].offset) + AreaText(areas, i + 1, false))))
  {
    hide Natural;
    Regrouped(areas[i].dev.value, Natural(areas[i].offset), AreaText(areas, i + 1, false));
  }

  lemma Regrouped(dev: string, offset: string, rest: string)
    ensures " " + dev + " " + offset + rest == " " + (dev + (" " + (offset + rest)))
  {
  }

  /** A word followed by the areas from i on. */
  lemma {:induction false} AreasAfter(w: string, areas: seq<Area>, i: nat)
    requires IsWord(w) && 0 < i <= |areas| && DevicesKnown(areas) && DevicesAreWords(areas)
    ensures Words(w + AreaText(areas, i, false)) == [w] + AreaWords(areas, i)
    decreases |areas| - i
  {
    hide Words, IsWord, Natural, AreaText;
    if i == |areas| {
      NoMoreAreas(areas);
      assert w + "" == w;
      OneWord(w);
    } else {
      var dev, offset, rest := areas[i].dev.value, Natural(areas[i].offset), AreaText(areas, i + 1, false);
      assert areas[i] in areas;
      NumeralIsWord(areas[i].offset);
      AreasAfter(offset, areas, i + 1);
      WordsNext(dev, offset + rest);
      WordsNext(w, dev + (" " + (offset + rest)));
      AreaTextNext(areas, i);
    }
  }

  lemma ListText(areas: seq<Area>)
    requires areas != [] && DevicesKnown(areas)
    ensures AreaText(areas, 0, false)
      == areas[0].dev.value + (" " + (Natural(areas[0].offset) + AreaText(areas, 1, false)))
  {
    hide Natural;
    var dev, offset, rest := areas[0].dev.value, Natural(areas[0].offset), AreaText(areas, 1, false);
    assert "" + dev == dev;
    assert dev + " " + offset + rest == dev + (" " + (offset + rest));
  }

  lemma ListWords(areas: seq<Area>)
    requires areas != [] && DevicesKnown(areas) && DevicesAreWords(areas)
    ensures Words(AreaText(areas, 0, false)) == AreaWords(areas, 0)
  {
    hide Words, IsWord, Natural, AreaText;
    assert areas[0] in areas;
    NumeralIsWord(areas[0].offset);
    AreasAfter(Natural(areas[0].offset), areas, 1);
    WordsNext(areas[0].dev.value, Natural(areas[0].offset) + AreaText(areas, 1, false));
    ListText(areas);
  }

  lemma HeadText(head: string, list: string)
    ensures Join([]) + list == list && Join([head]) + list == head + list
  {
    assert Join([]) + list == list;
    assert head + "" == head;
  }

  /** The kernel reads a linear target as a list of devices and offsets. */
  lemma LinearWords(size: nat, areas: seq<Area>)
    requires areas != [] && DevicesKnown(areas) && DevicesAreWords(areas)
    ensures Words(Text(LinearSegment(size, areas))) == AreaWords(areas, 0)
  {
    hide Words, IsWord, Natural, AreaText, AreaWords, Join;
    HeadText("", AreaText(areas, 0, false));
    ListWords(areas);
  }

  /** A striped target, as the number of stripes, their size and the same list. */
  lemma StripedWords(size: nat, stripeSize: nat, areas: seq<Area>)
    requires areas != [] && DevicesKnown(areas) && DevicesAreWords(areas)
    ensures Words(Text(StripedSegment(size, stripeSize, areas)))
      == [Natural(|areas|), Natural(stripeSize)] + AreaWords(areas, 0)
  {
    hide Words, IsWord, Natural, AreaText, AreaWords, Text;
    var count, stripe, list := Natural(|areas|), Natural(stripeSize), AreaText(areas, 0, false);
    ListWords(areas);
    NumeralIsWord(|areas|);
    NumeralIsWord(stripeSize);
    WordsNext(stripe, list);
    WordsNext(count, stripe + (" " + list));
    StripedText(size, stripeSize, areas);
  }

  lemma StripedText(size: nat, stripeSize: nat, areas: seq<Area>)
    ensures Text(StripedSegment(size, stripeSize, areas))
      == Natural(|areas|) + (" " + (Natural(stripeSize) + (" " + AreaText(areas, 0, false))))
  {
    hide Natural, AreaText, Join;
    var count, stripe, list := Natural(|areas|), Natural(stripeSize), AreaText(areas, 0, false);
    HeadText(count + " " + stripe + " ", list);
    TwoWords(count, stripe, list);
  }

  lemma TwoWords(count: string, stripe: string, list: string)
    ensures count + " " + stripe + " " + list == count + (" " + (stripe + (" " + list)))
  {
  }

  /** What a buffer of that size holds of a text. */
  function Cut(text: string, size: nat): string
    requires size > 0
  {
    if |text| < size then text else text[..size - 1]
  }

  /** char *params with its size; the text always leaves room for the terminator. */
  class Params {
    const size: nat
    var text: string

    ghost predicate Valid()
      reads this
    {
      |text| < size
    }

    constructor (size: nat)
      requires size > 0
      ensures Valid() && this.size == size && text == ""
    {
      this.size := size;
      text := "";
    }

    /** EMIT_PARAMS: dm_snprintf keeps what fits and reports the rest. */
    method Emit(piece: string) returns (ok: bool)
      requires Valid()
      modifies this
      ensures Valid() && (ok <==> |old(text)| + |piece| < size)
      ensures text == Cut(old(text) + piece, size)
    {
      ok := |text| + |piece| < size;
      text := if ok then text + piece else (text + piece)[..size - 1];
    }

    method EmitAll(pieces: seq<string>) returns (ok: bool)
      requires Valid()
      modifies this
      ensures Valid() && (ok <==> |old(text)| + |Join(pieces)| < size)
      ensures text == Cut(old(text) + Join(pieces), size)
    {
      ghost var whole := text + Join(pieces);
      assert pieces[0..] == pieces;
      for i := 0 to |pieces|
        invariant Valid() && text + Join(pieces[i..]) == whole
      {
        JoinAppend(pieces, i);
        ghost var rest := Join(pieces[i + 1..]);
        ghost var next := text + pieces[i];
        assert next + rest == whole;
        ok := Emit(pieces[i]);
        if !ok {
          assert whole[..size - 1] == next[..size - 1];
          return;
        }
      }
      assert Join(pieces[|pieces|..]) == "";
      return true;
    }

    /** _emit_areas_line: 1 on success, 0 for an area without device number, -1 when out
        of space. */
    method EmitAreas(areas: seq<Area>, raid: bool) returns (r: int)
      requires Valid()
      modifies this
      ensures Valid() && r in {-1, 0, 1}
      ensures r == -1 <==> |old(text)| + |AreaText(areas, 0, raid)| >= size
      ensures r == 0 ==> !DevicesKnown(areas)
      ensures r == 1 ==> DevicesKnown(areas) && text == old(text) + AreaText(areas, 0, raid)
    {
      ghost var whole := text + AreaText(areas, 0, raid);
      for i := 0 to |areas|
        invariant Valid() && text + AreaText(areas, i, raid) == whole
        invariant forall j :: 0 <= j < i ==> areas[j].dev.Some?
      {
        if areas[i].dev.None? {
          return 0;
        }
        var piece := AreaPiece(areas[i].dev.value, areas[i].offset, i == 0, raid);
        assert (text + piece) + AreaText(areas, i + 1, raid) == whole;
        var ok := Emit(piece);
        if !ok {
          return -1;
        }
      }
      return 1;
    }
  }

  predicate Hidden(kind: Kind) {
    kind.Delegated? || kind.Around?
  }

  ghost predicate EmittedWith(seg: Segment, start: nat, size: nat, t: Target) {
    size > 0 && t == Target(start, seg.size, seg.target, Cut(Text(seg), size))
  }

  /** The target that a successfully emitted segment becomes: with its whole text, or
      with what the first buffer holds of it where being out of space is hidden. */
  ghost predicate Emitted(seg: Segment, start: nat, t: Target) {
    t == Target(start, seg.size, seg.target, if Hidden(seg.kind) then Cut(Text(seg), INITIAL_PARAMSIZE) else Text(seg))
  }

  /** The result of _emit_segment_line in a buffer of that size, when no allocation fails. */
  function Outcome(seg: Segment, size: nat): int {
    match seg.kind
    case Bare => 1
    case WithAreas =>
      if |Text(seg)| >= size then -1 else if DevicesKnown(seg.areas) && Text(seg) != "" then 1 else 0
    case Own => if !seg.ready then 0 else if |Text(seg)| >= size then -1 else 1
    case Delegated => if seg.ready then 1 else 0
    case Around(raid) =>
      if !seg.ready then 0
      else if |Join(seg.head)| >= size then 1
      else if |Join(seg.head) + AreaText(seg.areas, 0, raid)| < size && DevicesKnown(seg.areas) then 1
      else 0
  }

  /** Can the segment be emitted at all? An area list of a mirror or RAID segment that
      does not fit the first buffer makes it fail, other text there is just cut. */
  predicate Emittable(seg: Segment) {
    match seg.kind
    case Bare => true
    case WithAreas => DevicesKnown(seg.areas) && Text(seg) != "" && |Text(seg)| < LARGEST_TRIED
    case Own => seg.ready && |Text(seg)| < LARGEST_TRIED
    case Delegated => seg.ready
    case Around(raid) =>
      && seg.ready
      && (|Join(seg.head)| >= INITIAL_PARAMSIZE
          || (DevicesKnown(seg.areas) && |Join(seg.head) + AreaText(seg.areas, 0, raid)| < INITIAL_PARAMSIZE))
  }

  /** A head that does not fit hides the rest of the text. */
  lemma AroundText(seg: Segment, size: nat)
    requires seg.kind.Around? && size > 0
    ensures Text(seg) == Join(seg.head) + AreaText(seg.areas, 0, seg.kind.raid) + Join(seg.tail)
    ensures |Join(seg.head)| >= size ==> Cut(Text(seg), size) == Cut(Join(seg.head), size)
    ensures |Join(seg.head)| < size ==> Cut(Join(seg.head), size) == Join(seg.head)
  {
    hide AreaText, Join;
    var head := Join(seg.head);
    if |head| >= size {
      var rest := AreaText(seg.areas, 0, seg.kind.raid) + Join(seg.tail);
      assert Text(seg) == head + rest;
      assert (head + rest)[..size - 1] == head[..size - 1];
    }
  }

  /** n areas of one device. */
  function Repeated(n: nat): seq<Area> {
    seq(n, _ => Area(Some("253:1234"), 0))
  }

  lemma {:induction false} RepeatedText(n: nat, i: nat, raid: bool)
    requires i <= n
    ensures |AreaText(Repeated(n), i, raid)| == if raid then 9 * (n - i) else 11 * (n - i) - if i == 0 < n then 1 else 0
    decreases n - i
  {
    if i < n {
      RepeatedText(n, i + 1, raid);
      assert Natural(0) == "0";
    }
  }

  lemma RepeatedKnown(n: nat)
    ensures DevicesKnown(Repeated(n))
  {
  }

  /** 500 RAID devices are refused; a linear target with as many areas, whose text is
      longer, is not. */
  lemma LongListRefused(size: nat, head: seq<string>)
    requires |Join(head)| < INITIAL_PARAMSIZE
    ensures !Emittable(Segment(Around(true), "raid", size, true, head, Repeated(500), []))
    ensures Emittable(LinearSegment(size, Repeated(500)))
  {
    hide AreaText, Join, Repeated;
    RepeatedText(500, 0, true);
    RepeatedText(500, 0, false);
    RepeatedKnown(500);
    HeadText("", AreaText(Repeated(500), 0, false));
  }

  lemma FoundRoom(seg: Segment, start: nat, size: nat, t: Target)
    requires INITIAL_PARAMSIZE <= size <= LARGEST_TRIED && (Hidden(seg.kind) ==> size == INITIAL_PARAMSIZE)
    requires Outcome(seg, size) == 1 && EmittedWith(seg, start, size, t)
    ensures Emitted(seg, start, t) && Emittable(seg)
  {
  }

  function TotalSize(segs: seq<Segment>): nat {
    if segs == [] then 0 else TotalSize(segs[..|segs| - 1]) + segs[|segs| - 1].size
  }

  /** struct dm_task, as far as its list of targets goes. */
  class Task {
    const faulty: bool          // whether allocations may fail
    var targets: seq<Target>

    constructor (faulty: bool)
      ensures this.faulty == faulty && targets == []
    {
      this.faulty, targets := faulty, [];
    }

    method Allocated() returns (ok: bool)
      ensures !faulty ==> ok
    {
      ok := *;
      ok := ok || !faulty;
    }

    /** _emit_segment_line: 1 when the target was added, -1 when out of space. */
    method EmitSegmentLine(seg: Segment, start: nat, params: Params) returns (r: int)
      requires params.Valid() && params.text == ""
      modifies this, params
      ensures r == Outcome(seg, params.size) || (r == 0 && faulty)
      ensures r != 1 ==> targets == old(targets)
      ensures r == 1 ==> |targets| == |old(targets)| + 1 && targets[..|old(targets)|] == old(targets)
                         && EmittedWith(seg, start, params.size, targets[|old(targets)|])
    {
      hide AreaText, Join;
      r := WriteParams(seg, params);
      if r <= 0 {
        return;
      }
      var ok := Allocated();
      if !ok {
        return 0;
      }
      targets := targets + [Target(start, seg.size, seg.target, params.text)];
      return 1;
    }

    /** The text that goes into the buffer. */
    method WriteParams(seg: Segment, params: Params) returns (r: int)
      requires params.Valid() && params.text == ""
      modifies params
      ensures r == Outcome(seg, params.size)
      ensures r == 1 ==> params.text == Cut(Text(seg), params.size)
    {
      hide AreaText, Join;
      match seg.kind {
        case Bare =>
        case Delegated =>
          if !seg.ready {
            return 0;
          }
          var _ := params.EmitAll(seg.head);
          assert "" + Join(seg.head) == Join(seg.head);
        case Around(raid) =>
          r := WriteAround(seg, params);
          return;
        case Own =>
          if !seg.ready {
            return 0;
          }
          var ok := params.EmitAll(seg.head);
          assert "" + Join(seg.head) == Join(seg.head);
          if !ok {
            return -1;
          }
        case WithAreas =>
          var ok := params.EmitAll(seg.head);
          assert "" + Join(seg.head) == Join(seg.head);
          if !ok {
            return -1;
          }
          r := params.EmitAreas(seg.areas, false);
          if r <= 0 {
            return;
          }
          if params.text == "" {
            return 0;
          }
      }
      return 1;
    }

    /** _mirror_emit_segment_line and _raid_emit_segment_line. */
    method WriteAround(seg: Segment, params: Params) returns (r: int)
      requires params.Valid() && params.text == "" && seg.kind.Around?
      modifies params
      ensures r == Outcome(seg, params.size)
      ensures r == 1 ==> params.text == Cut(Text(seg), params.size)
    {
      hide AreaText, Join, Text, Cut;
      if !seg.ready {
        return 0;
      }
      assert "" + Join(seg.head) == Join(seg.head);
      var ok := params.EmitAll(seg.head);
      AroundText(seg, params.size);
      if !ok {
        return 1;
      }
      r := params.EmitAreas(seg.areas, seg.kind.raid);
      if r <= 0 {
        return 0;
      }
      ok := params.EmitAll(seg.tail);
      return 1;
    }

    /** _emit_segment: retries with twice the space. */
    method EmitSegment(seg: Segment, start: nat) returns (ok: bool)
      modifies this
      ensures !ok ==> targets == old(targets)
      ensures ok ==> |targets| == |old(targets)| + 1 && targets[..|old(targets)|] == old(targets)
                     && Emitted(seg, start, targets[|old(targets)|])
      ensures ok ==> Emittable(seg)
      ensures !ok && !faulty ==> !Emittable(seg)
    {
      hide Text, AreaText, Join;
      var size := INITIAL_PARAMSIZE;
      var r := -1;
      while r < 0 && size < MAX_TARGET_PARAMSIZE
        invariant size in {4096, 8192, 16384, 32768, 65536, 131072, 262144, 524288}
        invariant r < 0 ==> targets == old(targets)
        invariant r < 0 && size > INITIAL_PARAMSIZE ==>
          (seg.kind.WithAreas? || seg.kind.Own?) && |Text(seg)| >= size / 2
        invariant r <= 1 && (r == 0 ==> targets == old(targets) && (!faulty ==> !Emittable(seg)))
        invariant r == 1 ==> |targets| == |old(targets)| + 1 && targets[..|old(targets)|] == old(targets)
                             && Emitted(seg, start, targets[|old(targets)|]) && Emittable(seg)
        decreases if r < 0 then MAX_TARGET_PARAMSIZE - size + 1 else 0
      {
        ok := Allocated();
        if !ok {
          return false;
        }
        var params := new Params(size);
        r := EmitSegmentLine(seg, start, params);
        if r < 0 {
          size := size * 2;
        } else if r == 1 {
          FoundRoom(seg, start, size, targets[|old(targets)|]);
        }
      }
      ok := r == 1;
    }

    /** The segment loop of _load_node: the targets follow each other from sector
        zero, one for each segment. */
    method LoadSegments(segs: seq<Segment>) returns (ok: bool, total: nat)
      requires targets == []
      modifies this
      ensures ok ==> |targets| == |segs| && total == TotalSize(segs)
      ensures ok ==> forall i :: 0 <= i < |segs| ==> Emitted(segs[i], TotalSize(segs[..i]), targets[i])
      ensures !faulty ==> (ok <==> forall i :: 0 <= i < |segs| ==> Emittable(segs[i]))
    {
      hide Emitted, Emittable, TotalSize, LaidOut;
      total := 0;
      NothingLaidOut(segs);
      for i := 0 to |segs|
        invariant |targets| == i && total == TotalSize(segs[..i]) && LaidOut(segs, targets, i)
      {
        ghost var before := targets;
        ok := EmitSegment(segs[i], total);
        if !ok {
          return;
        }
        LaidOutNext(segs, before, targets, i);
        total := total + segs[i].size;
      }
      AllLaidOut(segs, targets);
      ok := true;
    }
  }

  /** The first n segments stand in the table, each where those before it end. */
  ghost predicate LaidOut(segs: seq<Segment>, targets: seq<Target>, n: nat) {
    && n <= |segs| && n <= |targets|
    && forall j :: 0 <= j < n ==> Emitted(segs[j], TotalSize(segs[..j]), targets[j]) && Emittable(segs[j])
  }

  lemma NothingLaidOut(segs: seq<Segment>)
    ensures LaidOut(segs, [], 0) && TotalSize(segs[..0]) == 0
  {
  }

  lemma LaidOutNext(segs: seq<Segment>, before: seq<Target>, after: seq<Target>, n: nat)
    requires n < |segs| && LaidOut(segs, before, n) && |before| == n && |after| == n + 1 && after[..n] == before
    requires Emitted(segs[n], TotalSize(segs[..n]), after[n]) && Emittable(segs[n])
    ensures LaidOut(segs, after, n + 1) && TotalSize(segs[..n + 1]) == TotalSize(segs[..n]) + segs[n].size
  {
    hide Emitted, Emittable;
    assert segs[..n + 1][..n] == segs[..n];
    assert forall j :: 0 <= j < n ==> after[j] == after[..n][j];
  }

  lemma AllLaidOut(segs: seq<Segment>, targets: seq<Target>)
    requires LaidOut(segs, targets, |segs|)
    ensures forall j :: 0 <= j < |segs| ==> Emitted(segs[j], TotalSize(segs[..j]), targets[j]) && Emittable(segs[j])
    ensures segs[..|segs|] == segs
  {
  }

  /** Contiguity in the kernel's terms: each target starts where the one before ends. */
  lemma TargetsContiguous(segs: seq<Segment>, targets: seq<Target>, i: nat)
    requires |targets| == |segs| && i + 1 < |segs|
    requires forall j :: 0 <= j < |segs| ==> Emitted(segs[j], TotalSize(segs[..j]), targets[j])
    ensures targets[0].start == 0 && targets[i + 1].start == targets[i].start + targets[i].size
  {
    assert segs[..i + 1][..i] == segs[..i];
    assert segs[..0] == [];
    assert Emitted(segs[0], TotalSize(segs[..0]), targets[0]) && Emitted(segs[i], TotalSize(segs[..i]), targets[i]);
    assert Emitted(segs[i + 1], TotalSize(segs[..i + 1]), targets[i + 1]);
  }

  // ---- the metadata clamp ----

  const MAX_METADATA_SIZE: nat := 255 * 16384 * 8 - 256 * 1024

  function Sum(s: seq<nat>): nat {
    if s == [] then 0 else Sum(s[..|s| - 1]) + s[|s| - 1]
  }

  function Min(a: nat, b: nat): nat {
    if a < b then a else b
  }

  /** How much of segment i is within the limit. */
  ghost function Share(sizes: seq<nat>, i: nat): int
    requires i < |sizes|
  {
    Min(Sum(sizes[..i + 1]), MAX_METADATA_SIZE) - Min(Sum(sizes[..i]), MAX_METADATA_SIZE)
  }

  lemma ShareNext(sizes: seq<nat>, i: nat)
    requires i < |sizes|
    ensures Sum(sizes[..i + 1]) == Sum(sizes[..i]) + sizes[i]
  {
    assert sizes[..i + 1][..i] == sizes[..i];
  }

  /** The segment loop of dm_tree_node_add_thin_pool_target: the first segments keep
      their size, one may be cut, the rest become empty, and the total is what
      fits. */
  method ClampMetadata(sizes: array<nat>)
    modifies sizes
    ensures Sum(sizes[..]) == Min(Sum(old(sizes[..])), MAX_METADATA_SIZE)
    ensures forall i :: 0 <= i < sizes.Length ==> sizes[i] == Share(old(sizes[..]), i)
  {
    ghost var was := sizes[..];
    var devsize: nat := 0;
    for i := 0 to sizes.Length
      invariant forall j :: i <= j < sizes.Length ==> sizes[j] == was[j]
      invariant devsize == Min(Sum(was[..i]), MAX_METADATA_SIZE) == Sum(sizes[..i])
      invariant forall j :: 0 <= j < i ==> sizes[j] == Share(was, j)
    {
      ghost var before := sizes[..i];
      ShareNext(was, i);
      devsize := devsize + sizes[i];
      if devsize > MAX_METADATA_SIZE {
        sizes[i] := sizes[i] - (devsize - MAX_METADATA_SIZE);
        devsize := MAX_METADATA_SIZE;
      }
      assert sizes[..i + 1][..i] == before;
    }
    assert was[..sizes.Length] == was && sizes[..sizes.Length] == sizes[..];
  }
}
