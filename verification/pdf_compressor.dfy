/** The PDF compressor page: a list of PDFs with a target size, a
    feasibility rule (the target must be at least a tenth of the original)
    and a simulated run that walks each feasible entry's size from the
    original down to the target in ten-percent steps. */
module PdfCompressor {
  import opened Common
  import opened JsNumber
  import opened Batch

  datatype Level = Low | Medium | High

  datatype Status = Pending | Processing | Completed | Error

  /** One listed PDF; sizes are in bytes. */
  datatype Entry = Entry(
    name: string,
    size: nat,
    status: Status,
    progress: int,
    targetSize: Num,
    level: Level,
    originalSize: nat,
    compressedSize: Num,
    error: Option<string>)

  /** The page: its list, the compression level, the target size in KB
      and the page-level error. */
  datatype State = State(files: seq<Entry>, level: Level, targetKb: Num, error: Option<string>)

  /** A file as the drop zone hands it over. */
  datatype DroppedFile = DroppedFile(name: string, size: nat)

  const TooSmallMessage := "Target size too small. Minimum size is 10% of original."

  /** The smallest target the size field accepts, in KB. */
  const MinTargetKb := Finite(100.0)

  /** An empty list, medium level, a 1000 KB target. */
  const Initial := State([], Medium, Finite(1000.0), None)

  /** Kilobytes to bytes. */
  function TargetBytes(kb: Num): Num
  {
    Mul(kb, Finite(1024.0))
  }

  // ----- settings -------------------------------------------------------

  /** The target the page holds is one the size field would accept. */
  predicate ValidTarget(s: State)
  {
    AtLeast(s.targetKb, MinTargetKb)
  }

  /** The target-size field: a value of at least 100 KB replaces the
      target; anything smaller, or not a number, is ignored. */
  function SetTargetSize(s: State, value: Num): (r: State)
    ensures AtLeast(value, MinTargetKb) ==> r.targetKb == value
    ensures r.targetKb != s.targetKb ==> r.targetKb == value && AtLeast(value, MinTargetKb)
    ensures ValidTarget(s) ==> ValidTarget(r)
    ensures r.files == s.files && r.level == s.level && r.error == s.error
  {
    if AtLeast(value, MinTargetKb) then s.(targetKb := value) else s
  }

  /** The level slider's position for a level. */
  function LevelToSlider(l: Level): (v: int)
    ensures 0 <= v <= 2
  {
    match l
    case Low => 0
    case Medium => 1
    case High => 2
  }

  /** The level for a slider position; the slider only offers 0, 1 and 2. */
  function SliderToLevel(v: int): (l: Level)
    requires 0 <= v <= 2
    ensures LevelToSlider(l) == v
  {
    [Low, Medium, High][v]
  }

  /** Reading the slider back gives the level that positioned it. */
  lemma LevelSliderRoundTrip(l: Level)
    ensures SliderToLevel(LevelToSlider(l)) == l
  {
  }

  // ----- the list -------------------------------------------------------

  /** The entry a dropped file gets: pending, nothing compressed yet, the
      current level and target snapshotted. */
  function NewEntry(s: State, f: DroppedFile): Entry
  {
    Entry(f.name, f.size, Pending, 0, TargetBytes(s.targetKb), s.level, f.size, Finite(0.0), None)
  }

  /** `e` is what dropping `f` onto page `s` should list: the file's name
      and size as both size and original size, pending, no progress, no
      compressed size, no error, and the page's level and target (in bytes)
      at that moment. */
  predicate FreshEntry(s: State, f: DroppedFile, e: Entry)
  {
    && e.name == f.name && e.size == f.size && e.originalSize == f.size
    && e.status == Pending && e.progress == 0 && e.compressedSize == Finite(0.0)
    && e.targetSize == Mul(s.targetKb, Finite(1024.0)) && e.level == s.level
    && e.error.None?
  }

  /** `onDrop`: clears the page error and appends one entry per file after
      the existing ones. */
  function OnDrop(s: State, dropped: seq<DroppedFile>): (r: State)
    ensures Appended(s.files, r.files, |dropped|)
    ensures forall k :: 0 <= k < |dropped| ==> FreshEntry(s, dropped[k], r.files[|s.files| + k])
    ensures r.error.None? && r.level == s.level && r.targetKb == s.targetKb
  {
    s.(files := s.files + seq(|dropped|, k requires 0 <= k < |dropped| => NewEntry(s, dropped[k])), error := None)
  }

  /** The delete button of entry `index`. */
  function RemoveFile(s: State, index: int): (r: State)
    ensures RemovedAt(s.files, index, r.files)
    ensures r.level == s.level && r.targetKb == s.targetKb && r.error == s.error
  {
    s.(files := RemoveAt(s.files, index))
  }

  // ----- the compression run -------------------------------------------

  /** The target can be reached: it is not below a tenth of the original. */
  predicate Feasible(targetBytes: Num, originalSize: nat)
  {
    !Less(targetBytes, Mul(FromInt(originalSize), Finite(0.1)))
  }

  /** How much of the original the target keeps. */
  function Ratio(targetBytes: Num, originalSize: nat): Num
  {
    Div(targetBytes, FromInt(originalSize))
  }

  /** The size shown at `progress` percent:
      round(original * (1 - progress/100 * (1 - ratio))). */
  function SizeAt(originalSize: nat, ratio: Num, progress: int): Num
  {
    Round(Mul(FromInt(originalSize),
      Sub(Finite(1.0), Mul(Finite(progress as real / 100.0), Sub(Finite(1.0), ratio)))))
  }

  /** The size recorded on completion: round(original * ratio). */
  function FinalSize(originalSize: nat, ratio: Num): Num
  {
    Round(Mul(FromInt(originalSize), ratio))
  }

  /** The updates the run makes to one entry. */
  datatype Update = Reject | Tick(progress: int) | Finish

  function ApplyUpdate(e: Entry, u: Update, targetBytes: Num): Entry
  {
    match u
    case Reject => e.(status := Error, error := Some(TooSmallMessage))
    case Tick(p) => e.(progress := p, compressedSize := SizeAt(e.originalSize, Ratio(targetBytes, e.originalSize), p))
    case Finish => e.(progress := 100, status := Completed, compressedSize := FinalSize(e.originalSize, Ratio(targetBytes, e.originalSize)))
  }

  /** Progress 0, 10, ..., 100. */
  const Ticks: seq<Update> := [Tick(0), Tick(10), Tick(20), Tick(30), Tick(40), Tick(50),
                               Tick(60), Tick(70), Tick(80), Tick(90), Tick(100)]

  /** An infeasible entry is rejected and gets nothing more; a feasible one
      gets the eleven progress updates and then completes. */
  function FileUpdates(e: Entry, targetBytes: Num): seq<Update>
  {
    if Feasible(targetBytes, e.originalSize) then Ticks + [Finish] else [Reject]
  }

  /** The entry after the first `j` of its updates. */
  function During(e: Entry, targetBytes: Num, j: nat): Entry
    requires j <= |FileUpdates(e, targetBytes)|
  {
    Replay(e, FileUpdates(e, targetBytes)[..j], (x, u) => ApplyUpdate(x, u, targetBytes))
  }

  /** The entry once the run is through with it. */
  function Done(e: Entry, targetBytes: Num): Entry
  {
    Replay(e, FileUpdates(e, targetBytes), (x, u) => ApplyUpdate(x, u, targetBytes))
  }

  /** What the run first does to every entry. */
  function Begin(e: Entry): Entry
  {
    e.(status := Processing, progress := 0, error := None)
  }

  /** The compress button is shown only for a non-empty list, and is
      disabled while any entry is processing. */
  predicate CanCompress(s: State)
  {
    |s.files| > 0 && forall k :: 0 <= k < |s.files| ==> s.files[k].status != Processing
  }

  /** The list after the first step of `handleCompress`. */
  function StartAll(files: seq<Entry>): (r: seq<Entry>)
    ensures |r| == |files|
    ensures forall k :: 0 <= k < |files| ==>
      r[k].status == Processing && r[k].progress == 0 && r[k].error.None?
    ensures forall k :: 0 <= k < |files| ==>
      r[k] == files[k].(status := Processing, progress := 0, error := None)
  {
    MapAll(files, Begin)
  }

  /** The page while the run is at entry `i`, `j` of its updates made: the
      entries before `i` are done, the ones after it only started. */
  function Snapshot(s: State, i: nat, j: nat): (r: seq<Entry>)
    requires i < |s.files|
    requires j <= |FileUpdates(s.files[i], TargetBytes(s.targetKb))|
    ensures |r| == |s.files|
    ensures forall k :: 0 <= k < i ==> r[k] == Done(Begin(s.files[k]), TargetBytes(s.targetKb))
    ensures forall k :: i < k < |s.files| ==> r[k] == Begin(s.files[k])
    ensures r[i] == During(Begin(s.files[i]), TargetBytes(s.targetKb), j)
  {
    MapAt(FinishInOrder(StartAll(s.files), i, e => Done(e, TargetBytes(s.targetKb))), i,
      _ => During(Begin(s.files[i]), TargetBytes(s.targetKb), j))
  }

  /** `handleCompress` run to the end: it clears the page error, starts
      every entry and then finishes them one at a time in index order,
      each against the page's current target. */
  function Compress(s: State): (r: State)
    ensures !CanCompress(s) ==> r == s
    ensures CanCompress(s) ==> |r.files| == |s.files| && r.error.None?
    ensures CanCompress(s) ==> forall k :: 0 <= k < |s.files| ==>
      r.files[k] == Done(Begin(s.files[k]), TargetBytes(s.targetKb))
    ensures r.level == s.level && r.targetKb == s.targetKb
  {
    if !CanCompress(s) then s
    else
      s.(files := FinishInOrder(StartAll(s.files), |s.files|, e => Done(e, TargetBytes(s.targetKb))), error := None)
  }

  /** Starting an entry does not change which updates it gets. */
  lemma BeginKeepsUpdates(e: Entry, targetBytes: Num)
    ensures FileUpdates(Begin(e), targetBytes) == FileUpdates(e, targetBytes)
  {
  }

  /** An entry with all its updates made is done; with none, untouched. */
  lemma DuringEnds(e: Entry, targetBytes: Num)
    ensures During(e, targetBytes, |FileUpdates(e, targetBytes)|) == Done(e, targetBytes)
    ensures During(e, targetBytes, 0) == e
  {
    var us := FileUpdates(e, targetBytes);
    assert us[..|us|] == us;
    assert us[..0] == [];
  }

  /** The run hands over from one entry to the next without a gap: the
      page once entry `i` has had all its updates is the page before entry
      `i + 1` has had any. */
  lemma SnapshotHandOver(s: State, i: nat)
    requires i + 1 < |s.files|
    ensures Snapshot(s, i, |FileUpdates(s.files[i], TargetBytes(s.targetKb))|) == Snapshot(s, i + 1, 0)
  {
    var t := TargetBytes(s.targetKb);
    BeginKeepsUpdates(s.files[i], t);
    DuringEnds(Begin(s.files[i]), t);
    DuringEnds(Begin(s.files[i + 1]), t);
    var a := Snapshot(s, i, |FileUpdates(s.files[i], t)|);
    var b := Snapshot(s, i + 1, 0);
    forall k | 0 <= k < |s.files| ensures a[k] == b[k] {
      if k == i {
        assert a[k] == Done(Begin(s.files[i]), t);
      } else if k == i + 1 {
        assert b[k] == Begin(s.files[i + 1]);
      }
    }
  }

  /** The last step of the run is the list `Compress` ends with. */
  lemma SnapshotEnd(s: State)
    requires CanCompress(s)
    ensures Snapshot(s, |s.files| - 1, |FileUpdates(s.files[|s.files| - 1], TargetBytes(s.targetKb))|)
         == Compress(s).files
  {
    var t := TargetBytes(s.targetKb);
    var n := |s.files| - 1;
    BeginKeepsUpdates(s.files[n], t);
    DuringEnds(Begin(s.files[n]), t);
  }

  // ----- what the run does to one entry --------------------------------

  /** A run of progress updates touches only progress and size, and leaves
      the last one's values. */
  lemma {:induction false} ReplayTicks(e: Entry, us: seq<Update>, targetBytes: Num)
    requires forall k :: 0 <= k < |us| ==> us[k].Tick?
    ensures var x := Replay(e, us, (x, u) => ApplyUpdate(x, u, targetBytes));
      && (|us| == 0 ==> x == e)
      && (|us| > 0 ==> x == e.(progress := us[|us| - 1].progress,
            compressedSize := SizeAt(e.originalSize, Ratio(targetBytes, e.originalSize), us[|us| - 1].progress)))
  {
    if |us| > 0 {
      ReplayTicks(e, us[..|us| - 1], targetBytes);
    }
  }

  /** An entry whose target is too small ends in error with the message
      and nothing else changed; a feasible one ends completed at 100 with
      the final size. */
  lemma DoneOutcome(e: Entry, targetBytes: Num)
    ensures !Feasible(targetBytes, e.originalSize) ==>
      Done(e, targetBytes) == e.(status := Error, error := Some(TooSmallMessage))
    ensures Feasible(targetBytes, e.originalSize) ==>
      Done(e, targetBytes) == e.(status := Completed, progress := 100,
        compressedSize := FinalSize(e.originalSize, Ratio(targetBytes, e.originalSize)))
  {
    var apply := (x, u) => ApplyUpdate(x, u, targetBytes);
    if Feasible(targetBytes, e.originalSize) {
      var us := Ticks + [Finish];
      assert us[..|us| - 1] == Ticks;
      ReplayTicks(e, Ticks, targetBytes);
    } else {
      assert [Reject][..0] == [];
    }
  }

  /** While a feasible entry runs its progress steps 0, 10, ..., 100 and its
      size follows `SizeAt`; the status stays as the run started it. */
  lemma DuringFeasible(e: Entry, targetBytes: Num, j: nat)
    requires Feasible(targetBytes, e.originalSize)
    requires 1 <= j <= |Ticks|
    ensures During(e, targetBytes, j).progress == 10 * (j - 1)
    ensures During(e, targetBytes, j).compressedSize
         == SizeAt(e.originalSize, Ratio(targetBytes, e.originalSize), 10 * (j - 1))
    ensures During(e, targetBytes, j).status == e.status
    ensures During(e, targetBytes, j).originalSize == e.originalSize
  {
    assert (Ticks + [Finish])[..j] == Ticks[..j];
    ReplayTicks(e, Ticks[..j], targetBytes);
  }

  /** Progress never decreases during an entry's run. */
  lemma {:induction false} ProgressMonotone(e: Entry, targetBytes: Num, j: nat)
    requires e.progress == 0
    requires j < |FileUpdates(e, targetBytes)|
    ensures During(e, targetBytes, j).progress <= During(e, targetBytes, j + 1).progress
  {
    if Feasible(targetBytes, e.originalSize) {
      if j == 0 {
        DuringFeasible(e, targetBytes, 1);
      } else if j < |Ticks| {
        DuringFeasible(e, targetBytes, j);
        DuringFeasible(e, targetBytes, j + 1);
      } else {
        DuringFeasible(e, targetBytes, j);
        DoneOutcome(e, targetBytes);
        assert FileUpdates(e, targetBytes)[..j + 1] == FileUpdates(e, targetBytes);
      }
    } else {
      assert [Reject][..0] == [];
      assert [Reject][..1] == [Reject];
    }
  }

  /** Each step of the run is one page update at the running index: going
      from `j` to `j + 1` updates entry `i` by its next update and nothing
      else. */
  lemma SnapshotStep(s: State, i: nat, j: nat)
    requires i < |s.files|
    requires j < |FileUpdates(s.files[i], TargetBytes(s.targetKb))|
    ensures var tgt := TargetBytes(s.targetKb);
      Snapshot(s, i, j + 1)
        == MapAt(Snapshot(s, i, j), i, e => ApplyUpdate(e, FileUpdates(s.files[i], tgt)[j], tgt))
  {
    var tgt := TargetBytes(s.targetKb);
    var us := FileUpdates(s.files[i], tgt);
    var b := Begin(s.files[i]);
    assert FileUpdates(b, tgt) == us;
    assert us[..j + 1][..j] == us[..j];
    var lhs := Snapshot(s, i, j + 1);
    var rhs := MapAt(Snapshot(s, i, j), i, e => ApplyUpdate(e, us[j], tgt));
    assert lhs[i] == rhs[i];
    assert lhs == rhs;
  }

  // ----- sizes ----------------------------------------------------------

  /** The size formula interpolates linearly between the original and the
      target: original - progress/100 * (original - target), rounded. */
  lemma {:induction false} SizeAtInterpolates(originalSize: nat, targetBytes: real, progress: int)
    requires originalSize > 0
    ensures SizeAt(originalSize, Ratio(Finite(targetBytes), originalSize), progress)
         == Round(Finite(Interpolate(originalSize as real, targetBytes, progress)))
  {
    var o := originalSize as real;
    var q := progress as real / 100.0;
    var t := targetBytes;
    var ratio := t / o;
    assert o * ratio == t;
    assert Ratio(Finite(t), originalSize) == Finite(ratio);
    var x := q * (1.0 - ratio);
    assert Sub(Finite(1.0), Finite(ratio)) == Finite(1.0 - ratio);
    assert Mul(Finite(q), Finite(1.0 - ratio)) == Finite(x);
    assert Sub(Finite(1.0), Finite(x)) == Finite(1.0 - x);
    assert Mul(FromInt(originalSize), Finite(1.0 - x)) == Finite(o * (1.0 - x));
    assert o * (1.0 - x) == o - o * x;
    assert o * x == q * (o * (1.0 - ratio));
    assert o * (1.0 - ratio) == o - t;
    assert o * x == q * (o - t);
    assert SizeAt(originalSize, Finite(ratio), progress) == Round(Finite(o * (1.0 - x)));
    assert o * (1.0 - x) == o - q * (o - t);
    assert Round(Finite(o * (1.0 - x))) == Round(Finite(o - q * (o - t)));
    assert SizeAt(originalSize, Ratio(Finite(targetBytes), originalSize), progress) == Round(Finite(o - q * (o - t)));
    assert o - q * (o - t) == Interpolate(originalSize as real, targetBytes, progress);
  }

  /** `progress` percent of the way from `o` to `t`, exactly. */
  function Interpolate(o: real, t: real, progress: int): real
  {
    o - (progress as real / 100.0) * (o - t)
  }

  /** At progress 0 the size shown is the original. */
  lemma SizeAtStart(originalSize: nat, targetBytes: real)
    requires originalSize > 0
    ensures SizeAt(originalSize, Ratio(Finite(targetBytes), originalSize), 0) == FromInt(originalSize)
  {
    SizeAtInterpolates(originalSize, targetBytes, 0);
    RoundInteger(FromInt(originalSize));
  }

  /** With exact arithmetic the final size is the target, rounded; a whole
      number of bytes comes out exactly. */
  lemma FinalSizeIsTarget(originalSize: nat, targetBytes: real)
    requires originalSize > 0
    ensures FinalSize(originalSize, Ratio(Finite(targetBytes), originalSize)) == Round(Finite(targetBytes))
    ensures IsInteger(Finite(targetBytes)) ==>
      FinalSize(originalSize, Ratio(Finite(targetBytes), originalSize)) == Finite(targetBytes)
  {
    var o := originalSize as real;
    assert Ratio(Finite(targetBytes), originalSize) == Finite(targetBytes / o);
    assert o * (targetBytes / o) == targetBytes;
    assert Mul(FromInt(originalSize), Finite(targetBytes / o)) == Finite(targetBytes);
    if IsInteger(Finite(targetBytes)) {
      RoundInteger(Finite(targetBytes));
    }
  }

  /** When the target is below the original, the size shown never grows as
      progress advances. */
  lemma SizeAtNonIncreasing(originalSize: nat, targetBytes: real, p: int, q: int)
    requires originalSize > 0 && targetBytes <= originalSize as real
    requires p <= q
    ensures var ratio := Ratio(Finite(targetBytes), originalSize);
      SizeAt(originalSize, ratio, q).v <= SizeAt(originalSize, ratio, p).v
  {
    SizeAtInterpolates(originalSize, targetBytes, p);
    SizeAtInterpolates(originalSize, targetBytes, q);
    var o := originalSize as real;
    InterpolationOrder(o, targetBytes, p, q);
    RoundMonotone(Interpolate(o, targetBytes, q), Interpolate(o, targetBytes, p));
  }

  /** Moving further from the original towards a smaller target gives a
      smaller value. */
  lemma InterpolationOrder(o: real, t: real, p: int, q: int)
    requires t <= o && p <= q
    ensures Interpolate(o, t, q) <= Interpolate(o, t, p)
  {
    var a, b := p as real / 100.0, q as real / 100.0;
    MulNonNegative(b - a, o - t);
    assert b * (o - t) - a * (o - t) == (b - a) * (o - t);
  }

  lemma MulNonNegative(x: real, y: real)
    requires x >= 0.0 && y >= 0.0
    ensures x * y >= 0.0
  {
  }

  /** `Math.round` never reverses the order of two values. */
  lemma RoundMonotone(x: real, y: real)
    requires x <= y
    ensures Round(Finite(x)).v <= Round(Finite(y)).v
  {
    assert (x + 0.5).Floor <= (y + 0.5).Floor by {
      assert ((x + 0.5).Floor as real) <= x + 0.5 <= y + 0.5;
    }
  }

  /** A zero-byte file passes the check (its tenth is 0) but its ratio is
      infinite, so it completes with a size that is not a number. */
  lemma EmptyFileCompletesWithNaN(e: Entry, targetBytes: real)
    requires e.originalSize == 0 && targetBytes > 0.0
    ensures Feasible(Finite(targetBytes), 0)
    ensures Done(e, Finite(targetBytes)).status == Completed
    ensures Done(e, Finite(targetBytes)).compressedSize == NaN
  {
    DoneOutcome(e, Finite(targetBytes));
  }

  // ----- the reduction shown for a completed entry ---------------------

  /** `calculateCompressionRatio`: (original - compressed) / original * 100,
      the percentage the file shrank by (before `toFixed`). */
  function Reduction(originalSize: nat, compressedSize: Num): (r: Num)
    ensures originalSize > 0 && compressedSize.Finite? ==>
      r == Finite((originalSize as real - compressedSize.v) / originalSize as real * 100.0)
    ensures originalSize == 0 ==> !r.Finite?
    ensures compressedSize.NaN? ==> r.NaN?
  {
    Mul(Div(Sub(FromInt(originalSize), compressedSize), FromInt(originalSize)), Finite(100.0))
  }

  /** A size of at least a tenth of the original means a reduction of at
      most 90 percent. */
  lemma ReductionAtMost90(originalSize: nat, compressed: real)
    requires originalSize > 0 && compressed * 10.0 >= originalSize as real
    ensures Reduction(originalSize, Finite(compressed)).Finite?
    ensures Reduction(originalSize, Finite(compressed)).v <= 90.0
  {
    var o := originalSize as real;
    assert (o - compressed) / o <= 0.9 by {
      assert o - compressed <= 0.9 * o;
    }
  }

  /** A feasible entry with a whole-number target completes at exactly the
      target, and so shows a reduction of at most 90 percent. */
  lemma CompletedReduction(e: Entry, targetBytes: real)
    requires e.originalSize > 0 && IsInteger(Finite(targetBytes))
    requires Feasible(Finite(targetBytes), e.originalSize)
    ensures Done(e, Finite(targetBytes)).status == Completed
    ensures Done(e, Finite(targetBytes)).compressedSize == Finite(targetBytes)
    ensures Reduction(e.originalSize, Done(e, Finite(targetBytes)).compressedSize).v <= 90.0
  {
    DoneOutcome(e, Finite(targetBytes));
    FinalSizeIsTarget(e.originalSize, targetBytes);
    ReductionAtMost90(e.originalSize, targetBytes);
  }

  /** The whole run: an entry whose original is more than ten times the
      target ends in error with the message; every other entry ends
      completed at 100 with the final size; names, sizes and snapshots are
      untouched. */
  lemma CompressOutcome(s: State, k: nat)
    requires CanCompress(s) && k < |s.files|
    ensures var tgt := TargetBytes(s.targetKb);
      var e := s.files[k];
      var r := Compress(s).files[k];
      && r.name == e.name && r.size == e.size && r.originalSize == e.originalSize
      && r.targetSize == e.targetSize && r.level == e.level
      && (!Feasible(tgt, e.originalSize) ==>
            r.status == Error && r.error == Some(TooSmallMessage) && r.progress == 0)
      && (Feasible(tgt, e.originalSize) ==>
            r.status == Completed && r.progress == 100 && r.error.None?
            && r.compressedSize == FinalSize(e.originalSize, Ratio(tgt, e.originalSize)))
  {
    DoneOutcome(Begin(s.files[k]), TargetBytes(s.targetKb));
  }
}
