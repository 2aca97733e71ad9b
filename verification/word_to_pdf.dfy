/** The Word-to-PDF page: a list of document names with a status and a
    progress percentage, and a simulated conversion that walks the list in
    order, counting each entry from 0 to 100. */
module WordToPdf {
  import opened Common
  import opened Batch

  datatype Status = Pending | Converting | Completed | Error

  datatype Entry = Entry(name: string, status: Status, progress: int)

  datatype State = State(files: seq<Entry>, isConverting: bool)

  const Initial := State([], false)

  /** `onDrop`: one pending entry at 0% per dropped document, after the
      existing ones. */
  function OnDrop(s: State, names: seq<string>): (r: State)
    ensures Appended(s.files, r.files, |names|)
    ensures forall k :: 0 <= k < |names| ==> r.files[|s.files| + k] == Entry(names[k], Pending, 0)
    ensures r.isConverting == s.isConverting
  {
    s.(files := s.files + seq(|names|, k requires 0 <= k < |names| => Entry(names[k], Pending, 0)))
  }

  /** `handleRemoveFile` */
  function RemoveFile(s: State, index: int): (r: State)
    ensures RemovedAt(s.files, index, r.files)
    ensures r.isConverting == s.isConverting
  {
    s.(files := RemoveAt(s.files, index))
  }

  /** The clear-all button, disabled while converting. */
  function ClearAll(s: State): (r: State)
    ensures s.isConverting ==> r == s
    ensures !s.isConverting ==> r.files == [] && !r.isConverting
  {
    if s.isConverting then s else s.(files := [])
  }

  /** The convert button is disabled while converting and for an empty
      list. */
  predicate CanConvert(s: State)
  {
    !s.isConverting && |s.files| > 0
  }

  /** The updates the run makes to one entry: it starts converting at 0%,
      counts up in steps of ten and completes at 100%. */
  datatype Update = Start | Tick(progress: int) | Finish

  function Apply(e: Entry, u: Update): Entry
  {
    match u
    case Start => e.(status := Converting, progress := 0)
    case Tick(p) => e.(progress := p)
    case Finish => e.(status := Completed, progress := 100)
  }

  const Updates: seq<Update> := [Start, Tick(0), Tick(10), Tick(20), Tick(30), Tick(40), Tick(50),
                                 Tick(60), Tick(70), Tick(80), Tick(90), Tick(100), Finish]

  /** The entry after the first `j` of its updates. */
  function During(e: Entry, j: nat): Entry
    requires j <= |Updates|
  {
    Replay(e, Updates[..j], Apply)
  }

  /** The entry once the run is through with it. */
  function Done(e: Entry): Entry
  {
    Replay(e, Updates, Apply)
  }

  /** The list while the run is at entry `i` with `j` of its updates made:
      the entries before `i` are done, the ones after it untouched. */
  function Snapshot(s: State, i: nat, j: nat): (r: State)
    requires i < |s.files| && j <= |Updates|
    ensures r.isConverting && |r.files| == |s.files|
    ensures forall k :: 0 <= k < i ==> r.files[k] == Done(s.files[k])
    ensures forall k :: i < k < |s.files| ==> r.files[k] == s.files[k]
    ensures r.files[i] == During(s.files[i], j)
  {
    s.(files := MapAt(FinishInOrder(s.files, i, Done), i, _ => During(s.files[i], j)), isConverting := true)
  }

  /** `handleConvert` run to the end; a disabled button does nothing. */
  function Convert(s: State): (r: State)
    ensures !CanConvert(s) ==> r == s
    ensures CanConvert(s) ==> |r.files| == |s.files| && !r.isConverting
    ensures CanConvert(s) ==> forall k :: 0 <= k < |s.files| ==> r.files[k] == Done(s.files[k])
  {
    if !CanConvert(s) then s else s.(files := FinishInOrder(s.files, |s.files|, Done))
  }

  /** The status and progress an entry shows `j` updates into its run. */
  lemma {:induction false} DuringValues(e: Entry, j: nat)
    requires 1 <= j <= |Updates|
    ensures During(e, j).name == e.name
    ensures j < |Updates| ==> During(e, j) == e.(status := Converting, progress := if j == 1 then 0 else 10 * (j - 2))
    ensures j == |Updates| ==> During(e, j) == e.(status := Completed, progress := 100)
  {
    if j > 1 {
      assert Updates[..j][..j - 1] == Updates[..j - 1];
      DuringValues(e, j - 1);
    } else {
      assert Updates[..1] == [Start];
      assert [Start][..0] == [];
    }
  }

  /** Every entry ends completed at 100% under its own name. */
  lemma DoneOutcome(e: Entry)
    ensures Done(e) == Entry(e.name, Completed, 100)
  {
    DuringValues(e, |Updates|);
    assert Updates[..|Updates|] == Updates;
  }

  /** Progress never decreases during an entry's run once it has started. */
  lemma ProgressMonotone(e: Entry, j: nat)
    requires 1 <= j < |Updates|
    ensures During(e, j).progress <= During(e, j + 1).progress
  {
    DuringValues(e, j);
    DuringValues(e, j + 1);
  }

  /** Each step of the run is one page update at the running index. */
  lemma SnapshotStep(s: State, i: nat, j: nat)
    requires i < |s.files| && j < |Updates|
    ensures Snapshot(s, i, j + 1).files == MapAt(Snapshot(s, i, j).files, i, e => Apply(e, Updates[j]))
  {
    assert Updates[..j + 1][..j] == Updates[..j];
    var lhs := Snapshot(s, i, j + 1).files;
    var rhs := MapAt(Snapshot(s, i, j).files, i, e => Apply(e, Updates[j]));
    assert lhs[i] == rhs[i];
    assert lhs == rhs;
  }

  /** The run hands over from one entry to the next without a gap: the
      first entry done is the next entry not yet started. */
  lemma SnapshotHandOver(s: State, i: nat)
    requires i + 1 < |s.files|
    ensures Snapshot(s, i, |Updates|) == Snapshot(s, i + 1, 0)
  {
    assert Updates[..|Updates|] == Updates;
    assert Updates[..0] == [];
  }

  /** The last step of the run is the finished list (with the busy flag
      still to be cleared). */
  lemma SnapshotEnd(s: State)
    requires CanConvert(s)
    ensures Snapshot(s, |s.files| - 1, |Updates|).files == Convert(s).files
  {
    assert Updates[..|Updates|] == Updates;
  }

  /** The run: every entry ends completed at 100% with its name, and the
      page is idle again. */
  lemma ConvertOutcome(s: State)
    requires CanConvert(s)
    ensures !Convert(s).isConverting && |Convert(s).files| == |s.files|
    ensures forall k :: 0 <= k < |s.files| ==> Convert(s).files[k] == Entry(s.files[k].name, Completed, 100)
  {
    forall k | 0 <= k < |s.files|
      ensures Convert(s).files[k] == Entry(s.files[k].name, Completed, 100)
    {
      DoneOutcome(s.files[k]);
    }
  }

  /** Nothing on this page ever marks an entry as failed: a list with no
      failed entry has none at any point of a run either. */
  lemma NeverError(s: State, i: nat, j: nat)
    requires forall k :: 0 <= k < |s.files| ==> s.files[k].status != Error
    requires i < |s.files| && j <= |Updates|
    ensures forall k :: 0 <= k < |s.files| ==> Snapshot(s, i, j).files[k].status != Error
  {
    forall k | 0 <= k < i
      ensures Snapshot(s, i, j).files[k].status != Error
    {
      DoneOutcome(s.files[k]);
    }
    if j == 0 {
      assert Updates[..0] == [];
    } else {
      DuringValues(s.files[i], j);
    }
  }
}
