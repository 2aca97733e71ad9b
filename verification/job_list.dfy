/** The list the photo compressor and the image-to-PDF page share: each
    dropped file becomes an entry that keeps a copy of the page's settings
    as they were at the drop, and the run marks every entry as processing
    and then completes them one per second in index order. */
module JobList {
  import opened Common
  import opened Batch

  datatype Status = Pending | Processing | Completed | Error

  /** A dropped file as the page reads it. */
  datatype DroppedFile = DroppedFile(name: string, size: nat)

  /** One listed file; `settings` is the page's settings when it was
      dropped. */
  datatype Entry<S> = Entry(name: string, size: nat, status: Status, progress: int, settings: S)

  datatype State<S> = State(files: seq<Entry<S>>, settings: S)

  /** `onDrop`: one pending entry at 0% per dropped file, carrying the
      current settings, after the existing ones. */
  function OnDrop<S>(s: State<S>, dropped: seq<DroppedFile>): (r: State<S>)
    ensures Appended(s.files, r.files, |dropped|)
    ensures forall k :: 0 <= k < |dropped| ==>
      r.files[|s.files| + k] == Entry(dropped[k].name, dropped[k].size, Pending, 0, s.settings)
    ensures r.settings == s.settings
  {
    s.(files := s.files + seq(|dropped|, k requires 0 <= k < |dropped| =>
                                Entry(dropped[k].name, dropped[k].size, Pending, 0, s.settings)))
  }

  /** `handleRemoveFile` */
  function RemoveFile<S>(s: State<S>, index: int): (r: State<S>)
    ensures RemovedAt(s.files, index, r.files)
    ensures r.settings == s.settings
  {
    s.(files := RemoveAt(s.files, index))
  }

  /** A settings control: the page's settings change, the entries keep the
      copies they were dropped with. */
  function SetSettings<S>(s: State<S>, settings: S): (r: State<S>)
    ensures r.files == s.files && r.settings == settings
  {
    s.(settings := settings)
  }

  /** The run button is shown only for a non-empty list, and is disabled
      while some entry is processing. */
  predicate CanRun<S>(s: State<S>)
  {
    |s.files| > 0 && forall k :: 0 <= k < |s.files| ==> s.files[k].status != Processing
  }

  function Begin<S>(e: Entry<S>): Entry<S>
  {
    e.(status := Processing, progress := 0)
  }

  function Complete<S>(e: Entry<S>): Entry<S>
  {
    e.(status := Completed, progress := 100)
  }

  /** The page `k` steps into a run: every entry was set processing at 0%,
      and the first `k` have since been completed. */
  function Step<S>(s: State<S>, k: nat): (r: State<S>)
    requires k <= |s.files|
    ensures |r.files| == |s.files| && r.settings == s.settings
  {
    s.(files := FinishInOrder(MapAll(s.files, Begin), k, Complete))
  }

  /** `handleCompress` (photo compressor) and `handleConvert` (image to
      PDF), which are the same code, run to their end: every entry is
      completed at 100% and keeps its name, its size and the settings it
      was dropped with. A disabled button does nothing. */
  function Run<S>(s: State<S>): (r: State<S>)
    ensures !CanRun(s) ==> r == s
    ensures CanRun(s) ==> |r.files| == |s.files| && r.settings == s.settings
    ensures CanRun(s) ==> forall j :: 0 <= j < |s.files| ==>
      r.files[j] == s.files[j].(status := Completed, progress := 100)
  {
    if CanRun(s) then StepAll(s); Step(s, |s.files|) else s
  }

  /** Once every step is made, every entry is completed. */
  lemma StepAll<S>(s: State<S>)
    ensures forall j :: 0 <= j < |s.files| ==>
      Step(s, |s.files|).files[j] == s.files[j].(status := Completed, progress := 100)
  {
    forall j | 0 <= j < |s.files|
      ensures Step(s, |s.files|).files[j] == s.files[j].(status := Completed, progress := 100)
    {
      StepEntry(s, |s.files|, j);
    }
  }

  /** What entry `j` shows `k` steps into a run: completed at 100% once
      its turn has come, processing at 0% before; name, size and settings
      never change. */
  lemma StepEntry<S>(s: State<S>, k: nat, j: nat)
    requires k <= |s.files| && j < |s.files|
    ensures var e := Step(s, k).files[j];
      && e.name == s.files[j].name && e.size == s.files[j].size && e.settings == s.files[j].settings
      && (j < k ==> e.status == Completed && e.progress == 100)
      && (k <= j ==> e.status == Processing && e.progress == 0)
  {
  }

  /** Each step completes exactly the next entry. */
  lemma StepNext<S>(s: State<S>, k: nat)
    requires k < |s.files|
    ensures Step(s, k + 1).files == MapAt(Step(s, k).files, k, Complete)
  {
  }

  /** The button stays disabled for the whole run and is enabled again
      once the last entry is completed. */
  lemma ButtonDuringRun<S>(s: State<S>, k: nat)
    requires k <= |s.files|
    ensures CanRun(Step(s, k)) <==> 0 < k == |s.files|
  {
    if k < |s.files| {
      StepEntry(s, k, k);
    } else {
      forall j | 0 <= j < |s.files|
        ensures Step(s, k).files[j].status != Processing
      {
        StepEntry(s, k, j);
      }
    }
  }

  /** After a run the button is enabled again, and every entry is
      completed at 100% with everything else as dropped. */
  lemma RunOutcome<S>(s: State<S>)
    requires CanRun(s)
    ensures CanRun(Run(s))
    ensures forall j :: 0 <= j < |s.files| ==> Run(s).files[j].status == Completed
  {
    ButtonDuringRun(s, |s.files|);
  }
}
