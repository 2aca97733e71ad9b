/** The image-to-PDF page: the shared job list with a page size and an
    orientation as settings. */
module ImageToPdf {
  import JobList

  datatype Orientation = Portrait | Landscape

  datatype Settings = Settings(pageSize: string, orientation: Orientation)

  type State = JobList.State<Settings>

  const PageSizes: seq<string> := ["a4", "letter", "legal", "custom"]

  /** No files; A4 in portrait. */
  const Initial: State := JobList.State([], Settings("a4", Portrait))

  function SetPageSize(s: State, v: string): (r: State)
    ensures r.files == s.files && r.settings == s.settings.(pageSize := v)
  {
    JobList.SetSettings(s, s.settings.(pageSize := v))
  }

  function SetOrientation(s: State, v: Orientation): (r: State)
    ensures r.files == s.files && r.settings == s.settings.(orientation := v)
  {
    JobList.SetSettings(s, s.settings.(orientation := v))
  }

  /** Every entry's page size is one the menu offers, and stays so through
      drops, removals, runs and menu choices. */
  predicate Valid(s: State)
  {
    s.settings.pageSize in PageSizes && forall k :: 0 <= k < |s.files| ==> s.files[k].settings.pageSize in PageSizes
  }

  lemma ControlsKeepValid(s: State, size: string, o: Orientation, dropped: seq<JobList.DroppedFile>, index: int)
    requires Valid(s)
    ensures Valid(Initial)
    ensures size in PageSizes ==> Valid(SetPageSize(s, size))
    ensures Valid(SetOrientation(s, o))
    ensures Valid(JobList.OnDrop(s, dropped)) && Valid(JobList.RemoveFile(s, index))
    ensures Valid(JobList.Run(s))
  {
  }
}
