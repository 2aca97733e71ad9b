/** The photo compressor page: the shared job list with a target size, a
    DPI slider, a resolution and an output format as settings. */
module PhotoCompressor {
  import opened JsNumber
  import JobList

  /** `targetKb` is `Number` of the size field's text, which the field's
      bounds do not restrict, so it can be any number or `NaN`. */
  datatype Settings = Settings(targetKb: Num, dpi: int, resolution: string, format: string)

  type State = JobList.State<Settings>

  const Resolutions: seq<string> := ["original", "1920x1080", "1280x720", "800x600", "640x480"]
  const Formats: seq<string> := ["jpeg", "png", "webp", "gif", "bmp"]
  const MinDpi := 72
  const MaxDpi := 600

  /** No files; 500 KB, 300 DPI, the original resolution, JPEG. */
  const Initial: State := JobList.State([], Settings(Finite(500.0), 300, "original", "jpeg"))

  /** What the controls can produce: a DPI the slider offers and a
      resolution and format from the menus. */
  predicate SettingsValid(st: Settings)
  {
    MinDpi <= st.dpi <= MaxDpi && st.resolution in Resolutions && st.format in Formats
  }

  function SetTargetSize(s: State, v: Num): (r: State)
    ensures r.files == s.files && r.settings == s.settings.(targetKb := v)
  {
    JobList.SetSettings(s, s.settings.(targetKb := v))
  }

  function SetDpi(s: State, v: int): (r: State)
    ensures r.files == s.files && r.settings == s.settings.(dpi := v)
  {
    JobList.SetSettings(s, s.settings.(dpi := v))
  }

  function SetResolution(s: State, v: string): (r: State)
    ensures r.files == s.files && r.settings == s.settings.(resolution := v)
  {
    JobList.SetSettings(s, s.settings.(resolution := v))
  }

  function SetFormat(s: State, v: string): (r: State)
    ensures r.files == s.files && r.settings == s.settings.(format := v)
  {
    JobList.SetSettings(s, s.settings.(format := v))
  }

  /** Every entry holds settings the controls could produce: the initial
      page does, each control keeps it when given a value it offers, and a
      drop copies the page's settings. */
  predicate Valid(s: State)
  {
    SettingsValid(s.settings) && forall k :: 0 <= k < |s.files| ==> SettingsValid(s.files[k].settings)
  }

  lemma ControlsKeepValid(s: State, dpi: int, resolution: string, format: string, target: Num,
                          dropped: seq<JobList.DroppedFile>, index: int)
    requires Valid(s)
    ensures Valid(Initial)
    ensures MinDpi <= dpi <= MaxDpi ==> Valid(SetDpi(s, dpi))
    ensures resolution in Resolutions ==> Valid(SetResolution(s, resolution))
    ensures format in Formats ==> Valid(SetFormat(s, format))
    ensures Valid(SetTargetSize(s, target))
    ensures Valid(JobList.OnDrop(s, dropped)) && Valid(JobList.RemoveFile(s, index))
    ensures Valid(JobList.Run(s))
  {
  }

  /** A drop after a settings change records the new settings; entries
      dropped before keep theirs. */
  lemma DropRecordsSettings(s: State, st: Settings, dropped: seq<JobList.DroppedFile>)
    ensures var r := JobList.OnDrop(JobList.SetSettings(s, st), dropped);
      && (forall k :: 0 <= k < |s.files| ==> r.files[k] == s.files[k])
      && (forall k :: |s.files| <= k < |r.files| ==> r.files[k].settings == st)
  {
    var r := JobList.OnDrop(JobList.SetSettings(s, st), dropped);
    forall k | 0 <= k < |s.files| ensures r.files[k] == s.files[k] {
      assert r.files[..|s.files|][k] == r.files[k];
    }
  }
}
