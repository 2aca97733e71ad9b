/** The background changer: the keyed image list, a background colour and
    a background kind, and a simulated job that marks one image done with
    the colour. */
module BackgroundChanger {
  import opened Common
  import KeyedList

  datatype Kind = SolidColor | Transparent

  /** `color` is the text of the colour field. */
  datatype State = State(jobs: KeyedList.Jobs<string>, color: string, kind: Kind)

  /** No images, idle, white, a solid colour. */
  const Initial := State(KeyedList.Empty(), "#ffffff", SolidColor)

  function OnDrop(s: State, previews: seq<string>): (r: State)
    ensures r.jobs == KeyedList.OnDrop(s.jobs, previews)
    ensures r.color == s.color && r.kind == s.kind
  {
    s.(jobs := KeyedList.OnDrop(s.jobs, previews))
  }

  /** The colour field and the kind menu change only the page's settings. */
  function SetColor(s: State, color: string): (r: State)
    ensures r.jobs == s.jobs && r.color == color && r.kind == s.kind
  {
    s.(color := color)
  }

  function SetKind(s: State, kind: Kind): (r: State)
    ensures r.jobs == s.jobs && r.color == s.color && r.kind == kind
  {
    s.(kind := kind)
  }

  /** `handleBackgroundChange`: a click on an entry's button marks it done
      with the colour the field showed at the click. The button is shown
      only for a pending entry and is disabled while a job runs, so any
      other click changes nothing. */
  function ChangeBackground(s: State, key: nat): (r: State)
    ensures !KeyedList.CanProcess(s.jobs, key) ==> r == s
    ensures r.jobs == KeyedList.Process(s.jobs, key, s.color)
    ensures r.color == s.color && r.kind == s.kind
  {
    s.(jobs := KeyedList.Process(s.jobs, key, s.color))
  }

  /** The job records the colour field even when the kind is transparent:
      the kind plays no part in what is recorded. */
  lemma KindIgnored(s: State, key: nat, kind: Kind)
    ensures ChangeBackground(SetKind(s, kind), key).jobs == ChangeBackground(s, key).jobs
  {
  }

  /** A click on a pending entry's button while the page is idle records
      the colour on it and removes its button; the other entries are
      untouched; a click that finds no live button records nothing. */
  lemma ChangeRecordsColor(s: State, k: nat)
    requires KeyedList.KeysFresh(s.jobs) && k < |s.jobs.files|
    ensures var key := s.jobs.files[k].key;
      var r := ChangeBackground(s, key).jobs;
      && (!s.jobs.processing && s.jobs.files[k].status == KeyedList.Pending ==>
            r.files[k].status == KeyedList.Success && r.files[k].result == Some(s.color))
      && (s.jobs.processing || s.jobs.files[k].status != KeyedList.Pending ==> r == s.jobs)
      && !KeyedList.CanProcess(r, key)
      && forall j :: 0 <= j < |s.jobs.files| && j != k ==> r.files[j] == s.jobs.files[j]
  {
    KeyedList.ProcessDone(s.jobs, s.jobs.files[k].key, s.color, k);
  }

  /** `handleRemove` */
  function Remove(s: State, key: nat): (r: State)
    ensures r.jobs == KeyedList.Remove(s.jobs, key)
    ensures r.color == s.color && r.kind == s.kind
  {
    s.(jobs := KeyedList.Remove(s.jobs, key))
  }
}
