/** The image size changer: the keyed image list, a target width and
    height with an optional aspect-ratio lock, and a simulated resize that
    marks one image done with the current dimensions. */
module ImageSizeChanger {
  import opened Common
  import opened JsNumber
  import KeyedList

  /** What a resize records on its entry. */
  datatype Dims = Dims(width: Num, height: Num)

  /** `width` and `height` are what `parseInt` made of the two fields, so
      they can be `NaN`. */
  datatype State = State(jobs: KeyedList.Jobs<Dims>, width: Num, height: Num, keepAspect: bool)

  /** No images, idle, 800 x 600 with the aspect ratio locked. */
  const Initial := State(KeyedList.Empty(), Finite(800.0), Finite(600.0), true)

  /** `onDrop` */
  function OnDrop(s: State, previews: seq<string>): (r: State)
    ensures r.jobs == KeyedList.OnDrop(s.jobs, previews)
    ensures r.width == s.width && r.height == s.height && r.keepAspect == s.keepAspect
  {
    s.(jobs := KeyedList.OnDrop(s.jobs, previews))
  }

  /** `Math.round(a * b / c)`, the recomputation both fields use. */
  function Rescale(a: Num, b: Num, c: Num): Num
  {
    Round(Div(Mul(a, b), c))
  }

  /** The width field: the new width is stored; with the lock on the height
      follows as round(newWidth * oldHeight / oldWidth). */
  function ChangeWidth(s: State, newWidth: Num): (r: State)
    ensures r.width == newWidth
    ensures !s.keepAspect ==> r.height == s.height
    ensures s.keepAspect ==> r.height == Rescale(newWidth, s.height, s.width)
    ensures r.jobs == s.jobs && r.keepAspect == s.keepAspect
  {
    s.(width := newWidth, height := if s.keepAspect then Rescale(newWidth, s.height, s.width) else s.height)
  }

  /** The height field, symmetric to the width field. */
  function ChangeHeight(s: State, newHeight: Num): (r: State)
    ensures r.height == newHeight
    ensures !s.keepAspect ==> r.width == s.width
    ensures s.keepAspect ==> r.width == Rescale(newHeight, s.width, s.height)
    ensures r.jobs == s.jobs && r.keepAspect == s.keepAspect
  {
    s.(height := newHeight, width := if s.keepAspect then Rescale(newHeight, s.width, s.height) else s.width)
  }

  /** The aspect-ratio switch: it sets the lock and leaves both fields and
      the list as they are; only later field changes feel it. */
  function SetKeepAspect(s: State, on: bool): (r: State)
    ensures r.keepAspect == on
    ensures r.jobs == s.jobs && r.width == s.width && r.height == s.height
  {
    s.(keepAspect := on)
  }

  /** With positive whole dimensions, the recomputed side is off from the
      exact proportion by at most half a pixel, measured against the other
      side: |newOther * base - new * other| <= base / 2. */
  lemma {:induction false} RescaleBound(n: int, other: int, base: int)
    requires base > 0
    ensures Rescale(FromInt(n), FromInt(other), FromInt(base)).Finite?
    ensures var m := Rescale(FromInt(n), FromInt(other), FromInt(base)).v;
      -(base as real) / 2.0 < m * base as real - (n * other) as real <= base as real / 2.0
  {
    var o := base as real;
    var q := (n * other) as real / o;
    assert Mul(FromInt(n), FromInt(other)) == Finite((n * other) as real);
    assert Div(Finite((n * other) as real), FromInt(base)) == Finite(q);
    var m := Rescale(FromInt(n), FromInt(other), FromInt(base)).v;
    assert q - 0.5 < m <= q + 0.5;
    assert q * o == (n * other) as real;
    MulBetween(q - 0.5, m, q + 0.5, o);
  }

  lemma MulBetween(lo: real, x: real, hi: real, c: real)
    requires lo < x <= hi && c > 0.0
    ensures lo * c < x * c <= hi * c
  {
  }

  /** The lock on: a width change sets the height within half a pixel of
      the old proportion, and the height field does the same for the
      width. */
  lemma AspectKept(s: State, n: int, w: int, h: int)
    requires s.keepAspect && s.width == FromInt(w) && s.height == FromInt(h)
    requires w > 0 && h > 0
    ensures ChangeWidth(s, FromInt(n)).height.Finite?
    ensures var nh := ChangeWidth(s, FromInt(n)).height.v;
      -(w as real) / 2.0 < nh * w as real - (n * h) as real <= w as real / 2.0
    ensures ChangeHeight(s, FromInt(n)).width.Finite?
    ensures var nw := ChangeHeight(s, FromInt(n)).width.v;
      -(h as real) / 2.0 < nw * h as real - (n * w) as real <= h as real / 2.0
  {
    RescaleBound(n, h, w);
    RescaleBound(n, w, h);
  }

  /** A field that is not a number (`parseInt` of an empty or non-numeric
      text) makes the locked other side `NaN` as well. */
  lemma NaNSpreads(s: State)
    requires s.keepAspect
    ensures ChangeWidth(s, NaN).height == NaN && ChangeHeight(s, NaN).width == NaN
  {
  }

  /** With the lock on and the width at zero, a width change to a non-zero
      value over a non-zero height makes the height infinite, and one that
      makes the product zero makes it `NaN`. */
  lemma ZeroWidthBreaksHeight(s: State, n: int, h: int)
    requires s.keepAspect && s.width == FromInt(0) && s.height == FromInt(h)
    ensures n != 0 && h != 0 ==> ChangeWidth(s, FromInt(n)).height in {PosInf, NegInf}
    ensures n * h == 0 ==> ChangeWidth(s, FromInt(n)).height == NaN
  {
    assert Mul(FromInt(n), FromInt(h)) == Finite((n * h) as real);
    if n != 0 && h != 0 {
      assert n * h != 0;
    }
  }

  /** `handleResize`: a click on an entry's resize button marks it done with
      the width and height the fields showed at the click. The button is
      shown only for a pending entry and is disabled while a job runs, so
      any other click changes nothing. */
  function Resize(s: State, key: nat): (r: State)
    ensures !KeyedList.CanProcess(s.jobs, key) ==> r == s
    ensures r.jobs == KeyedList.Process(s.jobs, key, Dims(s.width, s.height))
    ensures r.width == s.width && r.height == s.height && r.keepAspect == s.keepAspect
  {
    s.(jobs := KeyedList.Process(s.jobs, key, Dims(s.width, s.height)))
  }

  /** A resized entry records the dimensions shown at the click, whatever
      the fields say later, and loses its resize button; a click that
      finds no live button records nothing. */
  lemma ResizeRecordsDims(s: State, k: nat, w: Num)
    requires KeyedList.KeysFresh(s.jobs) && k < |s.jobs.files|
    ensures var key := s.jobs.files[k].key;
      var r := ChangeWidth(Resize(s, key), w);
      && (!s.jobs.processing && s.jobs.files[k].status == KeyedList.Pending ==>
            r.jobs.files[k].status == KeyedList.Success && r.jobs.files[k].result == Some(Dims(s.width, s.height)))
      && (s.jobs.processing || s.jobs.files[k].status != KeyedList.Pending ==> r.jobs == s.jobs)
      && !KeyedList.CanProcess(r.jobs, key)
  {
    KeyedList.ProcessDone(s.jobs, s.jobs.files[k].key, Dims(s.width, s.height), k);
  }

  /** `handleRemove` */
  function Remove(s: State, key: nat): (r: State)
    ensures r.jobs == KeyedList.Remove(s.jobs, key)
    ensures r.width == s.width && r.height == s.height && r.keepAspect == s.keepAspect
  {
    s.(jobs := KeyedList.Remove(s.jobs, key))
  }
}
