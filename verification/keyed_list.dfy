/** The list the image size changer and the background changer share:
    dropped images become pending entries with a preview, each has its own
    button that runs a simulated two-second job on it while the whole page
    is busy, and entries are found by object identity rather than by
    position. */
module KeyedList {
  import opened Common

  datatype Status = Pending | Processing | Success | Error

  /** One listed image. `key` stands for the entry object's identity, which
      is what the handlers compare (`f === file`). Spreading a `File`
      copies none of the properties the page reads (`name`, `size` and
      `type` are getters of its prototype), so the model keeps only what
      the drop adds for the page (`preview`, `status`) and the `result` a
      finished job records. */
  datatype Entry<R> = Entry(key: nat, preview: string, status: Status, result: Option<R>)

  /** The entries, the page-wide busy flag and the next unused identity. */
  datatype Jobs<R> = Jobs(files: seq<Entry<R>>, processing: bool, nextKey: nat)

  function Empty<R>(): (l: Jobs<R>)
    ensures l.files == [] && !l.processing && KeysFresh(l)
  {
    Jobs([], false, 0)
  }

  /** Distinct entries have distinct identities, all handed out already. */
  predicate KeysFresh<R>(l: Jobs<R>)
  {
    && (forall k :: 0 <= k < |l.files| ==> l.files[k].key < l.nextKey)
    && (forall j, k :: 0 <= j < k < |l.files| ==> l.files[j].key != l.files[k].key)
  }

  /** `onDrop`: one pending entry per dropped image (its object URL as the
      preview), after the existing ones, each with a new identity. */
  function OnDrop<R>(l: Jobs<R>, previews: seq<string>): (r: Jobs<R>)
    ensures Appended(l.files, r.files, |previews|)
    ensures forall k :: 0 <= k < |previews| ==>
      r.files[|l.files| + k] == Entry(l.nextKey + k, previews[k], Pending, None)
    ensures r.processing == l.processing && r.nextKey == l.nextKey + |previews|
  {
    l.(files := l.files + seq(|previews|, k requires 0 <= k < |previews| =>
                                Entry(l.nextKey + k, previews[k], Pending, None)),
       nextKey := l.nextKey + |previews|)
  }

  /** A drop hands out identities no entry has yet. */
  lemma OnDropKeepsKeysFresh<R>(l: Jobs<R>, previews: seq<string>)
    requires KeysFresh(l)
    ensures KeysFresh(OnDrop(l, previews))
  {
    var r := OnDrop(l, previews);
    var n := |l.files|;
    forall k | 0 <= k < |r.files| ensures r.files[k].key < r.nextKey {
      if k < n {
        assert r.files[k] == l.files[k];
      }
    }
    forall j, k | 0 <= j < k < |r.files| ensures r.files[j].key != r.files[k].key {
      if k < n {
        assert r.files[j] == l.files[j] && r.files[k] == l.files[k];
      } else if j < n {
        assert r.files[j] == l.files[j];
      }
    }
  }

  /** An entry's button exists only while it is pending and is disabled
      while any job runs. */
  predicate CanProcess<R>(l: Jobs<R>, key: nat)
  {
    !l.processing && exists k :: 0 <= k < |l.files| && l.files[k].key == key && l.files[k].status == Pending
  }

  /** A job as it starts: the page turns busy. */
  function Start<R>(l: Jobs<R>): (r: Jobs<R>)
    ensures r.processing && r.files == l.files && r.nextKey == l.nextKey
  {
    l.(processing := true)
  }

  /** A job once the simulated work is done: the entry with the given
      identity, and no other, succeeds with the result, and the page is
      idle again. */
  function Finish<R>(l: Jobs<R>, key: nat, result: R): (r: Jobs<R>)
    ensures |r.files| == |l.files| && !r.processing && r.nextKey == l.nextKey
    ensures forall k :: 0 <= k < |l.files| && l.files[k].key != key ==> r.files[k] == l.files[k]
    ensures forall k :: 0 <= k < |l.files| && l.files[k].key == key ==>
      r.files[k] == l.files[k].(status := Success, result := Some(result))
  {
    l.(files := seq(|l.files|, k requires 0 <= k < |l.files| =>
                      if l.files[k].key == key
                      then l.files[k].(status := Success, result := Some(result))
                      else l.files[k]),
       processing := false)
  }

  /** A click on an entry's button run to the end: the page turns busy,
      the simulated work finishes and the entry with the given identity
      succeeds with `result`, computed from what the page showed at the
      click. Without a live, enabled button for that identity (the entry is
      not pending, or a job is running) the click changes nothing. */
  function Process<R>(l: Jobs<R>, key: nat, result: R): (r: Jobs<R>)
    ensures !CanProcess(l, key) ==> r == l
    ensures CanProcess(l, key) ==> |r.files| == |l.files| && !r.processing && r.nextKey == l.nextKey
    ensures CanProcess(l, key) ==> forall k :: 0 <= k < |l.files| ==>
      r.files[k] == if l.files[k].key == key then l.files[k].(status := Success, result := Some(result))
                    else l.files[k]
  {
    if CanProcess(l, key) then Finish(Start(l), key, result) else l
  }

  /** A click on entry `k`'s live button: that entry has succeeded with the
      result and lost its button, every other entry is as it was, and
      identities stay distinct. A click while a job runs, or on an entry
      that is no longer pending, leaves the list alone. */
  lemma ProcessDone<R>(l: Jobs<R>, key: nat, result: R, k: nat)
    requires KeysFresh(l) && k < |l.files| && l.files[k].key == key
    ensures CanProcess(l, key) <==> !l.processing && l.files[k].status == Pending
    ensures CanProcess(l, key) ==>
      Process(l, key, result).files[k] == l.files[k].(status := Success, result := Some(result))
    ensures forall j :: 0 <= j < |l.files| && j != k ==> Process(l, key, result).files[j] == l.files[j]
    ensures KeysFresh(Process(l, key, result))
    ensures !CanProcess(Process(l, key, result), key)
  {
    var r := Process(l, key, result);
    if CanProcess(l, key) {
      forall j | 0 <= j < |r.files| && r.files[j].key == key
        ensures r.files[j].status != Pending
      {
        assert l.files[j].key == key;
      }
    }
  }

  /** `handleRemove`: every entry other than the given one stays, in order. */
  function Remove<R>(l: Jobs<R>, key: nat): (r: Jobs<R>)
    ensures forall k :: 0 <= k < |r.files| ==> r.files[k].key != key && r.files[k] in l.files
    ensures forall k :: 0 <= k < |l.files| && l.files[k].key != key ==> l.files[k] in r.files
    ensures r.processing == l.processing
    ensures KeysFresh(l) ==> KeysFresh(r)
  {
    FilterPairwise(l.files, (e: Entry<R>) => e.key != key, (a: Entry<R>, b: Entry<R>) => a.key != b.key);
    l.(files := Filter(l.files, (e: Entry<R>) => e.key != key))
  }

  /** With distinct identities, removing the entry at `index` cuts exactly
      that entry out and keeps the others in order. */
  lemma RemoveExactlyOne<R>(l: Jobs<R>, index: nat)
    requires KeysFresh(l) && index < |l.files|
    ensures RemovedAt(l.files, index, Remove(l, l.files[index].key).files)
  {
    FilterDropsOne(l.files, index, (e: Entry<R>) => e.key != l.files[index].key);
  }
}
