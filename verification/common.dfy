/** Small shared vocabulary: an optional value and the two ways the pages
    drop an entry from a file list (by position and by identity). */
module Common {

  /** A value that may be absent (`null`/`undefined` in the pages). */
  datatype Option<+T> = None | Some(value: T)

  /** True when `prefix` is an initial segment of `s` (`String.startsWith`). */
  predicate StartsWith(s: string, prefix: string)
  {
    |prefix| <= |s| && s[..|prefix|] == prefix
  }

  /** `r` is `s` with exactly the entry at `index` cut out and the others
      in their order; an `index` that names no entry changes nothing. */
  ghost predicate RemovedAt<T>(s: seq<T>, index: int, r: seq<T>)
  {
    && (0 <= index < |s| ==> |r| == |s| - 1)
    && (!(0 <= index < |s|) ==> r == s)
    && (forall k :: 0 <= k < |r| && k < index ==> r[k] == s[k])
    && (forall k :: 0 <= index <= k < |r| ==> r[k] == s[k + 1])
  }

  /** `r` is `s` followed by `n` more entries. */
  ghost predicate Appended<T>(s: seq<T>, r: seq<T>, n: nat)
  {
    |r| == |s| + n && r[..|s|] == s
  }

  /** `list.filter((_, i) => i !== index)` */
  function RemoveAt<T>(s: seq<T>, index: int): (r: seq<T>)
    ensures RemovedAt(s, index, r)
  {
    if 0 <= index < |s| then s[..index] + s[index + 1..] else s
  }

  /** Every element of `s` for which `keep` holds, in their original order
      (`list.filter(keep)`). */
  function Filter<T>(s: seq<T>, keep: T -> bool): (r: seq<T>)
    ensures |r| <= |s|
    ensures forall k :: 0 <= k < |r| ==> r[k] in s && keep(r[k])
    ensures forall k :: 0 <= k < |s| && keep(s[k]) ==> s[k] in r
  {
    if |s| == 0 then []
    else if keep(s[0]) then [s[0]] + Filter(s[1..], keep)
    else Filter(s[1..], keep)
  }

  /** `Filter` distributes over concatenation, so it keeps the relative
      order of the elements it keeps. */
  lemma {:induction false} FilterAppend<T>(a: seq<T>, b: seq<T>, keep: T -> bool)
    ensures Filter(a + b, keep) == Filter(a, keep) + Filter(b, keep)
  {
    if |a| == 0 {
      assert a + b == b;
    } else {
      assert (a + b)[0] == a[0];
      assert (a + b)[1..] == a[1..] + b;
      FilterAppend(a[1..], b, keep);
    }
  }

  /** Filtering out exactly one element, when every other element is kept,
      leaves the list with that element cut out and the others in order. */
  lemma {:induction false} FilterDropsOne<T>(s: seq<T>, index: nat, keep: T -> bool)
    requires index < |s|
    requires !keep(s[index])
    requires forall k :: 0 <= k < |s| && k != index ==> keep(s[k])
    ensures Filter(s, keep) == RemoveAt(s, index)
  {
    var pre, x, post := s[..index], s[index], s[index + 1..];
    assert s == pre + [x] + post;
    assert forall k :: 0 <= k < |pre| ==> keep(pre[k]) by {
      forall k | 0 <= k < |pre| ensures keep(pre[k]) {
        assert pre[k] == s[k];
      }
    }
    assert forall k :: 0 <= k < |post| ==> keep(post[k]) by {
      forall k | 0 <= k < |post| ensures keep(post[k]) {
        assert post[k] == s[index + 1 + k];
      }
    }
    FilterKeepsAll(pre, keep);
    FilterKeepsAll(post, keep);
    assert Filter([x], keep) == [] by {
      assert [x][1..] == [];
    }
    FilterAppend(pre + [x], post, keep);
    FilterAppend(pre, [x], keep);
    assert pre + [] == pre;
  }

  /** A filter that keeps every element is the identity. */
  lemma {:induction false} FilterKeepsAll<T>(s: seq<T>, keep: T -> bool)
    requires forall k :: 0 <= k < |s| ==> keep(s[k])
    ensures Filter(s, keep) == s
  {
    if |s| > 0 {
      FilterKeepsAll(s[1..], keep);
    }
  }

  /** `ok` holds between every element of `s` and every later one. */
  predicate Pairwise<T>(s: seq<T>, ok: (T, T) -> bool)
  {
    forall j, k :: 0 <= j < k < |s| ==> ok(s[j], s[k])
  }

  /** A relation that holds between every earlier and later element of `s`
      still holds in any filter of `s`, since filtering keeps the order. */
  lemma {:induction false} FilterPairwise<T>(s: seq<T>, keep: T -> bool, ok: (T, T) -> bool)
    ensures Pairwise(s, ok) ==> Pairwise(Filter(s, keep), ok)
  {
    if |s| > 0 && Pairwise(s, ok) {
      var t := s[1..];
      assert Pairwise(t, ok) by {
        forall j, k | 0 <= j < k < |t| ensures ok(t[j], t[k]) {
          assert t[j] == s[j + 1] && t[k] == s[k + 1];
        }
      }
      FilterPairwise(t, keep, ok);
      if keep(s[0]) {
        assert forall m :: 0 <= m < |t| ==> ok(s[0], t[m]) by {
          forall m | 0 <= m < |t| ensures ok(s[0], t[m]) {
            assert t[m] == s[m + 1];
          }
        }
        ConsPairwise(s[0], Filter(t, keep), t, ok);
      }
    }
  }

  /** Putting `x` in front of a pairwise list of elements of `t` keeps it
      pairwise when `x` relates to every element of `t`. */
  lemma ConsPairwise<T>(x: T, r: seq<T>, t: seq<T>, ok: (T, T) -> bool)
    requires Pairwise(r, ok)
    requires forall k :: 0 <= k < |r| ==> r[k] in t
    requires forall m :: 0 <= m < |t| ==> ok(x, t[m])
    ensures Pairwise([x] + r, ok)
  {
    var c := [x] + r;
    forall j, k | 0 <= j < k < |c| ensures ok(c[j], c[k]) {
      assert c[k] == r[k - 1];
      if j > 0 {
        assert c[j] == r[j - 1];
      } else {
        var m :| 0 <= m < |t| && t[m] == r[k - 1];
      }
    }
  }
}
