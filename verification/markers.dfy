/** Timeline markers and the choice of the marker that is active at a frame.

    The handler sorts the scene's markers by frame with Python's `sorted`
    (a stable sort), then walks the sorted list remembering the last marker
    whose frame is not beyond the current frame, and stops at the first one
    that is. */
module Markers {
  import opened Wrappers

  /** A named point on the timeline. Several markers may share a frame. */
  datatype Marker = Marker(name: string, frame: int)

  ghost predicate SortedByFrame(s: seq<Marker>) {
    forall i, j :: 0 <= i < j < |s| ==> s[i].frame <= s[j].frame
  }

  /** The markers of `xs` that sit at frame `k`, in the order of `xs`. */
  function WithFrame(xs: seq<Marker>, k: int): (r: seq<Marker>)
    ensures |r| <= |xs|
  {
    if |xs| == 0 then []
    else WithFrame(xs[..|xs| - 1], k) + (if xs[|xs| - 1].frame == k then [xs[|xs| - 1]] else [])
  }

  lemma WithFrameSnoc(t: seq<Marker>, y: Marker, k: int)
    ensures WithFrame(t + [y], k) == WithFrame(t, k) + (if y.frame == k then [y] else [])
  {
    assert (t + [y])[..|t|] == t;
  }

  /** A frame group holds exactly the markers of the list at that frame. */
  lemma {:induction false} InFrameGroup(xs: seq<Marker>, k: int, m: Marker)
    ensures m in WithFrame(xs, k) <==> m in xs && m.frame == k
    decreases |xs|
  {
    if |xs| > 0 {
      var init, last := xs[..|xs| - 1], xs[|xs| - 1];
      assert xs == init + [last];
      InFrameGroup(init, k, m);
    }
  }

  /** Two lists hold the same markers at every frame, in the same relative order. */
  ghost predicate SameFrameGroups(a: seq<Marker>, b: seq<Marker>) {
    forall k :: WithFrame(a, k) == WithFrame(b, k)
  }

  /** Places `x` after every marker of `s` whose frame is not greater than
      its own: one step of a stable insertion sort. */
  function Insert(s: seq<Marker>, x: Marker): (r: seq<Marker>)
    ensures multiset(r) == multiset(s) + multiset{x}
  {
    if |s| == 0 || s[|s| - 1].frame <= x.frame then s + [x]
    else
      var init, last := s[..|s| - 1], s[|s| - 1];
      assert s == init + [last];
      Insert(init, x) + [last]
  }

  lemma {:induction false} InsertKeepsSorted(s: seq<Marker>, x: Marker)
    requires SortedByFrame(s)
    ensures SortedByFrame(Insert(s, x))
    decreases |s|
  {
    if |s| == 0 || s[|s| - 1].frame <= x.frame {
    } else {
      var init, last := s[..|s| - 1], s[|s| - 1];
      InsertKeepsSorted(init, x);
      var t := Insert(init, x);
      forall m | m in t
        ensures m.frame <= last.frame
      {
        assert m in multiset(t);
        assert m in init || m == x;
      }
      assert Insert(s, x) == t + [last];
    }
  }

  lemma {:induction false} InsertFrameGroups(s: seq<Marker>, x: Marker, k: int)
    ensures WithFrame(Insert(s, x), k) == WithFrame(s, k) + (if x.frame == k then [x] else [])
    decreases |s|
  {
    if |s| == 0 || s[|s| - 1].frame <= x.frame {
      WithFrameSnoc(s, x, k);
    } else {
      var init, last := s[..|s| - 1], s[|s| - 1];
      assert s == init + [last];
      InsertFrameGroups(init, x, k);
      var t := Insert(init, x);
      assert Insert(s, x) == t + [last];
      WithFrameSnoc(t, last, k);
      WithFrameSnoc(init, last, k);
    }
  }

  /** Python's `sorted(markers, key=lambda m: m.frame)`, as insertion sort. */
  function SortByFrame(xs: seq<Marker>): (r: seq<Marker>)
    ensures SortedByFrame(r)
    ensures multiset(r) == multiset(xs)
    ensures SameFrameGroups(r, xs)
  {
    if |xs| == 0 then []
    else
      var init, last := xs[..|xs| - 1], xs[|xs| - 1];
      assert xs == init + [last];
      var sortedInit := SortByFrame(init);
      InsertKeepsSorted(sortedInit, last);
      assert SameFrameGroups(Insert(sortedInit, last), xs) by {
        forall k ensures WithFrame(Insert(sortedInit, last), k) == WithFrame(xs, k) {
          InsertFrameGroups(sortedInit, last, k);
          WithFrameSnoc(init, last, k);
        }
      }
      Insert(sortedInit, last)
  }

  /** The last marker of a sorted list is the last marker of its frame group
      in any list with the same frame groups, and no marker there is at a
      later frame. */
  lemma LastOfSorted(a: seq<Marker>, b: seq<Marker>)
    requires SortedByFrame(b) && |a| > 0
    requires SameFrameGroups(a, b)
    ensures |b| > 0 && b[|b| - 1].frame >= a[|a| - 1].frame
  {
    var x := a[|a| - 1];
    assert a == a[..|a| - 1] + [x];
    WithFrameSnoc(a[..|a| - 1], x, x.frame);
    InFrameGroup(a, x.frame, x);
    assert WithFrame(a, x.frame) == WithFrame(b, x.frame);
    InFrameGroup(b, x.frame, x);
    var j :| 0 <= j < |b| && b[j] == x;
    if j < |b| - 1 {
      assert b[j].frame <= b[|b| - 1].frame;
    }
  }

  /** A stable sort by frame has exactly one possible result: two sorted lists
      with the same frame groups are equal. So the model does not depend on
      which stable algorithm the host language uses. */
  lemma {:induction false} StableSortUnique(a: seq<Marker>, b: seq<Marker>)
    requires SortedByFrame(a) && SortedByFrame(b)
    requires SameFrameGroups(a, b)
    ensures a == b
    decreases |a|
  {
    if |a| == 0 {
      if |b| > 0 {
        LastOfSorted(b, a);
      }
    } else {
      LastOfSorted(a, b);
      LastOfSorted(b, a);
      var a', x := a[..|a| - 1], a[|a| - 1];
      var b', y := b[..|b| - 1], b[|b| - 1];
      assert a == a' + [x];
      assert b == b' + [y];
      var k0 := x.frame;
      WithFrameSnoc(a', x, k0);
      WithFrameSnoc(b', y, k0);
      assert y.frame == k0;
      var g := WithFrame(a, k0);
      assert g == WithFrame(b, k0);
      assert g[|g| - 1] == x && g[|g| - 1] == y;
      assert x == y;
      forall k
        ensures WithFrame(a', k) == WithFrame(b', k)
      {
        WithFrameSnoc(a', x, k);
        WithFrameSnoc(b', y, k);
        var ga, gb := WithFrame(a', k), WithFrame(b', k);
        assert WithFrame(a, k) == WithFrame(b, k);
        assert |ga| == |gb|;
        assert ga == WithFrame(a, k)[..|ga|];
        assert gb == WithFrame(b, k)[..|gb|];
      }
      StableSortUnique(a', b');
    }
  }

  /** The scan over the sorted markers as the handler writes it: remember the
      current marker while its frame is not beyond `frame`, and stop at the
      first marker that is. */
  function ScanWithBreak(s: seq<Marker>, frame: int, active: Option<Marker>): Option<Marker>
    decreases |s|
  {
    if |s| == 0 then active
    else if s[0].frame <= frame then ScanWithBreak(s[1..], frame, Some(s[0]))
    else active
  }

  /** The same scan without the early exit: it looks at every marker. */
  function FullScan(s: seq<Marker>, frame: int, active: Option<Marker>): Option<Marker>
    decreases |s|
  {
    if |s| == 0 then active
    else FullScan(s[1..], frame, if s[0].frame <= frame then Some(s[0]) else active)
  }

  lemma {:induction false} FullScanNoneReached(s: seq<Marker>, frame: int, active: Option<Marker>)
    requires forall m :: m in s ==> m.frame > frame
    ensures FullScan(s, frame, active) == active
    decreases |s|
  {
    if |s| > 0 {
      assert s[0] in s;
      FullScanNoneReached(s[1..], frame, active);
    }
  }

  /** On sorted markers the early exit changes nothing. */
  lemma {:induction false} BreakIsOptimisation(s: seq<Marker>, frame: int, active: Option<Marker>)
    requires SortedByFrame(s)
    ensures ScanWithBreak(s, frame, active) == FullScan(s, frame, active)
    decreases |s|
  {
    if |s| > 0 {
      if s[0].frame <= frame {
        BreakIsOptimisation(s[1..], frame, Some(s[0]));
      } else {
        FullScanNoneReached(s[1..], frame, active);
      }
    }
  }

  /** A full scan ends on the last marker (by position) not beyond `frame`,
      or keeps `active` when there is none. */
  lemma {:induction false} FullScanFindsLastReached(s: seq<Marker>, frame: int, active: Option<Marker>)
    ensures (forall m :: m in s ==> m.frame > frame) ==> FullScan(s, frame, active) == active
    ensures (exists m :: m in s && m.frame <= frame) ==>
      exists i :: 0 <= i < |s| && FullScan(s, frame, active) == Some(s[i]) && s[i].frame <= frame
        && forall j :: i < j < |s| ==> s[j].frame > frame
    decreases |s|
  {
    if |s| > 0 {
      var next := if s[0].frame <= frame then Some(s[0]) else active;
      var t := s[1..];
      FullScanFindsLastReached(t, frame, next);
      if exists m :: m in t && m.frame <= frame {
        var i' :| 0 <= i' < |t| && FullScan(t, frame, next) == Some(t[i'])
          && t[i'].frame <= frame && forall j :: i' < j < |t| ==> t[j].frame > frame;
        assert FullScan(s, frame, active) == Some(s[i' + 1]);
        forall j | i' + 1 < j < |s|
          ensures s[j].frame > frame
        {
          assert s[j] == t[j - 1];
        }
      } else if s[0].frame <= frame {
        forall j | 0 < j < |s|
          ensures s[j].frame > frame
        {
          assert s[j] in t;
        }
      } else {
        forall m | m in s
          ensures m.frame > frame
        {
          if m != s[0] {
            assert m in t;
          }
        }
      }
    }
  }

  /** `a` is the marker the handler should treat as active among `xs` at
      `frame`: not beyond `frame`, at the greatest such frame, and the last
      marker at that frame in the order of `xs`. */
  ghost predicate IsLatestMax(xs: seq<Marker>, frame: int, a: Marker) {
    && a.frame <= frame
    && (forall m :: m in xs && m.frame <= frame ==> m.frame <= a.frame)
    && exists i :: 0 <= i < |xs| && xs[i] == a && forall j :: i < j < |xs| ==> xs[j].frame != a.frame
  }

  /** The characterisation above fixes the marker uniquely. */
  lemma LatestMaxUnique(xs: seq<Marker>, frame: int, a: Marker, b: Marker)
    requires IsLatestMax(xs, frame, a) && IsLatestMax(xs, frame, b)
    ensures a == b
  {
    var i :| 0 <= i < |xs| && xs[i] == a && forall j :: i < j < |xs| ==> xs[j].frame != a.frame;
    var k :| 0 <= k < |xs| && xs[k] == b && forall j :: k < j < |xs| ==> xs[j].frame != b.frame;
    assert a in xs && b in xs;
    assert a.frame == b.frame;
    assert i == k;
  }

  lemma {:induction false} LastIndexIsLastOfGroup(xs: seq<Marker>, i: int)
    requires 0 <= i < |xs|
    requires forall j :: i < j < |xs| ==> xs[j].frame != xs[i].frame
    ensures var g := WithFrame(xs, xs[i].frame); |g| > 0 && g[|g| - 1] == xs[i]
    decreases |xs|
  {
    var init, last := xs[..|xs| - 1], xs[|xs| - 1];
    assert xs == init + [last];
    WithFrameSnoc(init, last, xs[i].frame);
    if i < |xs| - 1 {
      LastIndexIsLastOfGroup(init, i);
    }
  }

  lemma {:induction false} LastOfGroupHasLastIndex(xs: seq<Marker>, k: int)
    requires |WithFrame(xs, k)| > 0
    ensures var g := WithFrame(xs, k);
      exists i :: 0 <= i < |xs| && xs[i] == g[|g| - 1] && xs[i].frame == k
        && forall j :: i < j < |xs| ==> xs[j].frame != k
    decreases |xs|
  {
    var g := WithFrame(xs, k);
    var n := |xs|;
    var init, last := xs[..n - 1], xs[n - 1];
    assert xs == init + [last];
    WithFrameSnoc(init, last, k);
    if last.frame == k {
      assert xs[n - 1] == g[|g| - 1];
    } else {
      assert g == WithFrame(init, k);
      LastOfGroupHasLastIndex(init, k);
      var i :| 0 <= i < |init| && init[i] == g[|g| - 1] && init[i].frame == k
        && forall j :: i < j < |init| ==> init[j].frame != k;
      assert xs[i] == init[i];
      forall j | i < j < n
        ensures xs[j].frame != k
      {
        if j < n - 1 {
          assert xs[j] == init[j];
        }
      }
    }
  }

  /** The characterisation depends only on the frame groups of the list, so
      it survives a stable sort. */
  lemma LatestMaxAcrossGroups(s: seq<Marker>, xs: seq<Marker>, frame: int, a: Marker)
    requires SameFrameGroups(s, xs)
    requires IsLatestMax(s, frame, a)
    ensures IsLatestMax(xs, frame, a)
  {
    forall m | m in xs && m.frame <= frame
      ensures m.frame <= a.frame
    {
      InFrameGroup(xs, m.frame, m);
      InFrameGroup(s, m.frame, m);
      assert WithFrame(s, m.frame) == WithFrame(xs, m.frame);
    }
    var i :| 0 <= i < |s| && s[i] == a && forall j :: i < j < |s| ==> s[j].frame != a.frame;
    LastIndexIsLastOfGroup(s, i);
    assert WithFrame(s, a.frame) == WithFrame(xs, a.frame);
    LastOfGroupHasLastIndex(xs, a.frame);
  }

  /** The scan of a sorted list, with or without its early exit, picks the
      latest marker at the greatest frame not beyond `frame`. */
  lemma ScanSortedIsLatestMax(s: seq<Marker>, frame: int)
    requires SortedByFrame(s)
    ensures ScanWithBreak(s, frame, None).None? <==> forall m :: m in s ==> m.frame > frame
    ensures ScanWithBreak(s, frame, None).Some? ==> IsLatestMax(s, frame, ScanWithBreak(s, frame, None).value)
  {
    BreakIsOptimisation(s, frame, None);
    FullScanFindsLastReached(s, frame, None);
    if exists m :: m in s && m.frame <= frame {
      var i :| 0 <= i < |s| && FullScan(s, frame, None) == Some(s[i]) && s[i].frame <= frame
        && forall j :: i < j < |s| ==> s[j].frame > frame;
      var a := s[i];
      forall m | m in s && m.frame <= frame
        ensures m.frame <= a.frame
      {
        var j :| 0 <= j < |s| && s[j] == m;
      }
      assert IsLatestMax(s, frame, a);
    }
  }

  /** Lines 24-43 of the handler: the active marker, or `None` when the scene
      has no marker or the frame comes before all of them. */
  function SelectActive(markers: seq<Marker>, frame: int): (r: Option<Marker>)
    ensures r.None? <==> forall m :: m in markers ==> m.frame > frame
    ensures r.Some? ==> IsLatestMax(markers, frame, r.value)
  {
    var s := SortByFrame(markers);
    ScanSortedIsLatestMax(s, frame);
    assert forall m :: m in s <==> m in markers by {
      forall m ensures m in s <==> m in markers {
        assert m in s <==> m in multiset(s);
        assert m in markers <==> m in multiset(markers);
      }
    }
    var r := ScanWithBreak(s, frame, None);
    if r.Some? then
      LatestMaxAcrossGroups(s, markers, frame, r.value);
      r
    else r
  }

  /** Of the markers at the greatest frame not beyond `frame`, the one that
      comes last in the scene's own order wins. */
  lemma LatestTieWins(markers: seq<Marker>, frame: int, i: int)
    requires 0 <= i < |markers| && markers[i].frame <= frame
    requires forall m :: m in markers && m.frame <= frame ==> m.frame <= markers[i].frame
    requires forall j :: i < j < |markers| ==> markers[j].frame != markers[i].frame
    ensures SelectActive(markers, frame) == Some(markers[i])
  {
    assert IsLatestMax(markers, frame, markers[i]);
    var r := SelectActive(markers, frame);
    assert markers[i] in markers;
    LatestMaxUnique(markers, frame, r.value, markers[i]);
  }

  /** The handler's loop over the sorted markers, with its `break`. */
  method FindActiveMarker(markers: seq<Marker>, frame: int) returns (active: Option<Marker>)
    ensures active == SelectActive(markers, frame)
  {
    var s := SortByFrame(markers);
    active := None;
    var i := 0;
    while i < |s|
      invariant 0 <= i <= |s|
      invariant ScanWithBreak(s[i..], frame, active) == ScanWithBreak(s, frame, None)
    {
      if s[i].frame <= frame {
        active := Some(s[i]);
      } else {
        break;
      }
      i := i + 1;
    }
  }
}
