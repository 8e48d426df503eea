/** The frame-change handler as a whole: marker selection, the two context
    guards, then the exclude-flag sync.

    The host's ambient context becomes two inputs: whether an active view
    layer is available, and whether the host's active scene is the scene the
    event fired for. */
module FrameChange {
  import opened Wrappers
  import opened Markers
  import opened Collections

  /** The top-level collections after the handler has run for `frame`. */
  function Handler(markers: seq<Marker>, frame: int, hasViewLayer: bool, sceneIsActive: bool,
                   cols: seq<Col>): (r: seq<Col>)
    ensures |r| == |cols|
    ensures forall i :: 0 <= i < |r| ==> r[i].name == cols[i].name
    ensures forall i :: 0 <= i < |r| && !Controlled(cols[i]) ==> r[i] == cols[i]
    ensures |markers| == 0 ==> r == cols
    ensures (forall m :: m in markers ==> m.frame > frame) ==> r == cols
    ensures !hasViewLayer || !sceneIsActive ==> r == cols
    ensures forall a :: hasViewLayer && sceneIsActive && IsLatestMax(markers, frame, a) ==>
      forall i :: 0 <= i < |r| && Controlled(r[i]) ==> r[i].exclude == (r[i].name != a.name)
  {
    if |markers| == 0 then cols
    else
      match SelectActive(markers, frame)
      case None => cols
      case Some(active) =>
        if !hasViewLayer then cols
        else if !sceneIsActive then cols
        else
          forall a | IsLatestMax(markers, frame, a)
            ensures a == active
          {
            LatestMaxUnique(markers, frame, a, active);
          }
          Sync(cols, active.name)
  }

  /** Running the handler twice with the same scene state is running it once. */
  lemma HandlerIdempotent(markers: seq<Marker>, frame: int, hasViewLayer: bool, sceneIsActive: bool,
                          cols: seq<Col>)
    ensures var r := Handler(markers, frame, hasViewLayer, sceneIsActive, cols);
      Handler(markers, frame, hasViewLayer, sceneIsActive, r) == r
  {
    var active := SelectActive(markers, frame);
    if |markers| > 0 && active.Some? && hasViewLayer && sceneIsActive {
      SyncIdempotent(cols, active.value.name);
    }
  }

  /** The imperative handler: the marker scan with its early exit, the
      guards, and the flag loop that counts its writes. */
  method HandleFrameChange(markers: seq<Marker>, frame: int, hasViewLayer: bool, sceneIsActive: bool,
                           cols: seq<Col>) returns (out: seq<Col>, writes: nat)
    ensures out == Handler(markers, frame, hasViewLayer, sceneIsActive, cols)
    ensures writes == DiffCount(cols, out)
    ensures !hasViewLayer || !sceneIsActive || (forall m :: m in markers ==> m.frame > frame) ==> writes == 0
    ensures forall a :: hasViewLayer && sceneIsActive && IsLatestMax(markers, frame, a) ==>
      writes == Mismatched(cols, a.name)
  {
    out, writes := cols, 0;
    DiffCountSelf(cols);
    if |markers| == 0 {
      return;
    }
    var active := FindActiveMarker(markers, frame);
    if active.None? {
      return;
    }
    if !hasViewLayer {
      return;
    }
    if !sceneIsActive {
      return;
    }
    out, writes := ApplySync(cols, active.value.name);
    forall a | IsLatestMax(markers, frame, a)
      ensures a == active.value
    {
      LatestMaxUnique(markers, frame, a, active.value);
    }
  }

  /** The writes a call performs on the collections a previous call with the
      same scene state produced: none. */
  lemma SecondCallWritesNothing(markers: seq<Marker>, frame: int, hasViewLayer: bool, sceneIsActive: bool,
                                cols: seq<Col>)
    ensures var r := Handler(markers, frame, hasViewLayer, sceneIsActive, cols);
      DiffCount(r, Handler(markers, frame, hasViewLayer, sceneIsActive, r)) == 0
  {
    var r := Handler(markers, frame, hasViewLayer, sceneIsActive, cols);
    HandlerIdempotent(markers, frame, hasViewLayer, sceneIsActive, cols);
    DiffCountSelf(r);
  }

  /** Markers Intro@1, Battle@50, Ending@120 at frame 60: Battle is shown,
      the other two are hidden, and the reserved collection keeps its flag. */
  lemma BattleScenario(markers: seq<Marker>, cols: seq<Col>)
    requires markers == [Marker("Intro", 1), Marker("Battle", 50), Marker("Ending", 120)]
    requires cols == [Col("Intro", false), Col("Battle", true), Col("Ending", false), Col(IgnoreName, false)]
    ensures Handler(markers, 60, true, true, cols)
      == [Col("Intro", true), Col("Battle", false), Col("Ending", true), Col(IgnoreName, false)]
  {
    LatestTieWins(markers, 60, 1);
    var a := markers[1];
    assert IsLatestMax(markers, 60, a);
    var r := Handler(markers, 60, true, true, cols);
    assert |r| == 4;
    assert r[0] == Col("Intro", true) by {
      assert r[0].name == "Intro" && Controlled(r[0]);
    }
    assert r[1] == Col("Battle", false) by {
      assert r[1].name == "Battle" && Controlled(r[1]);
    }
    assert r[2] == Col("Ending", true) by {
      assert r[2].name == "Ending" && Controlled(r[2]);
    }
    assert r[3] == cols[3] by {
      assert !Controlled(cols[3]);
    }
  }
}
