/** The top-level layer collections of the active view layer and the
    synchronisation of their exclude flags with the active marker's name. */
module Collections {

  /** A direct child of the view layer's layer collection: its name and
      whether it is excluded (hidden). */
  datatype Col = Col(name: string, exclude: bool)

  /** The one name the handler never reads or writes. */
  const IgnoreName: string := "MarkerSyncIgnore"

  /** The handler controls every collection except the one with the reserved name. */
  predicate Controlled(c: Col) {
    c.name != IgnoreName
  }

  /** A collection agrees with the active marker name: if controlled, it is
      excluded exactly when its name differs from that name. */
  predicate InSync(c: Col, activeName: string) {
    Controlled(c) ==> c.exclude == (c.name != activeName)
  }

  /** One collection as the loop leaves it. */
  function SyncOne(c: Col, activeName: string): Col {
    if c.name == IgnoreName then c else c.(exclude := c.name != activeName)
  }

  /** The collections after one pass of the handler's loop over them. */
  function Sync(cols: seq<Col>, activeName: string): (r: seq<Col>)
    ensures |r| == |cols|
    ensures forall i :: 0 <= i < |r| ==> r[i].name == cols[i].name
    ensures forall i :: 0 <= i < |r| && !Controlled(cols[i]) ==> r[i] == cols[i]
    ensures forall i :: 0 <= i < |r| && Controlled(cols[i]) ==> r[i].exclude == (cols[i].name != activeName)
  {
    if |cols| == 0 then []
    else Sync(cols[..|cols| - 1], activeName) + [SyncOne(cols[|cols| - 1], activeName)]
  }

  lemma SyncSnoc(init: seq<Col>, c: Col, activeName: string)
    ensures Sync(init + [c], activeName) == Sync(init, activeName) + [SyncOne(c, activeName)]
  {
    assert (init + [c])[..|init|] == init;
  }

  lemma SyncPointwise(cols: seq<Col>, activeName: string, out: seq<Col>)
    requires |out| == |cols|
    requires forall j :: 0 <= j < |cols| ==> out[j] == SyncOne(cols[j], activeName)
    ensures out == Sync(cols, activeName)
  {
    var r := Sync(cols, activeName);
    forall j | 0 <= j < |cols|
      ensures out[j] == r[j]
    {
      assert r[j].name == out[j].name;
    }
  }

  /** The number of controlled collections whose flag disagrees with the
      active marker name: the writes one pass of the loop performs. */
  function Mismatched(cols: seq<Col>, activeName: string): nat
  {
    if |cols| == 0 then 0
    else
      var c := cols[|cols| - 1];
      Mismatched(cols[..|cols| - 1], activeName) + (if InSync(c, activeName) then 0 else 1)
  }

  lemma MismatchedSnoc(init: seq<Col>, c: Col, activeName: string)
    ensures Mismatched(init + [c], activeName) == Mismatched(init, activeName) + (if InSync(c, activeName) then 0 else 1)
  {
    assert (init + [c])[..|init|] == init;
  }

  /** The number of positions at which two equally long lists differ. */
  function DiffCount(xs: seq<Col>, ys: seq<Col>): nat
    requires |xs| == |ys|
  {
    if |xs| == 0 then 0
    else DiffCount(xs[..|xs| - 1], ys[..|ys| - 1]) + (if xs[|xs| - 1] != ys[|ys| - 1] then 1 else 0)
  }

  lemma {:induction false} DiffCountSelf(xs: seq<Col>)
    ensures DiffCount(xs, xs) == 0
    decreases |xs|
  {
    if |xs| > 0 {
      DiffCountSelf(xs[..|xs| - 1]);
    }
  }

  /** After a sync every collection agrees with the active marker name. */
  lemma SyncEstablishesInSync(cols: seq<Col>, activeName: string)
    ensures forall i :: 0 <= i < |cols| ==> InSync(Sync(cols, activeName)[i], activeName)
  {
  }

  /** A sync leaves a list alone exactly when every collection already agrees. */
  lemma SyncFixesExactlyInSync(cols: seq<Col>, activeName: string)
    ensures Sync(cols, activeName) == cols <==> forall i :: 0 <= i < |cols| ==> InSync(cols[i], activeName)
  {
    var r := Sync(cols, activeName);
    if forall i :: 0 <= i < |cols| ==> InSync(cols[i], activeName) {
      forall i | 0 <= i < |cols|
        ensures r[i] == cols[i]
      {
        assert InSync(cols[i], activeName);
      }
    } else {
      var i :| 0 <= i < |cols| && !InSync(cols[i], activeName);
      assert r[i] != cols[i];
    }
  }

  /** Syncing twice with the same name is the same as syncing once. */
  lemma SyncIdempotent(cols: seq<Col>, activeName: string)
    ensures Sync(Sync(cols, activeName), activeName) == Sync(cols, activeName)
  {
    SyncEstablishesInSync(cols, activeName);
    SyncFixesExactlyInSync(Sync(cols, activeName), activeName);
  }

  /** The writes are exactly the positions the sync changes. */
  lemma {:induction false} MismatchedIsDiffCount(cols: seq<Col>, activeName: string)
    ensures Mismatched(cols, activeName) == DiffCount(cols, Sync(cols, activeName))
    decreases |cols|
  {
    if |cols| > 0 {
      var init := cols[..|cols| - 1];
      var r := Sync(cols, activeName);
      MismatchedIsDiffCount(init, activeName);
      assert r[..|r| - 1] == Sync(init, activeName);
    }
  }

  /** A second sync with the same name writes nothing. */
  lemma {:induction false} SecondSyncWritesNothing(cols: seq<Col>, activeName: string)
    ensures Mismatched(Sync(cols, activeName), activeName) == 0
    decreases |cols|
  {
    if |cols| > 0 {
      var init := cols[..|cols| - 1];
      var r := Sync(cols, activeName);
      SecondSyncWritesNothing(init, activeName);
      assert r[..|r| - 1] == Sync(init, activeName);
    }
  }

  /** The handler's loop over the top-level collections: skip the reserved
      name, and write a flag only when it differs from the target, counting
      the writes. */
  method ApplySync(cols: seq<Col>, activeName: string) returns (out: seq<Col>, writes: nat)
    ensures out == Sync(cols, activeName)
    ensures writes == Mismatched(cols, activeName)
    ensures writes == DiffCount(cols, out)
  {
    out := cols;
    writes := 0;
    var i := 0;
    while i < |cols|
      invariant 0 <= i <= |cols|
      invariant |out| == |cols|
      invariant forall j :: 0 <= j < i ==> out[j] == SyncOne(cols[j], activeName)
      invariant forall j :: i <= j < |cols| ==> out[j] == cols[j]
      invariant writes == Mismatched(cols[..i], activeName)
    {
      var c := cols[i];
      assert cols[..i + 1] == cols[..i] + [c];
      MismatchedSnoc(cols[..i], c, activeName);
      ghost var step := if InSync(c, activeName) then 0 else 1;
      assert Mismatched(cols[..i + 1], activeName) == writes + step;
      if c.name == IgnoreName {
        assert step == 0;
        i := i + 1;
        continue;
      }
      var shouldExclude := c.name != activeName;
      if out[i].exclude != shouldExclude {
        assert step == 1;
        out := out[i := out[i].(exclude := shouldExclude)];
        writes := writes + 1;
      } else {
        assert step == 0;
      }
      i := i + 1;
    }
    assert cols[..|cols|] == cols;
    SyncPointwise(cols, activeName, out);
    MismatchedIsDiffCount(cols, activeName);
  }
}
