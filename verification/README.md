# Collection Marker Sync, modelled in Dafny

Collection Marker Sync is a Blender add-on. It shows and hides the top-level
collections of the active view layer to match the timeline marker that is
active at the current frame. On every frame change its handler
`update_collections_by_marker` does the following:

1. It sorts the scene's markers by frame with Python's stable `sorted`.
2. It walks the sorted list and keeps the last marker whose frame is not
   beyond the current frame. It stops at the first marker beyond it.
3. It returns without effect when the scene has no markers, when no marker
   has been reached yet, when no view layer is available, or when the scene
   the event fired for is not the host's active scene.
4. For each direct child of the view layer's layer collection except one
   named `MarkerSyncIgnore`, it sets `exclude` to "name differs from the
   active marker's name". It writes the flag only when the value changes.

The model is functional. Markers are `Marker(name, frame)` and collections
are `Col(name, exclude)`, both held in sequences. Each operation returns the
new collection list instead of mutating host objects. The two host lookups
(`bpy.context.view_layer` and `bpy.context.scene == scene`) become the
boolean inputs `hasViewLayer` and `sceneIsActive`. Two imperative methods
mirror the source's loops. One is the marker scan with its `break`. The other
is the flag loop with its `continue` and a write counter. Both are proved
equal to the pure functions.

Files:
- `wrappers.dfy`: module `Wrappers`, the `Option` type.
- `markers.dfy`: module `Markers`, the stable sort by frame and active-marker selection.
- `collections.dfy`: module `Collections`, exclude-flag synchronisation and write counting.
- `handler.dfy`: module `FrameChange`, the whole handler.
- `registration.dfy`: module `Registration`, `register` / `unregister` as list operations.

The active marker is specified independently of the algorithm by
`Markers.IsLatestMax(xs, frame, a)`. It holds when `a` is not beyond the
frame, no marker not beyond the frame has a greater frame, and `a` is the
last marker at its frame in the scene's own order. `Markers.LatestMaxUnique`
shows this fixes `a` uniquely.

## Model

| member | source | states |
|---|---|---|
| Markers.SortByFrame | __init__.py:24 | the sorted list is ordered by frame, is a permutation of the scene's markers, and keeps the markers of each frame in their original order (stability) |
| Markers.StableSortUnique | __init__.py:24 | any two frame-sorted lists with the same per-frame groups are equal, so every stable sort by frame yields the list the handler scans |
| Markers.BreakIsOptimisation | __init__.py:34-38 | on a frame-sorted list, the scan that stops at the first marker beyond the frame returns what a scan of the whole list returns |
| Markers.FullScanFindsLastReached | __init__.py:34-38 | a scan of the whole list ends on the last marker, by position, whose frame is not beyond the current frame; if there is none, it keeps its starting value |
| Markers.ScanSortedIsLatestMax | __init__.py:30-38 | on a sorted list the scan finds nothing exactly when every marker is beyond the frame; otherwise it finds the latest marker at the greatest frame not beyond it |
| Markers.LatestMaxUnique | __init__.py:30-38 | at most one marker is the latest marker at the greatest frame not beyond the current frame |
| Markers.SelectActive | __init__.py:24-43 | there is no active marker exactly when every marker is beyond the current frame (this covers no markers at all); otherwise the active marker is not beyond the frame, has the greatest such frame, and is the last marker at that frame in the scene's order |
| Markers.LatestTieWins | __init__.py:24-36 | when several markers share the greatest frame not beyond the current one, the marker that comes last in the scene's enumeration is chosen |
| Markers.FindActiveMarker | __init__.py:30-38 | the imperative loop with its `break` returns the same active marker as the pure selection |
| Collections.Sync | __init__.py:68-83 | count, order and names are unchanged; the `MarkerSyncIgnore` collection is left as it was; every other collection is excluded exactly when its name differs from the active marker's name |
| Collections.SyncFixesExactlyInSync | __init__.py:80-83 | the sync changes nothing exactly when every controlled collection already agrees with the active marker name |
| Collections.SyncIdempotent | __init__.py:68-83 | a second sync with the same marker name changes nothing more |
| Collections.MismatchedIsDiffCount | __init__.py:80-83 | the number of writes (controlled collections whose flag disagrees with the target) equals the number of positions the sync changes |
| Collections.SecondSyncWritesNothing | __init__.py:80-83 | after one sync, a second sync with the same name would make zero writes |
| Collections.ApplySync | __init__.py:67-83 | the loop that skips the reserved name and writes only on change produces the synced list, and its write counter equals the number of mismatched controlled flags |
| FrameChange.Handler | __init__.py:24-83 | the collections are unchanged when there are no markers, when every marker is beyond the frame, when no view layer is available, or when the scene is not active; otherwise every controlled collection is excluded exactly when its name differs from the active marker's; names, count, order and the reserved collection never change |
| FrameChange.HandleFrameChange | __init__.py:24-83 | the imperative handler computes the same collections as the pure one; its write count is the number of changed positions, zero when a guard stops it, and the number of mismatched controlled flags otherwise |
| FrameChange.HandlerIdempotent | __init__.py:68-83 | running the handler again on its own result, with the same markers, frame and context, changes nothing |
| FrameChange.SecondCallWritesNothing | __init__.py:80-83 | a second call with unchanged scene state performs zero writes |
| FrameChange.BattleScenario | __init__.py:30-83 | with markers Intro@1, Battle@50 and Ending@120 at frame 60, Battle is shown, Intro and Ending are hidden, and `MarkerSyncIgnore` keeps its flag |
| Registration.Register | __init__.py:89-95 | after `register` the handler is in the list, the old list is a prefix of the new one, and the list grows only if the handler was absent |
| Registration.Unregister | __init__.py:97-101 | `unregister` removes one occurrence of the handler when present and leaves the list alone otherwise |
| Registration.RegisterIdempotent | __init__.py:91-92 | registering twice gives the same list as registering once |
| Registration.RegisterThenUnregister | __init__.py:89-101 | unregistering restores the list a registration extended |
| Registration.AtMostOnceKept | __init__.py:89-101 | a list that holds the handler at most once holds it exactly once after `register` and not at all after `unregister` |

## Left out

- The `bpy.context` lookups and the `AttributeError` fallback (__init__.py:50-65) are modelled only by their outcome, as the two inputs `hasViewLayer` and `sceneIsActive`. Host objects, scene identity and restricted contexts are not modelled.
- The `print` diagnostics (__init__.py:21, 82, 90-101) are console output with no effect on the collections, so they are left out. The writes they report are counted instead.
- The `found_match` flag (__init__.py:67, 77-78, 85-87) is left out. It only leads to `pass`, so it has no observable effect.
- The `bl_info` metadata, the `@persistent` decorator and the `__main__` guard (__init__.py:1-15, 103-104) are host metadata with no behaviour, so they are left out.
- Python's `sorted` is TimSort; the model uses an insertion sort instead. `Markers.StableSortUnique` shows that every stable sort by frame gives the same list, so this changes no result.
- Registration.Unregister: its contract speaks of multisets, not of which occurrence `list.remove` drops. The function itself drops the first occurrence, and `Registration.RegisterThenUnregister` pins the result down for a list that holds the handler once.
- Exclude-flag writes happen on a live host tree in the source. Here they are the difference between the input and output lists, counted by `Collections.ApplySync`; nothing about host-side update cost is modelled.
