/** The keyboard branch of `update` in src/app.rs: ArrowRight and ArrowLeft
    step through the records with wrap-around, Enter copies the analysis
    settings of the previously selected record into the selected one, D
    toggles the debug window. The branches form one else-if chain, so at
    most one of them runs per frame. The call to `receive_image_data` that
    opens `update` is `PoreDetectionApp.ReceiveImageData`; the view calls
    that close it are not modelled. */
module AppUpdate {
  import opened Wrappers
  import opened Pixels
  import opened ImageDataModel
  import opened DetectionApp

  /** The keys the branch tests; any other key is `OtherKey`. */
  datatype Key = ArrowRight | ArrowLeft | Enter | D | OtherKey

  /** The record ArrowRight selects after `i` (app.rs:16-21). */
  function NextIndex(i: nat, len: nat): (j: nat)
    requires i < len
    ensures j < len
    ensures j == (i + 1) % len
  {
    if i < len - 1 then i + 1 else 0
  }

  /** The record ArrowLeft selects after `i` (app.rs:26-31). */
  function PrevIndex(i: nat, len: nat): (j: nat)
    requires i < len
    ensures j < len
    ensures j == (i + len - 1) % len
  {
    if i > 0 then i - 1 else len - 1
  }

  /** Left undoes right and right undoes left. */
  lemma NextPrevInverse(i: nat, len: nat)
    requires i < len
    ensures PrevIndex(NextIndex(i, len), len) == i
    ensures NextIndex(PrevIndex(i, len), len) == i
  {
  }

  /** The record selected after pressing ArrowRight `k` times from `i`. */
  function StepsRight(i: nat, len: nat, k: nat): (j: nat)
    requires i < len
    ensures j < len
  {
    if k == 0 then i else NextIndex(StepsRight(i, len, k - 1), len)
  }

  /** Pressing ArrowRight `k` times advances the selection by `k` modulo the
      number of records; `len` presses come back to the start. */
  lemma {:induction false} StepsRightModulo(i: nat, len: nat, k: nat)
    requires i < len
    ensures StepsRight(i, len, k) == (i + k) % len
    ensures k == len ==> StepsRight(i, len, k) == i
  {
    if k > 0 {
      StepsRightModulo(i, len, k - 1);
      NextModulo(i + k - 1, len);
    }
    if k == len {
      DivModOf(1, i, len);
    }
  }

  /** One more press from any position taken modulo `len`. */
  lemma NextModulo(a: nat, len: nat)
    requires 0 < len
    ensures NextIndex(a % len, len) == (a + 1) % len
  {
    var q, r := a / len, a % len;
    assert a == q * len + r;
    if r < len - 1 {
      assert a + 1 == q * len + (r + 1);
      DivModOf(q, r + 1, len);
    } else {
      assert a + 1 == (q + 1) * len + 0 by {
        assert (q + 1) * len == q * len + len;
      }
      DivModOf(q + 1, 0, len);
    }
  }

  /** The settings Enter copies from the previous record `src` into the
      selected record `dst` (app.rs:37-54): the region only when `src` has
      both corners, then threshold, both pore bounds and the minimum feature
      size. */
  function CopySettings(dst: ImageData, src: ImageData): (r: ImageData)
    ensures r.path == dst.path && r.image == dst.image && r.density == dst.density
    ensures r.blackPixels == dst.blackPixels && r.greenPixels == dst.greenPixels
    ensures r.includedMinFeatureSize == src.includedMinFeatureSize
  {
    var withRegion :=
      if src.regionStart.Some? && src.regionEnd.Some?
      then dst.(regionStart := src.regionStart, regionEnd := src.regionEnd)
      else dst;
    withRegion.(threshold := src.threshold,
                minimalPoreSizeLow := src.minimalPoreSizeLow,
                minimalPoreSizeHigh := src.minimalPoreSizeHigh,
                includedMinFeatureSize := src.includedMinFeatureSize)
  }

  /** After Enter the selected record is analysed with the previous record's
      settings; its own region survives only when the previous record had
      none. */
  lemma CopySettingsSnapshot(dst: ImageData, src: ImageData)
    ensures var r := SnapshotOf(CopySettings(dst, src));
            if SnapshotOf(src).region.Some?
            then r == SnapshotOf(src)
            else r == SnapshotOf(src).(region := SnapshotOf(dst).region)
  {
  }

  /** Pressing Enter twice copies nothing new. */
  lemma CopySettingsIdempotent(dst: ImageData, src: ImageData)
    ensures CopySettings(CopySettings(dst, src), src) == CopySettings(dst, src)
  {
  }

  /** The key branch of `update` (app.rs:13-60) for the keys pressed in one
      frame. */
  method HandleKeys(app: PoreDetectionApp, pressed: set<Key>)
    requires app.Valid()
    modifies app.images, app`joinHandle, app`debugWindowOpen
    ensures app.Valid()
    ensures app.imageToDisplay == old(app.imageToDisplay)
    ensures old(app.HandleTracksSelection()) ==> app.HandleTracksSelection()
    ensures ArrowRight in pressed ==>
              match old(app.images.selected)
              case None =>
                unchanged(app.images) && app.joinHandle == old(app.joinHandle)
                && app.debugWindowOpen == old(app.debugWindowOpen)
              case Some(i) =>
                var j := NextIndex(i, |old(app.images.images)|);
                && app.images.images == old(app.images.images)
                && app.images.selected == Some(j) && app.images.prevSelected == Some(i)
                && app.joinHandle == Some(JoinHandle(j, SnapshotOf(app.images.images[j])))
                && app.debugWindowOpen == old(app.debugWindowOpen)
    ensures ArrowRight !in pressed && ArrowLeft in pressed ==>
              match old(app.images.selected)
              case None =>
                unchanged(app.images) && app.joinHandle == old(app.joinHandle)
                && app.debugWindowOpen == old(app.debugWindowOpen)
              case Some(i) =>
                var j := PrevIndex(i, |old(app.images.images)|);
                && app.images.images == old(app.images.images)
                && app.images.selected == Some(j) && app.images.prevSelected == Some(i)
                && app.joinHandle == Some(JoinHandle(j, SnapshotOf(app.images.images[j])))
                && app.debugWindowOpen == old(app.debugWindowOpen)
    ensures ArrowRight !in pressed && ArrowLeft !in pressed && Enter in pressed ==>
              match old(app.images.prevSelected)
              case None =>
                unchanged(app.images) && app.joinHandle == old(app.joinHandle)
                && app.debugWindowOpen == old(app.debugWindowOpen)
              case Some(p) =>
                var s := old(app.images.selected).value;
                var copied := CopySettings(old(app.images.images)[s], old(app.images.images)[p]);
                && app.images.images == old(app.images.images)[s := copied]
                && app.images.selected == Some(s) && app.images.prevSelected == Some(s)
                && app.joinHandle == Some(JoinHandle(s, SnapshotOf(copied)))
                && app.debugWindowOpen == old(app.debugWindowOpen)
    ensures ArrowRight !in pressed && ArrowLeft !in pressed && Enter !in pressed ==>
              && unchanged(app.images) && app.joinHandle == old(app.joinHandle)
              && app.debugWindowOpen == (if D in pressed then !old(app.debugWindowOpen) else old(app.debugWindowOpen))
  {
    if ArrowRight in pressed {
      if app.images.selected.Some? {
        var selected := app.images.selected.value;
        if selected < |app.images.images| - 1 {
          app.ReloadImage(Some(selected + 1));
        } else {
          app.ReloadImage(None);
        }
      }
    } else if ArrowLeft in pressed {
      if app.images.selected.Some? {
        var selected := app.images.selected.value;
        if selected > 0 {
          app.ReloadImage(Some(selected - 1));
        } else {
          app.ReloadImage(Some(|app.images.images| - 1));
        }
      }
    } else if Enter in pressed {
      if app.images.prevSelected.Some? {
        var prevImg := app.images.images[app.images.prevSelected.value];
        var selected := app.images.selected.value;
        app.images.images := app.images.images[selected := CopySettings(app.images.images[selected], prevImg)];
        app.ReloadImage(app.images.selected);
      }
    } else if D in pressed {
      app.debugWindowOpen := !app.debugWindowOpen;
    }
  }

}
