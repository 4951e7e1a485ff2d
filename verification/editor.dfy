/**
 The editing session: the current settings, the bounded undo history of
 saved snapshots, and the user actions that change them. Every committed
 edit saves a snapshot; undo and redo move through the saved snapshots and
 restore one. Rendering is the pipeline's job and reads only the loaded
 image and the current settings.
 */
module Editor {
  import opened Image
  import opened HexColor
  import opened MagicWand
  import opened Pipeline

  /** The most snapshots the history keeps. */
  const MaxHistory := 20

  /** The loaded image (if any), the live settings, the saved snapshots, and
      the index of the snapshot the live settings were last saved as or
      restored from (-1 while the history is empty). */
  datatype Session = Session(image: Option<Raster>, settings: Settings,
                             history: seq<Settings>, index: int)

  /** The state at start-up: no image, pure green target, global mode, no
      seeds, tolerance 40, no refinement, empty history. */
  function Initial(): (e: Session)
    ensures Valid(e) && e.history == [] && e.image.None?
  {
    Session(None, Settings(Color(0, 255, 0), Global, [], 40, 0, 0), [], -1)
  }

  /** Seeds exist only in magic mode. */
  predicate SeedsOnlyInMagic(s: Settings) {
    s.mode == Global ==> s.seeds == []
  }

  /** What every action maintains: the history is bounded, the index points
      into it exactly when it is nonempty, a loaded image is well formed,
      and neither the live settings nor any snapshot has seeds in global
      mode. */
  ghost predicate Valid(e: Session) {
    && SeedsOnlyInMagic(e.settings)
    && (forall k :: 0 <= k < |e.history| ==> SeedsOnlyInMagic(e.history[k]))
    && |e.history| <= MaxHistory
    && -1 <= e.index < |e.history|
    && (e.index == -1 <==> |e.history| == 0)
    && (e.image.Some? ==> e.image.value.Valid())
  }

  /** The live settings are exactly the snapshot the index points at. */
  ghost predicate Synced(e: Session) {
    0 <= e.index < |e.history| && e.settings == e.history[e.index]
  }

  /** The undo and redo buttons are enabled exactly when these hold. */
  predicate CanUndo(e: Session) { e.index > 0 }
  predicate CanRedo(e: Session) { e.index < |e.history| - 1 }

  /** r's settings were committed on top of a history whose current
      snapshot is at index: r's history is that history up to the current
      snapshot followed by r's settings, keeping the newest twenty (as the
      history held at most twenty, at most the oldest one is forgotten);
      r's settings are the newest snapshot; and when there was a current
      snapshot, an undo steps back to it. */
  predicate Committed(history: seq<Settings>, index: int, r: Session)
    requires -1 <= index < |history| && Valid(r)
  {
    var full := history[..index + 1] + [r.settings];
    && (|full| <= MaxHistory ==> r.history == full)
    && (|full| > MaxHistory ==> r.history == full[1..])
    && r.index == |r.history| - 1
    && (index >= 0 ==> CanUndo(r) && Undo(r).settings == history[index])
  }

  /** Drop the snapshots after the current one, append the live settings,
      and if the history overflows forget the oldest snapshot: the live
      settings are committed on top of the current snapshot and nothing is
      left to redo. */
  function SaveState(e: Session): (r: Session)
    requires Valid(e)
    ensures Valid(r) && Synced(r) && !CanRedo(r)
    ensures r.image == e.image && r.settings == e.settings
    ensures Committed(e.history, e.index, r)
  {
    var kept := if e.index < |e.history| - 1 then e.history[..e.index + 1] else e.history;
    assert kept == e.history[..e.index + 1];
    var pushed := kept + [e.settings];
    if |pushed| > MaxHistory then
      assert pushed[1..][e.index - 1] == e.history[e.index];
      e.(history := pushed[1..])
    else
      assert e.index >= 0 ==> pushed[e.index] == e.history[e.index];
      e.(history := pushed, index := e.index + 1)
  }

  /** Step back one snapshot and restore it, when there is one to step back
      to; otherwise nothing changes. */
  function Undo(e: Session): (r: Session)
    requires Valid(e)
    ensures Valid(r) && r.history == e.history && r.image == e.image
    ensures CanUndo(e) ==> r.index == e.index - 1 && Synced(r)
    ensures !CanUndo(e) ==> r == e
  {
    if e.index > 0 then e.(index := e.index - 1, settings := e.history[e.index - 1]) else e
  }

  /** Step forward one snapshot and restore it, when there is one to step
      forward to; otherwise nothing changes. */
  function Redo(e: Session): (r: Session)
    requires Valid(e)
    ensures Valid(r) && r.history == e.history && r.image == e.image
    ensures CanRedo(e) ==> r.index == e.index + 1 && Synced(r)
    ensures !CanRedo(e) ==> r == e
  {
    if e.index < |e.history| - 1 then e.(index := e.index + 1, settings := e.history[e.index + 1]) else e
  }

  /** Switching mode. Choosing the current mode does nothing; otherwise the
      mode changes, switching to global mode discards the seeds, and the
      result is saved. */
  function SetMode(e: Session, m: Mode): (r: Session)
    requires Valid(e)
    ensures Valid(r) && r.settings.mode == m && r.image == e.image
    ensures m == Global ==> r.settings.seeds == []
    ensures m == Magic ==> r.settings.seeds == e.settings.seeds
    ensures r.settings.target == e.settings.target && r.settings.tolerance == e.settings.tolerance
    ensures r.settings.erode == e.settings.erode && r.settings.feather == e.settings.feather
    ensures e.settings.mode == m ==> r == e
    ensures e.settings.mode != m ==> Synced(r) && Committed(e.history, e.index, r)
  {
    if e.settings.mode == m then e
    else
      var seeds := if m == Global then [] else e.settings.seeds;
      SaveState(e.(settings := e.settings.(mode := m, seeds := seeds)))
  }

  /** A press on the canvas at pixel (x, y), where the displayed image shows
      colour c. Without an image nothing happens. Otherwise c becomes the
      target, magic mode adds a seed at (x, y) with that colour, and the
      result is saved. */
  function Click(e: Session, x: int, y: int, c: Color): (r: Session)
    requires Valid(e)
    ensures Valid(r) && r.image == e.image
    ensures e.image.None? ==> r == e
    ensures e.image.Some? ==>
      && r.settings.target == c && Synced(r)
      && r.settings.mode == e.settings.mode
      && r.settings.seeds == (if e.settings.mode == Magic then e.settings.seeds + [Seed(x, y, c)]
                              else e.settings.seeds)
      && r.settings.tolerance == e.settings.tolerance
      && r.settings.erode == e.settings.erode && r.settings.feather == e.settings.feather
    ensures e.image.Some? ==> Committed(e.history, e.index, r)
  {
    if e.image.None? then e
    else
      var seeds := if e.settings.mode == Magic then e.settings.seeds + [Seed(x, y, c)]
                   else e.settings.seeds;
      SaveState(e.(settings := e.settings.(target := c, seeds := seeds)))
  }

  /** The colour picker while it is being dragged: outside magic mode the
      parsed colour becomes the target, without saving. */
  function PickColorInput(e: Session, hex: string): (r: Session)
    requires Valid(e)
    ensures Valid(r) && r.history == e.history && r.index == e.index && r.image == e.image
    ensures e.settings.mode == Magic ==> r == e
    ensures e.settings.mode != Magic ==>
      r.settings == e.settings.(target := HexToRgb(hex))
  {
    if e.settings.mode == Magic then e
    else e.(settings := e.settings.(target := HexToRgb(hex)))
  }

  /** The colour picker when a colour is committed: as while dragging, and
      the result is saved. */
  function PickColorChange(e: Session, hex: string): (r: Session)
    requires Valid(e)
    ensures Valid(r) && r.image == e.image
    ensures e.settings.mode == Magic ==> r == e
    ensures e.settings.mode != Magic ==>
      && Synced(r) && r.settings == e.settings.(target := HexToRgb(hex))
      && Committed(e.history, e.index, r)
  {
    if e.settings.mode == Magic then e
    else SaveState(PickColorInput(e, hex))
  }

  datatype Slider = Tolerance | Erosion | Feathering

  /** A slider moving to value v: the matching setting takes the value and
      nothing else changes. Releasing a slider commits with SaveState. */
  function Slide(e: Session, which: Slider, v: nat): (r: Session)
    requires Valid(e)
    ensures Valid(r) && r.history == e.history && r.index == e.index && r.image == e.image
    ensures r.settings.target == e.settings.target && r.settings.mode == e.settings.mode
    ensures r.settings.seeds == e.settings.seeds
    ensures r.settings.tolerance == (if which == Tolerance then v else e.settings.tolerance)
    ensures r.settings.erode == (if which == Erosion then v else e.settings.erode)
    ensures r.settings.feather == (if which == Feathering then v else e.settings.feather)
  {
    match which
    case Tolerance => e.(settings := e.settings.(tolerance := v))
    case Erosion => e.(settings := e.settings.(erode := v))
    case Feathering => e.(settings := e.settings.(feather := v))
  }

  /** Loading a file. A file that is not an image (None) changes nothing.
      An image replaces the current one; the target becomes the colour of
      its top-left pixel; the seeds and the history are discarded; the mode
      becomes magic; and that state is saved as the only snapshot. The
      tolerance, erosion and feathering are kept. */
  function Load(e: Session, file: Option<Raster>): (r: Session)
    requires Valid(e)
    requires file.Some? ==> file.value.Valid()
    ensures Valid(r)
    ensures file.None? ==> r == e
    ensures file.Some? ==>
      && r.image == file
      && r.settings == e.settings.(target := PixelColor(file.value, 0), seeds := [], mode := Magic)
      && r.history == [r.settings] && r.index == 0
  {
    if file.None? then e
    else
      var img := file.value;
      MulPos(img.width, img.height);
      var settings := e.settings.(target := PixelColor(img, 0), seeds := [], mode := Magic);
      SaveState(Session(Some(img), settings, [], -1))
  }

  /** Closing the image: the image, the seeds and the history are
      discarded; the other settings stay. With no image, a later Click
      leaves the session as it is. */
  function Reset(e: Session): (r: Session)
    ensures Valid(r) && r.image.None? && r.history == [] && !CanUndo(r) && !CanRedo(r)
    ensures r.settings == e.settings.(seeds := [])
  {
    Session(None, e.settings.(seeds := []), [], -1)
  }

  // ---------------------------------------------------------------------
  // Properties
  // ---------------------------------------------------------------------

  /** Undo followed by redo returns to the same session. */
  lemma RedoUndo(e: Session)
    requires Valid(e) && Synced(e) && CanUndo(e)
    ensures CanRedo(Undo(e)) && Redo(Undo(e)) == e
  {
  }

  /** Redo followed by undo returns to the same session. */
  lemma UndoRedo(e: Session)
    requires Valid(e) && Synced(e) && CanRedo(e)
    ensures CanUndo(Redo(e)) && Undo(Redo(e)) == e
  {
  }

  /** Saving twice in a row keeps one extra copy of the live settings and
      nothing else changes: the second save only appends. */
  lemma SaveTwice(e: Session)
    requires Valid(e)
    ensures var r1 := SaveState(e);
            var r2 := SaveState(r1);
            && r2.settings == e.settings
            && r2.history[r2.index] == r1.history[r1.index]
            && (|r1.history| < MaxHistory ==> r2.history == r1.history + [e.settings])
  {
  }

  /** Undoing a mode change restores the previous settings when they were
      saved. */
  lemma UndoSetMode(e: Session, m: Mode)
    requires Valid(e) && Synced(e) && e.settings.mode != m
    ensures Undo(SetMode(e, m)).settings == e.settings
  {
  }

  /** A magic-mode click on a loaded image adds exactly one seed, and undo
      takes it away again. */
  lemma UndoClick(e: Session, x: int, y: int, c: Color)
    requires Valid(e) && Synced(e) && e.image.Some? && e.settings.mode == Magic
    ensures |Click(e, x, y, c).settings.seeds| == |e.settings.seeds| + 1
    ensures Undo(Click(e, x, y, c)).settings == e.settings
  {
  }
}
