/**
 * What the animator's operations promise, stated over the Session functions:
 * the index invariant, the frame lifecycle, navigation, tools, strokes,
 * playback and save/load.
 */
module Properties {
  import opened Wrappers
  import opened Bytes
  import opened Base64
  import opened Raster
  import opened Persistence
  import opened Session

  // ---------------------------------------------------------------- frames

  /** The state after `n` presses of "new frame". */
  function NewFrames(m: Model, n: nat): Model
  {
    if n == 0 then m else NewFrame(NewFrames(m, n - 1))
  }

  /**
   * Each new frame is a blank frame appended at the end and selected; the
   * frames already there are left alone.
   */
  lemma {:induction false} NewFramesAppend(m: Model, n: nat)
    ensures var r := NewFrames(m, n);
      && |r.frames| == |m.frames| + n
      && r.frames[..|m.frames|] == m.frames
      && (forall j :: |m.frames| <= j < |r.frames| ==> r.frames[j] == WhiteFrame())
      && (n > 0 ==> r.index == |r.frames| - 1)
      && r.(frames := m.frames, index := m.index) == m
  {
    if n > 0 {
      NewFramesAppend(m, n - 1);
      var p := NewFrames(m, n - 1);
      assert (p.frames + [WhiteFrame()])[..|m.frames|] == p.frames[..|m.frames|];
    }
  }

  /**
   * Deleting removes exactly the current frame and keeps the others in order;
   * the index steps back one unless it was 0.
   */
  lemma DeleteFrameRemovesCurrent(m: Model)
    requires Valid(m) && m.frames != []
    ensures var r := DeleteFrame(m);
      && |r.frames| == |m.frames| - 1
      && (forall j :: 0 <= j < |r.frames| ==> r.frames[j] == m.frames[if j < m.index then j else j + 1])
      && multiset(r.frames) + multiset{m.frames[m.index]} == multiset(m.frames)
      && r.index == (if m.index > 0 then m.index - 1 else 0)
      && r.(frames := m.frames, index := m.index) == m
  {
    var i := m.index;
    assert m.frames == m.frames[..i] + [m.frames[i]] + m.frames[i + 1..];
  }

  /** Deleting the only frame leaves no frames and the index at 0. */
  lemma DeleteLastFrame(m: Model)
    requires Valid(m) && |m.frames| == 1
    ensures DeleteFrame(m).frames == [] && DeleteFrame(m).index == 0
  {
  }

  /** Deleting the frame just created gives back the old frames, with the last of them selected. */
  lemma DeleteUndoesNewFrame(m: Model)
    requires WellFormed(m)
    ensures DeleteFrame(NewFrame(m)) == m.(index := if m.frames == [] then 0 else |m.frames| - 1)
  {
    var n := NewFrame(m);
    assert n.frames[..|m.frames|] == m.frames;
    assert n.frames[|m.frames| + 1..] == [];
  }

  // ------------------------------------------------------------ navigation

  /** Next and previous undo each other wherever the move is possible. */
  lemma NavigationInverse(m: Model)
    requires Valid(m)
    ensures m.index + 1 < |m.frames| ==> NextFrame(m).index == m.index + 1 && PrevFrame(NextFrame(m)) == m
    ensures m.index > 0 ==> PrevFrame(m).index == m.index - 1 && NextFrame(PrevFrame(m)) == m
  {
  }

  /** There is no wrap-around: at either end, and on an empty list, a move changes nothing. */
  lemma NavigationStopsAtEnds(m: Model)
    requires Valid(m)
    ensures NextFrame(m) == m <==> m.frames == [] || m.index == |m.frames| - 1
    ensures PrevFrame(m) == m <==> m.index == 0
    ensures m.frames == [] ==> DeleteFrame(m) == m && PrevFrame(m) == m && forall i: nat :: PlayTick(m, i) == m
  {
  }

  /** In a valid state the canvas reads only frames that exist. */
  lemma ShownFramesExist(m: Model)
    requires Valid(m)
    ensures forall k :: k in ShownFrames(m) ==> k < |m.frames|
  {
  }

  // -------------------------------------------------------------- playback

  /** Playback from tick `i` on, each tick scheduling the next until one stops. */
  function Playback(m: Model, i: nat): Model
    decreases |m.frames| - i
  {
    match NextTick(m, i)
    case None => PlayTick(m, i)
    case Some(next) => Playback(PlayTick(m, i), next)
  }

  /**
   * Playback runs to the end: it leaves the last frame selected and changes
   * nothing else; from past the end it changes nothing at all.
   */
  lemma {:induction false} PlaybackRunsToEnd(m: Model, i: nat)
    ensures i < |m.frames| ==> Playback(m, i) == m.(index := |m.frames| - 1)
    ensures i >= |m.frames| ==> Playback(m, i) == m
    decreases |m.frames| - i
  {
    if i < |m.frames| {
      PlaybackRunsToEnd(PlayTick(m, i), i + 1);
    }
  }

  // ----------------------------------------------------------------- tools

  /** Shrinking undoes growing, and growing undoes any shrink that happens. */
  lemma BrushSteps(m: Model)
    requires WellFormed(m)
    ensures DecreaseBrush(IncreaseBrush(m)) == m
    ensures DecreaseBrush(m) != m ==> IncreaseBrush(DecreaseBrush(m)) == m
  {
  }

  /** Shrinking is refused exactly at size 1, the smallest size. */
  lemma SmallestBrush(m: Model)
    requires WellFormed(m)
    ensures DecreaseBrush(m) == m <==> m.brushSize == 1
  {
  }

  /** From the starting size 5, two shrinks reach size 1. */
  lemma BrushOneReachable()
    ensures DecreaseBrush(DecreaseBrush(Startup())).brushSize == 1
  {
  }

  /** The eraser and draw buttons set the mode and are idempotent; the onion-skin toggle is an involution. */
  lemma ToolToggles(m: Model)
    ensures ToggleEraser(ToggleEraser(m)) == ToggleEraser(m) && ToggleEraser(m).eraseMode
    ensures SetDrawMode(SetDrawMode(m)) == SetDrawMode(m) && !SetDrawMode(m).eraseMode
    ensures ToggleOnionSkin(ToggleOnionSkin(m)) == m && ToggleOnionSkin(m).onionSkin != m.onionSkin
  {
  }

  /** A stroke is white exactly when the eraser is on. */
  lemma StrokeColourFollowsMode(m: Model)
    ensures StrokeColour(m) == Background <==> m.eraseMode
    ensures StrokeColour(m) == Foreground <==> !m.eraseMode
  {
  }

  // --------------------------------------------------------------- strokes

  /**
   * Motion paints the segment from the last position to the new one on the
   * current frame only, and the new position becomes the last one; outside a
   * stroke, or with no frames, it changes nothing.
   */
  lemma DrawEffect(m: Model, p: Point, line: Rasteriser)
    requires WellFormed(m)
    ensures !m.drawing || m.frames == [] ==> Draw(m, p, line) == m
    ensures m.drawing && m.frames != [] && m.index < |m.frames| ==>
      var r := Draw(m, p, line);
      && r.last == Some(p)
      && |r.frames| == |m.frames|
      && r.frames[m.index] == Paint(m.frames[m.index], line(m.last.value, p, m.brushSize), StrokeColour(m))
      && (forall j :: 0 <= j < |m.frames| && j != m.index ==> r.frames[j] == m.frames[j])
      && r.(frames := m.frames, last := m.last) == m
  {
  }

  /** An eraser stroke leaves the pixels it covers byte-identical to a blank frame. */
  lemma EraserStrokeRestoresBackground(m: Model, p: Point, line: Rasteriser)
    requires WellFormed(m) && m.drawing && m.frames != [] && m.index < |m.frames| && m.eraseMode
    ensures SameOn(Draw(m, p, line).frames[m.index], WhiteFrame(), line(m.last.value, p, m.brushSize))
  {
    EraseRestoresBackground(m.frames[m.index], line(m.last.value, p, m.brushSize));
  }

  /** The first motion after a press paints from the press position. */
  lemma StrokeStartsAtPress(m: Model, p0: Point, p1: Point, line: Rasteriser)
    requires WellFormed(m) && m.frames != [] && m.index < |m.frames|
    ensures Draw(StartDraw(m, p0), p1, line).frames[m.index]
      == Paint(m.frames[m.index], line(p0, p1, m.brushSize), StrokeColour(m))
  {
  }

  /** After release, the stroke state is cleared and motion paints nothing. */
  lemma ReleaseEndsStroke(m: Model, p: Point, line: Rasteriser)
    requires WellFormed(m)
    ensures !ResetDraw(m).drawing && ResetDraw(m).last == None
    ensures Draw(ResetDraw(m), p, line) == ResetDraw(m)
  {
  }

  // ------------------------------------------------------------- save/load

  /** Loading a saved document gives back the same frames, with the first selected. */
  lemma SaveThenLoad(m: Model)
    requires WellFormed(m)
    ensures var doc := Some(SaveDocument(m.frames));
      && LoadOutcome(doc) == None
      && LoadAsWritten(m, doc) == m.(index := 0)
      && LoadAtomic(m, doc) == m.(index := 0)
  {
    SaveThenDecode(m.frames);
  }

  /**
   * A load that fails at entry k keeps the k frames decoded before it, in
   * order, and does not reset the index.
   */
  lemma LoadFailureKeepsPrefix(m: Model, entries: seq<string>)
    requires FirstBad(entries) < |entries|
    ensures var r := LoadAsWritten(m, Some(entries));
      var k := FirstBad(entries);
      && LoadOutcome(Some(entries)) == Some(BadFrame(k, DecodeFrame(entries[k]).error))
      && |r.frames| == k
      && (forall j :: 0 <= j < k ==> DecodeFrame(entries[j]) == Ok(r.frames[j]))
      && r.(frames := m.frames) == m
  {
  }

  /** The two loads agree when every entry decodes; on an error the all-or-nothing load changes nothing. */
  lemma LoadAtomicMatchesOnSuccess(m: Model, doc: Option<seq<string>>)
    ensures LoadOutcome(doc).None? ==> LoadAtomic(m, doc) == LoadAsWritten(m, doc)
    ensures LoadOutcome(doc).Some? ==> LoadAtomic(m, doc) == m
  {
  }

  /**
   * After a load as written, the index is in range exactly when the load
   * succeeded or the old index still fits the frames decoded so far.
   */
  lemma LoadAsWrittenIndex(m: Model, doc: Option<seq<string>>)
    requires WellFormed(m)
    ensures var r := LoadAsWritten(m, doc);
      IndexInRange(r) <==> LoadOutcome(doc).None? || (if r.frames == [] then m.index == 0 else m.index < |r.frames|)
  {
  }

  /** A document whose first entry is a frame and whose second decodes to no bytes fails at entry 1. */
  lemma SecondEntryEmpty(s0: string)
    requires DecodeFrame(s0).Ok?
    ensures FirstBad([s0, ""]) == 1
    ensures LoadOutcome(Some([s0, ""])) == Some(BadFrame(1, WrongLength(0)))
  {
    var entries := [s0, ""];
    assert DecodeFrame(entries[1]) == Err(WrongLength(0));
    assert entries[1..] == [""];
  }

  /**
   * A failing load that breaks the index: three blank frames with the last
   * selected, then a document whose first entry is any frame and whose second
   * decodes to no bytes. One frame is left and the index still says 2.
   */
  lemma LoadAsWrittenBreaksIndex(f: Frame)
    requires IsFrame(f)
    ensures var m := NewFrames(Startup(), 2);
      var doc := Some([Encode(f), ""]);
      && Valid(m) && |m.frames| == 3 && m.index == 2
      && LoadOutcome(doc) == Some(BadFrame(1, WrongLength(0)))
      && |LoadAsWritten(m, doc).frames| == 1 && LoadAsWritten(m, doc).index == 2
      && !IndexInRange(LoadAsWritten(m, doc))
      && 2 in ShownFrames(LoadAsWritten(m, doc))
  {
    var m := NewFrames(Startup(), 2);
    NewFramesAppend(Startup(), 2);
    DecodeEncode(f);
    SecondEntryEmpty(Encode(f));
  }

  /**
   * The same failing loads break navigation. After a load with no frames
   * field, previous still moves the index on an empty list; after the load
   * above, next is refused although the index is not at the last frame, and
   * it does not undo previous.
   */
  lemma LoadAsWrittenBreaksNavigation(f: Frame)
    requires IsFrame(f)
    ensures var m := NewFrames(Startup(), 2);
      var e := LoadAsWritten(m, None);
      && e.frames == [] && e.index == 2 && PrevFrame(e).index == 1 && PrevFrame(e) != e
    ensures var s := LoadAsWritten(NewFrames(Startup(), 2), Some([Encode(f), ""]));
      && |s.frames| == 1 && s.index == 2
      && NextFrame(s) == s && s.index != |s.frames| - 1
      && NextFrame(PrevFrame(s)) != s
  {
    NewFramesAppend(Startup(), 2);
    LoadAsWrittenBreaksIndex(f);
  }

  // ------------------------------------------------------------- invariant

  /** One user action or timer tick, as the window receives it. */
  datatype Action =
    | NewFrameAction
    | DeleteFrameAction
    | NextFrameAction
    | PrevFrameAction
    | PlayTickAction(i: nat)
    | IncreaseBrushAction
    | DecreaseBrushAction
    | ToggleEraserAction
    | SetDrawModeAction
    | ToggleOnionSkinAction
    | PressAction(p: Point)
    | MotionAction(p: Point, line: Rasteriser)
    | ReleaseAction
    | LoadAction(doc: Option<seq<string>>)

  /** The state after one action; a load here is the all-or-nothing load. */
  function Step(m: Model, a: Action): Model
    requires Valid(m)
  {
    match a
    case NewFrameAction => NewFrame(m)
    case DeleteFrameAction => DeleteFrame(m)
    case NextFrameAction => NextFrame(m)
    case PrevFrameAction => PrevFrame(m)
    case PlayTickAction(i) => PlayTick(m, i)
    case IncreaseBrushAction => IncreaseBrush(m)
    case DecreaseBrushAction => DecreaseBrush(m)
    case ToggleEraserAction => ToggleEraser(m)
    case SetDrawModeAction => SetDrawMode(m)
    case ToggleOnionSkinAction => ToggleOnionSkin(m)
    case PressAction(p) => StartDraw(m, p)
    case MotionAction(p, line) => Draw(m, p, line)
    case ReleaseAction => ResetDraw(m)
    case LoadAction(doc) => LoadAtomic(m, doc)
  }

  /** Every action keeps the state valid. */
  lemma StepPreservesValid(m: Model, a: Action)
    requires Valid(m)
    ensures Valid(Step(m, a))
  {
    match a
    case DeleteFrameAction =>
      if m.frames != [] {
        DeleteFrameRemovesCurrent(m);
      }
    case MotionAction(p, line) =>
      if m.drawing && m.frames != [] {
        DrawEffect(m, p, line);
      }
    case NewFrameAction =>
      var n := NewFrame(m);
      assert forall i :: 0 <= i < |n.frames| ==> n.frames[i] == if i < |m.frames| then m.frames[i] else WhiteFrame();
    case LoadAction(doc) =>
      if LoadOutcome(doc).None? {
        assert LoadAtomic(m, doc).frames == DecodedPrefix(doc.value);
      }
    case _ =>
  }

  /** The state after a run of actions from a valid state. */
  function Run(m: Model, actions: seq<Action>): (r: Model)
    requires Valid(m)
    ensures Valid(r)
    decreases |actions|
  {
    if actions == [] then m
    else
      StepPreservesValid(m, actions[0]);
      Run(Step(m, actions[0]), actions[1..])
  }

  /**
   * From the opening state, every run of actions keeps the index in range,
   * when loads are all or nothing (a load as written can break it; see
   * LoadAsWrittenBreaksIndex).
   */
  lemma EveryRunKeepsIndexInRange(actions: seq<Action>)
    ensures Run(Startup(), actions).frames != [] ==> Run(Startup(), actions).index < |Run(Startup(), actions).frames|
    ensures Run(Startup(), actions).brushSize % 2 == 1 && Run(Startup(), actions).brushSize >= 1
  {
  }
}
