/**
 * The state of one animator window as a value, and one function per
 * operation giving the state after it. The class in animator.dfy is proved
 * to follow these functions; the lemmas here state what the operations
 * promise.
 */
module Session {
  import opened Wrappers
  import opened Bytes
  import opened Raster
  import opened Persistence

  /**
   * Everything the core keeps: the frame list and the current index, the tool
   * settings, and the drag in progress (`last` is the last pointer position
   * of the current stroke, None outside a stroke).
   */
  datatype Model = Model(
    frames: seq<Frame>,
    index: nat,
    brushSize: int,
    eraseMode: bool,
    onionSkin: bool,
    drawing: bool,
    last: Option<Point>)

  /** What every reachable state satisfies, even after a failed load. */
  predicate WellFormed(m: Model)
  {
    && (forall i :: 0 <= i < |m.frames| ==> IsFrame(m.frames[i]))
    && m.brushSize >= 1 && m.brushSize % 2 == 1
    && (m.drawing <==> m.last.Some?)
  }

  /** The current index names a frame, and is 0 when there is none. */
  predicate IndexInRange(m: Model)
  {
    if m.frames == [] then m.index == 0 else m.index < |m.frames|
  }

  predicate Valid(m: Model)
  {
    WellFormed(m) && IndexInRange(m)
  }

  /** The settings the window starts with, before its first frame exists. */
  function Initial(): Model
  {
    Model([], 0, 5, false, true, false, None)
  }

  /** Appends a blank frame and selects it. */
  function NewFrame(m: Model): Model
  {
    m.(frames := m.frames + [WhiteFrame()], index := |m.frames|)
  }

  /** The window as it opens: the initial settings and one blank frame. */
  function Startup(): (m: Model)
    ensures Valid(m)
    ensures m.frames == [WhiteFrame()] && m.index == 0
    ensures m.brushSize == 5 && !m.eraseMode && m.onionSkin && !m.drawing
  {
    NewFrame(Initial())
  }

  /** Removes the current frame; the index moves back one unless it is already 0. */
  function DeleteFrame(m: Model): Model
    requires m.frames != [] ==> m.index < |m.frames|
  {
    if m.frames == [] then m
    else m.(frames := m.frames[..m.index] + m.frames[m.index + 1..],
            index := if m.index > 0 then m.index - 1 else m.index)
  }

  /** Selects the following frame, if there is one. */
  function NextFrame(m: Model): Model
  {
    if m.index < |m.frames| - 1 then m.(index := m.index + 1) else m
  }

  /** Selects the preceding frame, if there is one. */
  function PrevFrame(m: Model): Model
  {
    if m.index > 0 then m.(index := m.index - 1) else m
  }

  /** One tick of playback showing frame `i`; it does nothing once `i` is past the end. */
  function PlayTick(m: Model, i: nat): Model
  {
    if i >= |m.frames| then m else m.(index := i)
  }

  /** The tick that a tick showing frame `i` schedules, if any. */
  function NextTick(m: Model, i: nat): (r: Option<nat>)
    ensures r.Some? <==> i < |m.frames|
    ensures r.Some? ==> r.value == i + 1
  {
    if i >= |m.frames| then None else Some(i + 1)
  }

  /** Grows the brush by 2. */
  function IncreaseBrush(m: Model): Model
  {
    m.(brushSize := m.brushSize + 2)
  }

  /** Shrinks the brush by 2, but only while it is larger than 2. */
  function DecreaseBrush(m: Model): Model
  {
    if m.brushSize > 2 then m.(brushSize := m.brushSize - 2) else m
  }

  /** Switches to the eraser. */
  function ToggleEraser(m: Model): Model
  {
    m.(eraseMode := true)
  }

  /** Switches back to drawing. */
  function SetDrawMode(m: Model): Model
  {
    m.(eraseMode := false)
  }

  /** Turns onion skin on if it was off and off if it was on. */
  function ToggleOnionSkin(m: Model): Model
  {
    m.(onionSkin := !m.onionSkin)
  }

  /** Button press: a stroke starts at `p`. */
  function StartDraw(m: Model, p: Point): Model
  {
    m.(drawing := true, last := Some(p))
  }

  /** The byte value every channel of a stroke gets: white when erasing, black otherwise. */
  function StrokeColour(m: Model): byte
  {
    if m.eraseMode then Background else Foreground
  }

  /**
   * Pointer motion to `p` during a stroke: paints the segment from the last
   * position to `p` on the current frame with the brush width, and moves the
   * last position to `p`. Outside a stroke or without frames it does nothing.
   */
  function Draw(m: Model, p: Point, line: Rasteriser): Model
    requires WellFormed(m)
    requires m.drawing && m.frames != [] ==> m.index < |m.frames|
  {
    if !m.drawing || m.frames == [] then m
    else
      var covered := line(m.last.value, p, m.brushSize);
      m.(frames := m.frames[m.index := Paint(m.frames[m.index], covered, StrokeColour(m))],
         last := Some(p))
  }

  /** Button release: the stroke ends. */
  function ResetDraw(m: Model): Model
  {
    m.(drawing := false, last := None)
  }

  /** The frames the canvas shows: the current one, and the previous one under it with onion skin on. */
  function ShownFrames(m: Model): (r: set<nat>)
    ensures m.frames == [] ==> r == {}
    ensures m.frames != [] ==> m.index in r && r <= {m.index, m.index - 1}
    ensures m.index - 1 in r <==> m.frames != [] && m.onionSkin && m.index > 0
  {
    if m.frames == [] then {}
    else if m.onionSkin && m.index > 0 then {m.index, m.index - 1}
    else {m.index}
  }

  /**
   * Load as the window does it: the frame list is emptied first, then the
   * entries are decoded and appended one by one; the index is reset to 0 only
   * when every entry decoded. A failure leaves the frames decoded so far and
   * the old index.
   */
  function LoadAsWritten(m: Model, doc: Option<seq<string>>): Model
  {
    match doc
    case None => m.(frames := [])
    case Some(entries) =>
      if FirstBad(entries) == |entries| then m.(frames := DecodedPrefix(entries), index := 0)
      else m.(frames := DecodedPrefix(entries))
  }

  /** Load all or nothing: the state changes only when every entry decodes. */
  function LoadAtomic(m: Model, doc: Option<seq<string>>): Model
  {
    if LoadOutcome(doc).None? then m.(frames := DecodedPrefix(doc.value), index := 0) else m
  }
}
