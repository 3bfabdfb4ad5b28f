/**
 * The animator window's core as an object: the frame list, the current
 * index, the tool settings and the stroke in progress are fields that its
 * methods update in place. Each method is proved to move the object's state
 * exactly as the matching Session function says.
 */
module FreshAnimator {
  import opened Wrappers
  import opened Bytes
  import opened Base64
  import opened Raster
  import opened Persistence
  import Session

  class Animator {
    var frames: seq<Frame>
    var currentFrameIndex: nat
    var brushSize: int
    var eraseMode: bool
    var onionSkin: bool
    var drawing: bool
    /** The last pointer position of the stroke in progress. */
    var last: Option<Point>

    /** The object's fields as a Session state. */
    function State(): Session.Model
      reads this
    {
      Session.Model(frames, currentFrameIndex, brushSize, eraseMode, onionSkin, drawing, last)
    }

    predicate WellFormed()
      reads this
    {
      Session.WellFormed(State())
    }

    predicate Valid()
      reads this
    {
      Session.Valid(State())
    }

    /** Opens the window: default settings, then one blank frame. */
    constructor ()
      ensures State() == Session.Startup()
      ensures Valid()
    {
      frames := [];
      currentFrameIndex := 0;
      drawing := false;
      eraseMode := false;
      last := None;
      brushSize := 5;
      onionSkin := true;
      new;
      NewFrame();
    }

    method NewFrame()
      requires WellFormed()
      modifies this
      ensures State() == Session.NewFrame(old(State()))
      ensures Valid()
    {
      frames := frames + [WhiteFrame()];
      currentFrameIndex := |frames| - 1;
    }

    method DeleteFrame()
      requires WellFormed()
      requires frames != [] ==> currentFrameIndex < |frames|
      modifies this
      ensures State() == Session.DeleteFrame(old(State()))
      ensures WellFormed() && (old(Valid()) ==> Valid())
    {
      if frames != [] {
        frames := frames[..currentFrameIndex] + frames[currentFrameIndex + 1..];
        if currentFrameIndex > 0 {
          currentFrameIndex := currentFrameIndex - 1;
        }
      }
    }

    method NextFrame()
      requires WellFormed()
      modifies this
      ensures State() == Session.NextFrame(old(State()))
      ensures WellFormed() && (old(Valid()) ==> Valid())
    {
      if currentFrameIndex < |frames| - 1 {
        currentFrameIndex := currentFrameIndex + 1;
      }
    }

    method PrevFrame()
      requires WellFormed()
      modifies this
      ensures State() == Session.PrevFrame(old(State()))
      ensures WellFormed() && (old(Valid()) ==> Valid())
    {
      if currentFrameIndex > 0 {
        currentFrameIndex := currentFrameIndex - 1;
      }
    }

    /** One playback tick showing frame `i`; returns the tick it schedules, if any. */
    method PlayTick(i: nat) returns (next: Option<nat>)
      requires WellFormed()
      modifies this
      ensures State() == Session.PlayTick(old(State()), i)
      ensures next == Session.NextTick(old(State()), i)
      ensures WellFormed() && (old(Valid()) ==> Valid())
    {
      if i >= |frames| {
        return None;
      }
      currentFrameIndex := i;
      next := Some(i + 1);
    }

    method IncreaseBrush()
      requires WellFormed()
      modifies this
      ensures State() == Session.IncreaseBrush(old(State()))
      ensures WellFormed() && (old(Valid()) ==> Valid())
    {
      brushSize := brushSize + 2;
    }

    method DecreaseBrush()
      requires WellFormed()
      modifies this
      ensures State() == Session.DecreaseBrush(old(State()))
      ensures WellFormed() && (old(Valid()) ==> Valid())
    {
      if brushSize > 2 {
        brushSize := brushSize - 2;
      }
    }

    method ToggleEraser()
      requires WellFormed()
      modifies this
      ensures State() == Session.ToggleEraser(old(State()))
      ensures WellFormed() && (old(Valid()) ==> Valid())
    {
      eraseMode := true;
    }

    method SetDrawMode()
      requires WellFormed()
      modifies this
      ensures State() == Session.SetDrawMode(old(State()))
      ensures WellFormed() && (old(Valid()) ==> Valid())
    {
      eraseMode := false;
    }

    method ToggleOnionSkin()
      requires WellFormed()
      modifies this
      ensures State() == Session.ToggleOnionSkin(old(State()))
      ensures WellFormed() && (old(Valid()) ==> Valid())
    {
      onionSkin := !onionSkin;
    }

    /** Button press at `p`. */
    method StartDraw(p: Point)
      requires WellFormed()
      modifies this
      ensures State() == Session.StartDraw(old(State()), p)
      ensures WellFormed() && (old(Valid()) ==> Valid())
    {
      drawing := true;
      last := Some(p);
    }

    /** Pointer motion to `p`; `line` stands for the library's line rasteriser. */
    method Draw(p: Point, line: Rasteriser)
      requires WellFormed()
      requires drawing && frames != [] ==> currentFrameIndex < |frames|
      modifies this
      ensures State() == Session.Draw(old(State()), p, line)
      ensures WellFormed() && (old(Valid()) ==> Valid())
    {
      if !drawing || frames == [] {
        return;
      }
      var colour := if eraseMode then Background else Foreground;
      var covered := line(last.value, p, brushSize);
      frames := frames[currentFrameIndex := Paint(frames[currentFrameIndex], covered, colour)];
      last := Some(p);
    }

    /** Button release. */
    method ResetDraw()
      requires WellFormed()
      modifies this
      ensures State() == Session.ResetDraw(old(State()))
      ensures WellFormed() && (old(Valid()) ==> Valid())
    {
      drawing := false;
      last := None;
    }

    /** The "frames" field of the saved document: each frame's bytes in base 64, in order. */
    method Save() returns (doc: seq<string>)
      ensures doc == SaveDocument(frames)
    {
      doc := [];
      for i := 0 to |frames|
        invariant |doc| == i
        invariant forall j :: 0 <= j < i ==> doc[j] == Encode(frames[j])
      {
        doc := doc + [Encode(frames[i])];
      }
    }

    /**
     * Loads a document whose "frames" field is `doc` (None when the field is
     * missing), as the window does: the frame list is cleared first and each
     * decoded frame is appended at once, so a failure leaves the frames
     * decoded so far and the old index. Returns the error, if any.
     */
    method Load(doc: Option<seq<string>>) returns (err: Option<LoadError>)
      requires WellFormed()
      modifies this
      ensures State() == Session.LoadAsWritten(old(State()), doc)
      ensures err == LoadOutcome(doc)
      ensures WellFormed()
    {
      frames := [];
      if doc.None? {
        return Some(MissingFramesField);
      }
      var entries := doc.value;
      for k := 0 to |entries|
        invariant |frames| == k
        invariant forall j :: 0 <= j < k ==> DecodeFrame(entries[j]).Ok? && frames[j] == DecodeFrame(entries[j]).value
        invariant currentFrameIndex == old(currentFrameIndex) && brushSize == old(brushSize)
        invariant eraseMode == old(eraseMode) && onionSkin == old(onionSkin)
        invariant drawing == old(drawing) && last == old(last)
      {
        var decoded := DecodeFrame(entries[k]);
        if decoded.Err? {
          assert FirstBad(entries) == k;
          assert frames == DecodedPrefix(entries);
          return Some(BadFrame(k, decoded.error));
        }
        frames := frames + [decoded.value];
      }
      assert frames == DecodedPrefix(entries);
      currentFrameIndex := 0;
      err := None;
    }

    /** Loads all or nothing: every entry is decoded before the frame list is replaced. */
    method LoadAtomic(doc: Option<seq<string>>) returns (err: Option<LoadError>)
      requires Valid()
      modifies this
      ensures State() == Session.LoadAtomic(old(State()), doc)
      ensures err == LoadOutcome(doc)
      ensures Valid()
    {
      if doc.None? {
        return Some(MissingFramesField);
      }
      var entries := doc.value;
      var decoded: seq<Frame> := [];
      for k := 0 to |entries|
        invariant |decoded| == k
        invariant forall j :: 0 <= j < k ==> DecodeFrame(entries[j]).Ok? && decoded[j] == DecodeFrame(entries[j]).value
      {
        var d := DecodeFrame(entries[k]);
        if d.Err? {
          assert FirstBad(entries) == k;
          return Some(BadFrame(k, d.error));
        }
        decoded := decoded + [d.value];
      }
      assert decoded == DecodedPrefix(entries);
      frames := decoded;
      currentFrameIndex := 0;
      err := None;
    }
  }
}
