/** The editor's session: the page-level variables the event handlers read
    and reassign, with the DOM reduced to the values it holds (the decoded
    original image, the working canvas, the two size inputs and the lock). */
module EditorSession {
  import opened Wrappers
  import opened Pixels
  import opened Bounds
  import opened Cropping
  import opened ResizeGuard

  datatype Size = Size(width: nat, height: nat)

  /** What a click on the crop button led to. */
  datatype CropOutcome =
    | NoImage                  // nothing loaded: the handler returns at once
    | FullyTransparent         // every alpha byte is 0: an alert, nothing changes
    | CroppedTo(bounds: Box)   // the working canvas now holds the crop

  /** A canvas of size 0 x 0. */
  function EmptyCanvas(): (c: PixelBuffer)
    ensures WellFormed(c) && c.width == 0 && c.height == 0
  {
    PixelBuffer(0, 0, [])
  }

  class Editor {
    /** The loaded image, decoded (`originalImage` and the original canvas). */
    var original: Option<PixelBuffer>
    /** The working canvas: the crop, or the latest resize of it. */
    var canvas: PixelBuffer
    /** Whether the resize controls are shown. */
    var resizeShown: bool
    /** `parseInt` of the text in the width and height inputs (`None` for `NaN`). */
    var widthInput: Option<int>
    var heightInput: Option<int>
    /** `isAspectRatioLocked` */
    var locked: bool
    /** `isResizing` */
    var resizing: bool
    /** Resizes accepted but not yet run: each waits for its deferred callback. */
    var pending: seq<Size>

    ghost predicate Valid()
      reads this
    {
      && (original.Some? ==> WellFormed(original.value))
      && WellFormed(canvas)
      && (forall i | 0 <= i < |pending| :: InRange(pending[i].width) && InRange(pending[i].height))
    }

    /** The state when the page has loaded: nothing loaded, the lock on. */
    constructor ()
      ensures Valid()
      ensures original == None && canvas == EmptyCanvas() && !resizeShown
      ensures widthInput == None && heightInput == None
      ensures locked && !resizing && pending == []
    {
      original := None;
      canvas := EmptyCanvas();
      resizeShown := false;
      widthInput, heightInput := None, None;
      locked := true;
      resizing := false;
      pending := [];
    }

    /** A decoded image arrives: it becomes the original, the working canvas is
        cleared and the resize controls are hidden. The lock, the inputs and any
        pending resize are left as they were. */
    method Load(img: PixelBuffer)
      requires Valid() && WellFormed(img)
      modifies this
      ensures Valid()
      ensures original == Some(img) && canvas == EmptyCanvas() && !resizeShown
      ensures widthInput == old(widthInput) && heightInput == old(heightInput)
      ensures locked == old(locked) && resizing == old(resizing) && pending == old(pending)
    {
      original := Some(img);
      canvas := EmptyCanvas();
      resizeShown := false;
    }

    /** Auto-crop. Without an image nothing happens. Otherwise the content
        bounds of the original are searched; a fully transparent image is
        refused and nothing changes. Else the working canvas becomes the crop
        to the content bounds and the resize controls are shown holding the
        crop's size, with the lock forced on. */
    method Crop() returns (outcome: CropOutcome)
      requires Valid()
      modifies this
      ensures Valid()
      ensures outcome == NoImage <==> old(original).None?
      ensures outcome == FullyTransparent <==>
                old(original).Some? && Transparent(old(original).value)
      ensures !outcome.CroppedTo? ==> unchanged(this)
      ensures outcome.CroppedTo? ==>
                && old(original).Some?
                && IsContentBounds(old(original).value, outcome.bounds)
                && canvas == Cropped(old(original).value, outcome.bounds)
                && widthInput == Some(outcome.bounds.width as int)
                && heightInput == Some(outcome.bounds.height as int)
                && locked && resizeShown
                && original == old(original) && resizing == old(resizing)
                && pending == old(pending)
    {
      if original.None? {
        return NoImage;
      }
      var img := original.value;
      var bounds := FindContentBounds(img);
      if bounds.None? {
        return FullyTransparent;
      }
      var b := bounds.value;
      canvas := CropImage(img, b);
      ShowResizeControls(b.width, b.height);
      outcome := CroppedTo(b);
    }

    /** Fills the inputs with the given size, forces the lock on and shows the
        resize controls. */
    method ShowResizeControls(width: nat, height: nat)
      modifies this
      ensures widthInput == Some(width as int) && heightInput == Some(height as int)
      ensures locked && resizeShown
      ensures original == old(original) && canvas == old(canvas)
      ensures resizing == old(resizing) && pending == old(pending)
    {
      widthInput, heightInput := Some(width), Some(height);
      locked := true;
      resizeShown := true;
    }

    /** Back to the start: no image, an empty working canvas, the resize
        controls hidden. The lock, the inputs' text and pending resizes are not
        touched. */
    method Reset()
      requires Valid()
      modifies this
      ensures Valid()
      ensures original == None && canvas == EmptyCanvas() && !resizeShown
      ensures widthInput == old(widthInput) && heightInput == old(heightInput)
      ensures locked == old(locked) && resizing == old(resizing) && pending == old(pending)
    {
      original := None;
      canvas := EmptyCanvas();
      resizeShown := false;
    }

    /** Flips the aspect-ratio lock and nothing else, so two toggles restore it. */
    method ToggleLock()
      modifies this
      ensures locked == !old(locked)
      ensures original == old(original) && canvas == old(canvas) && resizeShown == old(resizeShown)
      ensures widthInput == old(widthInput) && heightInput == old(heightInput)
      ensures resizing == old(resizing) && pending == old(pending)
    {
      locked := !locked;
    }

    /** The user changes the width input to text that parses as `typed`. The
        handler is ignored while a resize is running; otherwise, for a positive
        width and the lock on, the height input is overwritten with
        `derivedHeight`, the height the locked aspect ratio gives (computed in
        floating point, outside this model). */
    method EditWidth(typed: Option<int>, derivedHeight: int)
      modifies this`widthInput, this`heightInput
      ensures widthInput == typed
      ensures heightInput ==
                if !resizing && locked && typed.Some? && typed.value > 0
                then Some(derivedHeight) else old(heightInput)
    {
      widthInput := typed;
      if resizing {
        return;
      }
      if typed.None? || typed.value <= 0 {
        return;
      }
      if locked {
        heightInput := Some(derivedHeight);
      }
    }

    /** The same for the height input, which derives the width. */
    method EditHeight(typed: Option<int>, derivedWidth: int)
      modifies this`widthInput, this`heightInput
      ensures heightInput == typed
      ensures widthInput ==
                if !resizing && locked && typed.Some? && typed.value > 0
                then Some(derivedWidth) else old(widthInput)
    {
      heightInput := typed;
      if resizing {
        return;
      }
      if typed.None? || typed.value <= 0 {
        return;
      }
      if locked {
        widthInput := Some(derivedWidth);
      }
    }

    /** The apply button: the requested size is checked against the working
        canvas; a refused or unchanged request changes nothing, an accepted one
        marks a resize as running and queues it for the deferred callback. */
    method ApplyResize() returns (check: ResizeCheck)
      requires Valid()
      modifies this
      ensures Valid()
      ensures check == CheckResize(old(widthInput), old(heightInput), old(canvas.width), old(canvas.height))
      ensures !check.Accept? ==> unchanged(this)
      ensures check.Accept? ==>
                && resizing && pending == old(pending) + [Size(check.width, check.height)]
                && original == old(original) && canvas == old(canvas)
                && resizeShown == old(resizeShown) && locked == old(locked)
                && widthInput == old(widthInput) && heightInput == old(heightInput)
    {
      check := CheckResize(widthInput, heightInput, canvas.width, canvas.height);
      if check.Accept? {
        resizing := true;
        pending := pending + [Size(check.width, check.height)];
      }
    }

    /** The deferred callback of the oldest accepted resize. Copying the
        working canvas into a temporary canvas fails when the working canvas
        is 0 x 0 (a reset or a new load ran in between): the callback then
        stops before it resizes anything or clears the running flag, so the
        flag stays set. Otherwise the working canvas takes exactly the
        requested size, holding `resampled`, the browser's smoothed redraw of
        the old canvas (outside this model), and the running flag is cleared,
        even if another resize is still queued. */
    method FinishResize(resampled: seq<byte>) returns (completed: bool)
      requires Valid() && pending != []
      requires |resampled| == pending[0].width * pending[0].height * ChannelCount
      modifies this
      ensures Valid()
      ensures completed <==> old(canvas.width) > 0 && old(canvas.height) > 0
      ensures pending == old(pending[1..])
      ensures completed ==>
                && canvas == PixelBuffer(old(pending[0].width), old(pending[0].height), resampled)
                && InRange(canvas.width) && InRange(canvas.height)
                && !resizing
      ensures !completed ==> canvas == old(canvas) && resizing == old(resizing)
      ensures original == old(original) && resizeShown == old(resizeShown) && locked == old(locked)
      ensures widthInput == old(widthInput) && heightInput == old(heightInput)
    {
      var size := pending[0];
      pending := pending[1..];
      if canvas.width == 0 || canvas.height == 0 {
        return false;
      }
      canvas := PixelBuffer(size.width, size.height, resampled);
      resizing := false;
      completed := true;
    }
  }

  /** A session walked through the promises of the handlers: cropping
      before anything is loaded does nothing; a loaded image with content is
      cropped; two toggles restore the lock; an oversized request is refused
      without touching the canvas. */
  method CropScenario(img: PixelBuffer)
    requires WellFormed(img) && !Transparent(img)
  {
    var e := new Editor();
    var outcome := e.Crop();
    assert outcome == NoImage;

    e.Load(img);
    outcome := e.Crop();
    assert outcome.CroppedTo? && e.canvas.width == outcome.bounds.width;
    assert e.locked;
    e.ToggleLock();
    assert !e.locked;
    e.ToggleLock();
    assert e.locked;

    e.EditWidth(Some(20000), 10);
    var canvasBefore := e.canvas;
    var check := e.ApplyResize();
    assert check == TooLarge && e.canvas == canvasBefore;

    e.Reset();
    assert e.original == None && e.canvas.width == 0;
  }

  /** While a resize is running, edits of the inputs do not touch the other
      input; the deferred callback then gives the canvas the requested size. */
  method ResizeScenario(e: Editor, resampled: seq<byte>)
    requires e.Valid() && e.pending == []
    requires 0 < e.canvas.width != 64 && 0 < e.canvas.height
    requires |resampled| == 64 * 32 * ChannelCount
    modifies e
  {
    e.EditWidth(Some(64), 32);
    e.EditHeight(Some(32), 64);
    var check := e.ApplyResize();
    assert check == Accept(64, 32);
    assert e.resizing;
    var heightBefore := e.heightInput;
    e.EditWidth(Some(10), 5);
    assert e.heightInput == heightBefore;
    var completed := e.FinishResize(resampled);
    assert completed && e.canvas.width == 64 && e.canvas.height == 32 && !e.resizing;
  }

  /** A reset between an accepted resize and its callback: the callback fails
      on the empty canvas, the running flag stays set, and from then on the
      width input no longer updates the height input. */
  method ResetDuringResizeScenario(e: Editor, resampled: seq<byte>)
    requires e.Valid() && e.pending == []
    requires 0 < e.canvas.width != 64 && 0 < e.canvas.height
    requires |resampled| == 64 * 32 * ChannelCount
    modifies e
  {
    e.EditWidth(Some(64), 32);
    e.EditHeight(Some(32), 64);
    var check := e.ApplyResize();
    assert check == Accept(64, 32);
    e.Reset();
    var completed := e.FinishResize(resampled);
    assert !completed && e.resizing && e.canvas == EmptyCanvas();
    var heightBefore := e.heightInput;
    e.EditWidth(Some(10), 5);
    assert e.heightInput == heightBefore;
  }
}
