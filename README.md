# PNG auto-crop editor — verified model

A Dafny model of the logic inside the browser PNG editor's `script.js`. The rest of that file wires the DOM.

- **Content-bounds detection** (`findContentBounds`). One row-major scan over an RGBA `ImageData` buffer. It finds the smallest box holding every pixel whose alpha byte is not 0. It returns nothing when no such pixel exists.
- **Rectangle copy** (the pixel loop of `cropImage`). It allocates a buffer of the box's size and copies four channel bytes per pixel from the source.
- **Resize guard** (`handleApplyResize`). A requested width and height must be positive and at most 10000. A request for the current size does nothing.
- **Session state.** The page-level variables are `originalImage`, the working (cropped) canvas, the two size inputs, `isAspectRatioLocked` and `isResizing`. The handlers reassign them: `handleCrop`, `handleReset`, `showResizeControls`, `toggleAspectRatioLock`, `handleWidthInput`, `handleHeightInput`, `handleApplyResize` and the deferred part of `resizeImage`.

Modules:

- `Wrappers`: `Option`, which stands in for `null` and for `NaN` from `parseInt`.
- `Pixels`: the buffer layout and its index arithmetic.
- `Bounds`: the bounds scan and `IsContentBounds`. That predicate is the specification of the content box: it holds every visible pixel, it is tight on all four edges, and it lies inside the image.
- `Cropping`: `Cropped` is the reference definition of a crop, byte by byte, through quotient and remainder. `CropImage` is the nested copy loop over an array, proved equal to it.
- `ResizeGuard`: the pure validation.
- `EditorSession`: class `Editor`, whose fields are the session variables.

Some behaviour of the code is easy to misread. The model follows the code in each of these places:

- Loading an image does not reset the lock, the inputs or a running resize. It only sets the original, clears the working canvas and hides the resize controls (`script.js:85-110`).
- Toggling the lock does not re-capture the aspect ratio (`script.js:263-266`).
- A request equal to the current size returns silently, with no error (`script.js:322-324`).
- A size of exactly 10000 is accepted, because only `> 10000` is refused. The refusal message speaks of values "less than 10000".
- `isResizing` is a single flag. Each deferred resize callback clears it, even when a second accepted resize is still queued (`script.js:327-334`). The model keeps a queue of pending resizes to show this.
- If a reset or a new load empties the working canvas between an accepted resize and its callback, copying that canvas fails (`script.js:343`), so the callback stops before clearing `isResizing` (`script.js:332`). The flag then stays set, and the width and height handlers ignore later edits (`script.js:284`, `script.js:296`) until a later accepted resize completes and clears it. The failed callback also skips `hideLoading()` (`script.js:333`), so the loading overlay stays up. `FinishResize` models this as the branch that does not complete, and `EditorSession.ResetDuringResizeScenario` walks through it.

## Model

| member | source | states |
|---|---|---|
| `Pixels.PixelIndexInBounds` | script.js:150-151 | for a pixel inside a `width`×`height` buffer, all four bytes from `(y*width+x)*4` lie below `width*height*4`, so every index the scan and the copy read is valid |
| `Bounds.FindContentBounds` | script.js:139-174 | returns `None` exactly when every alpha byte is 0, including 0-wide or 0-high images; otherwise returns the content bounding box: non-empty, inside the image, containing every visible pixel, with a visible pixel on each edge |
| `Bounds.SkipPixel` | script.js:148-153 | scanning a pixel with alpha 0 leaves the running extremes, the flag and their meaning unchanged |
| `Bounds.VisitPixel` | script.js:154-160 | scanning a visible pixel sets `hasContent` and widens min/max to include it; every extreme is still attained by a visible pixel, and the sentinels `width`/`height`/0/0 give way on the first hit |
| `Bounds.NextRow` | script.js:148-149 | finishing a row of the nested loop is the same as starting the next row |
| `Bounds.ScanComplete` | script.js:164-173 | after the full scan, `hasContent` is false exactly when the image is fully transparent; otherwise `(minX, minY, maxX-minX+1, maxY-minY+1)` is the content bounding box |
| `Bounds.ContentBoundsUnique` | script.js:168-173 | two boxes that both contain all visible pixels and are tight on all four edges are equal, so the returned box is the only possible answer |
| `Bounds.FilledBoxIsContentBounds` | script.js:139-174 | if the visible pixels are exactly the pixels of a non-empty box inside the image (an opaque rectangle on a transparent margin, e.g. 50×50 at (25,25) in 100×100), that box is the content bounding box |
| `Bounds.ContentTouchesBorders` | script.js:168-173 | an image with visible pixels in its first and last column and its first and last row has the whole image as its content bounding box |
| `Cropping.Cropped` | script.js:185-197 | the crop of an image to a box has the box's width and height and exactly `width*height*4` bytes |
| `Cropping.CroppedChannel` | script.js:188-197 | for every `row < cropHeight`, `col < cropWidth` and channel `c < 4`, byte `(row*cropWidth+col)*4+c` of the crop equals byte `((y+row)*width+(x+col))*4+c` of the source |
| `Cropping.CroppedVisible` | script.js:193-196 | a pixel of the crop is visible exactly when the source pixel it was copied from is visible |
| `Cropping.CropWholeImage` | script.js:188-197 | cropping with the box `(0, 0, width, height)` returns a buffer equal to the input |
| `Cropping.CropToContentIsTight` | script.js:128-131 | after cropping to the content bounding box, the crop's content touches all four of its borders: its own content box is `(0, 0, cropWidth, cropHeight)` |
| `Cropping.AutoCropIdempotent` | script.js:128-131 | auto-crop applied to its own output finds the whole image as the box and returns the output unchanged |
| `Cropping.CropImage` | script.js:176-198 | for a box inside the image, every source read is in bounds, and the buffer filled by the nested loop is exactly `Cropped(img, b)` |
| `Cropping.CopyRow` | script.js:189-197 | one pass of the inner loop: the filled prefix of the destination grows by one box row of correctly copied pixels, and earlier bytes keep their values |
| `ResizeGuard.CheckResize` | script.js:307-324 | each verdict with both directions: invalid exactly when a width or height is missing/NaN, zero or negative; too large exactly when both are positive and either is above 10000, even if it equals the current size, because the size test comes before the equality test; no change exactly when both are in 1..10000 and equal the current size; accepted exactly for the in-range requests that differ from the current size, with the requested dimensions |
| `EditorSession.Editor.constructor` | script.js:25-28 | starts with no image, an empty working canvas, the lock on, no resize running |
| `EditorSession.Editor.Load` | script.js:85-110 | the decoded image becomes the original; the working canvas is cleared to 0×0 and the resize controls are hidden; lock, inputs and pending resizes are unchanged |
| `EditorSession.Editor.Crop` | script.js:119-137 | without an image nothing changes; on a fully transparent image nothing changes; otherwise the working canvas is the crop of the original to its content bounding box, the inputs hold the crop's size, and the lock is on |
| `EditorSession.Editor.ShowResizeControls` | script.js:253-261 | fills the inputs with the given size, forces the lock on and shows the controls; nothing else changes |
| `EditorSession.Editor.Reset` | script.js:233-250 | clears the image and the working canvas and hides the resize controls; the lock, the inputs' text and pending resizes are untouched |
| `EditorSession.Editor.ToggleLock` | script.js:263-266 | flips the lock and changes nothing else, so toggling twice restores it |
| `EditorSession.Editor.EditWidth` | script.js:283-293 | while a resize runs, the height input is left alone; otherwise, for a positive width with the lock on, it takes the derived height |
| `EditorSession.Editor.EditHeight` | script.js:295-305 | while a resize runs, the width input is left alone; otherwise, for a positive height with the lock on, it takes the derived width |
| `EditorSession.Editor.ApplyResize` | script.js:307-335 | the verdict is `CheckResize` on the inputs and the canvas size; a refused or unchanged request leaves the whole state unchanged; an accepted one sets the running flag and queues exactly the requested size |
| `EditorSession.Editor.FinishResize` | script.js:330-360 | the oldest queued resize is removed; it completes exactly when the working canvas is not 0×0; if it completes, the canvas takes exactly the queued width and height, both within 1..10000, and the running flag is cleared; if it does not (copying a 0×0 canvas fails), the canvas and the running flag are unchanged |

## Left out

- Resampling in `resizeImage` (`drawImage` with high-quality smoothing) is a browser call with unspecified floating-point interpolation. Its pixels enter `FinishResize` as the parameter `resampled`. Only the effect on dimensions is modelled.
- Aspect-ratio arithmetic (`currentAspectRatio = width / height`, `Math.round(...)`) is IEEE floating point. The rounded value enters `EditWidth` / `EditHeight` as a parameter. `currentAspectRatio` itself is not a field.
- `parseInt` on the input text is not modelled. The inputs hold the parsed value, with `None` for `NaN`. `EditWidth` and `EditHeight` receive it as the parameter `typed`.
- `updateImageInfo` formats a size in KB with `toFixed(2)`. That is floating-point text formatting.
- File selection, drag-and-drop, the PNG MIME check, `FileReader` / `Image` decoding and the download through `toBlob` are browser I/O. `Load` receives the decoded image.
- The loading overlay, CSS classes, animations, `updateLockIcon` and `alert` messages are presentation. The alerts appear as the `CropOutcome` and `ResizeCheck` verdicts.
- The 100 ms `setTimeout` around the crop is collapsed. `Crop` stands for the callback: it runs the scan and the copy at once. The source tests `originalImage` at click time and the callback then reads the original canvas (`script.js:119-127`). A reset in between empties that canvas, and reading it fails, so nothing changes. The model gives the same state: after `Reset`, `Crop` returns `NoImage` and changes nothing. A load in between makes both the callback and `Crop` work on the new image.
- The gap around the resize is kept as the two steps `ApplyResize` and `FinishResize`. Which other handler runs between them is up to the caller.
- A PNG with a zero width or height never reaches `img.onload`, so the source never loads one. `Load` accepts such an image anyway, and `Crop` then reports it as fully transparent; in the source `getImageData` would throw there instead (`script.js:127`). Either way the state is unchanged.
- `croppedImageData` is only ever set to `null`, so it carries no state and is not modelled.
- The initial size of the working canvas element and the initial text of the inputs come from `index.html`, which is not part of this model. The constructor starts from a 0×0 canvas and empty inputs.
- `Cropping.CropImage` moves the inner loop of `cropImage` into the helper method `CopyRow`. This keeps each proof small. The order of the byte writes is unchanged.
- JavaScript numbers are doubles. All coordinates here are below 2^53, so they are exact, and the model uses unbounded integers.
