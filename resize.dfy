/** The validation a resize request passes before any resampling work. */
module ResizeGuard {
  import opened Wrappers

  /** Largest width or height the editor accepts; the limit itself is allowed. */
  const MaxDimension: int := 10000

  /** The verdict on a requested size. */
  datatype ResizeCheck =
    | InvalidSize            // missing, non-numeric, zero or negative
    | TooLarge               // above MaxDimension
    | NoChange               // equal to the current size: nothing to do
    | Accept(width: nat, height: nat)

  predicate InRange(d: int) {
    1 <= d <= MaxDimension
  }

  /** Checks a requested size, as read from the two inputs with `parseInt`
      (`None` stands for `NaN`), against the current size of the working
      canvas. Invalid numbers are reported before oversized ones, and a valid
      request for the current size is a no-op. */
  function CheckResize(newWidth: Option<int>, newHeight: Option<int>,
                       currentWidth: nat, currentHeight: nat): (r: ResizeCheck)
    ensures r.Accept? <==>
              && newWidth.Some? && newHeight.Some?
              && InRange(newWidth.value) && InRange(newHeight.value)
              && (newWidth.value, newHeight.value) != (currentWidth, currentHeight)
    ensures r.Accept? ==> r == Accept(newWidth.value, newHeight.value)
    ensures r == InvalidSize <==>
              newWidth.None? || newHeight.None? || newWidth.value <= 0 || newHeight.value <= 0
    ensures r == TooLarge <==>
              && newWidth.Some? && newHeight.Some?
              && newWidth.value > 0 && newHeight.value > 0
              && (newWidth.value > MaxDimension || newHeight.value > MaxDimension)
    ensures r == NoChange <==>
              && newWidth.Some? && newHeight.Some?
              && InRange(newWidth.value) && InRange(newHeight.value)
              && newWidth.value == currentWidth && newHeight.value == currentHeight
  {
    match (newWidth, newHeight)
    case (Some(w), Some(h)) =>
      if w <= 0 || h <= 0 then InvalidSize
      else if w > MaxDimension || h > MaxDimension then TooLarge
      else if w == currentWidth && h == currentHeight then NoChange
      else Accept(w, h)
    case _ => InvalidSize
  }
}
