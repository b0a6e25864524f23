/** Smaller and larger of two times, volumes or token levels. */
module Numbers {
  function Min(x: real, y: real): real {
    if x <= y then x else y
  }

  function Max(x: real, y: real): real {
    if x >= y then x else y
  }
}
