/** Limits of JavaScript numbers. */
module Numbers {
  /** `Number.MAX_SAFE_INTEGER` */
  const MAX_SAFE_INTEGER := 9007199254740991
}
