/** `java.time.Instant`, read from a clock the caller supplies. */
module JavaTime {

  /** A clock reading, as the caller's clock reports it (`Instant.now()`). */
  type Instant = int
}
