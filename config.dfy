/** The configuration constant the core uses. */
module Config {

  /** Most messages sent to a Sender in one call. */
  const MaxMessageSize: nat := 50
}
