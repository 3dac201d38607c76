/** Settings that several parts of the runtime share (app/include/config.h). */
module PlcConfig {
  /** The levels of the PLC log, each with a counter of its own in the status. */
  const LOG_LEVELS: nat := 4
}
