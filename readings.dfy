/** The values that travel through the server: a sensor reading and the
    messages pushed to live viewers. */
module Readings {
  import opened JsNumber

  /** One sensor sample as the server stores and broadcasts it. The
      timestamp is the receipt time in milliseconds since the Unix epoch,
      the resolution of the ISO-8601 text that `toISOString` produces. */
  datatype Reading = Reading(distance: Num, tds: Num, timestamp: int)

  /** What a viewer's socket receives: a new reading (the reading itself as
      JSON), or the notice `{type: "dataCleared", ...}` after a clear. */
  datatype Message = NewReading(reading: Reading) | DataCleared
}
