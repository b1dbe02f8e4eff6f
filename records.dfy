/** The records the parsers produce: `iso8601::Date`, `iso8601::Time` and
    `iso8601::DateTime`, and an option type for the resolver's result. */
module Records {

  datatype Option<+T> = None | Some(value: T)

  /** A calendar date exactly as spelt: month and day are not range-checked. */
  datatype Date = Date(year: int, month: nat, day: nat)

  /** A time of day exactly as spelt, with the zone offset in seconds east of UTC. */
  datatype Time = Time(hour: nat, minute: nat, second: nat, tzOffset: int)

  datatype DateTime = DateTime(date: Date, time: Time)
}
