/** What the builders read from a start event: its attribute map, JavaScript
    truthiness of an attribute, and dates as instants with their UTC day. */
module EventData {

  /** The attributes of a start event: string values by name. */
  type Attrs = map<string, string>

  /** JavaScript truthiness of `attrs[key]`: present and not the empty string. */
  predicate Has(attrs: Attrs, key: string) {
    key in attrs && attrs[key] != ""
  }

  /** A JavaScript `Date`: milliseconds since 1970-01-01T00:00Z. */
  type Time = int

  /** `1000 * 3600 * 24`, the length of a day in milliseconds. */
  const DayMs: int := 1000 * 3600 * 24

  /** The calendar day of an instant, counted from 1970-01-01: for years
      0000 to 9999, the day that `toISOString().substr(0, 10)` names. */
  function DayKey(t: Time): (d: int)
    ensures d * DayMs <= t < (d + 1) * DayMs
  {
    t / DayMs
  }
}
