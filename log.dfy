/**
 * The log the page is built from. Each calendar-date key (`YYYY-MM-DD`)
 * names the array of that day's entries; the history renderer sorts those
 * arrays in place, so they are arrays here too.
 */
module Log {
  /** One timestamped message: `time` is `HH:MM` in 24-hour form. */
  datatype Entry = Entry(time: string, message: string)

  type Days = map<string, array<Entry>>

  /** Every key names its own array: the parsed JSON log never shares one
      array between two days. */
  ghost predicate SeparateArrays(days: Days)
  {
    forall k1, k2 :: k1 in days && k2 in days && k1 != k2 ==> days[k1] != days[k2]
  }

  /** The entries of every day, as values. */
  function Snapshot(days: Days): (m: map<string, seq<Entry>>)
    reads set k | k in days :: days[k]
    ensures m.Keys == days.Keys
    ensures forall k :: k in days ==> m[k] == days[k][..]
  {
    map k | k in days :: days[k][..]
  }
}
