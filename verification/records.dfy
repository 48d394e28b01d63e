/** The configuration record that the store persists and the cache serves. */
module Records {
  import opened Wrappers

  /** A 128-bit `Guid`; `EmptyGuid` is `Guid.Empty`. */
  newtype Guid = x: int | 0 <= x < 0x1_0000_0000_0000_0000_0000_0000_0000_0000

  const EmptyGuid: Guid := 0

  /** `ConfigRecord`: an optional identity and five required members. The
      name is kept as written; the store trims it only to pick the hash
      field. */
  datatype ConfigRecord = ConfigRecord(
    id: Option<Guid>,
    name: string,
    typeTag: string,
    value: string,
    isActive: bool,
    applicationName: string
  )
}
