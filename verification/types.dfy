/**
 The few host-platform types the MapDB persistence service consumes: item states
 (with the undefined sentinel kept distinct from every defined value), items and
 persistence strategies.
 */
module Types {

  /** The two undefined sentinels of the platform's `UnDefType`. */
  datatype UnDefKind = Null | Undef

  /**
   An item state. `UnDef` is any `UnDefType` value; `Defined` stands for every
   concrete state type (numbers, on/off, text, date-time, ...), whose content
   the service never inspects and only hands to the JSON codec.
   */
  datatype State = UnDef(kind: UnDefKind) | Defined(value: string)

  /** A named item together with its current state. */
  datatype Item = Item(name: string, state: State)

  /** The persistence strategies the host may apply automatically. */
  datatype Strategy = Restore | Change
}
