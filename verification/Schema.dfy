/** The part of the PGN database that the codec reads. */
module Schema {
  import opened Wire

  datatype FieldType =
    | Number | Decimal | Float | Binary | Lookup | BitLookup | IndirectLookup
    | Date | Time | Duration | StringFix | StringLz | StringLau | Variable | Mmsi | Pgn | IsoName
    | Reserved | Spare | DynamicFieldKey | DynamicFieldLength | DynamicFieldValue | FieldIndex

  datatype FieldInfo = FieldInfo(
    order: nat,
    name: string,
    fieldType: Option<FieldType>,
    bitLength: Option<nat>,
    bitOffset: Option<nat>,
    signed: bool,
    offset: int,
    matchValue: Option<int>,
    unknownValue: Option<u64>,
    outOfRangeValue: Option<u64>,
    reservedValue: Option<u64>,
    conditional: bool,
    resolution: real,
    unitOffset: real,
    dimensioned: bool)  // carries a unit or a physical quantity

  datatype PgnInfo = PgnInfo(
    pgn: nat,
    fallback: bool,
    priority: Option<byte>,
    length: Option<nat>,
    fields: seq<FieldInfo>,
    set1: Option<RepeatingSet>,
    set2: Option<RepeatingSet>)

  /** A repeating field set: the order of its first field, how many fields it has, and the
      order of the field that holds the count, if any. */
  datatype RepeatingSet = RepeatingSet(startField: nat, size: nat, countField: Option<nat>)

  /** The total declared width of the first `n` fields; a field without a width counts for
      nothing. */
  function WidthSum(fields: seq<FieldInfo>, n: nat): nat
    requires n <= |fields|
  {
    if n == 0 then 0
    else WidthSum(fields, n - 1) + if fields[n - 1].bitLength.Some? then fields[n - 1].bitLength.value else 0
  }
}
