/** The unit table of the OBIS module (unit codes of the DLMS/COSEM unit
    enumeration, IEC 62056-62) and its lookup. */
module ObisUnits {
  import opened Base

  /** The unit table (code to symbol), stored as the three contiguous runs
      of codes it maps, 1-57, 60-65 and 70-72, plus code 255. Codes 0, 58,
      59, 66 to 69 and everything above 72 except 255 are unmapped. */
  const UnitsFrom1: seq<string> := [
    "Y", "M", "W", "D", "H", "M", "S", "\U{B0}", "\U{B0}C", "\U{A4}", "m",
    "m/s", "m\U{B3}", "m\U{B3} (corr)", "m\U{B3}/h", "m\U{B3}/h (corr)",
    "m\U{B3}/d", "m\U{B3}/d (corr)", "l", "kg", "N", "Nm", "Pa", "bar", "J",
    "J/h", "W", "VA", "var", "Wh", "VAh", "varh", "A", "C", "V", "V/m", "F",
    "\U{2126}", "\U{2126}m\U{B2}/m", "Wb", "T", "A/m", "H", "Hz", "1/(Wh)",
    "1/(varh)", "1/(VAh)", "V\U{B2}h", "A\U{B2}h", "kg/s", "mho", "K",
    "1/(V\U{B2}h)", "1/(A\U{B2}h)", "1/m\U{B3}", "%", "Ah"
  ]

  const UnitsFrom60: seq<string> := [
    "Wh/m\U{B3}", "J/m\U{B3}", "Mol%", "g/m\U{B3}", "Pa s", "J/kg"
  ]

  const UnitsFrom70: seq<string> := [
    "dBm", "dB\U{B5}V", "dB"
  ]

  /** True of the codes the unit table maps. */
  predicate IsUnitCode(code: int)
  {
    1 <= code <= 57 || 60 <= code <= 65 || 70 <= code <= 72 || code == 255
  }

  /** `GetUnitFromCode`: the symbol of a mapped unit code, otherwise none. */
  function GetUnitFromCode(code: int): (r: Option<string>)
    ensures r.Some? <==> IsUnitCode(code)
  {
    if 1 <= code <= 57 then Some(UnitsFrom1[code - 1])
    else if 60 <= code <= 65 then Some(UnitsFrom60[code - 60])
    else if 70 <= code <= 72 then Some(UnitsFrom70[code - 70])
    else if code == 255 then Some("count")
    else None
  }

  /** Lookups of the unit codes a meter sends most often, and of codes the
      table leaves out. */
  lemma UnitExamples()
    ensures GetUnitFromCode(27) == Some("W")
    ensures GetUnitFromCode(30) == Some("Wh")
    ensures GetUnitFromCode(255) == Some("count")
    ensures GetUnitFromCode(38) == Some("\U{2126}") && GetUnitFromCode(39) == Some("\U{2126}m\U{B2}/m")
    ensures GetUnitFromCode(0).None? && GetUnitFromCode(58).None? && GetUnitFromCode(59).None?
    ensures forall c :: 66 <= c <= 69 ==> GetUnitFromCode(c).None?
  {
  }
}
