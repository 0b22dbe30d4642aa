/** The OBIS registry (identifiers after IEC 62056-61) the extractor walks,
    and the description lookup built on it. */
module Obis {
  import opened Base

  // Registry keys, as declared.
  const CodeSerial := 0
  const CodeId := 1
  const CodeEnergyInNoTariff := 2
  const CodeEnergyInTariff1 := 3
  const CodeEnergyInTariff2 := 4
  const CodeEnergyOutNoTariff := 5
  const CodeEnergyOutTariff1 := 6
  const CodeEnergyOutTariff2 := 7
  const CodeEnergyCurrent := 8
  const CodeEnergyTotal := 9
  const CodeEnergyTotalL1 := 10
  const CodeEnergyTotalL2 := 11
  const CodeEnergyTotalL3 := 12
  const CodeManufacturer := 13
  const CodePublicKey := 14

  // Semantic types of a registry entry.
  const TypeString := 0
  const TypeCounter := 1
  const TypeGauge := 3
  const TypeBinary := 4

  /** One registry entry: its key, the 6-byte identifier it matches, and
      what the extractor copies into the measurement. */
  datatype CodeEntry = CodeEntry(
    key: int,
    pattern: Bytes,
    description: string,
    internalName: string,
    kind: int)

  /** The registry in declaration order, which is also the order of the
      extractor's output. */
  const Codes: seq<CodeEntry> := [
    CodeEntry(CodeManufacturer, [0x81, 0x81, 0xC7, 0x82, 0x03, 0xFF],
      "Hersteller-Identifikation", "manufacturer", TypeString),
    CodeEntry(CodeSerial, [0x00, 0x00, 0x60, 0x01, 0xFF, 0xFF],
      "Seriennummer", "serial", TypeString),
    CodeEntry(CodeId, [0x01, 0x00, 0x00, 0x00, 0x09, 0xFF],
      "Server-ID", "server_id", TypeBinary),
    CodeEntry(CodeEnergyInNoTariff, [0x01, 0x00, 0x01, 0x08, 0x00, 0xFF],
      "Zaehlwerk pos. Wirkenergie (Bezug), tariflos", "energy_in_no_tariff", TypeCounter),
    CodeEntry(CodeEnergyInTariff1, [0x01, 0x00, 0x01, 0x08, 0x01, 0xFF],
      "Zaehlwerk pos. Wirkenergie (Bezug), Tarif 1", "energy_in_tariff_1", TypeCounter),
    CodeEntry(CodeEnergyInTariff2, [0x01, 0x00, 0x01, 0x08, 0x02, 0xFF],
      "Zaehlwerk pos. Wirkenergie (Bezug), Tarif 2", "energy_in_tariff_2", TypeCounter),
    CodeEntry(CodeEnergyOutNoTariff, [0x01, 0x00, 0x02, 0x08, 0x00, 0xFF],
      "Zaehlwerk neg. Wirkenergie (Einspeisung), tariflos", "energy_out_no_tariff", TypeCounter),
    CodeEntry(CodeEnergyOutTariff1, [0x01, 0x00, 0x02, 0x08, 0x01, 0xFF],
      "Zaehlwerk neg. Wirkenergie (Einspeisung), Tarif 1", "energy_out_tariff_1", TypeCounter),
    CodeEntry(CodeEnergyOutTariff2, [0x01, 0x00, 0x02, 0x08, 0x02, 0xFF],
      "Zaehlwerk neg. Wirkenergie (Einspeisung), Tarif 2", "energy_out_tariff_2", TypeCounter),
    CodeEntry(CodeEnergyCurrent, [0x01, 0x00, 0x0F, 0x07, 0x00, 0xFF],
      "Betrag der aktuellen Wirkleistung", "energy_current", TypeGauge),
    CodeEntry(CodeEnergyTotal, [0x01, 0x00, 0x10, 0x07, 0x00, 0xFF],
      "Aktuelle Wirkleistung gesamt", "energy_total", TypeGauge),
    CodeEntry(CodeEnergyTotalL1, [0x01, 0x00, 0x24, 0x07, 0x00, 0xFF],
      "Aktuelle Wirkleistung L1", "energy_total_l1", TypeGauge),
    CodeEntry(CodeEnergyTotalL2, [0x01, 0x00, 0x38, 0x07, 0x00, 0xFF],
      "Aktuelle Wirkleistung L2", "energy_total_l2", TypeGauge),
    CodeEntry(CodeEnergyTotalL3, [0x01, 0x00, 0x4c, 0x07, 0x00, 0xFF],
      "Aktuelle Wirkleistung L3", "energy_total_l3", TypeGauge),
    CodeEntry(CodePublicKey, [0x81, 0x81, 0xC7, 0x82, 0x05, 0xFF],
      "Public Key", "public_key", TypeBinary)
  ]

  /** The description of the first registry entry at index `i` or later
      whose identifier equals `b`, or "" when there is none. */
  function DescriptionFrom(b: Bytes, i: nat): (r: string)
    requires i <= |Codes|
    ensures r == "" <==> forall j :: i <= j < |Codes| ==> Codes[j].pattern != b
    ensures r != "" ==> exists j :: i <= j < |Codes| && Codes[j].pattern == b && Codes[j].description == r
    decreases |Codes| - i
  {
    if i == |Codes| then ""
    else if Codes[i].pattern == b then Codes[i].description
    else DescriptionFrom(b, i + 1)
  }

  /** `BytesToString`: the description registered for an identifier. */
  function BytesToString(b: Bytes): (r: string)
    ensures r == "" <==> forall j :: 0 <= j < |Codes| ==> Codes[j].pattern != b
    ensures r != "" ==> exists j :: 0 <= j < |Codes| && Codes[j].pattern == b && Codes[j].description == r
  {
    DescriptionFrom(b, 0)
  }

  /** Tells the registry's identifiers apart by bytes 0, 2 and 4: a left
      inverse of `Codes[i].pattern` on the registry. */
  function RegistryIndex(p: Bytes): int
    requires |p| == 6
  {
    if p[0] == 0x81 then (if p[4] == 0x03 then 0 else 14)
    else if p[0] == 0x00 then 1
    else if p[2] == 0x00 then 2
    else if p[2] == 0x01 then 3 + p[4] as int
    else if p[2] == 0x02 then 6 + p[4] as int
    else if p[2] == 0x0F then 9
    else if p[2] == 0x10 then 10
    else if p[2] == 0x24 then 11
    else if p[2] == 0x38 then 12
    else 13
  }

  lemma PatternLengths()
    ensures forall i :: 0 <= i < |Codes| ==> |Codes[i].pattern| == 6
  {
  }

  lemma RegistryIndexInverts()
    ensures forall i :: 0 <= i < |Codes| ==> |Codes[i].pattern| == 6 && RegistryIndex(Codes[i].pattern) == i
  {
  }

  /** Every identifier is 6 bytes long and no two entries share one, so
      matching a row or a description by identifier is unambiguous. */
  lemma RegistryPatterns()
    ensures |Codes| == 15
    ensures forall i :: 0 <= i < |Codes| ==> |Codes[i].pattern| == 6
    ensures forall i, j :: 0 <= i < j < |Codes| ==> Codes[i].pattern != Codes[j].pattern
  {
    RegistryIndexInverts();
  }

  /** Registry keys are distinct, every entry has one of the four semantic
      types and a non-empty description. */
  lemma RegistryEntries()
    ensures forall i, j :: 0 <= i < j < |Codes| ==> Codes[i].key != Codes[j].key
    ensures forall i :: 0 <= i < |Codes| ==> Codes[i].kind in {TypeString, TypeCounter, TypeGauge, TypeBinary}
    ensures forall i :: 0 <= i < |Codes| ==> Codes[i].description != ""
  {
  }

  /** Declaration order begins with manufacturer, serial and server id. */
  lemma RegistryOrder()
    ensures Codes[0].key == CodeManufacturer && Codes[0].internalName == "manufacturer"
    ensures Codes[1].key == CodeSerial && Codes[1].internalName == "serial"
    ensures Codes[2].key == CodeId && Codes[2].internalName == "server_id"
  {
  }

  /** Each registered identifier is described by its own entry. */
  lemma BytesToStringRegistered(i: nat)
    requires i < |Codes|
    ensures BytesToString(Codes[i].pattern) == Codes[i].description
  {
    RegistryPatterns();
    RegistryEntries();
    var r := BytesToString(Codes[i].pattern);
    assert r != "";
  }
}
