/** `extract_obis_response_data`: one measurement row per registry entry,
    read from the value list of a list-response body. The Python
    exceptions a malformed tree provokes (a missing attribute, an index
    past the end, an operator applied to the wrong type) are returned as
    errors. */
module Extract {
  import opened Base
  import opened Tree
  import Obis
  import ObisUnits
  import Hex

  datatype ExtractError = IndexError | AttributeError | TypeError

  /** The `.data` attribute of a leaf: the bytes of an octet string or
      the value of an integer. */
  datatype Datum = BytesDatum(bytes: Bytes) | IntDatum(number: int)

  /** A measurement value. `Number(m, e)` stands for `m * 10^e`, exact
      where the source computes a float for negative `e`. */
  datatype Value =
    | NoValue
    | Text(text: string)
    | Number(mantissa: int, exponent: int)
    | Octets(octets: Bytes)

  /** One entry of the output dictionary, keyed by the registry key. */
  datatype Row = Row(
    key: int,
    description: string,
    internalName: string,
    unit: Option<string>,
    value: Value,
    kind: int)

  /** What a matching row contributes: its value and its unit. */
  datatype Reading = Reading(value: Value, unit: Option<string>)

  const Nothing := Reading(NoValue, None)

  /** The registry's four semantic types. */
  predicate KnownKind(kind: int)
  {
    kind in {Obis.TypeString, Obis.TypeCounter, Obis.TypeGauge, Obis.TypeBinary}
  }

  /** `n.children`: only lists have children. */
  function ChildrenOf(n: Node): (r: Result<seq<Node>, ExtractError>)
    ensures r.Ok? <==> n.Structure?
    ensures r.Err? ==> r.error == AttributeError
  {
    if n.Structure? then Ok(n.children) else Err(AttributeError)
  }

  /** `n.children[k]`. */
  function ChildAt(n: Node, k: nat): (r: Result<Node, ExtractError>)
    ensures r.Ok? <==> n.Structure? && k < |n.children|
    ensures r.Ok? ==> r.value == n.children[k]
  {
    match ChildrenOf(n)
    case Err(e) => Err(e)
    case Ok(cs) => if k < |cs| then Ok(cs[k]) else Err(IndexError)
  }

  /** `n.data`: lists and end-of-message markers have none. */
  function DataOf(n: Node): (r: Result<Datum, ExtractError>)
    ensures r.Ok? <==> n.OctetString? || n.SignedInteger? || n.UnsignedInteger?
  {
    match n
    case OctetString(_, data) => Ok(BytesDatum(data))
    case SignedInteger(_, v) => Ok(IntDatum(v))
    case UnsignedInteger(_, v) => Ok(IntDatum(v))
    case _ => Err(AttributeError)
  }

  /** `n.children[k].data`. */
  function DataAt(n: Node, k: nat): Result<Datum, ExtractError>
  {
    match ChildAt(n, k)
    case Err(e) => Err(e)
    case Ok(c) => DataOf(c)
  }

  /** `b` repeated `count` times: Python's `bytes * int`. The result
      starts with `b` and repeats with period `|b|`. */
  function Repeat(b: Bytes, count: nat): (r: Bytes)
    ensures |r| == |b| * count
    ensures count > 0 ==> r[..|b|] == b
    ensures forall i | |b| <= i < |r| :: r[i] == r[i - |b|]
  {
    if count == 0 then []
    else
      var rest := Repeat(b, count - 1);
      assert |b + rest| == |b| * count;
      b + rest
  }

  /** `10 ** e` for a non-negative exponent: a positive integer. */
  function TenTo(e: nat): nat
  {
    assert Pow(10, e) > 0 by { PowPositive(10, e); }
    Pow(10, e)
  }

  /** `data * 10 ** scale`: an integer is scaled; a byte string is repeated
      when `10 ** scale` is an integer and is a type error against a
      float. */
  function Scale(data: Datum, scale: int): (r: Result<Value, ExtractError>)
    ensures data.IntDatum? ==> r == Ok(Number(data.number, scale))
    ensures data.BytesDatum? && scale < 0 ==> r == Err(TypeError)
    ensures data.BytesDatum? && scale >= 0 ==> r == Ok(Octets(Repeat(data.bytes, TenTo(scale))))
    ensures data.BytesDatum? && scale >= 0 ==> |r.value.octets| == |data.bytes| * Pow(10, scale)
  {
    match data
    case IntDatum(m) => Ok(Number(m, scale))
    case BytesDatum(b) =>
      if scale < 0 then Err(TypeError)
      else Ok(Octets(Repeat(b, TenTo(scale))))
  }

  /** `GetUnitFromCode(data)`: a byte string is never a key of the unit
      table. */
  function UnitOf(data: Datum): (r: Option<string>)
    ensures data.BytesDatum? ==> r.None?
    ensures data.IntDatum? ==> r == ObisUnits.GetUnitFromCode(data.number)
  {
    match data
    case IntDatum(c) => ObisUnits.GetUnitFromCode(c)
    case BytesDatum(_) => None
  }

  /** `n.children[k].data` when it is an integer. */
  function IntAt(n: Node, k: nat): Option<int>
  {
    match DataAt(n, k)
    case Ok(IntDatum(v)) => Some(v)
    case _ => None
  }

  /** `n.children[k].data` when it is a byte string. */
  function BytesAt(n: Node, k: nat): Option<Bytes>
  {
    match DataAt(n, k)
    case Ok(BytesDatum(b)) => Some(b)
    case _ => None
  }

  /** A gauge or counter row: scale from `children[4]`, mantissa from
      `children[5]`, unit from `children[3]`, read in that order. An
      integer mantissa gives the exact number `mantissa * 10^scale`, a
      byte string is repeated, and the first failing read is the error. */
  function ReadNumber(row: Node): (r: Result<Reading, ExtractError>)
    ensures DataAt(row, 4).Err? ==> r == Err(DataAt(row, 4).error)
    ensures BytesAt(row, 4).Some? ==> r == Err(TypeError)
    ensures IntAt(row, 4).Some? && DataAt(row, 5).Err? ==> r == Err(DataAt(row, 5).error)
    ensures IntAt(row, 4).Some? && IntAt(row, 4).value < 0 && BytesAt(row, 5).Some? ==> r == Err(TypeError)
    ensures IntAt(row, 4).Some? && IntAt(row, 5).Some? ==>
      r == if DataAt(row, 3).Err? then Err(DataAt(row, 3).error)
           else Ok(Reading(Number(IntAt(row, 5).value, IntAt(row, 4).value), UnitOf(DataAt(row, 3).value)))
    ensures IntAt(row, 4).Some? && IntAt(row, 4).value >= 0 && BytesAt(row, 5).Some? ==>
      r == if DataAt(row, 3).Err? then Err(DataAt(row, 3).error)
           else Ok(Reading(Octets(Repeat(BytesAt(row, 5).value, TenTo(IntAt(row, 4).value))), UnitOf(DataAt(row, 3).value)))
  {
    match DataAt(row, 4)
    case Err(e) => Err(e)
    case Ok(IntDatum(scale)) =>
      (match DataAt(row, 5)
       case Err(e) => Err(e)
       case Ok(mantissa) =>
         match Scale(mantissa, scale)
         case Err(e) => Err(e)
         case Ok(v) =>
           match DataAt(row, 3)
           case Err(e) => Err(e)
           case Ok(code) => Ok(Reading(v, UnitOf(code))))
    case Ok(BytesDatum(_)) => Err(TypeError)
  }

  /** A string row: `children[5]` decoded as UTF-8, or "" when it does
      not decode; an integer has no `decode`. */
  function ReadString(row: Node, utf8: Bytes -> Option<string>): (r: Result<Reading, ExtractError>)
    ensures DataAt(row, 5).Err? ==> r == Err(DataAt(row, 5).error)
    ensures IntAt(row, 5).Some? ==> r == Err(AttributeError)
    ensures BytesAt(row, 5).Some? && utf8(BytesAt(row, 5).value).Some? ==>
      r == Ok(Reading(Text(utf8(BytesAt(row, 5).value).value), None))
    ensures BytesAt(row, 5).Some? && utf8(BytesAt(row, 5).value).None? ==> r == Ok(Reading(Text(""), None))
  {
    match DataAt(row, 5)
    case Err(e) => Err(e)
    case Ok(IntDatum(_)) => Err(AttributeError)
    case Ok(BytesDatum(b)) =>
      match utf8(b)
      case Some(s) => Ok(Reading(Text(s), None))
      case None => Ok(Reading(Text(""), None))
  }

  /** A binary row: `hexlify(children[5])`; an integer has no `hex`. */
  function ReadBinary(row: Node): (r: Result<Reading, ExtractError>)
    ensures DataAt(row, 5).Err? ==> r == Err(DataAt(row, 5).error)
    ensures IntAt(row, 5).Some? ==> r == Err(AttributeError)
    ensures BytesAt(row, 5).Some? ==> r == Ok(Reading(Text(Hex.Hexlify(BytesAt(row, 5).value)), None))
  {
    match DataAt(row, 5)
    case Err(e) => Err(e)
    case Ok(IntDatum(_)) => Err(AttributeError)
    case Ok(BytesDatum(b)) => Ok(Reading(Text(Hex.Hexlify(b)), None))
  }

  predicate IsNumeric(kind: int)
  {
    kind == Obis.TypeCounter || kind == Obis.TypeGauge
  }

  /** What a matching row yields for an entry of the given kind: for a
      gauge or counter `children[5].data * 10 ** children[4].data` with
      the unit of `children[3]`; for a binary the hex rendering of
      `children[5]`; for a string its UTF-8 text, or "" when it does not
      decode. */
  function ReadRow(row: Node, kind: int, utf8: Bytes -> Option<string>): (r: Result<Reading, ExtractError>)
    requires KnownKind(kind)
    ensures r.Ok? && !IsNumeric(kind) ==> r.value.unit.None?
    ensures r.Ok? && !IsNumeric(kind) ==> r.value.value.Text?
    ensures IsNumeric(kind) && IntAt(row, 4).Some? && IntAt(row, 5).Some? && DataAt(row, 3).Ok? ==>
      r == Ok(Reading(Number(IntAt(row, 5).value, IntAt(row, 4).value), UnitOf(DataAt(row, 3).value)))
    ensures IsNumeric(kind) && IntAt(row, 4).Some? && IntAt(row, 4).value >= 0 && BytesAt(row, 5).Some? && DataAt(row, 3).Ok? ==>
      r == Ok(Reading(Octets(Repeat(BytesAt(row, 5).value, TenTo(IntAt(row, 4).value))), UnitOf(DataAt(row, 3).value)))
    ensures IsNumeric(kind) && DataAt(row, 4).Err? ==> r == Err(DataAt(row, 4).error)
    ensures !IsNumeric(kind) && DataAt(row, 5).Err? ==> r == Err(DataAt(row, 5).error)
    ensures IsNumeric(kind) && (BytesAt(row, 4).Some? || (IntAt(row, 4).Some? && IntAt(row, 4).value < 0 && BytesAt(row, 5).Some?)) ==>
      r == Err(TypeError)
    ensures kind == Obis.TypeBinary && BytesAt(row, 5).Some? ==>
      r == Ok(Reading(Text(Hex.Hexlify(BytesAt(row, 5).value)), None))
    ensures kind == Obis.TypeString && BytesAt(row, 5).Some? ==>
      r == Ok(Reading(Text(if utf8(BytesAt(row, 5).value).Some? then utf8(BytesAt(row, 5).value).value else ""), None))
    ensures !IsNumeric(kind) && IntAt(row, 5).Some? ==> r == Err(AttributeError)
  {
    if kind == Obis.TypeString then ReadString(row, utf8)
    else if kind == Obis.TypeBinary then ReadBinary(row)
    else ReadNumber(row)
  }

  /** An `SML_ListEntry` of a value list as a meter sends it: object name,
      status, value time, unit, scaler, value and signature, with the
      optional fields left empty. */
  function ValueEntry(name: Bytes, unit: int, scaler: int, value: Node): Node
  {
    Structure(Some(7), [
      OctetString(|name| + 1, name), OctetString(1, []), OctetString(1, []),
      UnsignedInteger(1, unit), SignedInteger(1, scaler), value, OctetString(1, [])])
  }

  /** A value-list entry matches the identifier it names, and reads back
      as the value it carries: a number scaled by its scaler with the
      unit of its unit code, the hex rendering of a binary, the decoded
      text of a string. */
  lemma ValueEntryReads(name: Bytes, unit: int, scaler: int, value: Node, kind: int,
                        utf8: Bytes -> Option<string>, pattern: Bytes)
    requires KnownKind(kind)
    ensures RowMatches(ValueEntry(name, unit, scaler, value), pattern) == Ok(name == pattern)
    ensures IsNumeric(kind) && (value.SignedInteger? || value.UnsignedInteger?) ==>
      ReadRow(ValueEntry(name, unit, scaler, value), kind, utf8) ==
        Ok(Reading(Number(value.value, scaler), ObisUnits.GetUnitFromCode(unit)))
    ensures kind == Obis.TypeBinary && value.OctetString? ==>
      ReadRow(ValueEntry(name, unit, scaler, value), kind, utf8) == Ok(Reading(Text(Hex.Hexlify(value.data)), None))
    ensures kind == Obis.TypeString && value.OctetString? ==>
      ReadRow(ValueEntry(name, unit, scaler, value), kind, utf8) ==
        Ok(Reading(Text(if utf8(value.data).Some? then utf8(value.data).value else ""), None))
    ensures !IsNumeric(kind) && (value.SignedInteger? || value.UnsignedInteger?) ==>
      ReadRow(ValueEntry(name, unit, scaler, value), kind, utf8) == Err(AttributeError)
  {
    var row := ValueEntry(name, unit, scaler, value);
    assert DataAt(row, 0) == Ok(BytesDatum(name));
    assert IntAt(row, 3) == Some(unit) && IntAt(row, 4) == Some(scaler);
    if value.SignedInteger? || value.UnsignedInteger? {
      assert IntAt(row, 5) == Some(value.value);
    } else if value.OctetString? {
      assert BytesAt(row, 5) == Some(value.data);
    }
  }

  /** `child.children[0].data != item["bytes"]` negated: an integer never
      equals a byte pattern. */
  function RowMatches(row: Node, pattern: Bytes): (r: Result<bool, ExtractError>)
    ensures r == Ok(true) <==>
      row.Structure? && |row.children| > 0 && row.children[0].OctetString? && row.children[0].data == pattern
  {
    match DataAt(row, 0)
    case Err(e) => Err(e)
    case Ok(BytesDatum(b)) => Ok(b == pattern)
    case Ok(IntDatum(_)) => Ok(false)
  }

  /** The loop over the value list from index `i` on, starting from the
      reading `cur`: every matching row replaces the reading, so with no
      matching row the starting reading comes back. */
  function Scan(rows: seq<Node>, i: nat, pattern: Bytes, kind: int, utf8: Bytes -> Option<string>, cur: Reading)
    : (r: Result<Reading, ExtractError>)
    requires KnownKind(kind)
    ensures (forall j | i <= j < |rows| :: RowMatches(rows[j], pattern) == Ok(false)) ==> r == Ok(cur)
    decreases |rows| - i
  {
    if i >= |rows| then Ok(cur)
    else
      match RowMatches(rows[i], pattern)
      case Err(e) => Err(e)
      case Ok(false) => Scan(rows, i + 1, pattern, kind, utf8, cur)
      case Ok(true) =>
        match ReadRow(rows[i], kind, utf8)
        case Err(e) => Err(e)
        case Ok(next) => Scan(rows, i + 1, pattern, kind, utf8, next)
  }

  /** The row of one registry entry, read from the value list
      `response.children[4]`. */
  function ExtractEntry(response: Node, entry: Obis.CodeEntry, utf8: Bytes -> Option<string>)
    : (r: Result<Row, ExtractError>)
    requires KnownKind(entry.kind)
    ensures r.Ok? ==> r.value.key == entry.key && r.value.description == entry.description
    ensures r.Ok? ==> r.value.internalName == entry.internalName && r.value.kind == entry.kind
  {
    match ChildAt(response, 4)
    case Err(e) => Err(e)
    case Ok(list) =>
      match ChildrenOf(list)
      case Err(e) => Err(e)
      case Ok(rows) =>
        match Scan(rows, 0, entry.pattern, entry.kind, utf8, Nothing)
        case Err(e) => Err(e)
        case Ok(reading) =>
          Ok(Row(entry.key, entry.description, entry.internalName, reading.unit, reading.value, entry.kind))
  }

  /** Every registry entry has a kind the extraction handles. */
  lemma RegistryKinds()
    ensures forall i | 0 <= i < |Obis.Codes| :: KnownKind(Obis.Codes[i].kind)
  {
    Obis.RegistryEntries();
  }

  /** The rows of the given registry entries, in order; the first entry
      that raises ends the extraction, and it succeeds exactly when no
      entry raises. */
  function ExtractFrom(response: Node, entries: seq<Obis.CodeEntry>, utf8: Bytes -> Option<string>)
    : (r: Result<seq<Row>, ExtractError>)
    requires forall i | 0 <= i < |entries| :: KnownKind(entries[i].kind)
    ensures r.Ok? ==> |r.value| == |entries|
    ensures r.Ok? ==> forall k | 0 <= k < |r.value| :: ExtractEntry(response, entries[k], utf8) == Ok(r.value[k])
    ensures entries != [] && ExtractEntry(response, entries[0], utf8).Err? ==> r.Err?
    ensures r.Ok? <==> forall k | 0 <= k < |entries| :: ExtractEntry(response, entries[k], utf8).Ok?
  {
    if entries == [] then Ok([])
    else
      assert forall k | 1 <= k < |entries| :: entries[k] == entries[1..][k - 1];
      match ExtractEntry(response, entries[0], utf8)
      case Err(e) => Err(e)
      case Ok(row) =>
        match ExtractFrom(response, entries[1..], utf8)
        case Err(e) => Err(e)
        case Ok(rows) =>
          var all := [row] + rows;
          assert forall k | 0 <= k < |all| :: ExtractEntry(response, entries[k], utf8) == Ok(all[k]) by {
            forall k | 1 <= k < |all|
              ensures ExtractEntry(response, entries[k], utf8) == Ok(all[k])
            {
              assert entries[k] == entries[1..][k - 1] && all[k] == rows[k - 1];
            }
          }
          Ok(all)
  }

  /** `extract_obis_response_data`: one row per registry entry, in
      registry order, each carrying the entry's key, description, internal
      name and type, and the reading `ExtractEntry` takes from the value
      list. It succeeds exactly when no entry raises. */
  function ExtractObisResponseData(response: Node, utf8: Bytes -> Option<string>): (r: Result<seq<Row>, ExtractError>)
    ensures !HasValueList(response) ==> r.Err?
    ensures r.Ok? ==> |r.value| == |Obis.Codes|
    ensures r.Ok? ==> forall k | 0 <= k < |r.value| ::
      && r.value[k].key == Obis.Codes[k].key
      && r.value[k].description == Obis.Codes[k].description
      && r.value[k].internalName == Obis.Codes[k].internalName
      && r.value[k].kind == Obis.Codes[k].kind
    ensures (RegistryKinds();
      r.Ok? <==> forall k | 0 <= k < |Obis.Codes| :: ExtractEntry(response, Obis.Codes[k], utf8).Ok?)
    ensures (RegistryKinds();
      r.Ok? ==> forall k | 0 <= k < |r.value| :: ExtractEntry(response, Obis.Codes[k], utf8) == Ok(r.value[k]))
  {
    RegistryKinds();
    var r := ExtractFrom(response, Obis.Codes, utf8);
    assert !HasValueList(response) ==> ExtractEntry(response, Obis.Codes[0], utf8).Err?;
    r
  }

  /** `response.children[4]` exists and is a list. */
  predicate HasValueList(response: Node)
  {
    response.Structure? && |response.children| > 4 && response.children[4].Structure?
  }

  /** The last index `j` in `[lo, hi)` whose row matches `pattern`. */
  function LastMatch(rows: seq<Node>, lo: nat, hi: nat, pattern: Bytes): (r: Option<nat>)
    requires hi <= |rows|
    ensures r.Some? ==> lo <= r.value < hi && RowMatches(rows[r.value], pattern) == Ok(true)
    ensures r.Some? ==> forall j | r.value < j < hi :: RowMatches(rows[j], pattern) != Ok(true)
    ensures r.None? ==> forall j | lo <= j < hi :: RowMatches(rows[j], pattern) != Ok(true)
    decreases hi
  {
    if hi <= lo then None
    else if RowMatches(rows[hi - 1], pattern) == Ok(true) then Some(hi - 1)
    else LastMatch(rows, lo, hi - 1, pattern)
  }

  /** Dropping the first index of the range keeps the last match unless
      the dropped row was the only one. */
  lemma {:induction false} LastMatchFront(rows: seq<Node>, lo: nat, hi: nat, pattern: Bytes)
    requires lo < hi <= |rows|
    ensures LastMatch(rows, lo, hi, pattern) ==
      if LastMatch(rows, lo + 1, hi, pattern).Some? then LastMatch(rows, lo + 1, hi, pattern)
      else if RowMatches(rows[lo], pattern) == Ok(true) then Some(lo)
      else None
    decreases hi
  {
    if hi - 1 > lo {
      LastMatchFront(rows, lo, hi - 1, pattern);
    }
  }

  /** A row makes the loop raise: its first cell cannot be compared, or it
      matches and its value cannot be read. */
  predicate Fails(row: Node, pattern: Bytes, kind: int, utf8: Bytes -> Option<string>)
    requires KnownKind(kind)
  {
    RowMatches(row, pattern).Err? || (RowMatches(row, pattern) == Ok(true) && ReadRow(row, kind, utf8).Err?)
  }

  /** The loop raises exactly when some remaining row fails; otherwise the
      last matching row decides the reading, and with no matching row the
      starting reading is kept. */
  lemma {:induction false} ScanLastWins(rows: seq<Node>, i: nat, pattern: Bytes, kind: int,
                                         utf8: Bytes -> Option<string>, cur: Reading)
    requires KnownKind(kind) && i <= |rows|
    ensures Scan(rows, i, pattern, kind, utf8, cur).Err? <==>
      exists j | i <= j < |rows| :: Fails(rows[j], pattern, kind, utf8)
    ensures Scan(rows, i, pattern, kind, utf8, cur).Ok? ==>
      Scan(rows, i, pattern, kind, utf8, cur).value ==
        match LastMatch(rows, i, |rows|, pattern)
        case None => cur
        case Some(j) => ReadRow(rows[j], kind, utf8).value
    decreases |rows| - i
  {
    if i < |rows| {
      var m := RowMatches(rows[i], pattern);
      LastMatchFront(rows, i, |rows|, pattern);
      if m.Ok? {
        var next := if m.value then ReadRow(rows[i], kind, utf8) else Ok(cur);
        if next.Ok? {
          ScanLastWins(rows, i + 1, pattern, kind, utf8, next.value);
          if Scan(rows, i, pattern, kind, utf8, cur).Err? {
            var j :| i + 1 <= j < |rows| && Fails(rows[j], pattern, kind, utf8);
          }
        } else {
          assert Fails(rows[i], pattern, kind, utf8);
        }
      } else {
        assert Fails(rows[i], pattern, kind, utf8);
      }
    }
  }

  /** A registry entry's row: its value and unit come from the last
      matching row of the value list, both stay none without a match, and
      only gauges and counters carry a unit. */
  lemma EntryFromLastMatch(response: Node, entry: Obis.CodeEntry, utf8: Bytes -> Option<string>)
    requires KnownKind(entry.kind)
    requires ExtractEntry(response, entry, utf8).Ok?
    ensures HasValueList(response)
    ensures var rows := response.children[4].children;
      var row := ExtractEntry(response, entry, utf8).value;
      match LastMatch(rows, 0, |rows|, entry.pattern)
      case None => row.value == NoValue && row.unit == None
      case Some(j) => ReadRow(rows[j], entry.kind, utf8) == Ok(Reading(row.value, row.unit))
    ensures entry.kind != Obis.TypeCounter && entry.kind != Obis.TypeGauge ==>
      ExtractEntry(response, entry, utf8).value.unit.None?
  {
    var rows := response.children[4].children;
    ScanLastWins(rows, 0, entry.pattern, entry.kind, utf8, Nothing);
  }
}
