/** Concrete decodings that show the loop's edge cases: a list closed by
    its last element, the nesting counter stopping the loop early, a
    zero-length integer that never advances, and an unknown type nibble. */
module Scenarios {
  import opened Base
  import opened Tree
  import opened Decoder
  import opened BigEndian
  import opened TypeLength
  import Queries
  import Obis
  import ObisUnits
  import Extract

  const TwoInts: Bytes := [0x72, 0x62, 0x01, 0x62, 0x02]
  const One := UnsignedInteger(2, 1)
  const Two := UnsignedInteger(2, 2)

  lemma TwoIntsOpen()
    ensures DecodeStep(TwoInts, Start) == Next(State(1, [2], Cursor([], [Frame(2, [])])))
  {
    ShortListRead(TwoInts, 0, [], NewRoot);
    assert [] + [Frame(2, [])] == [Frame(2, [])];
  }

  /** Appending the first integer leaves the list open. */
  lemma AppendOne()
    ensures AddLeaf(Cursor([], [Frame(2, [])]), One) == Ok(Cursor([], [Frame(2, [One])]))
  {
    assert [] + [One] == [One];
    assert [Frame(2, [])][0 := Frame(2, [One])] == [Frame(2, [One])];
    assert AppendChild(Cursor([], [Frame(2, [])]), One) == Cursor([], [Frame(2, [One])]);
  }

  /** Appending the second integer fills the list, which closes into the
      root. */
  lemma AppendTwo()
    ensures AddLeaf(Cursor([], [Frame(2, [One])]), Two) == Ok(Cursor([Structure(Some(2), [One, Two])], []))
  {
    assert [One] + [Two] == [One, Two];
    assert [Frame(2, [One])][0 := Frame(2, [One, Two])] == [Frame(2, [One, Two])];
    var full := AppendChild(Cursor([], [Frame(2, [One])]), Two);
    assert full == Cursor([], [Frame(2, [One, Two])]);
    assert [] + [Structure(Some(2), [One, Two])] == [Structure(Some(2), [One, Two])];
    assert Close(full) == Cursor([Structure(Some(2), [One, Two])], []);
  }

  /** `62 0b` reads as the unsigned integer `b`, for a one-byte value `b`. */
  lemma SmallUnsigned(msg: Bytes, pos: nat)
    requires pos + 1 < |msg| && msg[pos] == 0x62
    ensures LeafNode(TypeOf(msg[pos]), LengthOf(msg[pos]), PySlice(msg, pos + 1, pos + LengthOf(msg[pos]))) ==
      UnsignedInteger(2, msg[pos + 1])
  {
    assert PySlice(msg, pos + 1, pos + 2) == [msg[pos + 1]];
    assert [msg[pos + 1]][..0] == [];
  }

  lemma TwoIntsFirst()
    ensures DecodeStep(TwoInts, State(1, [2], Cursor([], [Frame(2, [])]))) ==
      Next(State(3, [1], Cursor([], [Frame(2, [One])])))
  {
    assert CountDown([2]) == Some([1]);
    ShortLeafRead(TwoInts, 1, [1], Cursor([], [Frame(2, [])]));
    SmallUnsigned(TwoInts, 1);
    AppendOne();
  }

  lemma TwoIntsSecond()
    ensures DecodeStep(TwoInts, State(3, [1], Cursor([], [Frame(2, [One])]))) ==
      Next(State(5, [0], Cursor([Structure(Some(2), [One, Two])], [])))
  {
    assert CountDown([1]) == Some([0]);
    ShortLeafRead(TwoInts, 3, [0], Cursor([], [Frame(2, [One])]));
    SmallUnsigned(TwoInts, 3);
    AppendTwo();
  }

  /** `72 62 01 62 02`: a two-element list of unsigned integers; the list
      closes on its second element and the body is used up. */
  lemma ClosedList()
    ensures Run(TwoInts, Start) == Complete(Cursor([Structure(Some(2), [One, Two])], []))
  {
    var s1 := State(1, [2], Cursor([], [Frame(2, [])]));
    var s2 := State(3, [1], Cursor([], [Frame(2, [One])]));
    var s3 := State(5, [0], Cursor([Structure(Some(2), [One, Two])], []));
    TwoIntsOpen();
    TwoIntsFirst();
    TwoIntsSecond();
    assert Run(TwoInts, s3) == Complete(s3.cursor);
    assert Run(TwoInts, s2) == Run(TwoInts, s3);
    assert Run(TwoInts, s1) == Run(TwoInts, s2);
  }

  const OneInt: Bytes := [0x71, 0x62, 0x01, 0x62, 0x02]

  /** A one-element list closes on its first element. */
  lemma AppendOnly()
    ensures AddLeaf(Cursor([], [Frame(1, [])]), One) == Ok(Cursor([Structure(Some(1), [One])], []))
  {
    var full := AppendChild(Cursor([], [Frame(1, [])]), One);
    assert [] + [One] == [One];
    assert [Frame(1, [])][0 := Frame(1, [One])] == [Frame(1, [One])];
    assert full == Cursor([], [Frame(1, [One])]);
    assert [] + [Structure(Some(1), [One])] == [Structure(Some(1), [One])];
    assert Close(full) == Cursor([Structure(Some(1), [One])], []);
  }

  lemma OneIntSteps()
    ensures DecodeStep(OneInt, Start) == Next(State(1, [1], Cursor([], [Frame(1, [])])))
    ensures DecodeStep(OneInt, State(1, [1], Cursor([], [Frame(1, [])]))) ==
      Next(State(3, [0], Cursor([Structure(Some(1), [One])], [])))
  {
    ShortListRead(OneInt, 0, [], NewRoot);
    assert [] + [Frame(1, [])] == [Frame(1, [])];
    assert CountDown([1]) == Some([0]);
    ShortLeafRead(OneInt, 1, [0], Cursor([], [Frame(1, [])]));
    SmallUnsigned(OneInt, 1);
    AppendOnly();
  }

  /** `71 62 01 62 02`: the one-element list closes on its first element,
      after which the nesting counter runs empty and raises `IndexError`
      before the second integer is read; the tree so far is kept. */
  lemma CounterStopsEarly()
    ensures Run(OneInt, Start) == Partial(Cursor([Structure(Some(1), [One])], []))
  {
    var s1 := State(1, [1], Cursor([], [Frame(1, [])]));
    var s2 := State(3, [0], Cursor([Structure(Some(1), [One])], []));
    OneIntSteps();
    assert CountDown([0]).None?;
    assert DecodeStep(OneInt, s2) == IndexErrorRaised;
    assert Run(OneInt, s2) == Partial(s2.cursor);
    assert Run(OneInt, s1) == Run(OneInt, s2);
  }

  /** The root takes any leaf as its first child. */
  lemma RootLeaf(n: Node)
    requires IsLeaf(n)
    ensures AddLeaf(NewRoot, n) == Ok(Cursor([n], []))
  {
    assert [] + [n] == [n];
    assert AppendChild(NewRoot, n) == Cursor([n], []);
  }

  /** `50`: a signed integer of length 0 at the top level appends a zero
      and leaves the position where it was, so the loop never ends. */
  lemma ZeroLengthStalls()
    ensures Run([0x50], Start) == Diverges
  {
    var msg: Bytes := [0x50];
    ShortLeafRead(msg, 0, [], NewRoot);
    assert PySlice(msg, 1, 0) == [];
    assert Signed([]) == 0;
    RootLeaf(SignedInteger(0, 0));
    var s1 := State(0, [], Cursor([SignedInteger(0, 0)], []));
    assert DecodeStep(msg, Start) == Next(s1);
    assert Stuck(Start, s1);
  }

  /** `10`: type nibble 1 is no SML type, and the exception escapes. */
  lemma UnknownTypeRaises()
    ensures Run([0x10], Start) == Failed(UnknownFieldType(0x10, 0))
  {
    var msg: Bytes := [0x10];
    assert TypeOf(msg[0]) == 0x10;
    assert ReadField(msg, 0, [], NewRoot) == Raised(UnknownFieldType(0x10, 0));
    assert DecodeStep(msg, Start) == Raised(UnknownFieldType(0x10, 0));
  }

  /** `62 05 00` with two fill bytes announced: the fill is cut before
      decoding, leaving only the one-byte integer field's TL byte, whose
      payload slice is empty. */
  lemma FillBytesCut()
    ensures Decode([0x62, 0x05, 0x00], [0x1a, 0x02, 0x00, 0x00]) ==
      Complete(Cursor([UnsignedInteger(2, 0)], []))
  {
    var msg := StripFill([0x62, 0x05, 0x00], 2);
    assert msg == [0x62];
    ShortLeafRead(msg, 0, [], NewRoot);
    assert PySlice(msg, 1, 2) == [];
    assert Unsigned([]) == 0;
    RootLeaf(UnsignedInteger(2, 0));
    assert DecodeStep(msg, Start) == Next(State(2, [], Cursor([UnsignedInteger(2, 0)], [])));
  }

  /** A small message tree: a message holding a body tagged 0x0701,
      whose list carries one identifier, followed by the end-of-message
      marker. */
  const ExResponse := Structure(Some(1), [OctetString(2, [0x01])])
  const ExBody := Structure(Some(2), [UnsignedInteger(3, 0x0701), ExResponse])
  const ExMessage := Structure(Some(2), [ExBody, EndOfMessage])
  const ExRoot := Structure(None, [ExMessage])

  /** The lists of the example classify as message, message body and
      list-response body. */
  lemma ExampleClasses()
    ensures Queries.IsPath([ExRoot, ExMessage]) && Queries.Classify([ExRoot, ExMessage]) == Queries.Message
    ensures Queries.IsPath([ExRoot, ExMessage, ExBody])
    ensures Queries.Classify([ExRoot, ExMessage, ExBody]) == Queries.MessageBody
    ensures Queries.IsPath([ExRoot, ExMessage, ExBody, ExResponse])
    ensures Queries.GetStructureTypeString([ExRoot, ExMessage, ExBody, ExResponse]) == "GetList.Response"
  {
    var p2 := [ExRoot, ExMessage, ExBody];
    var p3 := [ExRoot, ExMessage, ExBody, ExResponse];
    assert Queries.Parent(p2) == [ExRoot, ExMessage];
    assert Queries.Parent(p3) == p2;
  }

  /** The search from the root stops at the body list. */
  lemma ExampleSearch()
    ensures Queries.FindResponse([ExRoot]) == Some([ExRoot, ExMessage, ExBody])
  {
    ExampleClasses();
    var p1 := [ExRoot, ExMessage];
    var p2 := [ExRoot, ExMessage, ExBody];
    assert p2 + [ExResponse] == [ExRoot, ExMessage, ExBody, ExResponse];
    assert Queries.FindResponseFrom(p2, 1) == Some(p2);
    assert Queries.FindResponse(p2) == Some(p2);
    assert p1 + [ExBody] == p2;
    assert Queries.FindResponseFrom(p1, 0) == Some(p2);
    assert [ExRoot] + [ExMessage] == p1;
    assert Queries.FindResponseFrom([ExRoot], 0) == Some(p2);
  }

  /** `GetListResponse` on the example returns the body's list. */
  lemma ListResponseFound()
    ensures Queries.GetListResponse([ExRoot]) == Some(ExResponse)
  {
    ExampleSearch();
  }

  /** `RecursiveObisFind` finds the identifier in the body's list and finds
      nothing for an identifier the tree does not hold. */
  lemma ObisFound()
    ensures Queries.ObisFind(ExRoot, [0x01]) == Some(ExResponse)
    ensures Queries.ObisFind(ExRoot, [0x02]) == None
  {
    assert Queries.ObisFindFrom(ExResponse, [0x01], 0) == Some(ExResponse);
    assert Queries.ObisFindFrom(ExBody, [0x01], 1) == Some(ExResponse);
    assert Queries.ObisFindFrom(ExBody, [0x01], 0) == Some(ExResponse);
    assert Queries.ObisFindFrom(ExMessage, [0x01], 0) == Some(ExResponse);
    assert Queries.ObisFindFrom(ExRoot, [0x01], 0) == Some(ExResponse);
    assert Queries.ObisFindFrom(ExResponse, [0x02], 1) == None;
    assert Queries.ObisFindFrom(ExResponse, [0x02], 0) == None;
    assert Queries.ObisFindFrom(ExBody, [0x02], 2) == None;
    assert Queries.ObisFind(ExResponse, [0x02]) == None;
    assert Queries.ObisFindFrom(ExBody, [0x02], 1) == None;
    assert Queries.ObisFindFrom(ExBody, [0x02], 0) == None;
    assert Queries.ObisFindFrom(ExMessage, [0x02], 2) == None;
    assert Queries.ObisFind(ExBody, [0x02]) == None;
    assert Queries.ObisFindFrom(ExMessage, [0x02], 1) == None;
    assert Queries.ObisFindFrom(ExMessage, [0x02], 0) == None;
    assert Queries.ObisFind(ExMessage, [0x02]) == None;
    assert Queries.ObisFindFrom(ExRoot, [0x02], 1) == None;
    assert Queries.ObisFindFrom(ExRoot, [0x02], 0) == None;
  }

  /** A value-list row for the current active power: identifier
      1-0:15.7.0*255, unit code 27, scaler -1, value 1234. */
  const PowerRow := Structure(Some(7), [
    OctetString(7, [0x01, 0x00, 0x0F, 0x07, 0x00, 0xFF]),
    UnsignedInteger(1, 0),
    UnsignedInteger(1, 0),
    UnsignedInteger(2, 27),
    SignedInteger(2, -1),
    SignedInteger(3, 1234),
    OctetString(1, [])])

  /** A list-response body whose value list (its fifth element) holds
      that one row. */
  const PowerResponse := Structure(Some(7), [
    OctetString(1, []), OctetString(1, []), OctetString(1, []), OctetString(1, []),
    Structure(Some(1), [PowerRow]),
    OctetString(1, []), OctetString(1, [])])

  /** The current-power entry reads as 1234 * 10^-1 W. */
  lemma PowerReading()
    ensures Extract.ExtractEntry(PowerResponse, Obis.Codes[9], s => None) ==
      Ok(Extract.Row(Obis.CodeEnergyCurrent, "Betrag der aktuellen Wirkleistung",
        "energy_current", Some("W"), Extract.Number(1234, -1), Obis.TypeGauge))
  {
    var e := Obis.Codes[9];
    assert e.pattern == [0x01, 0x00, 0x0F, 0x07, 0x00, 0xFF];
    assert Extract.RowMatches(PowerRow, e.pattern) == Ok(true);
    assert ObisUnits.GetUnitFromCode(27) == Some("W");
    assert Extract.ReadNumber(PowerRow) == Ok(Extract.Reading(Extract.Number(1234, -1), Some("W")));
    var rows := [PowerRow];
    assert Extract.Scan(rows, 1, e.pattern, e.kind, s => None, Extract.Reading(Extract.Number(1234, -1), Some("W")))
      == Ok(Extract.Reading(Extract.Number(1234, -1), Some("W")));
  }
}
