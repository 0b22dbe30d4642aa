/** `parse_sml_bytestream`: the decode loop over one message body. Each
    iteration reads one field at `pos`, dispatching on the type bits of its
    TL byte, and grows the tree through the cursor. The loop keeps the
    nesting counter `LISTS` the source maintains for its debug output,
    because popping the last entry of that counter raises `IndexError`,
    which ends decoding early. */
module Decoder {
  import opened Base
  import opened Tree
  import opened TypeLength
  import opened BigEndian

  /** The two exceptions that escape the loop: the one raised by
      `returnSelfOrParent`, and the one for type bits 1, 2 and 3. */
  datatype DecodeError = ArityExceeded | UnknownFieldType(tl: byte, pos: nat)

  /** The loop variables: `pos`, `LISTS`, and `SML_RAW_DATA`. */
  datatype State = State(pos: nat, nesting: seq<int>, cursor: Cursor)

  /** The result of one iteration. `IndexErrorRaised` is the exception the
      loop catches; the tree then stays as the previous iteration left it. */
  datatype Step = Next(state: State) | IndexErrorRaised | Raised(error: DecodeError)

  /** How decoding ends: the body is used up; an `IndexError` stopped it
      early; an exception escaped; or the loop never ends. In the first two
      cases the tree is kept. */
  datatype Outcome =
    | Complete(tree: Cursor)
    | Partial(tree: Cursor)
    | Failed(error: DecodeError)
    | Diverges

  const Start := State(0, [], NewRoot)

  /** The fill-byte count `int(footer[1])`. */
  function FillBytes(footer: Bytes): byte
    requires |footer| >= 2
  {
    footer[1]
  }

  /** `msg[:-fill]` when `fill > 0`: the last `fill` bytes are cut off, and
      nothing remains when there are not that many. */
  function StripFill(body: Bytes, fill: nat): (r: Bytes)
    ensures fill <= |body| ==> |r| == |body| - fill
    ensures fill >= |body| ==> r == []
    ensures body == r + body[|r|..]
  {
    if fill == 0 then body
    else if fill < |body| then body[..|body| - fill]
    else []
  }

  /** `LISTS[-1] -= 1`: the innermost entry goes down by one, the others
      stay. The measure never grows, and shrinks while the entry is live. */
  function Decrement(nesting: seq<int>): (r: seq<int>)
    requires nesting != []
    ensures |r| == |nesting| && r[|r| - 1] == nesting[|nesting| - 1] - 1
    ensures r[..|r| - 1] == nesting[..|nesting| - 1]
    ensures Measure(r) <= Measure(nesting)
    ensures nesting[|nesting| - 1] > 0 ==> Measure(r) < Measure(nesting)
  {
    var k := |nesting| - 1;
    assert nesting == nesting[..k] + [nesting[k]];
    MeasureSnoc(nesting[..k], nesting[k]);
    MeasureSnoc(nesting[..k], nesting[k] - 1);
    var r := nesting[..k] + [nesting[k] - 1];
    assert r[..k] == nesting[..k];
    r
  }

  /** The entry bookkeeping at the top of the loop: when the innermost
      counter has run out it is popped, then the (new) innermost counter
      is decremented. Popping the only entry leaves nothing to decrement:
      `None` is the resulting `IndexError`. */
  function CountDown(nesting: seq<int>): (r: Option<seq<int>>)
    ensures nesting == [] ==> r == Some([])
    ensures r.None? <==> |nesting| == 1 && nesting[0] <= 0
    ensures r.Some? && nesting != [] ==> Measure(r.value) < Measure(nesting)
    ensures nesting != [] && nesting[|nesting| - 1] > 0 ==> r == Some(Decrement(nesting))
    ensures |nesting| >= 2 && nesting[|nesting| - 1] <= 0 ==>
      r == Some(Decrement(nesting[..|nesting| - 1]))
  {
    if nesting == [] then Some([])
    else
      var k := |nesting| - 1;
      if nesting[k] > 0 then Some(Decrement(nesting))
      else if k == 0 then None
      else
        assert Measure(nesting) == Measure(nesting[..k]) + 1;
        Some(Decrement(nesting[..k]))
  }

  /** A size for the nesting counter: every entry counts one plus its
      remaining positive budget. */
  function Measure(nesting: seq<int>): nat
  {
    if nesting == [] then 0
    else
      var k := |nesting| - 1;
      Measure(nesting[..k]) + (if nesting[k] > 0 then nesting[k] else 0) + 1
  }

  /** The measure of a counter with one more innermost entry. */
  lemma MeasureSnoc(s: seq<int>, x: int)
    ensures Measure(s + [x]) == Measure(s) + (if x > 0 then x else 0) + 1
  {
    assert (s + [x])[..|s|] == s;
  }

  predicate IsLeafType(t: int)
  {
    t in {TypeOctetString, TypeSignedInt, TypeUnsignedInt}
  }

  /** The leaf node a leaf field decodes to: an octet string keeps its
      payload bytes; integers are the big-endian value of the payload. */
  function LeafNode(t: int, length: int, payload: Bytes): (n: Node)
    requires IsLeafType(t)
    ensures IsLeaf(n) && !n.EndOfMessage?
    ensures n.OctetString? <==> t == TypeOctetString
    ensures n.SignedInteger? <==> t == TypeSignedInt
    ensures n.UnsignedInteger? <==> t == TypeUnsignedInt
    ensures n.length == length
    ensures n.OctetString? ==> n.data == payload
    ensures n.SignedInteger? ==> n.value == Signed(payload)
    ensures n.UnsignedInteger? ==> n.value == Unsigned(payload)
  {
    if t == TypeOctetString then OctetString(length, payload)
    else if t == TypeSignedInt then SignedInteger(length, Signed(payload))
    else UnsignedInteger(length, Unsigned(payload))
  }

  function AfterLeaf(r: Result<Cursor, TreeError>, pos: nat, nesting: seq<int>): Step
  {
    match r
    case Ok(c) => Next(State(pos, nesting, c))
    case Err(_) => Raised(ArityExceeded)
  }

  /** One iteration of the loop, for `pos` inside the body: the nesting
      counter first, then the field at `pos`. The position never moves
      back, and it stays put only on a zero-length leaf TL byte. */
  function DecodeStep(msg: Bytes, st: State): (r: Step)
    requires st.pos < |msg|
    ensures r.Next? ==> r.state.pos >= st.pos
    ensures r.Next? && r.state.pos == st.pos ==>
      && msg[st.pos] != 0x00 && IsLeafType(TypeOf(msg[st.pos]))
      && (IsExtended(msg[st.pos]) ==> st.pos + 1 < |msg|) && Span(msg, st.pos) == 0
  {
    match CountDown(st.nesting)
    case None => IndexErrorRaised
    case Some(nest) =>
      var r := ReadField(msg, st.pos, nest, st.cursor);
      assert r.Next? ==> r.state.pos >= st.pos && (r.state.pos == st.pos ==>
        && msg[st.pos] != 0x00 && IsLeafType(TypeOf(msg[st.pos]))
        && (IsExtended(msg[st.pos]) ==> st.pos + 1 < |msg|) && Span(msg, st.pos) == 0) by {
        if r.Next? { FieldAdvances(msg, st.pos, nest, st.cursor); }
      }
      r
  }

  /** The dispatch on the byte at `pos`: the end-of-message byte first, then
      the type bits of the TL byte. */
  function ReadField(msg: Bytes, pos: nat, nest: seq<int>, c: Cursor): (r: Step)
    requires pos < |msg|
  {
    var b := msg[pos];
    var t := TypeOf(b);
    if b == 0x00 then AfterLeaf(AddLeaf(c, EndOfMessage), pos + 1, [])
    else if t == TypeList then ReadList(msg, pos, nest, c)
    else if IsLeafType(t) then ReadLeaf(msg, pos, nest, c)
    else if t == TypeBool then ReadBool(msg, pos, nest, c)
    else Raised(UnknownFieldType(b, pos))
  }

  /** A list TL: open a list of the declared length and continue after the
      TL bytes. */
  function ReadList(msg: Bytes, pos: nat, nest: seq<int>, c: Cursor): (r: Step)
    requires pos < |msg|
  {
    match GetFieldLength(msg, pos)
    case None => IndexErrorRaised
    case Some(fl) => Next(State(fl.last + 1, nest + [fl.length], AddStructure(c, fl.length)))
  }

  /** The payload of a leaf field: `msg[last + 1:last + length]`. */
  function Payload(msg: Bytes, fl: FieldLength): Bytes
    requires fl.last + fl.length >= 0
  {
    PySlice(msg, fl.last + 1, fl.last + fl.length)
  }

  /** An octet string or integer TL: append the leaf and continue `length`
      bytes after the last TL byte. */
  function ReadLeaf(msg: Bytes, pos: nat, nest: seq<int>, c: Cursor): (r: Step)
    requires pos < |msg| && IsLeafType(TypeOf(msg[pos]))
  {
    match GetFieldLength(msg, pos)
    case None => IndexErrorRaised
    case Some(fl) =>
      AfterLeaf(AddLeaf(c, LeafNode(TypeOf(msg[pos]), fl.length, Payload(msg, fl))), fl.last + fl.length, nest)
  }

  /** A boolean TL: read the value byte after the TL bytes and add nothing. */
  function ReadBool(msg: Bytes, pos: nat, nest: seq<int>, c: Cursor): (r: Step)
    requires pos < |msg|
  {
    match GetFieldLength(msg, pos)
    case None => IndexErrorRaised
    case Some(fl) => if fl.last + 1 >= |msg| then IndexErrorRaised else Next(State(fl.last + 2, nest, c))
  }

  function Remaining(msg: Bytes, pos: nat): nat
  {
    if pos < |msg| then |msg| - pos else 0
  }

  /** Room left in the cursor's list. */
  function Room(c: Cursor): nat
  {
    if c.open == [] then 0
    else
      var f := c.open[|c.open| - 1];
      if f.arity > |f.children| then f.arity - |f.children| else 0
  }

  /** The loop is stuck for good: a field that spans no bytes is read
      again and again, the nesting counter is empty so it cannot raise, and
      the cursor is at the root, which takes every leaf without complaint. */
  predicate Stuck(st: State, next: State)
  {
    next.pos == st.pos && st.nesting == [] && st.cursor.open == []
  }

  /** `pos` never moves backwards, and it stays put only for a leaf field
      that spans no bytes. */
  lemma FieldAdvances(msg: Bytes, pos: nat, nest: seq<int>, c: Cursor)
    requires pos < |msg| && ReadField(msg, pos, nest, c).Next?
    ensures var n := ReadField(msg, pos, nest, c).state;
      && n.pos >= pos
      && (n.pos == pos ==>
           && msg[pos] != 0x00 && IsLeafType(TypeOf(msg[pos])) && Span(msg, pos) == 0
           && var fl := GetFieldLength(msg, pos).value;
              ReadField(msg, pos, nest, c) == AfterLeaf(AddLeaf(c, LeafNode(TypeOf(msg[pos]), fl.length, Payload(msg, fl))), pos, nest))
  {
  }

  /** Every iteration either makes progress, in the order remaining bytes,
      nesting counter, depth of the cursor, room in the cursor's list, or
      is stuck. */
  lemma StepProgress(msg: Bytes, st: State)
    requires st.pos < |msg| && DecodeStep(msg, st).Next?
    ensures var n := DecodeStep(msg, st).state;
      || Stuck(st, n)
      || Remaining(msg, n.pos) < Remaining(msg, st.pos)
      || (Remaining(msg, n.pos) == Remaining(msg, st.pos) && Measure(n.nesting) < Measure(st.nesting))
      || (Remaining(msg, n.pos) == Remaining(msg, st.pos) && Measure(n.nesting) == Measure(st.nesting) && |n.cursor.open| < |st.cursor.open|)
      || (Remaining(msg, n.pos) == Remaining(msg, st.pos) && Measure(n.nesting) == Measure(st.nesting) && |n.cursor.open| == |st.cursor.open| && Room(n.cursor) < Room(st.cursor))
  {
    var nest := CountDown(st.nesting).value;
    var n := DecodeStep(msg, st).state;
    FieldAdvances(msg, st.pos, nest, st.cursor);
    if n.pos == st.pos && !Stuck(st, n) {
      var fl := GetFieldLength(msg, st.pos).value;
      var leaf := LeafNode(TypeOf(msg[st.pos]), fl.length, Payload(msg, fl));
      var a := AppendChild(st.cursor, leaf);
      assert AddLeaf(st.cursor, leaf) == Ok(n.cursor);
      if st.nesting == [] {
        AscendStops(a);
        if |n.cursor.open| == |st.cursor.open| {
          var k := |a.open| - 1;
          assert |n.cursor.open[k].children| == |a.open[k].children| < a.open[k].arity;
        }
      }
    }
  }

  /** The loop: decode until the body is used up or an exception ends it. */
  function Run(msg: Bytes, st: State): Outcome
    decreases Remaining(msg, st.pos), Measure(st.nesting), |st.cursor.open|, Room(st.cursor)
  {
    if st.pos >= |msg| then Complete(st.cursor)
    else
      match DecodeStep(msg, st)
      case IndexErrorRaised => Partial(st.cursor)
      case Raised(e) => Failed(e)
      case Next(n) =>
        if Stuck(st, n) then Diverges
        else
          StepProgress(msg, st);
          Run(msg, n)
  }

  /** `parse_sml_bytestream(msg, footer)`: cut the fill bytes, then decode
      from position 0 into a fresh root. Whatever tree it keeps is well
      formed: every finished list holds exactly its declared number of
      children, and every open list has room left or is still empty. */
  function Decode(body: Bytes, footer: Bytes): (r: Outcome)
    requires |footer| >= 2
    ensures r.Complete? || r.Partial? ==> Wf(r.tree)
    ensures FillBytes(footer) >= |body| ==> r == Complete(NewRoot)
  {
    RunKeepsWf(StripFill(body, FillBytes(footer)), Start);
    Run(StripFill(body, FillBytes(footer)), Start)
  }

  /** The fields whose TL byte `get_field_length` reads. */
  predicate ReadsLength(b: byte)
  {
    b != 0x00 && (TypeOf(b) == TypeList || IsLeafType(TypeOf(b)) || TypeOf(b) == TypeBool)
  }

  /** The loop catches an `IndexError` exactly when the nesting counter
      pops its last entry, when an extended TL byte is the last byte, or
      when a boolean's value byte lies past the end. */
  lemma IndexErrorCases(msg: Bytes, st: State)
    requires st.pos < |msg|
    ensures DecodeStep(msg, st).IndexErrorRaised? <==>
      || CountDown(st.nesting).None?
      || (ReadsLength(msg[st.pos]) && IsExtended(msg[st.pos]) && st.pos + 1 == |msg|)
      || (msg[st.pos] != 0x00 && TypeOf(msg[st.pos]) == TypeBool && st.pos + (if IsExtended(msg[st.pos]) then 2 else 1) >= |msg|)
  {
  }

  /** Type bits 1, 2 and 3 raise; nothing else does apart from the arity
      check after appending a leaf. */
  lemma RaisedCases(msg: Bytes, st: State)
    requires st.pos < |msg|
    ensures var r := DecodeStep(msg, st);
      && (r.Raised? && r.error.UnknownFieldType? <==>
           CountDown(st.nesting).Some? && msg[st.pos] != 0x00 && TypeOf(msg[st.pos]) in {0x10, 0x20, 0x30})
      && (r.Raised? && r.error.UnknownFieldType? ==> r.error == UnknownFieldType(msg[st.pos], st.pos))
      && (r.Raised? && r.error.ArityExceeded? ==> msg[st.pos] == 0x00 || IsLeafType(TypeOf(msg[st.pos])))
  {
    assert 0 <= msg[st.pos] / 16 % 8 < 8;
  }

  /** The end-of-message byte appends an EndOfMessage node to the cursor's
      structure, clears the nesting counter and advances one byte. */
  lemma EndOfMessageStep(msg: Bytes, st: State)
    requires st.pos < |msg| && msg[st.pos] == 0x00 && CountDown(st.nesting).Some?
    ensures var r := DecodeStep(msg, st);
      && (r.Raised? <==> AddLeaf(st.cursor, EndOfMessage).Err?)
      && (r.Next? ==> r.state.pos == st.pos + 1 && r.state.nesting == [])
      && (r.Next? ==> LastDescendant(GetRoot(r.state.cursor), |st.cursor.open|) == Some(Structure(Focus(st.cursor).arity, Focus(st.cursor).children + [EndOfMessage])))
  {
    if AddLeaf(st.cursor, EndOfMessage).Ok? {
      AddLeafAppends(st.cursor, EndOfMessage);
    }
  }

  /** A list TL byte opens a new, empty list of the declared length as the
      last child of the cursor's structure and moves the cursor into it;
      its length joins the nesting counter and `pos` moves past the TL
      bytes. */
  lemma ListStep(msg: Bytes, st: State)
    requires st.pos < |msg| && msg[st.pos] != 0x00 && TypeOf(msg[st.pos]) == TypeList
    requires CountDown(st.nesting).Some? && GetFieldLength(msg, st.pos).Some?
    ensures var fl := GetFieldLength(msg, st.pos).value; var r := DecodeStep(msg, st);
      && r.Next?
      && r.state.pos == st.pos + (if IsExtended(msg[st.pos]) then 2 else 1)
      && r.state.nesting == CountDown(st.nesting).value + [fl.length]
      && Focus(r.state.cursor) == Structure(Some(fl.length), [])
      && LastDescendant(GetRoot(r.state.cursor), |st.cursor.open|) == Some(Structure(Focus(st.cursor).arity, Focus(st.cursor).children + [Structure(Some(fl.length), [])]))
  {
    AddStructureAppends(st.cursor, GetFieldLength(msg, st.pos).value.length);
  }

  /** The payload is the bytes after the TL bytes up to the end of the
      field, cut at the end of the body. */
  lemma PayloadBytes(msg: Bytes, pos: nat, fl: FieldLength)
    requires pos < |msg| && GetFieldLength(msg, pos) == Some(fl)
    ensures var end := pos + Span(msg, pos);
      Payload(msg, fl) == if fl.last + 1 <= end <= |msg| then msg[fl.last + 1..end] else if fl.last + 1 < |msg| < end then msg[fl.last + 1..] else []
  {
  }

  /** A leaf field spans `Span` bytes from `pos`, TL bytes included, and
      its payload is what follows the TL bytes; the leaf joins the cursor's
      structure as its last child. */
  lemma LeafStep(msg: Bytes, st: State)
    requires st.pos < |msg| && msg[st.pos] != 0x00 && IsLeafType(TypeOf(msg[st.pos]))
    requires CountDown(st.nesting).Some? && GetFieldLength(msg, st.pos).Some?
    ensures var fl := GetFieldLength(msg, st.pos).value; var r := DecodeStep(msg, st);
      var leaf := LeafNode(TypeOf(msg[st.pos]), fl.length, Payload(msg, fl));
      && (r.Raised? <==> AddLeaf(st.cursor, leaf).Err?)
      && (r.Next? ==> r.state.pos == st.pos + Span(msg, st.pos) && r.state.nesting == CountDown(st.nesting).value)
      && (r.Next? ==> LastDescendant(GetRoot(r.state.cursor), |st.cursor.open|) == Some(Structure(Focus(st.cursor).arity, Focus(st.cursor).children + [leaf])))
  {
    var fl := GetFieldLength(msg, st.pos).value;
    var leaf := LeafNode(TypeOf(msg[st.pos]), fl.length, Payload(msg, fl));
    if AddLeaf(st.cursor, leaf).Ok? {
      AddLeafAppends(st.cursor, leaf);
    }
  }

  /** A boolean is read and skipped: the tree is unchanged and `pos` moves
      past the TL bytes and the value byte. */
  lemma BoolStep(msg: Bytes, st: State)
    requires st.pos < |msg| && msg[st.pos] != 0x00 && TypeOf(msg[st.pos]) == TypeBool
    requires CountDown(st.nesting).Some? && GetFieldLength(msg, st.pos).Some?
    requires GetFieldLength(msg, st.pos).value.last + 1 < |msg|
    ensures DecodeStep(msg, st) == Next(State(st.pos + (if IsExtended(msg[st.pos]) then 3 else 2), CountDown(st.nesting).value, st.cursor))
  {
  }

  /** Once stuck, the loop stays stuck: the same field is read again, the
      root gains one more child, and nothing else changes. */
  lemma StuckRepeats(msg: Bytes, st: State)
    requires st.pos < |msg| && DecodeStep(msg, st).Next? && Stuck(st, DecodeStep(msg, st).state)
    ensures var n := DecodeStep(msg, st).state;
      && DecodeStep(msg, n).Next?
      && Stuck(n, DecodeStep(msg, n).state)
      && DecodeStep(msg, n).state.cursor.rootChildren == n.cursor.rootChildren + [n.cursor.rootChildren[|n.cursor.rootChildren| - 1]]
  {
    var n := DecodeStep(msg, st).state;
    FieldAdvances(msg, st.pos, [], st.cursor);
    var fl := GetFieldLength(msg, st.pos).value;
    var leaf := LeafNode(TypeOf(msg[st.pos]), fl.length, Payload(msg, fl));
    assert n.cursor == Cursor(st.cursor.rootChildren + [leaf], []);
    assert DecodeStep(msg, n) == AfterLeaf(AddLeaf(n.cursor, leaf), st.pos, []);
  }

  /** One iteration keeps the cursor invariant. */
  lemma StepKeepsWf(msg: Bytes, st: State)
    requires st.pos < |msg| && Wf(st.cursor) && DecodeStep(msg, st).Next?
    ensures Wf(DecodeStep(msg, st).state.cursor)
  {
    var b := msg[st.pos];
    var t := TypeOf(b);
    var c := st.cursor;
    if b == 0x00 {
      AddLeafKeepsWf(c, EndOfMessage);
    } else if t == TypeList {
      AddStructureKeepsWf(c, GetFieldLength(msg, st.pos).value.length);
    } else if IsLeafType(t) {
      var fl := GetFieldLength(msg, st.pos).value;
      AddLeafKeepsWf(c, LeafNode(t, fl.length, Payload(msg, fl)));
    }
  }

  /** Whatever tree decoding keeps is well formed when the starting tree
      was: the loop ends either with the body used up or after a caught
      `IndexError`, and every iteration before that kept the invariant. */
  lemma {:induction false} RunKeepsWf(msg: Bytes, st: State)
    requires Wf(st.cursor)
    ensures var r := Run(msg, st); r.Complete? || r.Partial? ==> Wf(r.tree)
    decreases Remaining(msg, st.pos), Measure(st.nesting), |st.cursor.open|, Room(st.cursor)
  {
    if st.pos < |msg| && DecodeStep(msg, st).Next? {
      var n := DecodeStep(msg, st).state;
      if !Stuck(st, n) {
        StepKeepsWf(msg, st);
        StepProgress(msg, st);
        RunKeepsWf(msg, n);
      }
    }
  }

  /** The dispatch sends a leaf TL byte to `ReadLeaf`. */
  lemma DispatchLeaf(msg: Bytes, pos: nat, nest: seq<int>, c: Cursor)
    requires pos < |msg| && msg[pos] != 0x00 && IsLeafType(TypeOf(msg[pos]))
    ensures ReadField(msg, pos, nest, c) == ReadLeaf(msg, pos, nest, c)
  {
  }

  /** The dispatch sends a list TL byte to `ReadList`. */
  lemma DispatchList(msg: Bytes, pos: nat, nest: seq<int>, c: Cursor)
    requires pos < |msg| && msg[pos] != 0x00 && TypeOf(msg[pos]) == TypeList
    ensures ReadField(msg, pos, nest, c) == ReadList(msg, pos, nest, c)
  {
  }

  /** A leaf with a one-byte TL field: its length is the low nibble, its
      payload the following `length - 1` bytes, cut at the end of the
      body, and the next field starts `length` bytes on. */
  lemma ShortLeafRead(msg: Bytes, pos: nat, nest: seq<int>, c: Cursor)
    requires pos < |msg| && msg[pos] != 0x00 && IsLeafType(TypeOf(msg[pos])) && !IsExtended(msg[pos])
    ensures ReadField(msg, pos, nest, c) ==
      AfterLeaf(AddLeaf(c, LeafNode(TypeOf(msg[pos]), LengthOf(msg[pos]), PySlice(msg, pos + 1, pos + LengthOf(msg[pos])))),
                pos + LengthOf(msg[pos]), nest)
  {
    DispatchLeaf(msg, pos, nest, c);
    var fl := FieldLength(LengthOf(msg[pos]), pos);
    ShortLength(msg, pos);
    assert Payload(msg, fl) == PySlice(msg, pos + 1, pos + LengthOf(msg[pos]));
    LeafWith(msg, pos, nest, c, fl);
  }

  /** A one-byte TL field's length is its low nibble. */
  lemma ShortLength(msg: Bytes, pos: nat)
    requires pos < |msg| && !IsExtended(msg[pos])
    ensures GetFieldLength(msg, pos) == Some(FieldLength(LengthOf(msg[pos]), pos))
  {
  }

  /** `ReadLeaf` once the field length is known. */
  lemma LeafWith(msg: Bytes, pos: nat, nest: seq<int>, c: Cursor, fl: FieldLength)
    requires pos < |msg| && IsLeafType(TypeOf(msg[pos]))
    requires GetFieldLength(msg, pos) == Some(fl)
    ensures ReadLeaf(msg, pos, nest, c) ==
      AfterLeaf(AddLeaf(c, LeafNode(TypeOf(msg[pos]), fl.length, Payload(msg, fl))), fl.last + fl.length, nest)
  {
  }

  /** A list with a one-byte TL field: a list of the nibble's length opens
      and the next field starts one byte on. */
  lemma ShortListRead(msg: Bytes, pos: nat, nest: seq<int>, c: Cursor)
    requires pos < |msg| && msg[pos] != 0x00 && TypeOf(msg[pos]) == TypeList && !IsExtended(msg[pos])
    ensures ReadField(msg, pos, nest, c) ==
      Next(State(pos + 1, nest + [LengthOf(msg[pos])], AddStructure(c, LengthOf(msg[pos]))))
  {
    DispatchList(msg, pos, nest, c);
    assert GetFieldLength(msg, pos) == Some(FieldLength(LengthOf(msg[pos]), pos));
  }
}
