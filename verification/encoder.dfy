/** The encoding the decoder reads: a tree written out in pre-order, each
    list as its TL byte followed by its children, each leaf as its TL bytes
    followed by its payload, and an end-of-message node as the byte 0x00.
    It serves as the reference the decode loop is proved against. */
module Encoder {
  import opened Base
  import opened Tree
  import opened TypeLength
  import opened BigEndian
  import opened Decoder

  /** One field of the pre-order stream: the start of a list of `arity`
      children, or a leaf. */
  datatype Field = OpenList(arity: int) | LeafField(node: Node)

  /** A node SML can write and the decoder can read back: lists declare
      between 1 and 254 children and hold exactly that many, octet strings
      and integers state a length one more than their payload, which fits
      an extended TL pair, and integers fit their payload. */
  predicate Encodable(n: Node)
    decreases n, 1
  {
    match n
    case Structure(a, ch) => a.Some? && 1 <= a.value <= 254 && |ch| == a.value && AllEncodable(ch)
    case OctetString(length, data) => length == |data| + 1 && length <= 254
    case SignedInteger(length, v) => 1 <= length <= 254 && SignedFits(v, length - 1)
    case UnsignedInteger(length, v) => 1 <= length <= 254 && 0 <= v < Pow(256, length - 1)
    case EndOfMessage => true
  }

  predicate AllEncodable(ns: seq<Node>)
    decreases ns, 0
  {
    ns == [] || (Encodable(ns[0]) && AllEncodable(ns[1..]))
  }

  /** The pre-order field stream of a node. */
  function Fields(n: Node): (r: seq<Field>)
    ensures |r| >= 1
    ensures n.Structure? ==> r[0] == OpenList(if n.arity.Some? then n.arity.value else 0)
    ensures !n.Structure? ==> r == [LeafField(n)]
    decreases n, 1
  {
    match n
    case Structure(a, ch) => [OpenList(if a.Some? then a.value else 0)] + FieldsOf(ch)
    case _ => [LeafField(n)]
  }

  /** The pre-order field streams of a sequence of siblings, one after
      another. */
  function FieldsOf(ns: seq<Node>): (r: seq<Field>)
    ensures ns == [] <==> r == []
    decreases ns, 0
  {
    if ns == [] then [] else Fields(ns[0]) + FieldsOf(ns[1..])
  }

  predicate FieldOk(f: Field)
  {
    match f
    case OpenList(a) => 1 <= a <= 254
    case LeafField(n) => IsLeaf(n) && Encodable(n)
  }

  predicate AllFieldsOk(fs: seq<Field>)
  {
    fs == [] || (FieldOk(fs[0]) && AllFieldsOk(fs[1..]))
  }

  /** The bytes of one field: TL bytes, then the payload. */
  function EncodeField(f: Field): (r: Bytes)
    requires FieldOk(f)
    ensures |r| >= 1
    ensures f.LeafField? && f.node.EndOfMessage? <==> r[0] == 0x00
  {
    match f
    case OpenList(a) => EncodeTL(TypeList, a)
    case LeafField(n) =>
      match n
      case OctetString(length, data) => EncodeTL(TypeOctetString, length) + data
      case SignedInteger(length, v) => EncodeTL(TypeSignedInt, length) + ToSigned(v, length - 1)
      case UnsignedInteger(length, v) => EncodeTL(TypeUnsignedInt, length) + ToUnsigned(v, length - 1)
      case EndOfMessage => [0x00]
  }

  function EncodeFields(fs: seq<Field>): (r: Bytes)
    requires AllFieldsOk(fs)
  {
    if fs == [] then [] else EncodeField(fs[0]) + EncodeFields(fs[1..])
  }

  /** The bytes of a message body holding the sibling nodes `ns`. */
  function Encode(ns: seq<Node>): Bytes
    requires AllEncodable(ns)
  {
    FieldsOfOk(ns);
    EncodeFields(FieldsOf(ns))
  }

  lemma {:induction false} AllFieldsOkConcat(a: seq<Field>, b: seq<Field>)
    requires AllFieldsOk(a) && AllFieldsOk(b)
    ensures AllFieldsOk(a + b)
  {
    if a != [] {
      assert (a + b)[0] == a[0] && (a + b)[1..] == a[1..] + b;
      AllFieldsOkConcat(a[1..], b);
    } else {
      assert a + b == b;
    }
  }

  lemma {:induction false} FieldsOk(n: Node)
    requires Encodable(n)
    ensures AllFieldsOk(Fields(n))
    decreases n, 1
  {
    if n.Structure? {
      FieldsOfOk(n.children);
      AllFieldsOkConcat([OpenList(n.arity.value)], FieldsOf(n.children));
    }
  }

  lemma {:induction false} FieldsOfOk(ns: seq<Node>)
    requires AllEncodable(ns)
    ensures AllFieldsOk(FieldsOf(ns))
    decreases ns, 0
  {
    if ns != [] {
      FieldsOk(ns[0]);
      FieldsOfOk(ns[1..]);
      AllFieldsOkConcat(Fields(ns[0]), FieldsOf(ns[1..]));
    }
  }

  /** What the nesting counter becomes after a field, once the countdown
      at the top of the loop has happened. */
  function CounterAfter(f: Field, nest: seq<int>): seq<int>
  {
    match f
    case OpenList(a) => nest + [a]
    case LeafField(EndOfMessage) => []
    case LeafField(_) => nest
  }

  /** The nesting counter never pops its last entry while the fields are
      read: the condition under which the debug counter stays out of the
      way. It depends on the field stream alone. */
  predicate CounterSafe(fs: seq<Field>, nest: seq<int>)
  {
    fs == [] || (CountDown(nest).Some? && CounterSafe(fs[1..], CounterAfter(fs[0], CountDown(nest).value)))
  }

  /** The tree operation a field performs. */
  function Apply(f: Field, c: Cursor): Result<Cursor, TreeError>
  {
    match f
    case OpenList(a) => Ok(AddStructure(c, a))
    case LeafField(n) => if IsLeaf(n) then AddLeaf(c, n) else Ok(c)
  }

  function ApplyAll(fs: seq<Field>, c: Cursor): Result<Cursor, TreeError>
  {
    if fs == [] then Ok(c)
    else
      match Apply(fs[0], c)
      case Ok(c2) => ApplyAll(fs[1..], c2)
      case Err(e) => Err(e)
  }

  lemma {:induction false} ApplyAllConcat(fs1: seq<Field>, fs2: seq<Field>, c: Cursor)
    ensures ApplyAll(fs1 + fs2, c) == match ApplyAll(fs1, c) case Ok(c2) => ApplyAll(fs2, c2) case Err(e) => Err(e)
  {
    if fs1 != [] {
      assert (fs1 + fs2)[0] == fs1[0];
      assert (fs1 + fs2)[1..] == fs1[1..] + fs2;
      match Apply(fs1[0], c)
      case Ok(c2) => ApplyAllConcat(fs1[1..], fs2, c2);
      case Err(_) =>
    } else {
      assert fs1 + fs2 == fs2;
    }
  }

  /** Reading a node's fields appends the whole node to the cursor's
      structure and climbs, exactly as appending it in one go would. */
  lemma {:induction false} ApplyNode(n: Node, c: Cursor)
    requires Encodable(n)
    ensures ApplyAll(Fields(n), c) == Ascend(AppendChild(c, n))
    decreases n, 1
  {
    if n.Structure? {
      var a := n.arity.value;
      var d := AddStructure(c, a);
      assert d == Cursor(c.rootChildren, c.open + [Frame(a, [])]);
      ApplyRest(n.children, c, a, []);
      assert [] + n.children == n.children;
    }
  }

  /** Appending to a list opened on top of `c`. */
  lemma AppendTop(c: Cursor, a: int, pre: seq<Node>, x: Node)
    ensures AppendChild(Cursor(c.rootChildren, c.open + [Frame(a, pre)]), x)
         == Cursor(c.rootChildren, c.open + [Frame(a, pre + [x])])
  {
  }

  /** Closing a list opened on top of `c` adds it to `c`'s list. */
  lemma CloseTop(c: Cursor, a: int, children: seq<Node>)
    ensures Close(Cursor(c.rootChildren, c.open + [Frame(a, children)]))
         == AppendChild(c, Structure(Some(a), children))
  {
    assert (c.open + [Frame(a, children)])[..|c.open|] == c.open;
  }

  /** Reading the fields of the remaining children of an open list closes
      the list with all its children. */
  lemma {:induction false} ApplyRest(rest: seq<Node>, c: Cursor, a: int, pre: seq<Node>)
    requires rest != [] && AllEncodable(rest) && |pre| + |rest| == a
    ensures ApplyAll(FieldsOf(rest), Cursor(c.rootChildren, c.open + [Frame(a, pre)]))
         == Ascend(AppendChild(c, Structure(Some(a), pre + rest)))
    decreases rest, 0
  {
    var d := Cursor(c.rootChildren, c.open + [Frame(a, pre)]);
    var x := rest[0];
    ApplyNode(x, d);
    ApplyAllConcat(Fields(x), FieldsOf(rest[1..]), d);
    var d2 := AppendChild(d, x);
    AppendTop(c, a, pre, x);
    if rest[1..] == [] {
      CloseTop(c, a, pre + [x]);
      assert pre + rest == pre + [x];
    } else {
      assert Ascend(d2) == Ok(d2);
      ApplyRest(rest[1..], c, a, pre + [x]);
      assert pre + [x] + rest[1..] == pre + rest;
    }
  }

  /** At the root, reading the fields of sibling nodes appends them all. */
  lemma {:induction false} ApplyAtRoot(ns: seq<Node>, c: Cursor)
    requires AllEncodable(ns) && c.open == []
    ensures ApplyAll(FieldsOf(ns), c) == Ok(Cursor(c.rootChildren + ns, []))
    decreases ns
  {
    if ns != [] {
      assert FieldsOf(ns) == Fields(ns[0]) + FieldsOf(ns[1..]);
      ApplyNode(ns[0], c);
      ApplyAllConcat(Fields(ns[0]), FieldsOf(ns[1..]), c);
      var c2 := Cursor(c.rootChildren + [ns[0]], []);
      assert Ascend(AppendChild(c, ns[0])) == Ok(c2);
      ApplyAtRoot(ns[1..], c2);
      assert c.rootChildren + [ns[0]] + ns[1..] == c.rootChildren + ns;
    } else {
      assert c.rootChildren + ns == c.rootChildren;
    }
  }

  /** An encoded TL at `pos` reads back as its length, its type and the
      position of its last byte. */
  lemma EncodedTL(msg: Bytes, pos: nat, t: int, length: int, rest: Bytes)
    requires IsFieldType(t) && -1 <= length <= 254
    requires var e := EncodeTL(t, length) + rest; pos + |e| <= |msg| && msg[pos..pos + |e|] == e
    ensures GetFieldLength(msg, pos) == Some(FieldLength(length, pos + |EncodeTL(t, length)| - 1))
    ensures TypeOf(msg[pos]) == t
    ensures t != TypeOctetString || length != 0 ==> msg[pos] != 0x00
  {
    var tl := EncodeTL(t, length);
    var e := tl + rest;
    assert msg[pos..pos + |tl|] == e[..|tl|] == tl;
    TLRoundTrip(t, length, msg, pos);
    assert msg[pos] == tl[0];
  }

  /** The payload after an encoded TL is what was written there. */
  lemma EncodedPayload(msg: Bytes, pos: nat, t: int, length: int, payload: Bytes)
    requires IsFieldType(t) && 1 <= length <= 254 && |payload| == length - 1
    requires var e := EncodeTL(t, length) + payload; pos + |e| <= |msg| && msg[pos..pos + |e|] == e
    ensures Payload(msg, FieldLength(length, pos + |EncodeTL(t, length)| - 1)) == payload
  {
    var tl := EncodeTL(t, length);
    var e := tl + payload;
    assert msg[pos + |tl|..pos + |e|] == e[|tl|..];
  }

  /** The field read at `pos` when an encoded leaf sits there. */
  lemma LeafFieldRead(msg: Bytes, pos: nat, t: int, length: int, payload: Bytes, nest: seq<int>, c: Cursor)
    requires IsLeafType(t) && 1 <= length <= 254 && |payload| == length - 1
    requires var e := EncodeTL(t, length) + payload; pos + |e| <= |msg| && msg[pos..pos + |e|] == e
    ensures ReadField(msg, pos, nest, c) == AfterLeaf(AddLeaf(c, LeafNode(t, length, payload)), pos + |EncodeTL(t, length)| + |payload|, nest)
  {
    EncodedTL(msg, pos, t, length, payload);
    EncodedPayload(msg, pos, t, length, payload);
    DispatchLeaf(msg, pos, nest, c);
  }

  /** The field read at `pos` when an encoded list TL sits there. */
  lemma ListFieldRead(msg: Bytes, pos: nat, a: int, nest: seq<int>, c: Cursor)
    requires 1 <= a <= 254
    requires var e := EncodeTL(TypeList, a); pos + |e| <= |msg| && msg[pos..pos + |e|] == e
    ensures ReadField(msg, pos, nest, c) == Next(State(pos + |EncodeTL(TypeList, a)|, nest + [a], AddStructure(c, a)))
  {
    assert EncodeTL(TypeList, a) + [] == EncodeTL(TypeList, a);
    EncodedTL(msg, pos, TypeList, a, []);
    DispatchList(msg, pos, nest, c);
  }

  /** The field read at `pos` when an encoded leaf node sits there. */
  lemma LeafNodeRead(msg: Bytes, pos: nat, n: Node, nest: seq<int>, c: Cursor)
    requires IsLeaf(n) && !n.EndOfMessage? && Encodable(n)
    requires var e := EncodeField(LeafField(n)); pos + |e| <= |msg| && msg[pos..pos + |e|] == e
    ensures ReadField(msg, pos, nest, c) == AfterLeaf(AddLeaf(c, n), pos + |EncodeField(LeafField(n))|, nest)
  {
    if n.OctetString? {
      OctetNodeRead(msg, pos, n, nest, c);
    } else if n.SignedInteger? {
      SignedNodeRead(msg, pos, n, nest, c);
    } else {
      UnsignedNodeRead(msg, pos, n, nest, c);
    }
  }

  lemma OctetNodeRead(msg: Bytes, pos: nat, n: Node, nest: seq<int>, c: Cursor)
    requires n.OctetString? && Encodable(n)
    requires var e := EncodeField(LeafField(n)); pos + |e| <= |msg| && msg[pos..pos + |e|] == e
    ensures ReadField(msg, pos, nest, c) == AfterLeaf(AddLeaf(c, n), pos + |EncodeField(LeafField(n))|, nest)
  {
    assert EncodeField(LeafField(n)) == EncodeTL(TypeOctetString, n.length) + n.data;
    assert LeafNode(TypeOctetString, n.length, n.data) == n;
    LeafFieldRead(msg, pos, TypeOctetString, n.length, n.data, nest, c);
  }

  lemma SignedNodeRead(msg: Bytes, pos: nat, n: Node, nest: seq<int>, c: Cursor)
    requires n.SignedInteger? && Encodable(n)
    requires var e := EncodeField(LeafField(n)); pos + |e| <= |msg| && msg[pos..pos + |e|] == e
    ensures ReadField(msg, pos, nest, c) == AfterLeaf(AddLeaf(c, n), pos + |EncodeField(LeafField(n))|, nest)
  {
    var p := ToSigned(n.value, n.length - 1);
    assert EncodeField(LeafField(n)) == EncodeTL(TypeSignedInt, n.length) + p;
    SignedLeaf(n.length, n.value);
    LeafFieldRead(msg, pos, TypeSignedInt, n.length, p, nest, c);
  }

  lemma UnsignedNodeRead(msg: Bytes, pos: nat, n: Node, nest: seq<int>, c: Cursor)
    requires n.UnsignedInteger? && Encodable(n)
    requires var e := EncodeField(LeafField(n)); pos + |e| <= |msg| && msg[pos..pos + |e|] == e
    ensures ReadField(msg, pos, nest, c) == AfterLeaf(AddLeaf(c, n), pos + |EncodeField(LeafField(n))|, nest)
  {
    var p := ToUnsigned(n.value, n.length - 1);
    assert EncodeField(LeafField(n)) == EncodeTL(TypeUnsignedInt, n.length) + p;
    UnsignedLeaf(n.length, n.value);
    LeafFieldRead(msg, pos, TypeUnsignedInt, n.length, p, nest, c);
  }

  /** A signed payload written by `ToSigned` decodes to the same leaf. */
  lemma SignedLeaf(length: int, v: int)
    requires 1 <= length <= 254 && SignedFits(v, length - 1)
    ensures LeafNode(TypeSignedInt, length, ToSigned(v, length - 1)) == SignedInteger(length, v)
  {
    SignedRoundTrip(v, length - 1);
  }

  /** An unsigned payload written by `ToUnsigned` decodes to the same leaf. */
  lemma UnsignedLeaf(length: int, v: int)
    requires 1 <= length <= 254 && 0 <= v < Pow(256, length - 1)
    ensures LeafNode(TypeUnsignedInt, length, ToUnsigned(v, length - 1)) == UnsignedInteger(length, v)
  {
    UnsignedRoundTrip(v, length - 1);
  }

  /** The field read at `pos` when the end-of-message byte sits there. */
  lemma EndOfMessageRead(msg: Bytes, pos: nat, nest: seq<int>, c: Cursor)
    requires pos < |msg| && msg[pos] == 0x00
    ensures ReadField(msg, pos, nest, c) == AfterLeaf(AddLeaf(c, EndOfMessage), pos + 1, [])
  {
  }

  /** The field read at `pos` for an encoded field, once the nesting
      counter has been counted down. */
  lemma FieldRead(msg: Bytes, pos: nat, f: Field, nest: seq<int>, c: Cursor)
    requires FieldOk(f) && pos + |EncodeField(f)| <= |msg| && msg[pos..pos + |EncodeField(f)|] == EncodeField(f)
    ensures ReadField(msg, pos, nest, c) ==
      match Apply(f, c)
      case Ok(c2) => Next(State(pos + |EncodeField(f)|, CounterAfter(f, nest), c2))
      case Err(_) => Raised(ArityExceeded)
  {
    match f
    case OpenList(a) =>
      ListFieldRead(msg, pos, a, nest, c);
    case LeafField(n) =>
      if n.EndOfMessage? {
        assert msg[pos] == EncodeField(f)[0];
        EndOfMessageRead(msg, pos, nest, c);
      } else {
        LeafNodeRead(msg, pos, n, nest, c);
      }
  }

  /** One loop iteration over an encoded field performs that field's tree
      operation and moves `pos` past it. */
  lemma FieldStep(msg: Bytes, pos: nat, f: Field, nest: seq<int>, c: Cursor)
    requires FieldOk(f) && pos + |EncodeField(f)| <= |msg| && msg[pos..pos + |EncodeField(f)|] == EncodeField(f)
    requires CountDown(nest).Some?
    ensures DecodeStep(msg, State(pos, nest, c)) ==
      match Apply(f, c)
      case Ok(c2) => Next(State(pos + |EncodeField(f)|, CounterAfter(f, CountDown(nest).value), c2))
      case Err(_) => Raised(ArityExceeded)
  {
    FieldRead(msg, pos, f, CountDown(nest).value, c);
  }

  /** A body made of two parts splits back into them. */
  lemma SplitAt(msg: Bytes, pos: nat, e: Bytes, rest: Bytes)
    requires pos + |e| + |rest| == |msg| && msg[pos..] == e + rest
    ensures msg[pos..pos + |e|] == e && msg[pos + |e|..] == rest
  {
    assert msg[pos..pos + |e|] == msg[pos..][..|e|];
    assert msg[pos + |e|..] == msg[pos..][|e|..];
  }

  /** A non-stuck iteration hands over to the rest of the loop. */
  lemma RunNext(msg: Bytes, st: State, n: State)
    requires st.pos < |msg| && DecodeStep(msg, st) == Next(n) && n.pos > st.pos
    ensures Run(msg, st) == Run(msg, n)
  {
  }

  lemma FieldStepOk(msg: Bytes, pos: nat, f: Field, nest: seq<int>, c: Cursor)
    requires FieldOk(f) && pos + |EncodeField(f)| <= |msg| && msg[pos..pos + |EncodeField(f)|] == EncodeField(f)
    requires CountDown(nest).Some? && Apply(f, c).Ok?
    ensures DecodeStep(msg, State(pos, nest, c)) == Next(State(pos + |EncodeField(f)|, CounterAfter(f, CountDown(nest).value), Apply(f, c).value))
  {
    FieldStep(msg, pos, f, nest, c);
  }

  lemma ApplyAllFirst(fs: seq<Field>, c: Cursor)
    requires fs != [] && ApplyAll(fs, c).Ok?
    ensures Apply(fs[0], c).Ok? && ApplyAll(fs, c) == ApplyAll(fs[1..], Apply(fs[0], c).value)
  {
  }

  lemma CounterSafeFirst(fs: seq<Field>, nest: seq<int>)
    requires fs != [] && CounterSafe(fs, nest)
    ensures CountDown(nest).Some? && CounterSafe(fs[1..], CounterAfter(fs[0], CountDown(nest).value))
  {
  }

  lemma EncodeFieldsFirst(fs: seq<Field>)
    requires fs != [] && AllFieldsOk(fs)
    ensures AllFieldsOk(fs[1..]) && EncodeFields(fs) == EncodeField(fs[0]) + EncodeFields(fs[1..])
  {
  }

  /** An encoded field stream splits into its first field's encoding and
      the encoding of the rest. */
  lemma RestEncoded(msg: Bytes, pos: nat, fs: seq<Field>)
    requires fs != [] && AllFieldsOk(fs) && pos + |EncodeFields(fs)| == |msg| && msg[pos..] == EncodeFields(fs)
    ensures FieldOk(fs[0]) && AllFieldsOk(fs[1..])
    ensures pos + |EncodeField(fs[0])| + |EncodeFields(fs[1..])| == |msg|
    ensures msg[pos..pos + |EncodeField(fs[0])|] == EncodeField(fs[0])
    ensures msg[pos + |EncodeField(fs[0])|..] == EncodeFields(fs[1..])
  {
    EncodeFieldsFirst(fs);
    RestSplit(msg, pos, EncodeField(fs[0]), EncodeFields(fs[1..]), EncodeFields(fs));
  }

  /** The split of `RestEncoded`, with the encodings named. */
  lemma RestSplit(msg: Bytes, pos: nat, e: Bytes, rest: Bytes, all: Bytes)
    requires all == e + rest && pos + |all| == |msg| && msg[pos..] == all
    ensures pos + |e| + |rest| == |msg|
    ensures msg[pos..pos + |e|] == e && msg[pos + |e|..] == rest
  {
    SplitAt(msg, pos, e, rest);
  }

  /** The first field of an encoded stream is decoded by one iteration,
      which moves `pos` past it and leaves the tree and counter that the
      rest of the stream continues from. */
  lemma FirstField(msg: Bytes, pos: nat, fs: seq<Field>, nest: seq<int>, c: Cursor) returns (n: State)
    requires fs != [] && FieldOk(fs[0])
    requires pos + |EncodeField(fs[0])| <= |msg| && msg[pos..pos + |EncodeField(fs[0])|] == EncodeField(fs[0])
    requires CounterSafe(fs, nest) && ApplyAll(fs, c).Ok?
    ensures DecodeStep(msg, State(pos, nest, c)) == Next(n) && n.pos == pos + |EncodeField(fs[0])| > pos
    ensures CounterSafe(fs[1..], n.nesting) && ApplyAll(fs, c) == ApplyAll(fs[1..], n.cursor)
  {
    CounterSafeFirst(fs, nest);
    ApplyAllFirst(fs, c);
    FieldStepOk(msg, pos, fs[0], nest, c);
    n := State(pos + |EncodeField(fs[0])|, CounterAfter(fs[0], CountDown(nest).value), Apply(fs[0], c).value);
  }

  /** One iteration over an encoded field stream: the loop continues from
      a state where the rest of the stream is encoded in the same way. */
  lemma RunFieldsStep(msg: Bytes, pos: nat, fs: seq<Field>, nest: seq<int>, c: Cursor) returns (n: State)
    requires fs != [] && AllFieldsOk(fs) && pos + |EncodeFields(fs)| == |msg| && msg[pos..] == EncodeFields(fs)
    requires CounterSafe(fs, nest) && ApplyAll(fs, c).Ok?
    ensures Run(msg, State(pos, nest, c)) == Run(msg, n)
    ensures AllFieldsOk(fs[1..]) && n.pos + |EncodeFields(fs[1..])| == |msg| && msg[n.pos..] == EncodeFields(fs[1..])
    ensures CounterSafe(fs[1..], n.nesting) && ApplyAll(fs, c) == ApplyAll(fs[1..], n.cursor)
  {
    RestEncoded(msg, pos, fs);
    n := FirstField(msg, pos, fs, nest, c);
    RunNext(msg, State(pos, nest, c), n);
  }

  /** Decoding an encoded field stream that ends the body performs every
      field's tree operation and completes. */
  lemma {:induction false} RunFields(msg: Bytes, pos: nat, fs: seq<Field>, nest: seq<int>, c: Cursor)
    requires AllFieldsOk(fs) && pos + |EncodeFields(fs)| == |msg| && msg[pos..] == EncodeFields(fs)
    requires CounterSafe(fs, nest) && ApplyAll(fs, c).Ok?
    ensures Run(msg, State(pos, nest, c)) == Complete(ApplyAll(fs, c).value)
    decreases |fs|
  {
    if fs != [] {
      var n := RunFieldsStep(msg, pos, fs, nest, c);
      RunFields(msg, n.pos, fs[1..], n.nesting, n.cursor);
    } else {
      assert Run(msg, State(pos, nest, c)) == Complete(c);
    }
  }

  /** Decoding inverts encoding: a body that encodes encodable sibling
      nodes, and keeps the nesting counter from popping its last entry,
      decodes completely into a root holding exactly those nodes. */
  lemma RoundTrip(ns: seq<Node>)
    requires AllEncodable(ns)
    requires (FieldsOfOk(ns); CounterSafe(FieldsOf(ns), []))
    ensures Run(Encode(ns), Start) == Complete(Cursor(ns, []))
  {
    FieldsOfOk(ns);
    ApplyAtRoot(ns, NewRoot);
    assert [] + ns == ns;
    RunFields(Encode(ns), 0, FieldsOf(ns), [], NewRoot);
  }

  /** The same through `parse_sml_bytestream`: fill bytes appended to the
      body and announced in the footer are cut off before decoding. */
  lemma DecodeRoundTrip(ns: seq<Node>, fill: Bytes, footer: Bytes)
    requires AllEncodable(ns)
    requires (FieldsOfOk(ns); CounterSafe(FieldsOf(ns), []))
    requires |footer| >= 2 && FillBytes(footer) == |fill|
    ensures Decode(Encode(ns) + fill, footer) == Complete(Cursor(ns, []))
  {
    RoundTrip(ns);
    var body := Encode(ns) + fill;
    if |fill| > 0 {
      assert StripFill(body, |fill|) == body[..|body| - |fill|];
      assert body[..|body| - |fill|] == Encode(ns);
    }
  }
}
