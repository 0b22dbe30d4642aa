/** Queries on a finished message tree: `GetStructureTypeString`, the
    `BODY_TYPES` table, `GetListResponse` and `RecursiveObisFind` of
    `SML_Structure`. The source climbs `parent` links to classify a list;
    here a list is given together with the chain of lists above it, a path
    from the root down. */
module Queries {
  import opened Base
  import opened Tree

  /** `SML_Structure.BODY_TYPES`: the name of a message body tag, if the
      table knows it. */
  function BodyType(tag: int): Option<string>
  {
    match tag
    case 0x0100 => Some("Open.Request")
    case 0x0101 => Some("Open.Response")
    case 0x0200 => Some("Close.Request")
    case 0x0201 => Some("Close.Response")
    case 0x0300 => Some("GetProfilePack.Request")
    case 0x0301 => Some("GetProfilePack.Response")
    case 0x0400 => Some("GetProfileList.Request")
    case 0x0401 => Some("GetProfileList.Response")
    case 0x0500 => Some("GetProcParameter.Request")
    case 0x0501 => Some("GetProcParameter.Response")
    case 0x0600 => Some("SetProcParameter.Request")
    case 0x0601 => Some("SetProcParameter.Response")
    case 0x0700 => Some("GetList.Request")
    case 0x0701 => Some("GetList.Response")
    case 0x0800 => Some("GetCosemRequest")
    case 0x0801 => Some("GetCosemResponse")
    case 0x0900 => Some("SetCosemRequest")
    case 0x0901 => Some("SetCosemResponse")
    case 0x0a00 => Some("ActionCosem.Request")
    case 0x0a01 => Some("ActionCosem.Response")
    case 0xff01 => Some("Attentation.Response")
    case _ => None
  }

  const GetListResponseTag := 0x0701

  /** The type names a list can be given besides the body types. */
  const GenericTypes: set<string> := {"File", "Message", "MessageBody", "Unknown"}

  /** The classes `GetStructureTypeString` tells apart. `Named(tag)` is a
      child of a message body whose tag `BODY_TYPES` knows. */
  datatype TypeClass = File | Message | MessageBody | Named(tag: int) | Unknown

  /** The string `GetStructureTypeString` returns for a class. */
  function TypeString(k: TypeClass): (r: string)
    requires k.Named? ==> BodyType(k.tag).Some?
  {
    match k
    case File => "File"
    case Message => "Message"
    case MessageBody => "MessageBody"
    case Named(tag) => BodyType(tag).value
    case Unknown => "Unknown"
  }

  /** A chain of lists from the root down, each a child of the one before;
      the root, unlike every list inside it, declares no length. */
  predicate IsPath(path: seq<Node>)
  {
    && |path| >= 1
    && path[0].Structure? && path[0].arity.None?
    && (forall i | 0 <= i < |path| :: path[i].Structure?)
    && (forall i | 0 < i < |path| :: path[i] in path[i - 1].children)
  }

  function Last(path: seq<Node>): Node
    requires path != []
  {
    path[|path| - 1]
  }

  function Parent(path: seq<Node>): seq<Node>
    requires path != []
  {
    path[..|path| - 1]
  }

  /** The list ends with an end-of-message marker. */
  predicate EndsMessage(n: Node)
    requires n.Structure?
  {
    n.children != [] && n.children[|n.children| - 1].EndOfMessage?
  }

  /** Exactly two children: an unsigned tag followed by a list. */
  predicate BodyShaped(n: Node)
    requires n.Structure?
  {
    |n.children| == 2 && n.children[0].UnsignedInteger? && n.children[1].Structure?
  }

  /** `GetStructureTypeString`, checked in the source's order: the root is
      the file, a list ending in an end-of-message marker is a message, an
      unsigned tag plus a list is a message body, a child of a message body
      is named by the body's tag when the tag is known, and anything else
      is unknown. */
  function Classify(path: seq<Node>): (r: TypeClass)
    requires IsPath(path)
    ensures r == File <==> |path| == 1
    ensures r == MessageBody ==> BodyShaped(Last(path))
    ensures r.Named? ==> BodyType(r.tag).Some?
    decreases |path|
  {
    var n := Last(path);
    if |path| == 1 then File
    else if EndsMessage(n) then Message
    else if BodyShaped(n) then MessageBody
    else
      var up := Parent(path);
      if Classify(up) == MessageBody && BodyType(Last(up).children[0].value).Some? then
        Named(Last(up).children[0].value)
      else Unknown
  }

  /** The string form, as the source returns it. */
  function GetStructureTypeString(path: seq<Node>): string
    requires IsPath(path)
  {
    TypeString(Classify(path))
  }

  /** No body type name collides with a generic type name. */
  lemma BodyNamesDistinct()
    ensures forall t | BodyType(t).Some? :: BodyType(t).value !in GenericTypes
    ensures forall t | BodyType(t) == Some("GetList.Response") :: t == GetListResponseTag
  {
  }

  /** Comparing the type string with a name, as the source does, is
      comparing classes: "MessageBody" names only message bodies and
      "GetList.Response" only children of a body tagged 0x0701. */
  lemma TypeStringNames(k: TypeClass)
    requires k.Named? ==> BodyType(k.tag).Some?
    ensures TypeString(k) == "MessageBody" <==> k == MessageBody
    ensures TypeString(k) == "GetList.Response" <==> k == Named(GetListResponseTag)
  {
    if k.Named? {
      BodyNamesDistinct();
      assert BodyType(k.tag).value !in GenericTypes;
    }
  }

  /** The list-response body: what `_RecursiveGetListResponse` looks for. */
  predicate IsListResponse(path: seq<Node>)
    requires IsPath(path)
  {
    Classify(path) == Named(GetListResponseTag)
  }

  /** A list's type string is "GetList.Response" exactly when it sits
      below a message body tagged `0x0701` and is neither a message nor a
      message body itself. */
  lemma GetListResponseClass(path: seq<Node>)
    requires IsPath(path)
    ensures GetStructureTypeString(path) == "GetList.Response" <==> IsListResponse(path)
    ensures IsListResponse(path) <==>
      && |path| >= 2
      && !EndsMessage(Last(path))
      && !BodyShaped(Last(path))
      && Classify(Parent(path)) == MessageBody
      && Last(Parent(path)).children[0].value == GetListResponseTag
  {
    TypeStringNames(Classify(path));
  }

  /** `_RecursiveGetListResponse` on the last list of `path`: the list whose
      child is the first list, in document order, classified as the
      list-response body. */
  function FindResponse(path: seq<Node>): (r: Option<seq<Node>>)
    requires IsPath(path)
    ensures r.Some? ==> IsPath(r.value) && |r.value| >= |path| && r.value[..|path|] == path
    ensures r.Some? ==> Classify(r.value) == MessageBody
    decreases Last(path), 1
  {
    FindResponseFrom(path, 0)
  }

  /** The search over the children of the last list of `path` from index
      `i` on. */
  function FindResponseFrom(path: seq<Node>, i: nat): (r: Option<seq<Node>>)
    requires IsPath(path)
    ensures r.Some? ==> IsPath(r.value) && |r.value| >= |path| && r.value[..|path|] == path
    ensures r.Some? ==> Classify(r.value) == MessageBody
    decreases Last(path), 0, |Last(path).children| - i
  {
    var n := Last(path);
    if i >= |n.children| then None
    else
      var child := n.children[i];
      if child.Structure? then
        var down := path + [child];
        assert Parent(down) == path;
        if IsListResponse(down) then
          Some(path)
        else
          match FindResponse(down)
          case Some(body) =>
            assert body[..|path|] == down[..|path|];
            Some(body)
          case None => FindResponseFrom(path, i + 1)
      else FindResponseFrom(path, i + 1)
  }
  /** `GetListResponse`: the second child of the message body that
      `FindResponse` locates. */
  function GetListResponse(path: seq<Node>): (r: Option<Node>)
    requires IsPath(path)
    ensures r == LastOf(FirstResponse(Preorder(path)))
  {
    FindIsFirst(path);
    match FindResponse(path)
    case Some(body) =>
      ResponseIsSecondChild(FirstResponse(Preorder(path)).value);
      Some(Last(body).children[1])
    case None => None
  }

  /** The paths of every list strictly below the last list of `path`, in
      document order (each list before its own descendants, siblings left
      to right). */
  function Preorder(path: seq<Node>): (r: seq<seq<Node>>)
    requires IsPath(path)
    ensures forall q | q in r :: IsPath(q) && |q| > |path| && q[..|path|] == path
    decreases Last(path), 1
  {
    PreorderFrom(path, 0)
  }

  function PreorderFrom(path: seq<Node>, i: nat): (r: seq<seq<Node>>)
    requires IsPath(path)
    ensures forall q | q in r :: IsPath(q) && |q| > |path| && q[..|path|] == path
    decreases Last(path), 0, |Last(path).children| - i
  {
    var n := Last(path);
    if i >= |n.children| then []
    else
      var child := n.children[i];
      var rest := PreorderFrom(path, i + 1);
      if child.Structure? then
        var down := path + [child];
        var below := Preorder(down);
        assert forall q | q in below :: q[..|path|] == path by {
          forall q | q in below
            ensures q[..|path|] == path
          {
            assert q[..|path|] == q[..|down|][..|path|];
          }
        }
        [down] + below + rest
      else rest
  }

  /** The first path in `ps` whose list is classified as the list-response
      body. */
  function FirstResponse(ps: seq<seq<Node>>): (r: Option<seq<Node>>)
    requires forall q | q in ps :: IsPath(q)
    ensures r.Some? ==> r.value in ps && IsListResponse(r.value)
    ensures r.None? ==> forall q | q in ps :: !IsListResponse(q)
  {
    if ps == [] then None
    else if IsListResponse(ps[0]) then Some(ps[0])
    else FirstResponse(ps[1..])
  }

  function ParentOf(o: Option<seq<Node>>): Option<seq<Node>>
  {
    match o
    case Some(q) => if q == [] then None else Some(Parent(q))
    case None => None
  }

  function LastOf(o: Option<seq<Node>>): Option<Node>
  {
    match o
    case Some(q) => if q == [] then None else Some(Last(q))
    case None => None
  }

  lemma {:induction false} FirstResponseConcat(a: seq<seq<Node>>, b: seq<seq<Node>>)
    requires forall q | q in a :: IsPath(q)
    requires forall q | q in b :: IsPath(q)
    ensures FirstResponse(a + b) ==
      if FirstResponse(a).Some? then FirstResponse(a) else FirstResponse(b)
  {
    if a == [] {
      assert a + b == b;
    } else {
      assert (a + b)[1..] == a[1..] + b;
      FirstResponseConcat(a[1..], b);
    }
  }

  /** The list-response body is always the second child of its parent. */
  lemma ResponseIsSecondChild(q: seq<Node>)
    requires IsPath(q) && IsListResponse(q)
    ensures |q| >= 2 && Last(Parent(q)).children[1] == Last(q)
  {
    GetListResponseClass(q);
    SecondChild(q);
  }

  lemma SecondChild(q: seq<Node>)
    requires IsPath(q) && |q| >= 2 && BodyShaped(q[|q| - 2])
    ensures q[|q| - 2].children[1] == q[|q| - 1]
  {
    assert q[|q| - 1] in q[|q| - 2].children;
  }

  /** `_RecursiveGetListResponse` returns the parent of the first
      list-response body in document order, and nothing when there is
      none. */
  lemma {:induction false} FindIsFirst(path: seq<Node>)
    requires IsPath(path)
    ensures FindResponse(path) == ParentOf(FirstResponse(Preorder(path)))
    decreases Last(path), 1
  {
    FindFromIsFirst(path, 0);
  }

  lemma {:induction false} FindFromIsFirst(path: seq<Node>, i: nat)
    requires IsPath(path)
    ensures FindResponseFrom(path, i) == ParentOf(FirstResponse(PreorderFrom(path, i)))
    decreases Last(path), 0, |Last(path).children| - i, 1
  {
    var n := Last(path);
    if i < |n.children| {
      FindFromIsFirst(path, i + 1);
      if n.children[i].Structure? {
        FindFromChild(path, i);
      } else {
        assert PreorderFrom(path, i) == PreorderFrom(path, i + 1);
        assert FindResponseFrom(path, i) == FindResponseFrom(path, i + 1);
      }
    }
  }

  /** The step of `FindFromIsFirst` at a child list: the search either
      stops at it or looks inside it before moving on. */
  lemma {:induction false} FindFromChild(path: seq<Node>, i: nat)
    requires IsPath(path) && i < |Last(path).children| && Last(path).children[i].Structure?
    requires FindResponseFrom(path, i + 1) == ParentOf(FirstResponse(PreorderFrom(path, i + 1)))
    ensures FindResponseFrom(path, i) == ParentOf(FirstResponse(PreorderFrom(path, i)))
    decreases Last(path), 0, |Last(path).children| - i, 0
  {
    var child := Last(path).children[i];
    var down := path + [child];
    Extend(path, child);
    FindIsFirst(down);
    var below := Preorder(down);
    var rest := PreorderFrom(path, i + 1);
    FirstResponseConcat(below, rest);
    PreorderAtChild(path, i);
    FirstResponseCons(down, below + rest);
    FindAtChild(path, i);
  }

  /** The enumeration from a child list on: the child, everything below
      it, then the later siblings. */
  lemma PreorderAtChild(path: seq<Node>, i: nat)
    requires IsPath(path) && i < |Last(path).children| && Last(path).children[i].Structure?
    ensures IsPath(path + [Last(path).children[i]])
    ensures PreorderFrom(path, i) ==
      [path + [Last(path).children[i]]] + (Preorder(path + [Last(path).children[i]]) + PreorderFrom(path, i + 1))
  {
    var down := path + [Last(path).children[i]];
    Extend(path, Last(path).children[i]);
    assert PreorderFrom(path, i) == [down] + Preorder(down) + PreorderFrom(path, i + 1);
  }

  /** The search from a child list on: it stops at the child when the
      child is the list-response body, and otherwise looks inside it
      before moving on. */
  lemma FindAtChild(path: seq<Node>, i: nat)
    requires IsPath(path) && i < |Last(path).children| && Last(path).children[i].Structure?
    ensures IsPath(path + [Last(path).children[i]])
    ensures var down := path + [Last(path).children[i]];
      FindResponseFrom(path, i) ==
        if IsListResponse(down) then Some(path)
        else if FindResponse(down).Some? then FindResponse(down)
        else FindResponseFrom(path, i + 1)
  {
    Extend(path, Last(path).children[i]);
  }

  lemma FirstResponseCons(q: seq<Node>, ps: seq<seq<Node>>)
    requires IsPath(q) && forall p | p in ps :: IsPath(p)
    ensures FirstResponse([q] + ps) == if IsListResponse(q) then Some(q) else FirstResponse(ps)
  {
    assert ([q] + ps)[1..] == ps;
  }

  /** A child list extends a path. */
  lemma Extend(path: seq<Node>, child: Node)
    requires IsPath(path) && child.Structure? && child in Last(path).children
    ensures IsPath(path + [child]) && Parent(path + [child]) == path && Last(path + [child]) == child
  {
  }

  /** `RecursiveObisFind`: the list that directly holds the first octet
      string, in document order, equal to `code`. */
  function ObisFind(n: Node, code: Bytes): (r: Option<Node>)
    requires n.Structure?
    ensures r.Some? ==> r.value.Structure? && Holds(r.value, code)
    decreases n, 1
  {
    ObisFindFrom(n, code, 0)
  }

  function ObisFindFrom(n: Node, code: Bytes, i: nat): (r: Option<Node>)
    requires n.Structure?
    ensures r.Some? ==> r.value.Structure? && Holds(r.value, code)
    decreases n, 0, |n.children| - i
  {
    if i >= |n.children| then None
    else
      var child := n.children[i];
      if child.OctetString? then
        if child.data == code then Some(n) else ObisFindFrom(n, code, i + 1)
      else if child.Structure? then
        match ObisFind(child, code)
        case Some(holder) => Some(holder)
        case None => ObisFindFrom(n, code, i + 1)
      else ObisFindFrom(n, code, i + 1)
  }

  /** Some child of the list `n` is an octet string equal to `code`. */
  predicate Holds(n: Node, code: Bytes)
    requires n.Structure?
  {
    exists k | 0 <= k < |n.children| :: n.children[k].OctetString? && n.children[k].data == code
  }

  /** An octet string of the tree, paired with the list that holds it. */
  datatype Occurrence = Occurrence(holder: Node, data: Bytes)

  /** Every octet string below the list `n`, in document order. */
  function Octets(n: Node): (r: seq<Occurrence>)
    requires n.Structure?
    ensures forall o | o in r :: o.holder.Structure?
    decreases n, 1
  {
    OctetsFrom(n, 0)
  }

  function OctetsFrom(n: Node, i: nat): (r: seq<Occurrence>)
    requires n.Structure?
    ensures forall o | o in r :: o.holder.Structure?
    decreases n, 0, |n.children| - i
  {
    if i >= |n.children| then []
    else
      var child := n.children[i];
      var rest := OctetsFrom(n, i + 1);
      if child.OctetString? then [Occurrence(n, child.data)] + rest
      else if child.Structure? then Octets(child) + rest
      else rest
  }

  /** The holder of the first occurrence of `code` in `os`. */
  function FirstHolder(os: seq<Occurrence>, code: Bytes): (r: Option<Node>)
    ensures r.Some? <==> exists k | 0 <= k < |os| :: os[k].data == code
    ensures r.Some? ==> exists k | 0 <= k < |os| :: os[k] == Occurrence(r.value, code)
  {
    if os == [] then None
    else if os[0].data == code then Some(os[0].holder)
    else
      var r := FirstHolder(os[1..], code);
      assert forall k | 1 <= k < |os| :: os[k] == os[1..][k - 1];
      r
  }

  lemma {:induction false} FirstHolderConcat(a: seq<Occurrence>, b: seq<Occurrence>, code: Bytes)
    ensures FirstHolder(a + b, code) ==
      if FirstHolder(a, code).Some? then FirstHolder(a, code) else FirstHolder(b, code)
  {
    if a == [] {
      assert a + b == b;
    } else {
      assert (a + b)[1..] == a[1..] + b;
      FirstHolderConcat(a[1..], b, code);
    }
  }

  /** `RecursiveObisFind` returns the holder of the first octet string of
      the tree, in document order, equal to `code`; it returns nothing
      exactly when no octet string of the tree equals `code`. */
  lemma {:induction false} ObisFindIsFirst(n: Node, code: Bytes)
    requires n.Structure?
    ensures ObisFind(n, code) == FirstHolder(Octets(n), code)
    decreases n, 1
  {
    ObisFindFromIsFirst(n, code, 0);
  }

  lemma {:induction false} ObisFindFromIsFirst(n: Node, code: Bytes, i: nat)
    requires n.Structure?
    ensures ObisFindFrom(n, code, i) == FirstHolder(OctetsFrom(n, i), code)
    decreases n, 0, |n.children| - i
  {
    if i < |n.children| {
      var child := n.children[i];
      var rest := OctetsFrom(n, i + 1);
      ObisFindFromIsFirst(n, code, i + 1);
      if child.OctetString? {
        FirstHolderConcat([Occurrence(n, child.data)], rest, code);
      } else if child.Structure? {
        ObisFindIsFirst(child, code);
        FirstHolderConcat(Octets(child), rest, code);
      }
    }
  }
}
