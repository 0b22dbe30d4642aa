/** The per-byte framing logic of `read_serial_data`: the escape-sequence
    framing of version 1 of the SML transport protocol. The receiver
    buffers bytes until a start sequence, captures the body up to the next
    escape sequence, and then hands body and footer on once four footer
    bytes beginning with 0x1A have arrived. */
module Framing {
  import opened Base

  /** `ESCAPE_SEQ` and `START_SEQ`. */
  const Escape: Bytes := [0x1b, 0x1b, 0x1b, 0x1b]
  const StartSeq: Bytes := Escape + [0x01, 0x01, 0x01, 0x01]

  const FooterMark: byte := 0x1a

  /** The receive loop's local state: the byte buffer, the two flags
      `start_seq_complete` and `received_msg`, and the captured body
      `sml_msg`. */
  datatype Framer = Framer(buffer: Bytes, started: bool, received: bool, body: Bytes)

  /** A complete message, passed on to the decoder. */
  datatype Frame = Frame(body: Bytes, footer: Bytes)

  const Init := Framer([], false, false, [])

  /** The footer test: at least four bytes, and the first 0x1A byte is
      the first byte. */
  predicate FooterReady(buf: Bytes)
  {
    |buf| >= 4 && buf[0] == FooterMark
  }

  /** One pass of the loop after `sel.read(1)` returned `chunk` (one byte,
      or none on a timeout): the first of the three checks that fires
      resets the buffer. */
  function Step(st: Framer, chunk: Bytes): (r: (Framer, Option<Frame>))
    requires |chunk| <= 1
    ensures r.1.Some? ==> st.received && r.1.value.body == st.body
    ensures r.0.received && !st.received ==> EndsWith(st.buffer + chunk, Escape)
  {
    var buf := st.buffer + chunk;
    if Contains(buf, StartSeq) && !st.started then
      (Framer([], true, false, st.body), None)
    else if st.started && EndsWith(buf, Escape) then
      (Framer([], false, true, buf[..|buf| - |Escape|]), None)
    else if st.received && FooterReady(buf) then
      (Framer([], st.started, false, st.body), Some(Frame(st.body, buf)))
    else
      (Framer(buf, st.started, st.received, st.body), None)
  }

  /** The escape sequence occurs in `s` only as its suffix. */
  predicate EscapeOnlyAtEnd(s: Bytes)
  {
    EndsWith(s, Escape) && forall i | 0 <= i < |s| - |Escape| :: !OccursAt(s, Escape, i)
  }

  /** What holds between any two reads. */
  predicate Inv(st: Framer)
  {
    && !(st.started && st.received)
    && (!st.started ==> !Contains(st.buffer, StartSeq))
    && (st.started ==> !Contains(st.buffer, Escape))
    && (st.received ==> !FooterReady(st.buffer))
    && (st.received ==> EscapeOnlyAtEnd(st.body + Escape))
  }

  /** A pattern occurs in `a + [x]` exactly when it occurs in `a` or ends
      the extended string. */
  lemma ContainsAppend(a: Bytes, chunk: Bytes, pat: Bytes)
    requires |chunk| <= 1 && |pat| > 0
    ensures Contains(a + chunk, pat) <==> Contains(a, pat) || EndsWith(a + chunk, pat)
  {
    var s := a + chunk;
    if Contains(s, pat) && !EndsWith(s, pat) {
      var i :| 0 <= i <= |s| && OccursAt(s, pat, i);
      assert s[i..i + |pat|] == a[i..i + |pat|];
      assert OccursAt(a, pat, i);
    }
    if Contains(a, pat) {
      var i :| 0 <= i <= |a| && OccursAt(a, pat, i);
      assert s[i..i + |pat|] == a[i..i + |pat|];
      assert OccursAt(s, pat, i);
    }
    if EndsWith(s, pat) {
      assert OccursAt(s, pat, |s| - |pat|);
    }
  }

  lemma InitInv()
    ensures Inv(Init)
  {
    assert !Contains(Init.buffer, StartSeq);
  }

  /** The body captured at an escape sequence: the buffer held no escape
      sequence before the last byte arrived, so the captured body followed
      by the escape sequence contains it only at the end. */
  lemma CapturedBody(buffer: Bytes, chunk: Bytes)
    requires |chunk| <= 1
    requires !Contains(buffer, Escape)
    requires EndsWith(buffer + chunk, Escape)
    ensures EscapeOnlyAtEnd((buffer + chunk)[..|buffer + chunk| - |Escape|] + Escape)
  {
    var buf := buffer + chunk;
    var body := buf[..|buf| - |Escape|];
    assert body + Escape == buf;
    forall i | 0 <= i < |buf| - |Escape|
      ensures !OccursAt(buf, Escape, i)
    {
      if OccursAt(buf, Escape, i) {
        assert buf[i..i + |Escape|] == buffer[i..i + |Escape|];
        assert OccursAt(buffer, Escape, i);
      }
    }
  }

  /** Every step keeps the invariant. */
  lemma StepKeepsInv(st: Framer, chunk: Bytes)
    requires Inv(st) && |chunk| <= 1
    ensures Inv(Step(st, chunk).0)
  {
    var buf := st.buffer + chunk;
    ContainsAppend(st.buffer, chunk, StartSeq);
    ContainsAppend(st.buffer, chunk, Escape);
    assert !Contains([], StartSeq);
    assert !Contains([], Escape);
    if Contains(buf, StartSeq) && !st.started {
    } else if st.started && EndsWith(buf, Escape) {
      CapturedBody(st.buffer, chunk);
    } else if st.received && FooterReady(buf) {
    } else {
      if st.received && |st.buffer| > 0 {
        assert buf[0] == st.buffer[0];
      }
    }
  }

  /** The two flags are never both set. */
  lemma FlagsExclusive(st: Framer, chunk: Bytes)
    requires Inv(st) && |chunk| <= 1
    ensures !(Step(st, chunk).0.started && Step(st, chunk).0.received)
  {
    StepKeepsInv(st, chunk);
  }

  /** A start sequence seen while not started empties the buffer, sets
      `start_seq_complete` and drops any body still waiting for its
      footer. */
  lemma StartResets(st: Framer, chunk: Bytes)
    requires |chunk| <= 1 && !st.started && Contains(st.buffer + chunk, StartSeq)
    ensures Step(st, chunk).0.buffer == []
    ensures Step(st, chunk).0.started && !Step(st, chunk).0.received
    ensures Step(st, chunk).1.None?
  {
  }

  /** A captured body, followed by the escape sequence that ended it,
      contains that sequence only as its suffix. */
  lemma BodyEscapeOnlyAtEnd(st: Framer, chunk: Bytes)
    requires Inv(st) && |chunk| <= 1
    requires Step(st, chunk).0.received && !st.received
    ensures EscapeOnlyAtEnd(Step(st, chunk).0.body + Escape)
  {
    StepKeepsInv(st, chunk);
  }

  /** A footer is emitted only after a body, exactly when the buffer
      starts with 0x1A and, arriving byte by byte, has reached four bytes;
      afterwards the buffer is empty and both flags are clear. */
  lemma FooterEmitted(st: Framer, chunk: Bytes)
    requires Inv(st) && |chunk| <= 1
    ensures Step(st, chunk).1.Some? <==>
      st.received && FooterReady(st.buffer + chunk) && !Contains(st.buffer + chunk, StartSeq)
    ensures Step(st, chunk).1.Some? ==>
      && |Step(st, chunk).1.value.footer| == 4
      && Step(st, chunk).1.value.footer[0] == FooterMark
      && Step(st, chunk).0 == Framer([], false, false, st.body)
  {
    var buf := st.buffer + chunk;
    if |st.buffer| > 0 {
      assert buf[0] == st.buffer[0];
    }
  }

  /** A read that times out changes nothing between reads. */
  lemma EmptyReadIsIdle(st: Framer)
    requires Inv(st)
    ensures Step(st, []) == (st, None)
  {
    assert st.buffer + [] == st.buffer;
    if st.started {
      if EndsWith(st.buffer, Escape) {
        assert OccursAt(st.buffer, Escape, |st.buffer| - |Escape|);
      }
    }
  }

  /** The frames emitted while reading `stream` one byte at a time from
      `st`, and the state reached: at most one frame per byte read. */
  function Feed(st: Framer, stream: Bytes): (r: (Framer, seq<Frame>))
    ensures |r.1| <= |stream|
    decreases |stream|
  {
    if stream == [] then (st, [])
    else
      var first := Step(st, stream[..1]);
      var rest := Feed(first.0, stream[1..]);
      (rest.0, Emitted(first.1) + rest.1)
  }

  function Emitted(out: Option<Frame>): seq<Frame>
  {
    if out.Some? then [out.value] else []
  }

  lemma {:induction false} FeedKeepsInv(st: Framer, stream: Bytes)
    requires Inv(st)
    ensures Inv(Feed(st, stream).0)
    decreases |stream|
  {
    if stream != [] {
      StepKeepsInv(st, stream[..1]);
      FeedKeepsInv(Step(st, stream[..1]).0, stream[1..]);
    }
  }

  /** Reading `a` and then `b` is reading `a + b`. */
  lemma {:induction false} FeedConcat(st: Framer, a: Bytes, b: Bytes)
    ensures Feed(st, a + b) ==
      (Feed(Feed(st, a).0, b).0, Feed(st, a).1 + Feed(Feed(st, a).0, b).1)
    decreases |a|
  {
    if a == [] {
      assert a + b == b;
      assert Feed(st, a) == (st, []);
      assert [] + Feed(st, b).1 == Feed(st, b).1;
    } else {
      assert (a + b)[..1] == a[..1];
      assert (a + b)[1..] == a[1..] + b;
      var first := Step(st, a[..1]);
      FeedConcat(first.0, a[1..], b);
      var mid := Feed(first.0, a[1..]);
      var last := Feed(mid.0, b);
      assert Emitted(first.1) + (mid.1 + last.1) == (Emitted(first.1) + mid.1) + last.1;
    }
  }

  /** Reading one more byte of a stream. */
  lemma FeedFirst(st: Framer, stream: Bytes)
    requires stream != []
    ensures Feed(st, stream) ==
      (Feed(Step(st, stream[..1]).0, stream[1..]).0,
       Emitted(Step(st, stream[..1]).1) + Feed(Step(st, stream[..1]).0, stream[1..]).1)
    ensures Step(st, stream[..1]).1.None? ==>
      Feed(st, stream) == Feed(Step(st, stream[..1]).0, stream[1..])
  {
    var first := Step(st, stream[..1]);
    var rest := Feed(first.0, stream[1..]);
    if first.1.None? {
      assert Emitted(first.1) + rest.1 == rest.1;
    }
  }

  /** Reading nothing changes nothing. */
  lemma FeedNothing(st: Framer)
    ensures Feed(st, []) == (st, [])
  {
  }

  /** A byte string shorter than a pattern does not contain it. */
  lemma ShortLacks(s: Bytes, pat: Bytes)
    requires |s| < |pat|
    ensures !Contains(s, pat)
  {
  }

  /** From an empty buffer, the start sequence completes on its last byte
      and nothing earlier fires. */
  lemma {:induction false} FeedStart(k: nat)
    requires k < |StartSeq|
    ensures Feed(Framer(StartSeq[..k], false, false, []), StartSeq[k..]) == (Framer([], true, false, []), [])
    decreases |StartSeq| - k
  {
    var st := Framer(StartSeq[..k], false, false, []);
    var chunk := StartSeq[k..][..1];
    var buf := StartSeq[..k] + chunk;
    assert buf == StartSeq[..k + 1];
    assert StartSeq[k..][1..] == StartSeq[k + 1..];
    FeedFirst(st, StartSeq[k..]);
    if k + 1 < |StartSeq| {
      ShortLacks(buf, StartSeq);
      assert Step(st, chunk) == (Framer(buf, false, false, []), None);
      FeedStart(k + 1);
    } else {
      assert buf == StartSeq;
      assert OccursAt(buf, StartSeq, 0);
      assert Step(st, chunk) == (Framer([], true, false, []), None);
      assert StartSeq[k + 1..] == [];
      FeedNothing(Framer([], true, false, []));
    }
  }

  /** After the start sequence, bytes are buffered until the escape
      sequence, which captures everything before it as the body. */
  lemma {:induction false} FeedBody(s: Bytes, k: nat, prior: Bytes)
    requires EscapeOnlyAtEnd(s)
    requires k < |s|
    ensures Feed(Framer(s[..k], true, false, prior), s[k..]) ==
      (Framer([], false, true, s[..|s| - |Escape|]), [])
    decreases |s| - k
  {
    var st := Framer(s[..k], true, false, prior);
    assert s[k..][..1] == [s[k]];
    assert s[k..][1..] == s[k + 1..];
    FeedFirst(st, s[k..]);
    if k + 1 < |s| {
      BodyStepInside(s, k, prior);
      FeedBody(s, k + 1, prior);
    } else {
      BodyStepLast(s, k, prior);
      assert s[k + 1..] == [];
      FeedNothing(Framer([], false, true, s[..|s| - |Escape|]));
    }
  }

  /** Inside the body a byte only grows the buffer. */
  lemma BodyStepInside(s: Bytes, k: nat, prior: Bytes)
    requires EscapeOnlyAtEnd(s)
    requires k + 1 < |s|
    ensures Step(Framer(s[..k], true, false, prior), [s[k]]) ==
      (Framer(s[..k + 1], true, false, prior), None)
  {
    var buf := s[..k] + [s[k]];
    assert buf == s[..k + 1];
    if EndsWith(buf, Escape) {
      assert buf[|buf| - |Escape|..] == s[k + 1 - |Escape|..k + 1];
      assert OccursAt(s, Escape, k + 1 - |Escape|);
    }
  }

  /** The last escape byte captures the body. */
  lemma BodyStepLast(s: Bytes, k: nat, prior: Bytes)
    requires EscapeOnlyAtEnd(s)
    requires k + 1 == |s|
    ensures Step(Framer(s[..k], true, false, prior), [s[k]]) ==
      (Framer([], false, true, s[..|s| - |Escape|]), None)
  {
    var buf := s[..k] + [s[k]];
    assert buf == s;
  }

  /** After a body, four footer bytes beginning with 0x1A emit the
      message. */
  lemma {:induction false} FeedFooter(body: Bytes, footer: Bytes, k: nat)
    requires |footer| == 4 && footer[0] == FooterMark && k < 4
    ensures Feed(Framer(footer[..k], false, true, body), footer[k..]) ==
      (Init.(body := body), [Frame(body, footer)])
    decreases 4 - k
  {
    var st := Framer(footer[..k], false, true, body);
    var chunk := footer[k..][..1];
    var buf := footer[..k] + chunk;
    assert buf == footer[..k + 1];
    assert footer[k..][1..] == footer[k + 1..];
    FeedFirst(st, footer[k..]);
    ShortLacks(buf, StartSeq);
    if k + 1 < 4 {
      assert Step(st, chunk) == (Framer(buf, false, true, body), None);
      FeedFooter(body, footer, k + 1);
    } else {
      assert buf == footer;
      assert Step(st, chunk) == (Init.(body := body), Some(Frame(body, footer)));
      assert footer[k + 1..] == [];
      FeedNothing(Init.(body := body));
      assert Emitted(Some(Frame(body, footer))) + [] == [Frame(body, footer)];
    }
  }

  /** A complete transmission read from a fresh receiver, start sequence,
      body, escape sequence and four footer bytes, emits exactly that body
      and footer, provided the escape sequence occurs in the body followed
      by it only at the end. */
  lemma Transmission(body: Bytes, footer: Bytes)
    requires EscapeOnlyAtEnd(body + Escape)
    requires |footer| == 4 && footer[0] == FooterMark
    ensures Feed(Init, StartSeq + (body + Escape) + footer) ==
      (Init.(body := body), [Frame(body, footer)])
  {
    var started := Framer([], true, false, []);
    var captured := Framer([], false, true, body);
    FeedStart(0);
    assert StartSeq[..0] == [] && StartSeq[0..] == StartSeq;
    assert Feed(Init, StartSeq) == (started, []);
    FeedBody(body + Escape, 0, []);
    assert (body + Escape)[..0] == [] && (body + Escape)[0..] == body + Escape;
    assert (body + Escape)[..|body + Escape| - |Escape|] == body;
    assert Feed(started, body + Escape) == (captured, []);
    FeedConcat(Init, StartSeq, body + Escape);
    assert Feed(Init, StartSeq + (body + Escape)) == (captured, []);
    FeedFooter(body, footer, 0);
    assert footer[..0] == [] && footer[0..] == footer;
    assert Feed(captured, footer) == (Init.(body := body), [Frame(body, footer)]);
    FeedConcat(Init, StartSeq + (body + Escape), footer);
    assert [] + [Frame(body, footer)] == [Frame(body, footer)];
  }
}
