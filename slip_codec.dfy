/**
 * SlipEncode and SlipDecode of src/microdata.c: SLIP framing after RFC 1055.
 * A frame is the payload with every END byte replaced by ESC ESC_END and every
 * ESC byte by ESC ESC_ESC, followed by one END byte.
 */
module SlipCodec {
  import opened MicrodataTypes
  import opened Sequences

  const END: Byte := SLIP_FRAME_END
  const ESC: Byte := 0xDB
  const ESC_END: Byte := 0xDC
  const ESC_ESC: Byte := 0xDD

  // ---------------------------------------------------------------------------
  // Encoding

  /** What SlipEncode emits for one payload byte. */
  function Escaped(b: Byte): (r: seq<Byte>)
    ensures 1 <= |r| <= 2
  {
    if b == END then [ESC, ESC_END]
    else if b == ESC then [ESC, ESC_ESC]
    else [b]
  }

  /** The payload with every byte escaped: a frame without its terminator. */
  function Escape(p: seq<Byte>): (r: seq<Byte>)
    ensures |p| <= |r| <= 2 * |p|
  {
    if p == [] then [] else Escaped(p[0]) + Escape(p[1..])
  }

  /** The frame for payload p: its length lies in [|p| + 1, 2 * |p| + 1] and it ends with END. */
  function Encode(p: seq<Byte>): (r: seq<Byte>)
    ensures |p| + 1 <= |r| <= 2 * |p| + 1
    ensures r[|r| - 1] == END
  {
    Escape(p) + [END]
  }

  /** END never occurs in an escaped payload. */
  lemma {:induction false} EscapeHasNoEnd(p: seq<Byte>)
    ensures END !in Escape(p)
  {
    if p != [] {
      EscapeHasNoEnd(p[1..]);
      assert Escape(p) == Escaped(p[0]) + Escape(p[1..]);
    }
  }

  /** END occurs in a frame exactly once, as its last byte: a receiver finds the frame's end unambiguously. */
  lemma EncodeEndsAtFirstEnd(p: seq<Byte>)
    ensures forall k :: 0 <= k < |Encode(p)| - 1 ==> Encode(p)[k] != END
  {
    EscapeHasNoEnd(p);
    assert forall k :: 0 <= k < |Encode(p)| - 1 ==> Encode(p)[k] == Escape(p)[k];
  }

  /** Escaping works byte by byte: escaping a concatenation concatenates the escapes. */
  lemma {:induction false} EscapeAppend(p: seq<Byte>, q: seq<Byte>)
    ensures Escape(p + q) == Escape(p) + Escape(q)
  {
    if p == [] {
      assert p + q == q;
    } else {
      assert (p + q)[1..] == p[1..] + q;
      EscapeAppend(p[1..], q);
    }
  }

  /** Escaping one more byte of p appends that byte's escape, and stays within Escape(p). */
  lemma EscapeStep(p: seq<Byte>, idx: nat)
    requires idx < |p|
    ensures Escape(p[..idx + 1]) == Escape(p[..idx]) + Escaped(p[idx])
    ensures |Escape(p[..idx + 1])| <= |Escape(p)|
  {
    EscapeAppend(p[..idx], [p[idx]]);
    assert p[..idx + 1] == p[..idx] + [p[idx]];
    assert Escape([p[idx]]) == Escaped(p[idx]) by {
      assert [p[idx]][1..] == [];
    }
    EscapeAppend(p[..idx + 1], p[idx + 1..]);
    assert p[..idx + 1] + p[idx + 1..] == p;
  }

  /** The body of SlipEncode's loop: writes the escape of b at dest[d] and advances d past it. */
  method PutEscaped(dest: array<Byte>, d: nat, b: Byte) returns (next: nat)
    requires d + |Escaped(b)| <= dest.Length
    modifies dest
    ensures next == d + |Escaped(b)|
    ensures dest[..next] == old(dest[..d]) + Escaped(b)
    ensures forall k :: next <= k < dest.Length ==> dest[k] == old(dest[k])
  {
    next := d;
    if b == END {
      dest[next] := ESC;
      next := next + 1;
      dest[next] := ESC_END;
      next := next + 1;
    } else if b == ESC {
      dest[next] := ESC;
      next := next + 1;
      dest[next] := ESC_ESC;
      next := next + 1;
    } else {
      dest[next] := b;
      next := next + 1;
    }
  }

  /**
   * SlipEncode: escapes the first `size` bytes of src into dest and appends
   * END. The source promises only that src and dest differ and that dest has
   * room for the frame (2 * size + 1 bytes always suffice). The count it
   * returns is the frame length truncated to SIZE_T, which is exact for
   * frames shorter than 256 bytes, so for every size up to 127.
   */
  method SlipEncode(src: array<Byte>, dest: array<Byte>, size: SizeT) returns (n: SizeT)
    requires src != dest
    requires size <= src.Length
    requires |Encode(src[..size])| <= dest.Length
    modifies dest
    ensures dest[..|Encode(src[..size])|] == Encode(src[..size])
    ensures dest[|Encode(src[..size])|..] == old(dest[|Encode(src[..size])|..])
    ensures n == |Encode(src[..size])| % 0x100
    ensures size <= 127 ==> n == |Encode(src[..size])|
  {
    ghost var payload := src[..size];
    var d := 0;
    var idx := 0;
    while idx != size
      invariant 0 <= idx <= size
      invariant d == |Escape(payload[..idx])| && d < dest.Length
      invariant dest[..d] == Escape(payload[..idx])
      invariant forall k :: d <= k < dest.Length ==> dest[k] == old(dest[k])
    {
      var nextByte := src[idx];
      assert nextByte == payload[idx];
      EscapeStep(payload, idx);
      d := PutEscaped(dest, d, nextByte);
      idx := idx + 1;
    }
    assert payload[..idx] == payload;
    dest[d] := END;
    d := d + 1;
    n := d % 0x100;
    assert dest[..d] == Encode(payload);
  }

  // ---------------------------------------------------------------------------
  // Decoding

  /** The decoder's states, in the order of the source's enum. */
  datatype SlipState = Error | Normal | Finished | InEsc

  /** Why decoding failed. */
  datatype DecodeError =
    | BadEscape     // ESC followed by neither ESC_END nor ESC_ESC
    | Overflow      // one more byte than the destination's capacity
    | Unterminated  // the source ran out before an unescaped END

  /** A decoded frame: the payload and how many source bytes it took, END included. */
  datatype Outcome = Frame(payload: seq<Byte>, consumed: nat) | Failure(error: DecodeError)

  /**
   * The check `++len; if (len > capacity)` before emitting one more byte after
   * `emitted` bytes. With `wraps` the counter is the source's 8-bit SIZE_T and
   * wraps from 255 to 0; without it the counter is exact.
   */
  predicate Fits(emitted: nat, capacity: nat, wraps: bool): (r: bool)
    ensures !wraps ==> (r <==> emitted < capacity)
    ensures wraps && emitted < 0xFF ==> (r <==> emitted < capacity)
    ensures wraps && emitted % 0x100 == 0xFF ==> r
  {
    (if wraps then (emitted + 1) % 0x100 else emitted + 1) <= capacity
  }

  /** The outcome o after `out` was emitted over n more source bytes; a failure stays a failure. */
  function Prefixed(out: seq<Byte>, n: nat, o: Outcome): (r: Outcome)
    ensures r.Frame? == o.Frame?
  {
    if o.Frame? then Frame(out + o.payload, n + o.consumed) else o
  }

  /** What one source byte makes the decoder do. */
  datatype Action = BeginEscape | EndFrame | Put(c: Byte) | Reject(error: DecodeError)

  /**
   * One step of the source's switch: the action for byte b in `state` (NORMAL
   * or IN_ESC) after `emitted` bytes of output.
   */
  function Step(state: SlipState, b: Byte, emitted: nat, capacity: nat, wraps: bool): (r: Action)
    requires state == Normal || state == InEsc
    ensures r.Put? ==> Fits(emitted, capacity, wraps)
  {
    if state == Normal then
      if b == ESC then BeginEscape
      else if b == END then EndFrame
      else if Fits(emitted, capacity, wraps) then Put(b)
      else Reject(Overflow)
    else if b == ESC_END || b == ESC_ESC then
      if Fits(emitted, capacity, wraps) then Put(if b == ESC_END then END else ESC)
      else Reject(Overflow)
    else Reject(BadEscape)
  }

  /**
   * The decoder's state machine run over src in `state` (NORMAL or IN_ESC)
   * after `emitted` bytes of output: the payload of a Frame is what it emits
   * and `consumed` counts the bytes of src it read, END included. Running out
   * of src before an unescaped END is reported as Unterminated. A frame never
   * emits as many bytes as it reads, which is what lets SlipDecode work in place.
   */
  function Run(src: seq<Byte>, state: SlipState, emitted: nat, capacity: nat, wraps: bool): (r: Outcome)
    requires state == Normal || state == InEsc
    ensures r.Frame? ==> |r.payload| < r.consumed <= |src|
    ensures r.Frame? && !wraps && emitted <= capacity ==> emitted + |r.payload| <= capacity
    decreases |src|
  {
    if src == [] then Failure(Unterminated)
    else
      match Step(state, src[0], emitted, capacity, wraps)
      case BeginEscape => Prefixed([], 1, Run(src[1..], InEsc, emitted, capacity, wraps))
      case EndFrame => Frame([], 1)
      case Put(c) => Prefixed([c], 1, Run(src[1..], Normal, emitted + 1, capacity, wraps))
      case Reject(e) => Failure(e)
  }

  /** What decoding src into a destination of the given capacity yields. */
  function Unslip(src: seq<Byte>, capacity: SizeT): (r: Outcome)
    ensures r.Frame? ==> |r.payload| < r.consumed <= |src| && |r.payload| <= capacity
  {
    Run(src, Normal, 0, capacity, false)
  }

  /** The same machine with the source's 8-bit `len` counter. */
  function UnslipAsWritten(src: seq<Byte>, capacity: SizeT): (r: Outcome)
    ensures r.Frame? ==> |r.payload| < r.consumed <= |src|
  {
    Run(src, Normal, 0, capacity, true)
  }

  /** SlipDecode's return value: the decoded length as SIZE_T, and 0 for every failure. */
  function ReturnCode(o: Outcome): (r: SizeT)
    ensures o.Failure? ==> r == 0
    ensures o.Frame? && |o.payload| < 0x100 ==> r == |o.payload|
    ensures o.Frame? ==> r % 0x100 == |o.payload| % 0x100
  {
    if o.Frame? then |o.payload| % 0x100 else 0
  }

  /**
   * SlipDecode: decodes the frame at the start of src into dest. src and dest
   * may be the same array: the k-th output byte is written only after the
   * source byte at index k has been read.
   */
  method SlipDecode(src: array<Byte>, dest: array<Byte>, capacity: SizeT) returns (n: SizeT, outcome: Outcome)
    requires capacity <= dest.Length
    modifies dest
    ensures outcome == Unslip(old(src[..]), capacity)
    ensures n == ReturnCode(outcome)
    ensures outcome.Frame? ==> dest[..|outcome.payload|] == outcome.payload
    ensures outcome.Frame? ==> dest[|outcome.payload|..] == old(dest[|outcome.payload|..])
    ensures forall k :: capacity <= k < dest.Length ==> dest[k] == old(dest[k])
  {
    ghost var s := src[..];
    var state := Normal;
    var len: nat := 0;
    var i := 0;
    var failure := Unterminated;
    assert s[0..] == s;
    PrefixedNothing(Run(s, Normal, 0, capacity, false));
    while state != Finished && state != Error
      invariant len <= i <= src.Length == |s| && len <= capacity
      invariant forall k :: len <= k < dest.Length ==> dest[k] == old(dest[k])
      invariant forall k :: i <= k < src.Length ==> src[k] == s[k]
      invariant Unslip(s, capacity) == Expected(s, state, dest[..len], i, failure, capacity)
      decreases src.Length - i, if state == Normal || state == InEsc then 1 else 0
    {
      if i == src.Length {
        assert s[i..] == [];
        state, failure := Error, Unterminated;
      } else {
        var b := src[i];
        ghost var out := dest[..len];
        var act := DecodeByte(dest, state, len, b, capacity);
        ExpectedStep(s, i, out, state, failure, capacity);
        i := i + 1;
        match act {
          case BeginEscape => state := InEsc;
          case EndFrame => state := Finished;
          case Put(c) =>
            state, len := Normal, len + 1;
            assert dest[..len] == out + [c];
          case Reject(e) => state, failure := Error, e;
        }
      }
    }
    if state == Error {
      n, outcome := 0, Failure(failure);
    } else {
      n, outcome := len, Frame(dest[..len], i);
    }
  }

  /**
   * The switch in SlipDecode's loop for one byte b: decides what b does and,
   * when it emits a byte, writes it at dest[len]. (On overflow the source
   * also increments len, which no caller reads again.)
   */
  method DecodeByte(dest: array<Byte>, state: SlipState, len: nat, b: Byte, capacity: SizeT) returns (act: Action)
    requires state == Normal || state == InEsc
    requires len <= capacity <= dest.Length
    modifies dest
    ensures act == Step(state, b, len, capacity, false)
    ensures act.Put? ==> len < dest.Length && dest[..] == old(dest[..])[len := act.c]
    ensures !act.Put? ==> dest[..] == old(dest[..])
  {
    if state == Normal {
      if b == ESC {
        act := BeginEscape;
      } else if b == END {
        act := EndFrame;
      } else if len + 1 > capacity {
        act := Reject(Overflow);
      } else {
        dest[len] := b;
        act := Put(b);
      }
    } else {
      if b == ESC_END || b == ESC_ESC {
        var c := if b == ESC_END then END else ESC;
        if len + 1 > capacity {
          act := Reject(Overflow);
        } else {
          dest[len] := c;
          act := Put(c);
        }
      } else {
        act := Reject(BadEscape);
      }
    }
  }

  /**
   * What Unslip must yield when SlipDecode is in `state` having read i bytes
   * of s and emitted `out`: the rest of the run for NORMAL and IN_ESC, the
   * frame for FINISHED and the failure recorded for ERROR.
   */
  ghost function Expected(s: seq<Byte>, state: SlipState, out: seq<Byte>, i: nat, failure: DecodeError, capacity: nat): Outcome
    requires i <= |s|
  {
    match state
    case Normal => Prefixed(out, i, Run(s[i..], Normal, |out|, capacity, false))
    case InEsc => Prefixed(out, i, Run(s[i..], InEsc, |out|, capacity, false))
    case Finished => Frame(out, i)
    case Error => Failure(failure)
  }

  /** The state SlipDecode moves to after an action. */
  function NextState(act: Action): (r: SlipState)
    ensures r == Error <==> act.Reject?
    ensures r == Finished <==> act == EndFrame
    ensures (r == Normal || r == InEsc) <==> (act.Put? || act == BeginEscape)
  {
    match act
    case BeginEscape => InEsc
    case EndFrame => Finished
    case Put(_) => Normal
    case Reject(_) => Error
  }

  /** One turn of SlipDecode's loop keeps what Unslip must yield. */
  lemma ExpectedStep(s: seq<Byte>, i: nat, out: seq<Byte>, state: SlipState, failure: DecodeError, capacity: nat)
    requires i < |s|
    requires state == Normal || state == InEsc
    ensures var act := Step(state, s[i], |out|, capacity, false);
      Expected(s, state, out, i, failure, capacity)
        == Expected(s, NextState(act), if act.Put? then out + [act.c] else out, i + 1,
                    if act.Reject? then act.error else failure, capacity)
  {
    var t := s[i..];
    assert t[0] == s[i] && t[1..] == s[i + 1..];
    match Step(state, s[i], |out|, capacity, false)
    case BeginEscape =>
      PrefixedTwice(out, i, [], 1, Run(s[i + 1..], InEsc, |out|, capacity, false));
      assert out + [] == out;
    case EndFrame =>
      assert out + [] == out;
    case Put(c) =>
      PrefixedTwice(out, i, [c], 1, Run(s[i + 1..], Normal, |out| + 1, capacity, false));
    case Reject(_) =>
  }

  /** Emitting nothing over no bytes changes nothing. */
  lemma PrefixedNothing(o: Outcome)
    ensures Prefixed([], 0, o) == o
  {
    if o.Frame? {
      assert [] + o.payload == o.payload;
    }
  }

  /** Emitting a over n bytes and then b over m bytes is emitting a + b over n + m bytes. */
  lemma PrefixedTwice(a: seq<Byte>, n: nat, b: seq<Byte>, m: nat, o: Outcome)
    ensures Prefixed(a, n, Prefixed(b, m, o)) == Prefixed(a + b, n + m, o)
  {
    if o.Frame? {
      assert a + (b + o.payload) == (a + b) + o.payload;
    }
  }

  // ---------------------------------------------------------------------------
  // What decoding does with encoded frames

  /** Running over the escape of one byte b in NORMAL emits b, when one more byte fits. */
  lemma RunOverByte(b: Byte, t: seq<Byte>, emitted: nat, capacity: nat, wraps: bool)
    requires Fits(emitted, capacity, wraps)
    ensures Run(Escaped(b) + t, Normal, emitted, capacity, wraps)
         == Prefixed([b], |Escaped(b)|, Run(t, Normal, emitted + 1, capacity, wraps))
  {
    var src := Escaped(b) + t;
    var tail := Run(t, Normal, emitted + 1, capacity, wraps);
    if b == END || b == ESC {
      var x := Escaped(b)[1];
      assert src[0] == ESC && src[1..] == [x] + t;
      assert src[1..][0] == x && src[1..][1..] == t;
      assert Run(src[1..], InEsc, emitted, capacity, wraps) == Prefixed([b], 1, tail);
      PrefixedTwice([], 1, [b], 1, tail);
      assert [] + [b] == [b];
    } else {
      assert src[0] == b && src[1..] == t;
    }
  }

  /** The escape of a non-empty p, followed by t, is the escape of p[0] followed by the rest. */
  lemma EscapeCons(p: seq<Byte>, t: seq<Byte>)
    requires p != []
    ensures Escape(p) + t == Escaped(p[0]) + (Escape(p[1..]) + t)
    ensures |Escape(p)| == |Escaped(p[0])| + |Escape(p[1..])|
  {
    var h, e := Escaped(p[0]), Escape(p[1..]);
    assert Escape(p) == h + e;
    Associative(h, e, t);
  }

  /** The first n bytes of a non-empty src are its first byte and the first n - 1 of the rest. */
  lemma PrefixCons(src: seq<Byte>, n: nat)
    requires 1 <= n <= |src|
    ensures src[..n] == [src[0]] + src[1..][..n - 1]
  {
  }

  /** Running over the escape of p in NORMAL emits p, as long as it fits. */
  lemma {:induction false} RunOverEscape(p: seq<Byte>, t: seq<Byte>, emitted: nat, capacity: nat)
    requires emitted + |p| <= capacity
    ensures Run(Escape(p) + t, Normal, emitted, capacity, false)
         == Prefixed(p, |Escape(p)|, Run(t, Normal, emitted + |p|, capacity, false))
    decreases |p|
  {
    var last := Run(t, Normal, emitted + |p|, capacity, false);
    if p == [] {
      assert Escape(p) + t == t;
      PrefixedNothing(last);
    } else {
      var b := p[0];
      var e := Escape(p[1..]);
      EscapeCons(p, t);
      RunOverByte(b, e + t, emitted, capacity, false);
      assert emitted + 1 + |p[1..]| == emitted + |p|;
      RunOverEscape(p[1..], t, emitted + 1, capacity);
      assert Run(e + t, Normal, emitted + 1, capacity, false) == Prefixed(p[1..], |e|, last);
      PrefixedTwice([b], |Escaped(b)|, p[1..], |e|, last);
      assert [b] + p[1..] == p;
    }
  }

  /** Running over a whole frame in NORMAL yields its payload, as long as it fits. */
  lemma RunOverFrame(p: seq<Byte>, rest: seq<Byte>, emitted: nat, capacity: nat)
    requires emitted + |p| <= capacity
    ensures Run(Encode(p) + rest, Normal, emitted, capacity, false) == Frame(p, |Encode(p)|)
  {
    var u := [END] + rest;
    assert Encode(p) + rest == Escape(p) + u;
    RunOverEscape(p, u, emitted, capacity);
    assert u[0] == END;
    assert Run(u, Normal, emitted + |p|, capacity, false) == Frame([], 1);
    assert p + [] == p;
  }

  /**
   * Round trip: a frame produced by Encode, followed by anything at all,
   * decodes to its payload whenever the payload fits, consuming exactly the
   * frame: decoding stops at the frame's END.
   */
  lemma RoundTrip(p: seq<Byte>, rest: seq<Byte>, capacity: SizeT)
    requires |p| <= capacity
    ensures Unslip(Encode(p) + rest, capacity) == Frame(p, |Encode(p)|)
  {
    RunOverFrame(p, rest, 0, capacity);
  }

  /** Running over the escape of p in NORMAL fails with Overflow once p no longer fits. */
  lemma {:induction false} RunOverflows(p: seq<Byte>, t: seq<Byte>, emitted: nat, capacity: nat)
    requires emitted <= capacity < emitted + |p|
    ensures Run(Escape(p) + t, Normal, emitted, capacity, false) == Failure(Overflow)
    decreases |p|
  {
    var b := p[0];
    var e := Escape(p[1..]);
    var src := Escape(p) + t;
    assert src == Escaped(b) + (e + t);
    if emitted < capacity {
      RunOverByte(b, e + t, emitted, capacity, false);
      RunOverflows(p[1..], t, emitted + 1, capacity);
    } else {
      assert src[0] == Escaped(b)[0];
      if b == END || b == ESC {
        assert src[1..][0] == Escaped(b)[1];
      }
    }
  }

  /**
   * Overflow detection: when the payload is longer than the capacity, decoding
   * its frame (or anything that starts with its escape) fails with Overflow
   * instead of returning a truncated payload.
   */
  lemma DecodeDetectsOverflow(p: seq<Byte>, rest: seq<Byte>, capacity: SizeT)
    requires capacity < |p|
    ensures Unslip(Escape(p) + rest, capacity) == Failure(Overflow)
  {
    RunOverflows(p, rest, 0, capacity);
  }

  /** ESC followed by a byte other than ESC_END or ESC_ESC fails in NORMAL, whatever follows. */
  lemma RunBadEscape(b: Byte, rest: seq<Byte>, emitted: nat, capacity: nat)
    requires b != ESC_END && b != ESC_ESC
    ensures Run([ESC, b] + rest, Normal, emitted, capacity, false) == Failure(BadEscape)
  {
    var u := [ESC, b] + rest;
    assert u[0] == ESC && u[1..] == [b] + rest;
    assert Step(Normal, ESC, emitted, capacity, false) == BeginEscape;
    assert ([b] + rest)[0] == b;
    assert Run([b] + rest, InEsc, emitted, capacity, false) == Failure(BadEscape);
  }

  /** Malformed-escape detection: ESC followed by a byte other than ESC_END or ESC_ESC is rejected. */
  lemma DecodeRejectsBadEscape(p: seq<Byte>, b: Byte, rest: seq<Byte>, capacity: SizeT)
    requires |p| <= capacity
    requires b != ESC_END && b != ESC_ESC
    ensures Unslip(Escape(p) + [ESC, b] + rest, capacity) == Failure(BadEscape)
  {
    var u := [ESC, b] + rest;
    assert Escape(p) + [ESC, b] + rest == Escape(p) + u;
    RunOverEscape(p, u, 0, capacity);
    RunBadEscape(b, rest, |p|, capacity);
  }

  /** A source that ends inside the frame, after a payload's escape or a lone ESC, is Unterminated. */
  lemma DecodeUnterminated(p: seq<Byte>, trailingEsc: bool, capacity: SizeT)
    requires |p| <= capacity
    ensures Unslip(Escape(p) + (if trailingEsc then [ESC] else []), capacity) == Failure(Unterminated)
  {
    var u: seq<Byte> := if trailingEsc then [ESC] else [];
    RunOverEscape(p, u, 0, capacity);
    if trailingEsc {
      assert u[0] == ESC && u[1..] == [];
    }
  }

  /** The frame of a payload starts with the escape of its first byte. */
  lemma EncodeCons(b: Byte, q: seq<Byte>)
    ensures Encode([b] + q) == Escaped(b) + Encode(q)
  {
    assert ([b] + q)[1..] == q;
  }

  /** What a successful run from NORMAL consumed is the frame of what it emitted. */
  lemma {:induction false} RunConsumesFrame(src: seq<Byte>, emitted: nat, capacity: nat)
    requires Run(src, Normal, emitted, capacity, false).Frame?
    ensures var r := Run(src, Normal, emitted, capacity, false);
      src[..r.consumed] == Encode(r.payload)
    decreases |src|, 1
  {
    var r := Run(src, Normal, emitted, capacity, false);
    var b := src[0];
    if b == ESC {
      var tail := Run(src[1..], InEsc, emitted, capacity, false);
      assert [] + tail.payload == tail.payload;
      assert r.payload == tail.payload && r.consumed == 1 + tail.consumed;
      EscapedConsumesFrame(src[1..], emitted, capacity);
      PrefixCons(src, r.consumed);
    } else if b == END {
      assert Encode([]) == [END];
    } else {
      var tail := Run(src[1..], Normal, emitted + 1, capacity, false);
      assert r == Prefixed([b], 1, tail);
      RunConsumesFrame(src[1..], emitted + 1, capacity);
      EncodeCons(b, tail.payload);
      assert Escaped(b) == [b];
      PrefixCons(src, r.consumed);
    }
  }

  /** A successful run from IN_ESC reads ESC_END or ESC_ESC first and emits the byte it stands for. */
  lemma EscapedStep(src: seq<Byte>, emitted: nat, capacity: nat)
    requires Run(src, InEsc, emitted, capacity, false).Frame?
    ensures src != [] && (src[0] == ESC_END || src[0] == ESC_ESC)
    ensures var c := if src[0] == ESC_END then END else ESC;
      Escaped(c) == [ESC, src[0]] &&
      Run(src, InEsc, emitted, capacity, false)
        == Prefixed([c], 1, Run(src[1..], Normal, emitted + 1, capacity, false))
  {
  }

  /** What a successful run from IN_ESC consumed, after the ESC that began it, is the frame of what it emitted. */
  lemma {:induction false} EscapedConsumesFrame(src: seq<Byte>, emitted: nat, capacity: nat)
    requires Run(src, InEsc, emitted, capacity, false).Frame?
    ensures var r := Run(src, InEsc, emitted, capacity, false);
      [ESC] + src[..r.consumed] == Encode(r.payload)
    decreases |src|, 0
  {
    var r := Run(src, InEsc, emitted, capacity, false);
    EscapedStep(src, emitted, capacity);
    var b := src[0];
    var c: Byte := if b == ESC_END then END else ESC;
    var tail := Run(src[1..], Normal, emitted + 1, capacity, false);
    RunConsumesFrame(src[1..], emitted + 1, capacity);
    EncodeCons(c, tail.payload);
    assert r.payload == [c] + tail.payload && r.consumed == 1 + tail.consumed;
    PrefixCons(src, r.consumed);
    Associative([ESC], [b], src[1..][..tail.consumed]);
    assert [ESC] + [b] == [ESC, b];
  }

  /**
   * Decoding succeeds exactly on the frames of payloads that fit: src decodes
   * to p after n bytes if and only if the first n bytes of src are the frame of
   * p and p fits the capacity. Since END ends every frame and occurs nowhere
   * else in it, decoding stops at the first unescaped END.
   */
  lemma DecodeIffFrame(src: seq<Byte>, capacity: SizeT, p: seq<Byte>, n: nat)
    ensures Unslip(src, capacity) == Frame(p, n)
        <==> n <= |src| && src[..n] == Encode(p) && |p| <= capacity
  {
    if Unslip(src, capacity) == Frame(p, n) {
      RunConsumesFrame(src, 0, capacity);
    }
    if n <= |src| && src[..n] == Encode(p) && |p| <= capacity {
      RoundTrip(p, src[n..], capacity);
      assert Encode(p) + src[n..] == src;
    }
  }

  /** The zero return is ambiguous: an empty frame and a malformed one both return 0. */
  lemma ZeroReturnIsAmbiguous(capacity: SizeT)
    ensures Unslip([END], capacity) == Frame([], 1) && ReturnCode(Unslip([END], capacity)) == 0
    ensures Unslip([ESC, END], capacity) == Failure(BadEscape) && ReturnCode(Unslip([ESC, END], capacity)) == 0
  {
    assert [ESC, END][1..] == [END];
    assert Step(Normal, ESC, 0, capacity, false) == BeginEscape;
    assert Run([END], InEsc, 0, capacity, false) == Failure(BadEscape);
  }

  // ---------------------------------------------------------------------------
  // The 8-bit length counter

  /** For every capacity up to 254 the 8-bit counter never wraps, and the source's machine is the exact one. */
  lemma {:induction false} RunAgreesBelow255(src: seq<Byte>, state: SlipState, emitted: nat, capacity: SizeT)
    requires emitted <= capacity <= 254
    requires state == Normal || state == InEsc
    ensures Run(src, state, emitted, capacity, true) == Run(src, state, emitted, capacity, false)
    decreases |src|
  {
    if src != [] {
      assert Fits(emitted, capacity, true) == Fits(emitted, capacity, false);
      var act := Step(state, src[0], emitted, capacity, false);
      assert Step(state, src[0], emitted, capacity, true) == act;
      if act == BeginEscape {
        RunAgreesBelow255(src[1..], InEsc, emitted, capacity);
      } else if act.Put? {
        RunAgreesBelow255(src[1..], Normal, emitted + 1, capacity);
      }
    }
  }

  /** The source's decoder and Unslip agree on every input whenever the capacity is at most 254. */
  lemma AsWrittenAgreesBelow255(src: seq<Byte>, capacity: SizeT)
    requires capacity <= 254
    ensures UnslipAsWritten(src, capacity) == Unslip(src, capacity)
  {
    RunAgreesBelow255(src, Normal, 0, capacity);
  }

  /** With capacity 255 the 8-bit counter makes the overflow check pass every time: no limit at all. */
  lemma {:induction false} RunUnboundedAt255(src: seq<Byte>, state: SlipState, emitted: nat, bound: nat)
    requires emitted + |src| <= bound
    requires state == Normal || state == InEsc
    ensures Run(src, state, emitted, 255, true) == Run(src, state, emitted, bound, false)
    decreases |src|
  {
    if src != [] {
      assert Fits(emitted, 255, true) && Fits(emitted, bound, false);
      var act := Step(state, src[0], emitted, bound, false);
      assert Step(state, src[0], emitted, 255, true) == act;
      if act == BeginEscape {
        RunUnboundedAt255(src[1..], InEsc, emitted, bound);
      } else if act.Put? {
        RunUnboundedAt255(src[1..], Normal, emitted + 1, bound);
      }
    }
  }

  /**
   * The source as written, with capacity 255, decodes a frame of a payload of
   * 256 bytes or more in full: it writes dest[255] and beyond, past the
   * capacity, and returns the length modulo 256 (0 for 256 bytes). Unslip
   * reports Overflow for the same input.
   */
  lemma AsWrittenOverrunsAt255(p: seq<Byte>)
    requires 256 <= |p|
    ensures UnslipAsWritten(Encode(p), 255) == Frame(p, |Encode(p)|)
    ensures ReturnCode(UnslipAsWritten(Encode(p), 255)) == |p| % 0x100
    ensures Unslip(Encode(p), 255) == Failure(Overflow)
  {
    var src := Encode(p);
    RunUnboundedAt255(src, Normal, 0, |src|);
    RunOverFrame(p, [], 0, |src|);
    assert src + [] == src;
    DecodeDetectsOverflow(p, [END], 255);
  }
}
