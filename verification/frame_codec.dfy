/** The link-layer frame codec: `PackFrame` wraps a frame in a leading
    delimiter, doubles every delimiter byte inside it, and appends an even
    parity byte; `UnpackFrame` checks the parity and undoes the stuffing. */
module FrameCodec {
  import opened Common
  import opened Bytes

  /** `FRAME_DELI`. */
  const Delimiter: Byte := 0xDE

  /** A caller's buffer, which may be `NULL`. */
  datatype Buffer = Null | Buf(bytes: seq<Byte>)

  // ---------------------------------------------------------------------
  // Reference definitions

  /** The number of 1-bits of a byte: the inner loop over bits `0..7`. */
  function BitCount(b: nat): nat {
    if b == 0 then 0 else b % 2 + BitCount(b / 2)
  }

  /** The number of 1-bits of a byte sequence. */
  function Ones(s: seq<Byte>): nat {
    if s == [] then 0 else BitCount(s[0]) + Ones(s[1..])
  }

  /** How many bytes of `s` equal `v`. */
  function Occurrences(s: seq<Byte>, v: Byte): (n: nat)
    ensures n <= |s|
  {
    if s == [] then 0 else (if s[0] == v then 1 else 0) + Occurrences(s[1..], v)
  }

  /** One input byte as written into the packed frame. */
  function Escape(b: Byte): seq<Byte> {
    if b == Delimiter then [Delimiter, b] else [b]
  }

  /** The body of a packed frame: every byte, delimiters doubled. */
  function Stuff(s: seq<Byte>): seq<Byte> {
    if s == [] then [] else Escape(s[0]) + Stuff(s[1..])
  }

  /** The parity byte of `body`: the 8-bit tally of its 1-bits, masked to
      its lowest bit. */
  function ParityByte(body: seq<Byte>): (p: Byte)
    ensures p == Ones(body) % 2
  {
    ModModTwo(Ones(body));
    (Ones(body) % 256) % 2
  }

  /** The packed form of a non-empty frame. */
  function Packed(x: seq<Byte>): seq<Byte> {
    var body := [Delimiter] + Stuff(x);
    body + [ParityByte(body)]
  }

  /** `o` with `a` in front of its value. */
  function Prepend(a: seq<Byte>, o: Option<seq<Byte>>): Option<seq<Byte>> {
    match o
    case None => None
    case Some(r) => Some(a + r)
  }

  /** The unstuffing loop of `UnpackFrame` from index `i`, ending before
      index `last` (`frame_length - 1`): `None` when a delimiter is followed
      by anything but a delimiter. The byte after a delimiter may be the
      one at `last` itself. */
  function UnstuffFrom(p: seq<Byte>, i: int, last: int): Option<seq<Byte>>
    requires 0 <= i && last < |p|
    decreases last - i
  {
    if i >= last then Some([])
    else if p[i] == Delimiter then
      if p[i + 1] != Delimiter then None
      else Prepend([Delimiter], UnstuffFrom(p, i + 2, last))
    else Prepend([p[i]], UnstuffFrom(p, i + 1, last))
  }

  /** What `UnpackFrame` produces from the first `n` bytes of a packed
      frame: the unpacked bytes, or `None` for -1. */
  function Unpacked(p: seq<Byte>): Option<seq<Byte>>
    requires |p| >= 1
  {
    if Ones(p) % 2 == 1 then None else UnstuffFrom(p, 1, |p| - 1)
  }

  // ---------------------------------------------------------------------
  // The two routines

  /** `PackFrame(unpacked_frame, packed_frame, frame_length)`: the return
      value and the bytes written to `packed_frame`. */
  method PackFrame(unpacked: Buffer, packed: Buffer, frameLength: int) returns (n: int, out: seq<Byte>)
    requires unpacked.Buf? ==> frameLength <= |unpacked.bytes|
    ensures n == -1 <==> unpacked.Null? || packed.Null? || frameLength <= 0
    ensures n != -1 ==> out == Packed(unpacked.bytes[..frameLength]) && n == |out|
    ensures n == -1 ==> out == []
  {
    if unpacked.Null? || packed.Null? || frameLength <= 0 {
      return -1, [];
    }
    var x := unpacked.bytes[..frameLength];
    out := [Delimiter];
    var i := 0;
    while i < frameLength
      invariant 0 <= i <= frameLength
      invariant out == [Delimiter] + Stuff(x[..i])
    {
      StuffAppend(x[..i], [x[i]]);
      assert x[..i + 1] == x[..i] + [x[i]];
      if x[i] == Delimiter {
        out := out + [Delimiter];
      }
      out := out + [x[i]];
      i := i + 1;
    }
    assert x[..frameLength] == x;
    var tally := ParityTally(out);
    out := out + [tally % 2];
    n := |out|;
  }

  /** The 8-bit tally of the 1-bits of `s`, counted one bit at a time as
      the parity loops do; it wraps at 256. */
  method ParityTally(s: seq<Byte>) returns (tally: Byte)
    ensures tally == Ones(s) % 256
    ensures tally % 2 == Ones(s) % 2
  {
    tally := 0;
    var j := 0;
    while j < |s|
      invariant 0 <= j <= |s|
      invariant tally == Ones(s[..j]) % 256
    {
      var b := s[j];
      tally := CountBits(tally, b);
      AddMod(Ones(s[..j]), BitCount(b));
      OnesAppend(s[..j], [b]);
      assert Ones([b]) == BitCount(b);
      assert s[..j + 1] == s[..j] + [b];
      j := j + 1;
    }
    assert s[..|s|] == s;
    ModModTwo(Ones(s));
  }

  /** The inner loop: add the 1-bits of `b` to the 8-bit tally, one bit at
      a time. */
  method CountBits(tally0: Byte, b: Byte) returns (tally: Byte)
    ensures tally == (tally0 + BitCount(b)) % 256
  {
    tally := tally0;
    var k := 0;
    var bits: nat := b;
    ghost var done: nat := 0;
    while k < 8
      invariant 0 <= k <= 8
      invariant bits < BitsBound[k]
      invariant tally == (tally0 + done) % 256
      invariant done + BitCount(bits) == BitCount(b)
    {
      BitCountUnfold(bits);
      if bits % 2 == 1 {
        AddMod(tally0 + done, 1);
        tally := (tally + 1) % 256;
        done := done + 1;
      }
      bits := bits / 2;
      k := k + 1;
    }
  }

  /** `BitsBound[k]`: the bound on what is left of a byte after `k` shifts. */
  const BitsBound: seq<nat> := [256, 128, 64, 32, 16, 8, 4, 2, 1]

  lemma BitCountUnfold(b: nat)
    ensures BitCount(b) == b % 2 + BitCount(b / 2)
  {
  }

  /** `UnpackFrame(unpacked_frame, packed_frame, frame_length)`: the return
      value and, on success, the bytes written to `unpacked_frame`. */
  method UnpackFrame(unpacked: Buffer, packed: Buffer, frameLength: int) returns (n: int, out: seq<Byte>)
    requires packed.Buf? ==> frameLength <= |packed.bytes|
    ensures unpacked.Null? || packed.Null? || frameLength <= 0 ==> n == -1
    ensures !(unpacked.Null? || packed.Null? || frameLength <= 0) ==>
      var u := Unpacked(packed.bytes[..frameLength]);
      && (n == -1 <==> u.None?)
      && (u.Some? ==> out == u.value && n == |out|)
  {
    if unpacked.Null? || packed.Null? || frameLength <= 0 {
      return -1, [];
    }
    var p := packed.bytes[..frameLength];
    var tally := ParityTally(p);
    if tally % 2 == 1 {
      return -1, [];
    }
    out := [];
    PrependEmpty(UnstuffFrom(p, 1, frameLength - 1));
    var i := 1;
    while i < frameLength - 1
      invariant 1 <= i <= frameLength
      invariant UnstuffFrom(p, 1, frameLength - 1) == Prepend(out, UnstuffFrom(p, i, frameLength - 1))
      decreases frameLength - i
    {
      if p[i] == Delimiter {
        i := i + 1;
        if p[i] != Delimiter {
          return -1, [];
        }
      }
      PrependTwice(out, [p[i]], UnstuffFrom(p, i + 1, frameLength - 1));
      out := out + [p[i]];
      i := i + 1;
    }
    return |out|, out;
  }

  // ---------------------------------------------------------------------
  // Properties

  /** The packed frame opens with the delimiter, and is the input plus one
      byte per delimiter in it, plus the leading delimiter and the parity
      byte. */
  lemma PackedShape(x: seq<Byte>)
    ensures Packed(x)[0] == Delimiter
    ensures |Packed(x)| == |x| + Occurrences(x, Delimiter) + 2
    ensures Packed(x)[1..|Packed(x)| - 1] == Stuff(x)
  {
    StuffLength(x);
  }

  /** The parity byte makes the number of 1-bits of the whole packed frame
      even, although the tally wraps at 256. */
  lemma PackedParityEven(x: seq<Byte>)
    ensures Ones(Packed(x)) % 2 == 0
  {
    var body := [Delimiter] + Stuff(x);
    OnesAppend(body, [ParityByte(body)]);
    assert Ones([ParityByte(body)]) == BitCount(ParityByte(body));
  }

  /** Round trip: unpacking a packed non-empty frame returns its length and
      its bytes. */
  lemma PackUnpack(x: seq<Byte>)
    requires x != []
    ensures Unpacked(Packed(x)) == Some(x)
  {
    var p := Packed(x);
    PackedParityEven(x);
    StuffLength(x);
    var last := |p| - 1;
    var body := [Delimiter] + Stuff(x);
    assert p == body + [ParityByte(body)];
    assert p[1..1 + |Stuff(x)|] == body[1..] == Stuff(x);
    UnstuffPrefix(p, 1, last, x);
    assert 1 + |Stuff(x)| == last;
    assert x + [] == x;
  }

  /** The same for the two routines: unpacking what `PackFrame` wrote, with
      the length it returned, yields the original frame and its length. */
  method PackThenUnpack(x: seq<Byte>) returns (n: int, out: seq<Byte>)
    requires x != []
    ensures n == |x| && out == x
  {
    var m, packed := PackFrame(Buf(x), Buf([]), |x|);
    assert x[..|x|] == x;
    PackUnpack(x);
    n, out := UnpackFrame(Buf([]), Buf(packed), m);
    assert packed[..m] == packed;
  }

  /** A frame with an odd number of 1-bits is rejected. */
  lemma OddParityRejected(p: seq<Byte>)
    requires |p| >= 1 && Ones(p) % 2 == 1
    ensures Unpacked(p) == None
  {
  }

  /** A delimiter inside the body that is not followed by a second one is
      rejected, even when the byte after it is the parity byte. */
  lemma LoneDelimiterRejected(p: seq<Byte>, a: seq<Byte>, c: Byte)
    requires c != Delimiter
    requires |p| >= |Stuff(a)| + 3
    requires p[1..|Stuff(a)| + 3] == Stuff(a) + [Delimiter, c]
    ensures Unpacked(p) == None
  {
    var k := 1 + |Stuff(a)|;
    assert p[1..k] == p[1..k + 2][..k - 1];
    assert p[k] == p[1..k + 2][k - 1];
    assert p[k + 1] == p[1..k + 2][k];
    UnstuffPrefix(p, 1, |p| - 1, a);
    assert p[k] == Delimiter && p[k + 1] == c;
  }

  // ---------------------------------------------------------------------
  // Helpers

  lemma AddMod(a: nat, c: nat)
    ensures (a % 256 + c) % 256 == (a + c) % 256
  {
    assert a == 256 * (a / 256) + a % 256;
    assert a + c == (a % 256 + c) + 256 * (a / 256);
  }

  lemma ModModTwo(n: nat)
    ensures (n % 256) % 2 == n % 2
  {
    assert n == 256 * (n / 256) + n % 256;
    assert 256 * (n / 256) == 2 * (128 * (n / 256));
  }

  lemma {:induction false} OnesAppend(a: seq<Byte>, b: seq<Byte>)
    ensures Ones(a + b) == Ones(a) + Ones(b)
  {
    if a != [] {
      assert (a + b)[1..] == a[1..] + b;
      OnesAppend(a[1..], b);
    } else {
      assert a + b == b;
    }
  }

  lemma {:induction false} StuffAppend(a: seq<Byte>, b: seq<Byte>)
    ensures Stuff(a + b) == Stuff(a) + Stuff(b)
  {
    if a != [] {
      assert (a + b)[1..] == a[1..] + b;
      StuffAppend(a[1..], b);
    } else {
      assert a + b == b;
    }
  }

  lemma {:induction false} StuffLength(x: seq<Byte>)
    ensures |Stuff(x)| == |x| + Occurrences(x, Delimiter)
  {
    if x != [] {
      StuffLength(x[1..]);
    }
  }

  lemma PrependEmpty(o: Option<seq<Byte>>)
    ensures Prepend([], o) == o
  {
    if o.Some? {
      assert [] + o.value == o.value;
    }
  }

  lemma PrependTwice(a: seq<Byte>, b: seq<Byte>, o: Option<seq<Byte>>)
    ensures Prepend(a, Prepend(b, o)) == Prepend(a + b, o)
  {
    if o.Some? {
      assert a + (b + o.value) == (a + b) + o.value;
    }
  }

  /** Unstuffing a stretch that holds `Stuff(a)` yields `a` in front of
      whatever follows. */
  lemma {:induction false} UnstuffPrefix(p: seq<Byte>, i: int, last: int, a: seq<Byte>)
    requires 0 <= i && last < |p| && i + |Stuff(a)| <= last
    requires p[i..i + |Stuff(a)|] == Stuff(a)
    ensures UnstuffFrom(p, i, last) == Prepend(a, UnstuffFrom(p, i + |Stuff(a)|, last))
    decreases |a|
  {
    if a == [] {
      assert |Stuff(a)| == 0;
      PrependEmpty(UnstuffFrom(p, i, last));
    } else {
      var e := Escape(a[0]);
      var rest := Stuff(a[1..]);
      var j := i + |e|;
      assert i + |Stuff(a)| == j + |rest| && p[i..j] == e && p[j..j + |rest|] == rest by {
        assert Stuff(a) == e + rest;
        SliceSplit(p, i, e, rest);
      }
      UnstuffEscape(p, i, last, a[0]);
      UnstuffPrefix(p, j, last, a[1..]);
      UnstuffCons(UnstuffFrom(p, i, last), UnstuffFrom(p, j, last), a, UnstuffFrom(p, j + |rest|, last));
    }
  }

  /** The chaining step of `UnstuffPrefix`: the first byte of `a` in front
      of the rest of `a` in front of `tail`. */
  lemma UnstuffCons(whole: Option<seq<Byte>>, after: Option<seq<Byte>>, a: seq<Byte>, tail: Option<seq<Byte>>)
    requires a != []
    requires whole == Prepend([a[0]], after) && after == Prepend(a[1..], tail)
    ensures whole == Prepend(a, tail)
  {
    PrependTwice([a[0]], a[1..], tail);
    assert [a[0]] + a[1..] == a;
  }

  /** A stretch holding `u + v` holds `u` and then `v`. */
  lemma SliceSplit(p: seq<Byte>, i: int, u: seq<Byte>, v: seq<Byte>)
    requires 0 <= i && i + |u| + |v| <= |p| && p[i..i + |u| + |v|] == u + v
    ensures p[i..i + |u|] == u && p[i + |u|..i + |u| + |v|] == v
  {
    assert p[i..i + |u|] == p[i..i + |u| + |v|][..|u|];
    assert p[i + |u|..i + |u| + |v|] == p[i..i + |u| + |v|][|u|..];
  }

  /** One escaped byte is unstuffed back to itself. */
  lemma UnstuffEscape(p: seq<Byte>, i: int, last: int, b: Byte)
    requires 0 <= i && last < |p| && i + |Escape(b)| <= last
    requires p[i..i + |Escape(b)|] == Escape(b)
    ensures UnstuffFrom(p, i, last) == Prepend([b], UnstuffFrom(p, i + |Escape(b)|, last))
  {
    assert p[i] == Escape(b)[0];
    if b == Delimiter {
      assert p[i + 1] == Escape(b)[1];
    }
  }
}
