/** UTF-8 (RFC 3629, section 4): the encoder, the Go decoder as a table of byte
    ranges, and the Python decoder as bit assembly with range tests. */
module Utf8 {
  import opened Core

  function Encode(c: char): (b: bytes)
    ensures 1 <= |b| <= 4
  {
    var n := c as int;
    if n < 0x80 then [n]
    else if n < 0x800 then [0xC0 + n / 64, 0x80 + n % 64]
    else if n < 0x10000 then [0xE0 + n / 4096, 0x80 + n / 64 % 64, 0x80 + n % 64]
    else [0xF0 + n / 262144, 0x80 + n / 4096 % 64, 0x80 + n / 64 % 64, 0x80 + n % 64]
  }

  predicate Tail(b: byte) {
    0x80 <= b <= 0xBF
  }

  /** Append the six payload bits of a tail byte. */
  function Join(high: int, tail: int): int {
    high * 64 + tail - 0x80
  }

  datatype Rune = Rune(scalar: char, size: nat)

  /** utf8.DecodeRune. None stands for its (RuneError, size <= 1) answer. */
  function DecodeRune(b: bytes): (r: Option<Rune>)
    ensures r.Some? ==> 1 <= r.value.size <= |b|
  {
    if b == [] then None
    else if b[0] < 0x80 then Some(Rune(b[0] as char, 1))
    else if 0xC2 <= b[0] <= 0xDF then
      if |b| >= 2 && Tail(b[1])
      then Some(Rune(Join(b[0] - 0xC0, b[1]) as char, 2)) else None
    else if 0xE0 <= b[0] <= 0xEF then
      if |b| >= 3 && Tail(b[1]) && Tail(b[2])
         && (b[0] == 0xE0 ==> b[1] >= 0xA0) && (b[0] == 0xED ==> b[1] <= 0x9F)
      then Some(Rune(Join(Join(b[0] - 0xE0, b[1]), b[2]) as char, 3)) else None
    else if 0xF0 <= b[0] <= 0xF4 then
      if |b| >= 4 && Tail(b[1]) && Tail(b[2]) && Tail(b[3])
         && (b[0] == 0xF0 ==> b[1] >= 0x90) && (b[0] == 0xF4 ==> b[1] <= 0x8F)
      then Some(Rune(Join(Join(Join(b[0] - 0xF0, b[1]), b[2]), b[3]) as char, 4))
      else None
    else None
  }

  lemma DecodeEncoded(c: char, rest: bytes)
    ensures DecodeRune(Encode(c) + rest) == Some(Rune(c, |Encode(c)|))
  {
    hide DecodeRune;
    if c as int >= 0x10000 {
      DecodeFour(c, rest);
    } else if c as int >= 0x800 {
      DecodeThree(c, rest);
    } else {
      DecodeShort(c, rest);
    }
  }

  lemma DecodeShort(c: char, rest: bytes)
    requires c as int < 0x800
    ensures DecodeRune(Encode(c) + rest) == Some(Rune(c, |Encode(c)|))
  {
  }

  lemma DecodeThree(c: char, rest: bytes)
    requires 0x800 <= c as int < 0x10000
    ensures DecodeRune(Encode(c) + rest) == Some(Rune(c, 3))
  {
    var n := c as int;
    assert n / 4096 * 64 + n / 64 % 64 == n / 64;
    if n / 4096 == 0xD {
      assert n < 0xD800;
    }
  }

  lemma DecodeFour(c: char, rest: bytes)
    requires c as int >= 0x10000
    ensures DecodeRune(Encode(c) + rest) == Some(Rune(c, 4))
  {
    var n := c as int;
    assert 1 <= n / 65536 <= 16;
    assert n / 262144 * 64 + n / 4096 % 64 == n / 4096;
    assert n / 4096 * 64 + n / 64 % 64 == n / 64;
  }

  /** Only the shortest form is accepted: what was decoded is the encoding of the
      answer. */
  lemma EncodeDecoded(b: bytes)
    requires DecodeRune(b).Some?
    ensures b[..DecodeRune(b).value.size] == Encode(DecodeRune(b).value.scalar)
  {
    var r := DecodeRune(b).value;
    var n := r.scalar as int;
    if r.size == 2 {
      JoinSplits(b[0] - 0xC0, b[1]);
    } else if r.size == 3 {
      var x := Join(b[0] - 0xE0, b[1]);
      JoinSplits(b[0] - 0xE0, b[1]);
      JoinSplits(x, b[2]);
      assert n / 4096 == x / 64;
    } else if r.size == 4 {
      var x := Join(b[0] - 0xF0, b[1]);
      var y := Join(x, b[2]);
      JoinSplits(b[0] - 0xF0, b[1]);
      JoinSplits(x, b[2]);
      JoinSplits(y, b[3]);
      assert n / 4096 == y / 64 && n / 262144 == x / 64;
    }
  }

  lemma JoinSplits(high: int, tail: byte)
    requires Tail(tail)
    ensures Join(high, tail) / 64 == high && Join(high, tail) % 64 == tail - 0x80
  {
  }

  // ----- the Python rail -----

  /** _utf8_seq_len: the length a lead byte announces, 0 for no lead byte. */
  function SequenceLength(lead: byte): nat {
    if 0xC2 <= lead <= 0xDF then 2
    else if 0xE0 <= lead <= 0xEF then 3
    else if 0xF0 <= lead <= 0xF4 then 4
    else 0
  }

  /** The payload bits of the bytes after a lead byte, appended to `high`; None if
      one of them is no tail byte. */
  function Assemble(high: int, tail: bytes): (n: Option<int>)
    decreases |tail|
  {
    if tail == [] then Some(high)
    else if !Tail(tail[0]) then None
    else Assemble(Join(high, tail[0]), tail[1..])
  }

  /** bytes.decode("utf-8") on one announced sequence of two to four bytes: assemble
      the bits, then refuse overlong forms, surrogates and values past U+10FFFF. */
  function StrictDecode(b: bytes): Option<char>
    requires 2 <= |b| <= 4
  {
    var mark := if |b| == 2 then 0xC0 else if |b| == 3 then 0xE0 else 0xF0;
    var least := if |b| == 2 then 0x80 else if |b| == 3 then 0x800 else 0x10000;
    var lead: int := b[0];
    var n := Assemble(lead - mark, b[1..]);
    if n.None? || n.value < least || 0xD800 <= n.value < 0xE000 || n.value > 0x10FFFF then None
    else Some(n.value as char)
  }

  lemma AssembleTail(high: int, tail: bytes)
    ensures 1 <= |tail| <= 3 && !Tail(tail[|tail| - 1]) ==> Assemble(high, tail) == None
    ensures |tail| == 1 && Tail(tail[0]) ==> Assemble(high, tail) == Some(Join(high, tail[0]))
    ensures |tail| == 2 && Tail(tail[1]) ==>
      (Assemble(high, tail) == if Tail(tail[0]) then Some(Join(Join(high, tail[0]), tail[1])) else None)
    ensures |tail| == 3 && Tail(tail[2]) ==>
      (Assemble(high, tail) ==
       if Tail(tail[0]) && Tail(tail[1]) then Some(Join(Join(Join(high, tail[0]), tail[1]), tail[2])) else None)
    decreases |tail|
  {
    if tail != [] {
      AssembleTail(Join(high, tail[0]), tail[1..]);
    }
  }

  /** The two decoders agree on every sequence that starts with a byte >= 0x80. */
  lemma RailsDecodeAlike(b: bytes)
    requires b != [] && b[0] >= 0x80
    ensures var size := SequenceLength(b[0]);
            DecodeRune(b) ==
            if size == 0 || size > |b| || StrictDecode(b[..size]).None? then None
            else Some(Rune(StrictDecode(b[..size]).value, size))
  {
    var size := SequenceLength(b[0]);
    if 2 <= size <= |b| {
      var p := b[..size];
      assert forall i :: 0 <= i < size ==> p[i] == b[i];
      var mark := if size == 2 then 0xC0 else if size == 3 then 0xE0 else 0xF0;
      var lead: int := b[0];
      AssembleTail(lead - mark, p[1..]);
    }
  }

  // ----- whole strings -----

  function EncodeString(s: string): bytes {
    if s == [] then [] else Encode(s[0]) + EncodeString(s[1..])
  }

  lemma {:induction false} EncodeStringInjective(s: string, t: string)
    requires EncodeString(s) == EncodeString(t)
    ensures s == t
  {
    if s == [] || t == [] {
    } else {
      DecodeEncoded(s[0], EncodeString(s[1..]));
      DecodeEncoded(t[0], EncodeString(t[1..]));
      assert EncodeString(s)[|Encode(s[0])|..] == EncodeString(s[1..]);
      assert EncodeString(t)[|Encode(t[0])|..] == EncodeString(t[1..]);
      EncodeStringInjective(s[1..], t[1..]);
      assert s == [s[0]] + s[1..] && t == [t[0]] + t[1..];
    }
  }

  lemma {:induction false} EncodeStringAppend(s: string, t: string)
    ensures EncodeString(s + t) == EncodeString(s) + EncodeString(t)
  {
    if s == [] {
      assert s + t == t;
    } else {
      assert (s + t)[1..] == s[1..] + t;
      EncodeStringAppend(s[1..], t);
    }
  }
}
