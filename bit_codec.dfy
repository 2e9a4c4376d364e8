/**
 * The bit codec of the steganographer: every character of a message becomes
 * the 7-bit binary form of its code point, most significant bit first, and a
 * bit list is read back 7 bits at a time until a group of value 0.
 */
module BitCodec {

  import opened Wrappers

  /** One payload bit, as the integers 0 and 1 that the source's lists hold. */
  type Bit = b: int | 0 <= b <= 1

  const NUL: char := 0 as char

  function Pow2(k: nat): (p: nat)
    ensures p >= 1
  {
    if k == 0 then 1 else 2 * Pow2(k - 1)
  }

  function Zeros(n: nat): (z: seq<Bit>)
    ensures |z| == n && forall i :: 0 <= i < n ==> z[i] == 0
  {
    seq(n, i => 0)
  }

  /** Reference meaning of a bit list: its unsigned value, most significant bit first. */
  function Value(bits: seq<Bit>): (v: nat)
    ensures v < Pow2(|bits|)
  {
    if bits == [] then 0 else bits[0] * Pow2(|bits| - 1) + Value(bits[1..])
  }

  lemma {:induction false} ValueSnoc(bits: seq<Bit>, b: Bit)
    ensures Value(bits + [b]) == 2 * Value(bits) + b
  {
    if bits != [] {
      assert (bits + [b])[1..] == bits[1..] + [b];
      ValueSnoc(bits[1..], b);
    }
  }

  lemma {:induction false} ValueOfZerosPrefix(n: nat, bits: seq<Bit>)
    ensures Value(Zeros(n) + bits) == Value(bits)
  {
    if n > 0 {
      var s := Zeros(n) + bits;
      assert s[0] == 0 && s[1..] == Zeros(n - 1) + bits;
      assert Value(s) == Value(s[1..]);
      ValueOfZerosPrefix(n - 1, bits);
    } else {
      assert Zeros(n) + bits == bits;
    }
  }

  /** Two bit lists of one length with the same value are the same list. */
  lemma {:induction false} ValueInjective(a: seq<Bit>, b: seq<Bit>)
    requires |a| == |b| && Value(a) == Value(b)
    ensures a == b
  {
    if a != [] {
      assert Value(a) == a[0] * Pow2(|a| - 1) + Value(a[1..]);
      assert Value(b) == b[0] * Pow2(|b| - 1) + Value(b[1..]);
      assert a[0] == b[0];
      ValueInjective(a[1..], b[1..]);
      assert a == [a[0]] + a[1..];
      assert b == [b[0]] + b[1..];
    }
  }

  lemma ValueZeroIsZeros(bits: seq<Bit>)
    requires Value(bits) == 0
    ensures bits == Zeros(|bits|)
  {
    ValueOfZerosPrefix(|bits|, []);
    assert Zeros(|bits|) + [] == Zeros(|bits|);
    ValueInjective(bits, Zeros(|bits|));
  }

  /** The digits of bin(n) after its "0b" prefix: no leading zeros, and [0] for 0. */
  function Digits(n: nat): (d: seq<Bit>)
    ensures |d| >= 1 && Value(d) == n
    decreases n
  {
    if n < 2 then [n]
    else
      ValueSnoc(Digits(n / 2), n % 2);
      Digits(n / 2) + [n % 2]
  }

  lemma {:induction false} DigitsLength(n: nat, w: nat)
    requires 1 <= w && n < Pow2(w)
    ensures |Digits(n)| <= w
    decreases n
  {
    if n >= 2 {
      assert w >= 2;
      DigitsLength(n / 2, w - 1);
    }
  }

  lemma {:induction false} Pow2Monotone(j: nat, k: nat)
    requires j <= k
    ensures Pow2(j) <= Pow2(k)
    decreases k
  {
    if j < k { Pow2Monotone(j, k - 1); }
  }

  /**
   * _char_to_bytes_list: the binary digits of the code point, padded on the
   * left with zeros to 7 bits. The padding is empty from code point 128 on,
   * so those characters give more than 7 bits.
   */
  function CharToBytesList(c: char): (bits: seq<Bit>)
    ensures Value(bits) == c as int
    ensures c as int < 128 ==> |bits| == 7
    ensures c as int >= 128 ==> |bits| > 7
  {
    var charBytes := Digits(c as int);
    var padding := if |charBytes| < 7 then Zeros(7 - |charBytes|) else [];
    ValueOfZerosPrefix(|padding|, charBytes);
    DigitsBounds(c as int);
    padding + charBytes
  }

  lemma DigitsBounds(n: nat)
    ensures n < 128 ==> |Digits(n)| <= 7
    ensures n >= 128 ==> |Digits(n)| > 7
  {
    if n < 128 {
      DigitsLength(n, 7);
    } else if |Digits(n)| <= 7 {
      Pow2Monotone(|Digits(n)|, 7);
    }
  }

  /** The weights [64, 32, 16, 8, 4, 2, 1] of a group of n = 7 bits. */
  function Weights(n: nat): (w: seq<nat>)
    ensures |w| == n
  {
    seq(n, i requires 0 <= i < n => Pow2(n - 1 - i))
  }

  /** np.sum(weights * bits) for lists of one length. */
  function Dot(weights: seq<nat>, bits: seq<Bit>): nat
    requires |weights| == |bits|
  {
    if bits == [] then 0 else weights[0] * bits[0] + Dot(weights[1..], bits[1..])
  }

  lemma {:induction false} DotWeightsIsValue(bits: seq<Bit>)
    ensures Dot(Weights(|bits|), bits) == Value(bits)
  {
    if bits != [] {
      assert Weights(|bits|)[1..] == Weights(|bits| - 1);
      DotWeightsIsValue(bits[1..]);
    }
  }

  /** _bytes_list_to_char: the character whose code point is the weighted sum of a 7-bit group. */
  function BytesListToChar(group: seq<Bit>): (c: char)
    requires |group| == 7
    ensures c as int == Value(group) && c as int < 128
  {
    var charOrd := Dot(Weights(7), group);
    DotWeightsIsValue(group);
    charOrd as char
  }

  lemma CharRoundTrip(c: char)
    requires c as int < 128
    ensures BytesListToChar(CharToBytesList(c)) == c
  {
  }

  lemma GroupRoundTrip(group: seq<Bit>)
    requires |group| == 7
    ensures CharToBytesList(BytesListToChar(group)) == group
  {
    ValueInjective(CharToBytesList(BytesListToChar(group)), group);
  }

  /** Every character of the message has a 7-bit code point. */
  predicate Ascii7(msg: string)
  {
    forall k :: 0 <= k < |msg| ==> msg[k] as int < 128
  }

  /** Every character is 7-bit and none is NUL: what a message must be to come back whole. */
  predicate Encodable(msg: string)
  {
    forall k :: 0 <= k < |msg| ==> 0 < msg[k] as int < 128
  }

  /** The bit list _msg_to_bytes_list builds: the characters' groups, in order. */
  function MsgBits(msg: string): (bits: seq<Bit>)
    ensures Ascii7(msg) ==> |bits| == 7 * |msg|
  {
    if msg == [] then [] else CharToBytesList(msg[0]) + MsgBits(msg[1..])
  }

  lemma {:induction false} MsgBitsAppend(a: string, b: string)
    ensures MsgBits(a + b) == MsgBits(a) + MsgBits(b)
  {
    if a == [] {
      assert a + b == b;
    } else {
      assert (a + b)[0] == a[0];
      assert (a + b)[1..] == a[1..] + b;
      MsgBitsAppend(a[1..], b);
    }
  }

  lemma {:induction false} MsgBitsGroup(msg: string, k: nat)
    requires Ascii7(msg) && k < |msg|
    ensures MsgBits(msg)[7 * k..7 * k + 7] == CharToBytesList(msg[k])
  {
    if k > 0 {
      MsgBitsGroup(msg[1..], k - 1);
      assert MsgBits(msg)[7 * k..7 * k + 7] == MsgBits(msg[1..])[7 * (k - 1)..7 * (k - 1) + 7];
    }
  }

  lemma MsgBitsSnoc(msg: string, c: char)
    ensures MsgBits(msg + [c]) == MsgBits(msg) + CharToBytesList(c)
  {
    MsgBitsAppend(msg, [c]);
    assert [c][1..] == [];
  }

  /** _msg_to_bytes_list: appends the group of each character in turn. */
  method MsgToBytesList(msg: string) returns (bytesList: seq<Bit>)
    ensures bytesList == MsgBits(msg)
  {
    bytesList := [];
    for i := 0 to |msg|
      invariant bytesList == MsgBits(msg[..i])
    {
      assert msg[..i + 1] == msg[..i] + [msg[i]];
      MsgBitsSnoc(msg[..i], msg[i]);
      bytesList := bytesList + CharToBytesList(msg[i]);
    }
    assert msg[..|msg|] == msg;
  }

  /**
   * What _bytes_list_to_msg returns: one character per 7-bit group, stopping
   * at the first group of value 0, and stopping as well when fewer than 7
   * bits are left.
   */
  function DecodeMsg(bits: seq<Bit>): (msg: string)
    ensures 7 * |msg| <= |bits|
    ensures forall k :: 0 <= k < |msg| ==> msg[k] == BytesListToChar(bits[7 * k..7 * k + 7])
    ensures forall k :: 0 <= k < |msg| ==> msg[k] != NUL
    ensures 7 * |msg| + 7 <= |bits| ==> BytesListToChar(bits[7 * |msg|..7 * |msg| + 7]) == NUL
    decreases |bits|
  {
    if |bits| < 7 then []
    else
      var c := BytesListToChar(bits[..7]);
      if c == NUL then []
      else
        var rest := DecodeMsg(bits[7..]);
        GroupsShift(bits);
        [c] + rest
  }

  /** The k-th group of a bit list is the (k-1)-th group of what follows its first group. */
  lemma GroupsShift(bits: seq<Bit>)
    requires |bits| >= 7
    ensures forall k :: 1 <= k && 7 * k + 7 <= |bits| ==> bits[7 * k..7 * k + 7] == bits[7..][7 * (k - 1)..7 * (k - 1) + 7]
  {
  }

  lemma FirstGroupZero(bits: seq<Bit>)
    requires |bits| >= 7 && bits[..7] == Zeros(7)
    ensures DecodeMsg(bits) == []
  {
    ValueOfZerosPrefix(7, []);
    assert Zeros(7) + [] == Zeros(7);
  }

  lemma DecodeGroupThen(group: seq<Bit>, tail: seq<Bit>)
    requires |group| == 7 && BytesListToChar(group) != NUL
    ensures DecodeMsg(group + tail) == [BytesListToChar(group)] + DecodeMsg(tail)
  {
    assert (group + tail)[..7] == group;
    assert (group + tail)[7..] == tail;
  }

  /** Decoding an encoded message followed by anything decodes the message, then what follows. */
  lemma {:induction false} DecodeMsgBitsAppend(msg: string, rest: seq<Bit>)
    requires Encodable(msg)
    ensures DecodeMsg(MsgBits(msg) + rest) == msg + DecodeMsg(rest)
  {
    if msg == [] {
      assert MsgBits(msg) + rest == rest;
    } else {
      assert Encodable(msg[1..]);
      DecodeMsgBitsAppend(msg[1..], rest);
      DecodeFirstChar(msg, rest);
      assert msg == [msg[0]] + msg[1..];
    }
  }

  lemma DecodeFirstChar(msg: string, rest: seq<Bit>)
    requires msg != [] && 0 < msg[0] as int < 128
    ensures DecodeMsg(MsgBits(msg) + rest) == [msg[0]] + DecodeMsg(MsgBits(msg[1..]) + rest)
  {
    var group := CharToBytesList(msg[0]);
    assert MsgBits(msg) + rest == group + (MsgBits(msg[1..]) + rest);
    CharRoundTrip(msg[0]);
    DecodeGroupThen(group, MsgBits(msg[1..]) + rest);
  }

  lemma DecodeZeros(n: nat)
    ensures DecodeMsg(Zeros(n)) == []
  {
    if n >= 7 {
      FirstGroupZero(Zeros(n));
    }
  }

  /** The decoder recovers an encodable message from its bits followed by zeros. */
  lemma DecodeEncoded(msg: string, n: nat)
    requires Encodable(msg)
    ensures DecodeMsg(MsgBits(msg) + Zeros(n)) == msg
  {
    DecodeMsgBitsAppend(msg, Zeros(n));
    DecodeZeros(n);
  }

  /** _bytes_list_to_msg: reads a group, stops on value 0, else appends its character and moves on 7 bits. */
  method BytesListToMsg(bytesList: seq<Bit>) returns (charList: string)
    ensures charList == DecodeMsg(bytesList)
  {
    charList := [];
    var i := 0;
    while true
      invariant 0 <= i <= |bytesList|
      invariant charList + DecodeMsg(bytesList[i..]) == DecodeMsg(bytesList)
      decreases |bytesList| - i
    {
      if i + 7 > |bytesList| {
        break;
      }
      var charBytes := bytesList[i..i + 7];
      assert bytesList[i..][..7] == charBytes;
      var c := BytesListToChar(charBytes);
      if c as int == 0 {
        break;
      }
      assert bytesList[i..][7..] == bytesList[i + 7..];
      charList := charList + [c];
      i := i + 7;
    }
  }

  /**
   * np.sum(weights * chunk) for the chunk that bytes_list[i : i + 7] gives
   * near the end of the list: a full group is summed, a single bit is
   * broadcast against all seven weights, and any other length makes numpy
   * raise a broadcast error.
   */
  function ChunkValueAsWritten(chunk: seq<Bit>): (r: Result<nat>)
    ensures r.Ok? <==> |chunk| == 7 || |chunk| == 1
    ensures |chunk| == 7 ==> r == Ok(Value(chunk))
    ensures |chunk| == 1 ==> r == Ok(127 * chunk[0] as int)
    ensures r.Ok? ==> r.value < 128
  {
    if |chunk| == 7 then
      DotWeightsIsValue(chunk);
      Ok(Dot(Weights(7), chunk))
    else if |chunk| == 1 then Ok(127 * (chunk[0] as int))
    else Err("operands could not be broadcast together")
  }

  /** _bytes_list_to_msg exactly as written, numpy errors included. */
  function DecodeMsgAsWritten(bits: seq<Bit>): (r: Result<string>)
    ensures r.Ok? ==> 7 * |r.value| <= |bits|
    ensures r.Ok? ==> forall k :: 0 <= k < |r.value| ==> r.value[k] != NUL
    decreases |bits|
  {
    var chunk := if |bits| < 7 then bits else bits[..7];
    match ChunkValueAsWritten(chunk)
    case Err(e) => Err(e)
    case Ok(v) =>
      if v == 0 then Ok([])
      else
        var rest := if |bits| < 7 then [] else bits[7..];
        match DecodeMsgAsWritten(rest)
        case Err(e) => Err(e)
        case Ok(tail) => Ok([v as char] + tail)
  }

  /** Whenever the code as written returns, it returns what DecodeMsg does. */
  lemma {:induction false} AsWrittenAgrees(bits: seq<Bit>)
    ensures DecodeMsgAsWritten(bits).Ok? ==> DecodeMsgAsWritten(bits).value == DecodeMsg(bits)
    decreases |bits|
  {
    if |bits| >= 7 {
      DotWeightsIsValue(bits[..7]);
      AsWrittenAgrees(bits[7..]);
    } else if |bits| == 1 && bits[0] == 1 {
      assert DecodeMsgAsWritten([]).Err?;
    }
  }

  /** The code as written returns normally when a group of value 0 is reached in range (and also on a 1-bit tail of 0). */
  lemma {:induction false} AsWrittenTerminated(bits: seq<Bit>)
    requires 7 * |DecodeMsg(bits)| + 7 <= |bits|
    ensures DecodeMsgAsWritten(bits) == Ok(DecodeMsg(bits))
    decreases |bits|
  {
    DotWeightsIsValue(bits[..7]);
    if BytesListToChar(bits[..7]) != NUL {
      assert DecodeMsg(bits) == [BytesListToChar(bits[..7])] + DecodeMsg(bits[7..]);
      AsWrittenTerminated(bits[7..]);
    }
  }

  /** As written, a bit list that runs out without a zero group and ends on a group boundary raises. */
  lemma {:induction false} AsWrittenRaisesWithoutTerminator(bits: seq<Bit>)
    requires |bits| % 7 == 0 && 7 * |DecodeMsg(bits)| == |bits|
    ensures DecodeMsgAsWritten(bits).Err?
    decreases |bits|
  {
    if |bits| > 0 {
      DotWeightsIsValue(bits[..7]);
      assert DecodeMsg(bits) == [BytesListToChar(bits[..7])] + DecodeMsg(bits[7..]);
      AsWrittenRaisesWithoutTerminator(bits[7..]);
    }
  }
}
