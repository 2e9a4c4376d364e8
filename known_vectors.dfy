/** The known-answer vectors of the steganographer's tests, as facts about the model. */
module KnownVectors {

  import opened BitCodec

  /** The test's "Hello!" vector: the 7-bit groups of H, e, l, l, o and !, flattened in order. */
  function HelloBits(): (bits: seq<Bit>)
    ensures |bits| == 42
  {
    [1, 0, 0, 1, 0, 0, 0] +
    [1, 1, 0, 0, 1, 0, 1] +
    [1, 1, 0, 1, 1, 0, 0] +
    [1, 1, 0, 1, 1, 0, 0] +
    [1, 1, 0, 1, 1, 1, 1] +
    [0, 1, 0, 0, 0, 0, 1]
  }

  function Weighted7(g: seq<Bit>): int
    requires |g| == 7
  {
    64 * g[0] as int + 32 * g[1] as int + 16 * g[2] as int + 8 * g[3] as int + 4 * g[4] as int + 2 * g[5] as int + g[6] as int
  }

  /** The value of a 7-bit group, written out with its weights. */
  lemma Value7(g: seq<Bit>)
    requires |g| == 7
    ensures Value(g) == Weighted7(g)
  {
    assert Value(g[6..]) == g[6] by { assert g[6..][1..] == []; }
    assert Value(g[5..]) == 2 * g[5] as int + Value(g[6..]) by { assert g[5..][1..] == g[6..]; }
    assert Value(g[4..]) == 4 * g[4] as int + Value(g[5..]) by { assert g[4..][1..] == g[5..]; }
    assert Value(g[3..]) == 8 * g[3] as int + Value(g[4..]) by { assert g[3..][1..] == g[4..]; }
    assert Value(g[2..]) == 16 * g[2] as int + Value(g[3..]) by { assert g[2..][1..] == g[3..]; }
    assert Value(g[1..]) == 32 * g[1] as int + Value(g[2..]) by { assert g[1..][1..] == g[2..]; }
  }

  /** A 7-bit group is the encoding of the character whose code point is its value. */
  lemma CharVector(c: char, g: seq<Bit>)
    requires |g| == 7 && c as int == Weighted7(g)
    ensures CharToBytesList(c) == g && BytesListToChar(g) == c
  {
    Value7(g);
    ValueInjective(CharToBytesList(c), g);
  }

  lemma CharVectors()
    ensures CharToBytesList('a') == [1, 1, 0, 0, 0, 0, 1]
    ensures CharToBytesList('!') == [0, 1, 0, 0, 0, 0, 1]
    ensures CharToBytesList(' ') == [0, 1, 0, 0, 0, 0, 0]
    ensures CharToBytesList('4') == [0, 1, 1, 0, 1, 0, 0]
    ensures CharToBytesList('Z') == [1, 0, 1, 1, 0, 1, 0]
  {
    CharVector('a', [1, 1, 0, 0, 0, 0, 1]);
    CharVector('!', [0, 1, 0, 0, 0, 0, 1]);
    CharVector(' ', [0, 1, 0, 0, 0, 0, 0]);
    CharVector('4', [0, 1, 1, 0, 1, 0, 0]);
    CharVector('Z', [1, 0, 1, 1, 0, 1, 0]);
  }

  lemma GroupVectors()
    ensures BytesListToChar([1, 1, 0, 0, 0, 0, 1]) == 'a'
    ensures BytesListToChar([0, 1, 0, 0, 0, 0, 1]) == '!'
    ensures BytesListToChar([0, 1, 0, 0, 0, 0, 0]) == ' '
    ensures BytesListToChar([0, 1, 1, 0, 1, 0, 0]) == '4'
    ensures BytesListToChar([1, 0, 1, 1, 0, 1, 0]) == 'Z'
  {
    CharVectors();
  }

  lemma HelloEncodes()
    ensures MsgBits("Hello!") == HelloBits()
  {
    HelloGroups();
    HelloCharVectors();
  }

  lemma HelloCharVectors()
    ensures CharToBytesList('H') == [1, 0, 0, 1, 0, 0, 0]
    ensures CharToBytesList('e') == [1, 1, 0, 0, 1, 0, 1]
    ensures CharToBytesList('l') == [1, 1, 0, 1, 1, 0, 0]
    ensures CharToBytesList('o') == [1, 1, 0, 1, 1, 1, 1]
    ensures CharToBytesList('!') == [0, 1, 0, 0, 0, 0, 1]
  {
    CharVector('H', [1, 0, 0, 1, 0, 0, 0]);
    CharVector('e', [1, 1, 0, 0, 1, 0, 1]);
    CharVector('l', [1, 1, 0, 1, 1, 0, 0]);
    CharVector('o', [1, 1, 0, 1, 1, 1, 1]);
    CharVector('!', [0, 1, 0, 0, 0, 0, 1]);
  }

  lemma HelloGroups()
    ensures MsgBits("Hello!") == CharToBytesList('H') + CharToBytesList('e') + CharToBytesList('l')
      + CharToBytesList('l') + CharToBytesList('o') + CharToBytesList('!')
  {
    assert "Hello!" == ['H', 'e', 'l', 'l', 'o', '!'];
    MsgBitsOfSix('H', 'e', 'l', 'l', 'o', '!');
  }

  lemma MsgBitsOfSix(c0: char, c1: char, c2: char, c3: char, c4: char, c5: char)
    ensures MsgBits([c0, c1, c2, c3, c4, c5]) == CharToBytesList(c0) + CharToBytesList(c1) + CharToBytesList(c2)
      + CharToBytesList(c3) + CharToBytesList(c4) + CharToBytesList(c5)
  {
    var m := [c0, c1, c2, c3, c4, c5];
    assert m == [c0, c1, c2] + [c3, c4, c5];
    MsgBitsAppend([c0, c1, c2], [c3, c4, c5]);
    MsgBitsOfThree(c0, c1, c2);
    MsgBitsOfThree(c3, c4, c5);
  }

  lemma MsgBitsOfThree(c0: char, c1: char, c2: char)
    ensures MsgBits([c0, c1, c2]) == CharToBytesList(c0) + CharToBytesList(c1) + CharToBytesList(c2)
  {
    assert [c0, c1, c2] == [c0] + [c1, c2];
    MsgBitsCons(c0, [c1, c2]);
    assert [c1, c2] == [c1] + [c2];
    MsgBitsCons(c1, [c2]);
    assert [c2] == [c2] + [];
    MsgBitsCons(c2, []);
  }

  lemma MsgBitsCons(c: char, rest: string)
    ensures MsgBits([c] + rest) == CharToBytesList(c) + MsgBits(rest)
  {
    assert ([c] + rest)[1..] == rest;
  }

  lemma HelloDecodes()
    ensures DecodeMsg(HelloBits()) == "Hello!"
  {
    HelloEncodes();
    assert Encodable("Hello!");
    DecodeMsgBitsAppend("Hello!", []);
    assert MsgBits("Hello!") + [] == HelloBits();
  }

  /** The decoder as written raises on the test's vector: it ends without a zero group. */
  lemma HelloAsWrittenRaises()
    ensures DecodeMsgAsWritten(HelloBits()).Err?
  {
    HelloDecodes();
    AsWrittenRaisesWithoutTerminator(HelloBits());
  }
}
