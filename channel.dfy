/**
 * The channel embedder: a message's bits are written into the least
 * significant bits of a flat buffer of 8-bit samples (the image's channel
 * values in numpy's flattening order), and read back from them.
 */
module Channel {

  import opened BitCodec

  /** One channel value of the uint8 image. */
  type Sample = x: int | 0 <= x < 256

  /** _make_img_even: clears the least significant bit of every sample. */
  function MakeImgEven(img: seq<Sample>): (even: seq<Sample>)
    ensures |even| == |img|
    ensures forall i :: 0 <= i < |img| ==> even[i] % 2 == 0 && even[i] <= img[i] && img[i] - even[i] <= 1
  {
    seq(|img|, i requires 0 <= i < |img| => img[i] - img[i] % 2)
  }

  /** img_array % 2: the least significant bit of every sample, in order. */
  function Lsbs(img: seq<Sample>): (bits: seq<Bit>)
    ensures |bits| == |img|
    ensures forall i :: 0 <= i < |img| ==> img[i] == 2 * (img[i] / 2) + bits[i]
  {
    seq(|img|, i requires 0 <= i < |img| => img[i] % 2)
  }

  /**
   * The buffer _insert_msg leaves: every sample made even, and then the i-th
   * bit added to the i-th sample of the prefix the bits cover. Each sample
   * keeps its upper seven bits; its lowest bit becomes the payload bit, or 0
   * past the payload.
   */
  function Embed(img: seq<Sample>, bits: seq<Bit>): (stamped: seq<Sample>)
    requires |bits| <= |img|
    ensures |stamped| == |img|
    ensures forall i :: 0 <= i < |img| ==> stamped[i] / 2 == img[i] / 2
    ensures forall i :: 0 <= i < |bits| ==> stamped[i] % 2 == bits[i]
    ensures forall i :: |bits| <= i < |img| ==> stamped[i] % 2 == 0
    ensures forall i :: 0 <= i < |img| ==> -1 <= stamped[i] as int - img[i] as int <= 1
  {
    var even := MakeImgEven(img);
    seq(|img|, i requires 0 <= i < |img| => even[i] + if i < |bits| then bits[i] else 0)
  }

  /** A buffer holding the even samples plus the bits over the prefix is the embedded buffer. */
  lemma EmbedIsEvenPlusBits(img: seq<Sample>, bits: seq<Bit>, out: seq<Sample>)
    requires |bits| <= |img| && |out| == |img|
    requires forall j :: 0 <= j < |bits| ==> out[j] == MakeImgEven(img)[j] + bits[j]
    requires forall j :: |bits| <= j < |img| ==> out[j] == MakeImgEven(img)[j]
    ensures out == Embed(img, bits)
  {
  }

  /** Reading the LSBs of an embedded buffer gives the payload, then zeros to the end. */
  lemma LsbsOfEmbed(img: seq<Sample>, bits: seq<Bit>)
    requires |bits| <= |img|
    ensures Lsbs(Embed(img, bits)) == bits + Zeros(|img| - |bits|)
  {
    var lsbs := Lsbs(Embed(img, bits));
    var expected := bits + Zeros(|img| - |bits|);
    assert |lsbs| == |expected|;
    forall i | 0 <= i < |img|
      ensures lsbs[i] == expected[i]
    {
      if i >= |bits| {
        assert expected[i] == Zeros(|img| - |bits|)[i - |bits|];
      }
    }
  }

  /** Embedding depends on the samples only through their even parts. */
  lemma EmbedOfEven(img: seq<Sample>, bits: seq<Bit>)
    requires |bits| <= |img|
    ensures Embed(MakeImgEven(img), bits) == Embed(img, bits)
  {
    var a := Embed(MakeImgEven(img), bits);
    var b := Embed(img, bits);
    forall i | 0 <= i < |img|
      ensures a[i] == b[i]
    {
      assert a[i] == 2 * (a[i] / 2) + a[i] % 2;
      assert b[i] == 2 * (b[i] / 2) + b[i] % 2;
    }
  }

  /** Embedding the same bits again into an embedded buffer changes nothing. */
  lemma EmbedReplay(img: seq<Sample>, bits: seq<Bit>)
    requires |bits| <= |img|
    ensures Embed(Embed(img, bits), bits) == Embed(img, bits)
  {
    var once := Embed(img, bits);
    var twice := Embed(once, bits);
    forall i | 0 <= i < |img|
      ensures twice[i] == once[i]
    {
      assert twice[i] == 2 * (twice[i] / 2) + twice[i] % 2;
      assert once[i] == 2 * (once[i] / 2) + once[i] % 2;
    }
  }
}
