/**
 * The Steganographer object: it loads an image, flattens it into a sample
 * buffer, stamps a message into the buffer's least significant bits or reads
 * one out of them, and reshapes the buffer into the image that is saved.
 */
module Steganography {

  import opened BitCodec
  import opened Channel
  import opened Wrappers

  function Product(shape: seq<nat>): nat
  {
    if shape == [] then 1 else shape[0] * Product(shape[1..])
  }

  /** An image as the image store delivers it: its shape and its samples in flattening order. */
  datatype Image = Image(shape: seq<nat>, samples: seq<Sample>)
  {
    predicate WellFormed()
    {
      Product(shape) == |samples|
    }
  }

  /** The image encode_img saves for a loaded image and a message. */
  function EncodedImage(loaded: Image, msg: string): (saved: Image)
    requires |MsgBits(msg)| <= |loaded.samples|
    ensures saved.shape == loaded.shape && |saved.samples| == |loaded.samples|
    ensures loaded.WellFormed() ==> saved.WellFormed()
    ensures forall i :: 0 <= i < |loaded.samples| ==> saved.samples[i] / 2 == loaded.samples[i] / 2
    ensures forall i :: 0 <= i < |loaded.samples| ==> -1 <= saved.samples[i] as int - loaded.samples[i] as int <= 1
    ensures Lsbs(saved.samples) == MsgBits(msg) + Zeros(|loaded.samples| - |MsgBits(msg)|)
  {
    LsbsOfEmbed(loaded.samples, MsgBits(msg));
    Image(loaded.shape, Embed(loaded.samples, MsgBits(msg)))
  }

  /** The message decode_img returns for a loaded image. */
  function DecodedMessage(loaded: Image): (decoded: string)
    ensures 7 * |decoded| <= |loaded.samples|
    ensures forall k :: 0 <= k < |decoded| ==> 0 < decoded[k] as int < 128
  {
    DecodeMsg(Lsbs(loaded.samples))
  }

  class Steganographer {
    var img: Image
    var imgShape: seq<nat>
    var imgArray: array<Sample>
    var msg: string

    /** The recorded shape describes as many samples as the flat buffer holds. */
    ghost predicate ShapeMatchesArray()
      reads this
    {
      Product(imgShape) == imgArray.Length
    }

    /** Nothing is loaded yet: an empty image of shape [0]. */
    constructor ()
      ensures ShapeMatchesArray()
      ensures img == Image([0], []) && imgShape == [0] && imgArray.Length == 0 && msg == ""
    {
      img := Image([0], []);
      imgShape := [0];
      imgArray := new Sample[0];
      msg := "";
    }

    /** _load_img, with the image handed in: records the image and its shape. */
    method LoadImg(loaded: Image)
      modifies this`img, this`imgShape
      ensures img == loaded && imgShape == loaded.shape
    {
      img := loaded;
      imgShape := loaded.shape;
    }

    /** _make_img_array: a fresh flat buffer holding the image's samples. */
    method MakeImgArray()
      modifies this`imgArray
      ensures fresh(imgArray) && imgArray[..] == img.samples
    {
      var samples := img.samples;
      imgArray := new Sample[|samples|](i requires 0 <= i < |samples| => samples[i]);
    }

    /** _recreate_img: the buffer reshaped to the recorded shape. */
    method RecreateImg()
      requires ShapeMatchesArray()
      modifies this`img
      ensures img == Image(imgShape, imgArray[..]) && img.WellFormed()
    {
      img := Image(imgShape, imgArray[..]);
    }

    /**
     * _insert_msg: replaces the buffer by its even copy, adds the message's
     * bits into the prefix in place, and reshapes.
     */
    method InsertMsg(m: string)
      requires ShapeMatchesArray()
      requires |MsgBits(m)| <= imgArray.Length
      modifies this`imgArray, this`img
      ensures ShapeMatchesArray() && fresh(imgArray)
      ensures imgArray[..] == Embed(old(imgArray[..]), MsgBits(m))
      ensures img == Image(imgShape, imgArray[..])
    {
      var even := MakeImgEven(imgArray[..]);
      ghost var before := imgArray[..];
      imgArray := new Sample[|even|](i requires 0 <= i < |even| => even[i]);
      var msgBytes := MsgToBytesList(m);
      AddToPrefix(msgBytes);
      EmbedIsEvenPlusBits(before, msgBytes, imgArray[..]);
      RecreateImg();
    }

    /** img_array[: len(bits)] += bits, on a buffer whose samples are all even. */
    method AddToPrefix(bits: seq<Bit>)
      requires |bits| <= imgArray.Length
      requires forall j :: 0 <= j < imgArray.Length ==> imgArray[j] % 2 == 0
      modifies imgArray
      ensures forall j :: 0 <= j < |bits| ==> imgArray[j] == old(imgArray[j]) + bits[j]
      ensures forall j :: |bits| <= j < imgArray.Length ==> imgArray[j] == old(imgArray[j])
    {
      for i := 0 to |bits|
        invariant forall j :: 0 <= j < i ==> imgArray[j] == old(imgArray[j]) + bits[j]
        invariant forall j :: i <= j < imgArray.Length ==> imgArray[j] == old(imgArray[j])
      {
        imgArray[i] := imgArray[i] + bits[i];
      }
    }

    /** _extract_msg: the message decoded from the LSBs of the buffer. */
    method ExtractMsg()
      modifies this`msg
      ensures msg == DecodeMsg(Lsbs(imgArray[..]))
    {
      var msgBytes := Lsbs(imgArray[..]);
      var charList := BytesListToMsg(msgBytes);
      msg := charList;
    }

    /** encode_img: load, flatten, insert; the result is the image _save_img would write. */
    method EncodeImg(loaded: Image, m: string) returns (saved: Image)
      requires loaded.WellFormed()
      requires |MsgBits(m)| <= |loaded.samples|
      modifies this
      ensures saved == img && saved == EncodedImage(loaded, m) && saved.WellFormed()
      ensures imgShape == loaded.shape && fresh(imgArray) && imgArray[..] == saved.samples && msg == old(msg)
      ensures ShapeMatchesArray()
    {
      LoadImg(loaded);
      MakeImgArray();
      InsertMsg(m);
      saved := img;
    }

    /** decode_img: load, flatten, extract, and return the message. */
    method DecodeImg(loaded: Image) returns (r: string)
      modifies this
      ensures r == msg && r == DecodedMessage(loaded)
      ensures img == loaded && imgShape == loaded.shape && fresh(imgArray) && imgArray[..] == loaded.samples
    {
      LoadImg(loaded);
      MakeImgArray();
      ExtractMsg();
      r := msg;
    }
  }

  /** decode_img recovers what encode_img stored, for an encodable message that fits. */
  lemma RoundTrip(loaded: Image, m: string)
    requires Encodable(m) && 7 * |m| <= |loaded.samples|
    ensures |MsgBits(m)| <= |loaded.samples|
    ensures EncodedImage(loaded, m).shape == loaded.shape
    ensures DecodedMessage(EncodedImage(loaded, m)) == m
  {
    assert Ascii7(m);
    LsbsOfEmbed(loaded.samples, MsgBits(m));
    DecodeEncoded(m, |loaded.samples| - |MsgBits(m)|);
  }

  /** The same round trip for the decoder as written: it needs room for one zero group past the payload. */
  lemma RoundTripAsWritten(loaded: Image, m: string)
    requires Encodable(m) && 7 * |m| + 7 <= |loaded.samples|
    ensures DecodeMsgAsWritten(Lsbs(EncodedImage(loaded, m).samples)) == Ok(m)
  {
    RoundTrip(loaded, m);
    AsWrittenTerminated(Lsbs(EncodedImage(loaded, m).samples));
  }

  /** Bits that start with the group of a NUL character decode to nothing. */
  lemma NulStops(m: string, rest: seq<Bit>)
    requires Ascii7(m) && m != [] && m[0] == NUL
    ensures DecodeMsg(MsgBits(m) + rest) == []
  {
    var after := MsgBits(m) + rest;
    MsgBitsGroup(m, 0);
    assert after[..7] == CharToBytesList(NUL);
    ValueZeroIsZeros(CharToBytesList(NUL));
    FirstGroupZero(after);
  }

  /** A NUL character inside the message cuts the decoded message short at that point. */
  lemma NulTruncates(loaded: Image, m: string, k: nat)
    requires Ascii7(m) && 7 * |m| <= |loaded.samples|
    requires k < |m| && m[k] == NUL && Encodable(m[..k])
    ensures DecodedMessage(EncodedImage(loaded, m)) == m[..k]
  {
    var bits := MsgBits(m);
    var after := MsgBits(m[k..]) + Zeros(|loaded.samples| - |bits|);
    LsbsOfEmbed(loaded.samples, bits);
    assert m == m[..k] + m[k..];
    MsgBitsAppend(m[..k], m[k..]);
    assert Lsbs(EncodedImage(loaded, m).samples) == MsgBits(m[..k]) + after;
    NulStops(m[k..], Zeros(|loaded.samples| - |bits|));
    DecodeMsgBitsAppend(m[..k], after);
  }
}
