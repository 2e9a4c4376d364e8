# LSB steganography codec — a Dafny model

This project models the core of python-steganography: the `Steganographer`
class that hides a text message in the least significant bits (LSBs) of an
image's channel values and reads it back.

- **Bit codec** (`bit_codec.dfy`, module `BitCodec`). Each character becomes the
  binary digits of its code point, most significant bit first, padded on the left
  with zeros to 7 bits (`CharToBytesList`). A message is the concatenation of its
  characters' groups (`MsgBits`, computed by the loop `MsgToBytesList`). Going
  back, a 7-bit group is weighed by `[64, 32, …, 1]` and summed into a code point
  (`BytesListToChar`). A bit list is read group by group until a group of
  value 0, or until fewer than 7 bits remain (`DecodeMsg`, computed by the loop
  `BytesListToMsg`). No terminator is ever written. The zero group that stops
  decoding comes from the LSBs that embedding clears past the payload.
- **Channel embedder** (`channel.dfy`, module `Channel`). Samples are the uint8
  channel values of the flattened image (`Sample`, 0..255). `MakeImgEven` clears
  every LSB. `Embed` is the buffer that `_insert_msg` leaves: all LSBs cleared,
  then the payload bits added over the prefix. `Lsbs` is `img_array % 2`.
- **Pipeline** (`steganographer.dfy`, module `Steganography`). `Steganographer`
  is a class with the source's instance fields: the image, its shape, the flat
  sample array and the message. `InsertMsg` replaces the array by its even copy
  and adds the bits into its prefix in place. `ExtractMsg` decodes the LSBs.
  `EncodeImg` and `DecodeImg` run the steps in the source's order. The image is an
  `Image(shape, samples)` value. Flattening copies the samples into a fresh array,
  and reshaping wraps the array's contents with the recorded shape; both leave
  the contents unchanged. `RoundTrip` proves that decoding an encoded image
  returns the message.
- **Known vectors** (`known_vectors.dfy`, module `KnownVectors`). These are the
  test suite's character and "Hello!" vectors, proved as facts about the model.
- `wrappers.dfy` holds the `Result` type used for numpy's errors.

Where the code does not do what a reader might expect:
- The model follows the code: samples past the payload get their LSB cleared.
  They are not left unchanged.
- The model excludes this case: a payload longer than the buffer makes numpy
  raise a broadcast error at src/steganographer.py:75. It is not silently
  truncated. The model states the fit as a precondition and does not describe
  the error.
- The model follows the test, and one member follows the code: the test at
  tests/test_steganographer.py:51-63 expects "Hello!" from a vector with no zero
  group, so decoding must stop when fewer than 7 bits remain. The code does not
  stop cleanly there (see Findings). `DecodeMsg` takes the stopping
  behaviour, and so do the loop `BytesListToMsg` and the class's decoding
  (`ExtractMsg`, `DecodeImg`). Their results therefore differ from the code's on
  buffers that end without a zero group: the code raises on a buffer of 7·|m|
  samples or of 7·|m|+2 to 7·|m|+6 samples, which `RoundTrip` admits.
  `DecodeMsgAsWritten` models the code as written, and `RoundTripAsWritten`
  proves the round trip for it when 7 samples are to spare.

## Model

| member | source | states |
|---|---|---|
| `Channel.MakeImgEven` | src/steganographer.py:18-19 | same length; every sample becomes even, is at most the original, and is at most 1 below it |
| `BitCodec.CharToBytesList` | src/steganographer.py:22-27 | the bits' MSB-first value is the code point; exactly 7 bits below code point 128, more than 7 from 128 on |
| `BitCodec.DigitsBounds` | src/steganographer.py:23-25 | bin(n) has at most 7 digits below 128, and more than 7 digits from 128 on, so the list is longer than 7 exactly from 128 on |
| `BitCodec.DotWeightsIsValue` | src/steganographer.py:38-39 | the sum of the weights 2^(n-1-i) times the bits equals the reference MSB-first value |
| `BitCodec.BytesListToChar` | src/steganographer.py:37-41 | the character's code point is the group's MSB-first value, and it is below 128 |
| `BitCodec.CharRoundTrip` | src/steganographer.py:22-41 | decoding the group of any character with code point below 128 gives that character back |
| `BitCodec.GroupRoundTrip` | src/steganographer.py:22-41 | encoding the character of any 7-bit group gives that group back (the converse inverse) |
| `BitCodec.ValueInjective` | src/steganographer.py:37-41 | two bit groups of one length with the same value are equal |
| `BitCodec.MsgBits` | src/steganographer.py:30-34 | for a 7-bit message the bit list has length 7 times the message length |
| `BitCodec.MsgBitsAppend` | src/steganographer.py:30-34 | encoding a + b gives the encoding of a followed by that of b |
| `BitCodec.MsgBitsGroup` | src/steganographer.py:30-34 | the k-th 7-bit group of the encoding is the group of the k-th character |
| `BitCodec.MsgToBytesList` | src/steganographer.py:30-34 | the loop's accumulated list equals the message's encoding |
| `BitCodec.DecodeMsg` | src/steganographer.py:44-56 | at most one character per 7 bits; character k is the decode of group k; no NUL in the output; if a group follows the last character, its value is 0 |
| `BitCodec.FirstGroupZero` | src/steganographer.py:47-51 | a list whose first group is all zeros decodes to the empty message |
| `BitCodec.DecodeMsgBitsAppend` | src/steganographer.py:44-56 | decoding an encodable message's bits followed by anything gives the message, then the decode of what follows |
| `BitCodec.DecodeZeros` | src/steganographer.py:44-56 | any run of zero bits decodes to the empty message |
| `BitCodec.DecodeEncoded` | src/steganographer.py:44-56 | an encodable message followed by zero bits decodes to exactly that message |
| `BitCodec.BytesListToMsg` | src/steganographer.py:44-56 | the while loop's character list equals the decoded message |
| `BitCodec.ChunkValueAsWritten` | src/steganographer.py:48-49 | numpy's weighted sum succeeds exactly for a 7-bit or a 1-bit slice; for 7 bits it is their MSB-first value, for one bit b it is 127·b; it is below 128 |
| `BitCodec.DecodeMsgAsWritten` | src/steganographer.py:44-56 | when the code as written returns, it has read at most one character per 7 bits and the characters contain no NUL |
| `BitCodec.AsWrittenAgrees` | src/steganographer.py:44-56 | whenever the code as written returns, it returns what the decoder returns |
| `BitCodec.AsWrittenTerminated` | src/steganographer.py:44-56 | when a zero group is reached within the list, the code as written returns the decoded message |
| `BitCodec.AsWrittenRaisesWithoutTerminator` | src/steganographer.py:48-49 | a list of whole groups with no zero group makes the code as written raise |
| `Channel.Embed` | src/steganographer.py:72-75 | same length; every sample keeps its upper seven bits; LSB i is bit i over the payload and 0 past it; each sample moves by at most 1 |
| `Channel.Lsbs` | src/steganographer.py:79 | one bit per sample, and each sample is twice its upper part plus its bit |
| `Channel.LsbsOfEmbed` | src/steganographer.py:72-81 | the LSBs of an embedded buffer are the payload bits followed by zeros up to the buffer's length |
| `Channel.EmbedOfEven` | src/steganographer.py:72-75 | embedding depends on the samples only through their even parts |
| `Channel.EmbedReplay` | src/steganographer.py:72-75 | embedding the same bits into an already embedded buffer reproduces that buffer |
| `Steganography.EncodedImage` | src/steganographer.py:83-87 | the saved image keeps the loaded shape and sample count, stays well formed, every sample keeps its upper seven bits and moves by at most 1, and its LSBs are the message bits followed by zeros |
| `Steganography.DecodedMessage` | src/steganographer.py:89-93 | the decoded message has at most one character per 7 samples, each with a code point in 1..127 |
| `Steganography.Steganographer.constructor` | src/steganographer.py:10-15 | the object starts with an empty image of shape [0], an empty sample array and an empty message |
| `Steganography.Steganographer.LoadImg` | src/steganographer.py:58-61 | records the loaded image and its shape |
| `Steganography.Steganographer.MakeImgArray` | src/steganographer.py:66-67 | the sample array is fresh and holds the image's samples in order |
| `Steganography.Steganographer.RecreateImg` | src/steganographer.py:69-70 | the image becomes the array's contents with the recorded shape, whose size matches |
| `Steganography.Steganographer.InsertMsg` | src/steganographer.py:72-76 | the new array is the embedding of the message's bits into the old one, and the image is rebuilt from it |
| `Steganography.Steganographer.AddToPrefix` | src/steganographer.py:75 | each covered sample gains its bit; the rest are unchanged |
| `Steganography.Steganographer.ExtractMsg` | src/steganographer.py:78-81 | the message is the decode of the array's LSBs |
| `Steganography.Steganographer.EncodeImg` | src/steganographer.py:83-87 | the image to save has the loaded shape and the loaded samples with the message embedded; the recorded shape is the loaded one and matches the array, the sample array is fresh and holds the saved samples, and the message field is unchanged |
| `Steganography.Steganographer.DecodeImg` | src/steganographer.py:89-93 | returns, and stores in the message field, the decode of the loaded image's LSBs; the image and shape are the loaded ones, and the sample array is fresh and holds the loaded samples |
| `Steganography.RoundTrip` | src/steganographer.py:83-93 | for a message of code points 1..127 that fits, decoding the encoded image returns the message and the shape is kept |
| `Steganography.RoundTripAsWritten` | src/steganographer.py:83-93 | with room for 7 more samples, the code as written also returns the message without raising |
| `Steganography.NulTruncates` | src/steganographer.py:83-93 | a NUL in a 7-bit message cuts the decoded message at the first NUL |
| `KnownVectors.CharVectors` | tests/test_steganographer.py:6-18 | 'a', '!', ' ', '4' and 'Z' encode to the test's groups |
| `KnownVectors.GroupVectors` | tests/test_steganographer.py:36-48 | the test's groups decode to 'a', '!', ' ', '4' and 'Z' |
| `KnownVectors.HelloEncodes` | tests/test_steganographer.py:21-33 | "Hello!" encodes to the test's 42-bit vector |
| `KnownVectors.HelloDecodes` | tests/test_steganographer.py:51-63 | the 42-bit vector decodes to "Hello!" |
| `KnownVectors.HelloAsWrittenRaises` | tests/test_steganographer.py:51-63 | the code as written raises on that vector, which ends without a zero group |

## Left out

- Image file I/O (`_load_img` reading, `_save_img`, src/steganographer.py:58-64) is left out. `LoadImg` takes the loaded image as a parameter, and `EncodeImg` returns the image that would be saved. The image directory field is not modelled.
- src/helpers.py, main.py and src/main.py are left out. They are file access, argument parsing and printing.
- The model treats numpy's flatten and reshape as copies of the contents. `np.reshape` at src/steganographer.py:70 returns a view of `_img_array`, but nothing writes `_img_array` after the reshape, so that aliasing cannot be observed. Memory layout is not modelled.
- Steganography.Steganographer.InsertMsg: requires the payload to fit in the buffer and the shape to match the buffer. numpy raises in both other cases, and the model does not describe those errors.
- Steganography.Steganographer.constructor: Python leaves the fields unset, so reading them before a load raises. The model starts from an empty image instead.
- Python strings can hold surrogate code points; Dafny's `char` cannot. Code points from 128 on are modelled: they give more than 7 bits, as in the code, but the round trip is not claimed for them.
- The tests call names that do not exist (`_char_to_byte_list`, `_byte_list_to_char`) and compare a list with a string. Only their vectors are used. `DecodeMsg` returns the joined string.

## Findings

| source | as written | input that shows it | evidently intended | confidence | as-written member | corrected member |
|---|---|---|---|---|---|---|
| src/steganographer.py:47-49 | the loop only stops at a zero group. Past the end, the slice is empty and numpy raises a broadcast error. A 1-bit tail is broadcast to 127 times the bit. | the test's "Hello!" vector (tests/test_steganographer.py:52-63): 42 bits, no zero group | stop when fewer than 7 bits remain. The test expects "Hello!" from that vector. | high; not executed | `BitCodec.DecodeMsgAsWritten`, shown by `KnownVectors.HelloAsWrittenRaises` | `BitCodec.DecodeMsg`, shown by `KnownVectors.HelloDecodes` and `Steganography.RoundTrip` |
