# Verified models of the app's codec and request bookkeeping

Three pieces of vendored code that the JOINUS app depends on, modelled in Dafny 4.11 and
proved:

* **nanopb 0.3.9.6**, the table-driven Protocol Buffers encoder and decoder
  (`pb_encode.c`, `pb_decode.c`, `pb_common.c`, `pb.h`);
* **Alamofire's `AuthenticationInterceptor`**, a refresh-and-queue protocol between
  concurrent `adapt` and `retry` calls, a lock, a serial queue and an authenticator;
* **Alamofire's `RequestTaskMap`**, a two-way map with a two-event state machine per task.

`dafny verify dfyconfig.toml` checks everything.

## How the codec is modelled

A struct is a map from member offsets to slots (`Descriptor.dfy`); the members of a union
share an offset. A slot has the cell `pSize` points at (`has_`, `_count` or `which_`) and the
cells `pData` points at. Descriptors carry all members of `pb_field_t` and, beside them, the
true offset that the delta-encoded `data_offset` stands for.

What the code does with bytes is written twice. `DecodeSpec.dfy`, `EncodeSpec.dfy`,
`Wire.dfy` and `Scalars.dfy` give it as functions: a decoder maps the bytes left in a stream
to a value and the bytes left after it, an encoder maps a struct to bytes. `InputStream.dfy`,
`OutputStream.dfy`, `FieldIterator.dfy`, `Decoder.dfy` and `Encoder.dfy` give it in the
source's own form: stream and iterator objects over byte arrays, loops over words and
descriptors. Each method is proved to succeed exactly when its function does and to produce
the same result. The laws of the codec are then lemmas about the functions (`Merge.dfy`,
`MergeExact.dfy`, `InitDefaults.dfy`, `InitExact.dfy`, `RoundTrip.dfy`, `PackedArrays.dfy`,
`RequiredFields.dfy`, `LeastMessage.dfy`, `LastWins.dfy`, `MergeInto.dfy`, `DeclaredDefaults.dfy`,
`Framing.dfy`, `Evolution.dfy`, `DecodedValid.dfy`, `Canonical.dfy`, `EncodeExact.dfy`,
`EncodeSize.dfy`), and `Transfer.dfy` puts them back together with the methods. `WireFormat.dfy`
states the bytes themselves, in the numbers of the Protocol Buffers Encoding guide.

The writers share one contract, `OutputStream.Emitted`: a writer whose output is `e` succeeds
exactly when there is an output and it fits the room of the stream, and then it has added
exactly `e`; when it fails, nothing outside that room has changed. A sizing stream has
unlimited room.

Two structs "read the same" (`Observe.dfy`) when every member that means something does:
entries beyond a count, bytes behind a string's NUL, the data behind a cleared `has_` flag
and the union members that are not selected mean nothing.

The configuration is the one the project builds nanopb with as far as sizes go:
`PB_FIELD_32BIT` is defined (`JOINUS/Pods/Target Support Files/nanopb/nanopb.debug.xcconfig`,
line 3), so `pb_size_t` has 32 bits.

## How the protocol is modelled

`AuthState.dfy` has the locked state and its critical sections, as functions and as methods of
a class that update the fields in place. `AuthProtocol.dfy` lets them interleave: a step is one
critical section, one completion, one item of a block on the serial queue, one answer of the
authenticator, a new call, or a change of the credential from outside. Whether a credential
requires a refresh, what the authenticator decides and what the clock shows are inputs of a
step, so the theorems hold for all of them. The queue does not go on before the `adapt` call it
made has returned. `AuthFate.dfy` follows each waiting handler through a run and says what it is
told, `AuthDecision.dfy` says on what grounds, `AuthRace.dfy` follows the credential, and `AuthBound.dfy` bounds how long the interceptor
can go on by itself.

## Where the code does not keep a promise

* **Merging.** Two messages written one after the other are one message that merges them
  (Protocol Buffers Encoding guide, "Last One Wins"), and `pb_decode_noinit` is said to merge
  (`JOINUS/Pods/nanopb/pb_decode.h`, lines 74-75). Decoding both together and decoding one into
  the result of the other agree, except that the entry counter of an array without a count
  member is local to one call. `MergeExact.MergeLaw` says exactly when the two differ, from the
  tags alone; `Merge.FixedCountDoesNotMerge` is an example.
* **Initialisation.** `pb_decode` is said to initialise all fields but callbacks
  (`JOINUS/Pods/nanopb/pb_decode.h`, lines 55-56). Of an array without a count member it only
  clears the first four bytes, because the size pointer it resets is the data pointer. `InitExact.ForgetsUnlessLeaky` says for
  which descriptors prior contents can show, `InitExact.FixedCountKeepsPriorContents` is an
  example. What shows can even be invalid (`DecodedValid.HiddenContentsShow`).
* **One refresh per rejected credential.** The comments at
  `JOINUS/Pods/Alamofire/Source/AuthenticationInterceptor.swift`, lines 125-127, say that no
  additional refresh is triggered once the credential has been refreshed. `retry` reads the
  credential, compares it, and takes the lock again only then. In between another request can
  complete a refresh, and the replaced credential is refreshed a second time
  (`AuthRace.ReplacedCredentialRefreshedAgain`; `AuthRace.RefreshesReplaced` says over every
  run exactly when).
* **Required fields.** A message without one of its required fields can decode, namely when 64
  or more required fields come before that field (`LeastMessage.UncheckedIffBeyond64`).

## Model

| member | source | states |
|---|---|---|
| `RoundTrip.MsgTrip` | `JOINUS/Pods/nanopb/pb_encode.c:341-550` | Whole-message round trip: for every static descriptor tree (required, optional, proto3 singular with zero default, repeated, fixed-count, oneof, nested) and every valid struct whose submessages and packed arrays have lengths the decoder can read (32 bits each), decoding the encoding into any destination succeeds, uses all bytes and yields a struct that reads the same; the loop ends by running out of bytes, never at a zero tag |
| `RoundTrip.WholeShort` | `JOINUS/Pods/nanopb/pb_encode.c:717-765` | In an encoding below 4 GiB every length is a 32-bit number |
| `Transfer.SendAndReceive` | `JOINUS/Pods/nanopb/pb_decode.c:1075-1087` | The same from buffer to buffer through the imperative code: encoding succeeds exactly when the size found by the sizing pass fits the buffer, bytes behind it are untouched, and decoding the written bytes gives back a struct that reads the same |
| `Transfer.Send` | `JOINUS/Pods/nanopb/pb_encode.c:528-550` | The encoder on a whole buffer: it succeeds exactly when there is an encoding and it fits, and then the buffer starts with exactly the encoding and is otherwise unchanged |
| `Transfer.Receive` | `JOINUS/Pods/nanopb/pb_decode.c:159-181` | The decoder on the first `size` bytes of a buffer does what the specification says of exactly those bytes |
| `RoundTrip.MsgEncodes` | `JOINUS/Pods/nanopb/pb_encode.c:341-550` | No valid struct is rejected by the encoder for a reason other than room |
| `RoundTrip.AllDefaultSame` | `JOINUS/Pods/nanopb/pb_encode.c:240-337` | A submessage the proto3 zero check calls all-default reads the same as a struct set to defaults, so leaving it out loses nothing |
| `RoundTrip.FieldStep` | `JOINUS/Pods/nanopb/pb_decode.c:988-1020` | Decoding what was encoded for one field, whatever was decoded before it, installs a member that reads the same, completes a fixed-count array and marks a required field as seen |
| `MergeExact.MergeLaw` | `JOINUS/Pods/nanopb/pb_decode.c:925-1073` | Merging, exactly: when s1 decodes without a zero tag and s2 decodes into the result, decoding s1 followed by s2 gives the same struct if and only if the first fixed-count array among the tags of s2 is not the last one among the tags of s1; otherwise it fails |
| `MergeExact.LastIsScanned` | `JOINUS/Pods/nanopb/pb_decode.c:988-1010` | The fixed-count array in progress when the loop ends is the last one among the tags of the message |
| `MergeExact.MergeWithoutFixedCount` | `JOINUS/Pods/nanopb/pb_decode.c:925-1073` | Without fixed-count arrays decoding the concatenation always equals decoding one part after the other |
| `Merge.LoopConcat` | `JOINUS/Pods/nanopb/pb_decode.c:943-1010` | The field loop over s1 followed by s2 is the loop over s2 from the state s1 leaves; if it stops at a zero tag inside s1 the rest is left untouched |
| `Merge.FixedCountDoesNotMerge` | `JOINUS/Pods/nanopb/pb_decode.c:988-1010` | A concrete descriptor and two messages that decode one after the other but not concatenated: the fixed-count entry counter is local to one call |
| `Merge.UnknownFieldIsTransparent` | `JOINUS/Pods/nanopb/pb_decode.c:278-331` | Inserting a well-formed field with an undeclared tag >= 1 and wire type 0, 1, 2 or 5 at a field boundary changes neither success nor struct nor the bytes left |
| `Merge.SeenIsPassive` | `JOINUS/Pods/nanopb/pb_decode.c:1012-1017` | Which required fields were seen earlier never influences how later fields decode |
| `LastWins.ArrivalReplaces` | `JOINUS/Pods/nanopb/pb_decode.c:406-422` | From any state of the loop: a valid value of a required, optional or oneof field that is no submessage, under a key of any wire type, leaves a member that reads as that value, with has_ 1 or which_ the tag, whatever was there before, and changes no other member |
| `LastWins.LastOneWins` | `JOINUS/Pods/nanopb/pb_decode.c:957-1020` | Last one wins, over whole messages of any bytes: a singular member reads as the value its last arrival spells, or that of the last arrival of its union, and is untouched when there was none |
| `MergeInto.DecodingMerges` | `JOINUS/Pods/nanopb/pb_decode.c:925-1073` | Merging, member by member: decoding the encoding of a valid struct into any struct with room for it succeeds; absent members stay, values are replaced, submessages are merged in the same way at every depth, entries are appended to arrays with a count, arrays without one are replaced, and a union takes over the selection and starts afresh |
| `MergeInto.MergesIffFits` | `JOINUS/Pods/nanopb/pb_decode.c:424-464` | That decoding succeeds if and only if every array with a count that is appended to has room, at every depth that is merged |
| `MergeInto.ArrivalMerges` | `JOINUS/Pods/nanopb/pb_decode.c:1503-1525` | From any state of the loop a submessage that arrives is merged into the one that is there, and nothing else changes |
| `DeclaredDefaults.AbsentIsDeclared` | `JOINUS/Pods/nanopb/pb_decode.c:836-919` | A field outside of unions that is absent from a message that decodes holds its declared initial value, zero where none is declared, with has_ and counts cleared, in submessages too |
| `DeclaredDefaults.DecodedMember` | `JOINUS/Pods/nanopb/pb_decode.c:1075-1087` | After pb_decode of any bytes into any destination a singular member holds the value of its last arrival, and else the declared one |
| `InitExact.ForgetsUnlessLeaky` | `JOINUS/Pods/nanopb/pb_decode.c:836-919` | Initialisation completeness, exactly: for every descriptor with member sizes the decoders accept, success, bytes left and the struct as a program reads it are independent of the prior contents of the destination for all inputs if and only if no fixed-count array has contents to read behind its first four bytes, other than inside a union |
| `InitExact.LeakShows` | `JOINUS/Pods/nanopb/pb_decode.c:836-919` | Where such an array exists, at any depth, a message and two destinations are found that decode with different results |
| `InitExact.AbsentArrayKeeps` | `JOINUS/Pods/nanopb/pb_decode.c:862-869` | In any message that decodes: a fixed-count array that does not arrive holds its prior contents with the first four bytes cleared |
| `InitDefaults.DecodeSame` | `JOINUS/Pods/nanopb/pb_decode.c:836-919` | Without such an array decoding any bytes into any two destinations has the same outcome, has_-hidden data included |
| `InitDefaults.DecodeNoinitSame` | `JOINUS/Pods/nanopb/pb_decode.c:925-1073` | Without such an array: destinations that read the same before, has_-hidden data included, read the same after decoding any bytes without initialisation |
| `InitDefaults.DefaultsSame` | `JOINUS/Pods/nanopb/pb_decode.c:908-919` | Setting defaults makes any two structs of a type without such an array read the same, recursively |
| `InitExact.FixedCountKeepsPriorContents` | `JOINUS/Pods/nanopb/pb_decode.c:862-869` | A concrete input: of two fixed32 numbers that do not arrive the second is still the one the destination held before |
| `PackedArrays.MixAppends` | `JOINUS/Pods/nanopb/pb_decode.c:424-464` | Packable values that arrive in any mix of packed chunks and single entries, with any other fields in between, are appended in order to an array with or without a count member when the total fits; without other fields nothing else changes |
| `PackedArrays.MixOverflows` | `JOINUS/Pods/nanopb/pb_decode.c:424-464` | When the total does not fit, decoding fails however the values are split and whatever lies in between or follows |
| `PackedArrays.PassesKeeps` | `JOINUS/Pods/nanopb/pb_decode.c:957-1020` | Fields that are not the array, and start no other fixed-count array, leave a fixed-count array and its counter alone |
| `PackedArrays.ChunkComplete` | `JOINUS/Pods/nanopb/pb_decode.c:1023-1050` | A message with one chunk of a fixed-count array decodes if and only if the chunk has exactly array_size entries and no required field is missing |
| `Framing.CutIsRefused` | `JOINUS/Pods/nanopb/pb_decode.c:1104-1117` | A delimited message cut anywhere, in its length or in its body, is refused |
| `Framing.DelimitedTrip` | `JOINUS/Pods/nanopb/pb_decode.c:1104-1117` | One delimited message followed by anything is read back and exactly what follows is left |
| `Framing.StreamTrip` | `JOINUS/Pods/nanopb/pb_decode.c:1104-1117` | k messages written by the delimited encoder are read back in order by k calls of the delimited decoder, which leave exactly the bytes behind them |
| `Framing.NullTerminatedTrip` | `JOINUS/Pods/nanopb/pb_encode.c:557-565` | A message, a zero byte and arbitrary bytes: the decoder returns the message and leaves exactly the arbitrary bytes |
| `RequiredFields.MissingIsReported` | `JOINUS/Pods/nanopb/pb_decode.c:1030-1070` | Once all fields decode and fixed-count arrays are complete, decoding fails if and only if one of the first 64 required fields never arrived, for every number of required fields and every order |
| `LeastMessage.UncheckedIffBeyond64` | `JOINUS/Pods/nanopb/pb_decode.c:1012-1070` | A required field can be missing from a message that decodes if and only if 64 or more required fields come before it |
| `LeastMessage.LeastDecodes` | `JOINUS/Pods/nanopb/pb_decode.c:1030-1070` | A message with nothing but the required fields decodes into any struct |
| `RequiredFields.SeenIsArrivals` | `JOINUS/Pods/nanopb/pb_decode.c:1012-1017` | The set the loop ends with is the set of required-field indices below 64 of the fields that arrived |
| `RequiredFields.AbsentKeeps` | `JOINUS/Pods/nanopb/pb_decode.c:957-1020` | Whatever the message, the member of a field that does not arrive is what it was before the loop |
| `RequiredFields.RequiredOnto` | `JOINUS/Pods/nanopb/pb_common.c:20-76` | Every index below the number of required fields belongs to a required field |
| `RequiredFields.RequiredInjective` | `JOINUS/Pods/nanopb/pb_common.c:20-76` | Different required fields have different indices |
| `RequiredFields.Mark` | `JOINUS/Pods/nanopb/pb_decode.c:1012-1017` | Or-ing one bit into the two 32-bit words marks exactly that index |
| `RequiredFields.AllSeen` | `JOINUS/Pods/nanopb/pb_decode.c:1053-1069` | The loop over full words and the masked last word succeed exactly when every index below the count is marked |
| `Evolution.ReadsOtherVersion` | `JOINUS/Pods/nanopb/pb_decode.c:957-1020` | Two versions of a schema whose descriptors may each have further fields, at any depth of the tree and with other member offsets: the reader decodes what the encoder of the other version wrote, uses all bytes, reads the same values in the fields both have, although the lengths of the enclosing submessages differ, and finds absent what the other version does not have |
| `Evolution.MessageAlike` | `JOINUS/Pods/nanopb/pb_decode.c:957-1020` | To the field loop of the reader the encoding of the other version is as good as the encoding of its own |
| `Evolution.UnevenAlike` | `JOINUS/Pods/nanopb/pb_encode.c:240-337` | A proto3 submessage that one encoder leaves out as all-default, and the other sends because of a further field inside, leaves the same defaulted member |
| `Evolution.OlderReader` | `JOINUS/Pods/nanopb/pb_decode.c:957-986` | In particular a reader whose descriptor lacks a newly added field, wherever it stands in the newer descriptor, decodes what the newer encoder wrote, uses all bytes, and its own members read the same |
| `Evolution.NewerReader` | `JOINUS/Pods/nanopb/pb_encode.c:341-426` | In particular a reader with a further field anywhere in its descriptor, which the sender lacks, finds it absent and everything else the same |
| `Evolution.SkipsValue` | `JOINUS/Pods/nanopb/pb_decode.c:278-331` | Skipping by wire type passes over exactly what the encoder writes for a value of any type |
| `Evolution.SkipsField` | `JOINUS/Pods/nanopb/pb_decode.c:982-986` | The field loop passes over everything the encoder writes for an undeclared field, arrays included, without changing its state |
| `DecodedValid.DecodedIsValid` | `JOINUS/Pods/nanopb/pb_decode.c:1075-1087` | Whatever bytes pb_decode accepts, the struct it leaves is valid: numbers and bools fit their members, strings are terminated, sizes and counts fit, unions select a member or none; the destination may hold anything but invalid fixed-count arrays, hidden ones included |
| `DecodedValid.LoopTidy` | `JOINUS/Pods/nanopb/pb_decode.c:943-1010` | The field loop keeps a struct valid at every depth, also where it cannot be observed yet, on any bytes |
| `DecodedValid.DefaultsTidy` | `JOINUS/Pods/nanopb/pb_decode.c:836-919` | Setting defaults makes any struct valid whose fixed-count arrays are, although it clears four bytes of each of them |
| `DecodedValid.WipeMsgTidy` | `JOINUS/Pods/nanopb/pb_decode.c:862-869` | Clearing the first bytes of a valid struct leaves a valid struct |
| `DecodedValid.CountedTidy` | `JOINUS/Pods/nanopb/pb_decode.c:836-919` | Without fixed-count arrays any memory will do as a destination |
| `DecodedValid.HiddenContentsShow` | `JOINUS/Pods/nanopb/pb_decode.c:836-919` | A concrete descriptor, a destination that is valid wherever it can be observed, and two bytes that decode into an invalid struct: validity of the hidden arrays is needed |
| `Canonical.DecodedReencodes` | `JOINUS/Pods/nanopb/pb_encode.c:341-550` | Whatever bytes pb_decode accepts, the struct it leaves can be encoded; below 4 GiB that encoding is decoded to a struct that reads the same, and encoded to the same bytes again |
| `Canonical.EncSame` | `JOINUS/Pods/nanopb/pb_encode.c:341-550` | The encoder sees only what a program can tell about a struct: structs that read the same, valid or not, have the same encoding or are both refused |
| `Canonical.EncodingsTellApart` | `JOINUS/Pods/nanopb/pb_encode.c:341-550` | Two valid structs have the same encoding if and only if they read the same |
| `EncodeExact.EncodesExactly` | `JOINUS/Pods/nanopb/pb_encode.c:147-426` | Room aside, pb_encode succeeds if and only if at every depth counts are within array_size, bytes members that are present fit behind their four-byte header, and integer members have one of the four widths |
| `EncodeExact.LeftOutExactly` | `JOINUS/Pods/nanopb/pb_encode.c:240-337` | A proto3 singular field with a valid value is left out if and only if it is zero, empty, or a submessage with an empty encoding; fixed-length bytes are always sent |
| `EncodeExact.NeverDefault` | `JOINUS/Pods/nanopb/pb_encode.c:240-337` | In any struct, valid or not, a required field, an array without a count, or a selector other than 0 keeps a submessage from passing the zero check |
| `EncodeExact.AllDefaultIffEmpty` | `JOINUS/Pods/nanopb/pb_encode.c:240-337` | A valid submessage passes the zero check if and only if its encoding is empty |
| `WireFormat.KeyIs` | `JOINUS/Pods/nanopb/pb_encode.c:675-707` | The key of a field is the varint of 8 times its number plus 0 for bool and integers, 1 for fixed64, 5 for fixed32 and 2 for bytes, strings and submessages |
| `WireFormat.KeyReads` | `JOINUS/Pods/nanopb/pb_decode.c:298-319` | A 32-bit varint is read as a key by quotient and remainder by 8; zero ends the message |
| `WireFormat.PackedArrayBytes` | `JOINUS/Pods/nanopb/pb_encode.c:147-206` | An array of a packable type is one field with key 8 times its number plus 2, the length, and the entries |
| `WireFormat.SkipsVarint` | `JOINUS/Pods/nanopb/pb_decode.c:278-287` | Skipping wire type 0 leaves exactly what follows the first byte below 128, and fails if there is none |
| `WireFormat.SkipsOthers` | `JOINUS/Pods/nanopb/pb_decode.c:321-331` | Skipping leaves what follows 8 bytes for wire type 1, 4 bytes for 5, and a length with that many bytes for 2; every other number fails |
| `WireFormat.VarintByte` | `JOINUS/Pods/nanopb/pb_encode.c:608-628` | Byte i of a varint has bits 7i to 7i+6 of the number, and its top bit says whether another byte follows |
| `WireFormat.VarintReads` | `JOINUS/Pods/nanopb/pb_decode.c:255-275` | The 64-bit reader accepts exactly the spellings of at most ten bytes, shortest or not, and returns the lowest 64 bits of the number they spell |
| `WireFormat.Varint32Reads` | `JOINUS/Pods/nanopb/pb_decode.c:187-247` | The 32-bit reader accepts every spelling of a 32-bit number in at most ten bytes |
| `WireFormat.Varint32Exactly` | `JOINUS/Pods/nanopb/pb_decode.c:187-247` | Of the encodings of all 64-bit words the 32-bit reader takes exactly the 32-bit numbers and the words with bits 31 and 63 set whose groups in between are empty or all ones, and returns the low 32 bits |
| `WireFormat.CounterWraps` | `JOINUS/Pods/nanopb/pb_decode.c:187-247` | The 32-bit reader has no length limit: behind 37 empty groups its 8-bit bit counter is back at bit 3 |
| `WireFormat.VarintField` | `JOINUS/Pods/nanopb/pb_encode.c:769-833` | A bool or integer field, byte for byte: key type 0, and the number, its 64-bit two-complement word, or its zigzag number |
| `WireFormat.FixedField` | `JOINUS/Pods/nanopb/pb_encode.c:835-850` | A fixed32 or fixed64 field, byte for byte: key type 5 and 4 bytes, or key type 1 and 8 bytes |
| `WireFormat.SizedField` | `JOINUS/Pods/nanopb/pb_encode.c:852-899` | A bytes or string field, byte for byte: key type 2, the length, and the contents up to the first NUL of a string |
| `WireFormat.SubmessageField` | `JOINUS/Pods/nanopb/pb_encode.c:717-765` | A submessage, byte for byte: key type 2, the length of its encoding, and its encoding |
| `WireFormat.BoolReads` | `JOINUS/Pods/nanopb/pb_decode.c:1318-1327` | A bool is true for every number but zero |
| `WireFormat.SignedReads` | `JOINUS/Pods/nanopb/pb_decode.c:1329-1364` | A 64-bit signed member takes the word; a narrower one takes the signed number in the lowest 32 bits exactly when it fits |
| `WireFormat.UnsignedReads` | `JOINUS/Pods/nanopb/pb_decode.c:1366-1388` | An unsigned member takes a number exactly when it is below 2 to the width |
| `WireFormat.ZigZagReads` | `JOINUS/Pods/nanopb/pb_decode.c:1390-1412` | A zigzag member takes n / 2 for even and -(n + 1) / 2 for odd n, exactly when that fits the width |
| `WireFormat.BlobReads` | `JOINUS/Pods/nanopb/pb_decode.c:1431-1548` | Announced bytes are taken by a bytes member exactly when they fit behind 4 bytes, by a string when a NUL still fits, by fixed-length bytes when complete or missing altogether |
| `WireFormat.CutPayload` | `JOINUS/Pods/nanopb/pb_decode.c:333-385` | Fewer bytes than announced are never decoded |
| `WireFormat.WireTypeIgnored` | `JOINUS/Pods/nanopb/pb_decode.c:406-480` | For a known field the wire type only tells packed arrays from single entries |
| `WireFormat.TerminatorReads` | `JOINUS/Pods/nanopb/pb_decode.c:925-1073` | In a message without fields the number 0 is read as a bool, whatever its wire type |
| `WireFormat.FixedByte` | `JOINUS/Pods/nanopb/pb_encode.c:641-667` | Byte i of a fixed-width number has its bits 8i to 8i+7 |
| `WireFormat.FixedOnto` | `JOINUS/Pods/nanopb/pb_encode.c:641-667` | Every run of bytes is the fixed-width form of the number read from it |
| `WireFormat.ClearedByte` | `JOINUS/Pods/nanopb/pb_decode.c:862-869` | Clearing the lowest bytes of a number in memory clears those bytes and leaves the others |
| `WireFormat.ExampleEncodes` | `JOINUS/Pods/nanopb/pb_encode.c:528-550` | The examples of the Protocol Buffers Encoding guide, byte for byte, in the order of the descriptor |
| `Wire.VarintRoundTrip` | `JOINUS/Pods/nanopb/pb_decode.c:255-275` | For every 64-bit value and every suffix, reading its varint returns the value and leaves the suffix |
| `Wire.VarintAtMostTen` | `JOINUS/Pods/nanopb/pb_encode.c:608-628` | The varint of a 64-bit value has at most ten bytes |
| `Wire.VarintLength` | `JOINUS/Pods/nanopb/pb_encode.c:608-628` | The varint of a value below 128^n has at most n bytes |
| `Wire.VarintShortest` | `JOINUS/Pods/nanopb/pb_encode.c:608-628` | No byte sequence that reads as a value is shorter than its encoding |
| `Wire.Varint32Agrees` | `JOINUS/Pods/nanopb/pb_decode.c:187-275` | Whenever the 32-bit reader accepts at most ten bytes, the 64-bit reader accepts the same bytes and the values agree modulo 2^32 |
| `Wire.Varint32RoundTrip` | `JOINUS/Pods/nanopb/pb_decode.c:187-247` | The 32-bit reader accepts the canonical encoding of every value below 2^32 |
| `Wire.Varint32Negative` | `JOINUS/Pods/nanopb/pb_decode.c:187-247` | The 32-bit reader accepts every negative int32 sign-extended to ten bytes and returns its low 32 bits |
| `Wire.Varint32Rejects` | `JOINUS/Pods/nanopb/pb_decode.c:187-247` | The 32-bit reader rejects the canonical encoding of every value from 2^32 up to 2^63 |
| `Wire.TagRoundTrip` | `JOINUS/Pods/nanopb/pb_encode.c:669-673` | A key with any wire type and any field number of up to 29 bits is read back |
| `Wire.SkipLocal` | `JOINUS/Pods/nanopb/pb_decode.c:278-331` | Skipping a field leaves whatever follows it untouched |
| `Scalars.SignedRoundTrip` | `JOINUS/Pods/nanopb/pb_decode.c:1329-1364` | Every signed number of width 1, 2, 4 or 8 bytes, negative ones included, is stored back from its 64-bit word |
| `Scalars.SignedAccepts` | `JOINUS/Pods/nanopb/pb_decode.c:1329-1364` | The signed decoder takes a varint exactly when the member is at least 32 bits wide or the number in its low 32 bits fits |
| `Scalars.UnsignedAccepts` | `JOINUS/Pods/nanopb/pb_decode.c:1366-1388` | The unsigned decoder takes a varint exactly when it fits the width, and stores it unchanged |
| `Scalars.ZigZagAccepts` | `JOINUS/Pods/nanopb/pb_decode.c:1390-1412` | The zigzag decoder takes a varint exactly when the number it stands for fits the width |
| `Scalars.ZigZagRoundTrip` | `JOINUS/Pods/nanopb/pb_encode.c:630-639` | Zigzag decoding inverts zigzag encoding on all 64-bit numbers |
| `Scalars.ZigZagOnto` | `JOINUS/Pods/nanopb/pb_decode.c:1269-1281` | Zigzag encoding inverts zigzag decoding on all 64-bit words |
| `Scalars.ZigZagValue` | `JOINUS/Pods/nanopb/pb_encode.c:630-639` | The machine form (shift, complement) interleaves 0, -1, 1, -2, ... |
| `Scalars.LERoundTrip` | `JOINUS/Pods/nanopb/pb_decode.c:1283-1316` | Fixed-width little-endian bytes are read back as the number |
| `ValueTrip.VarintTrip` | `JOINUS/Pods/nanopb/pb_decode.c:1329-1412` | Every value a varint member can hold is read back from its encoding, leaving the suffix |
| `ValueTrip.FixedTrip` | `JOINUS/Pods/nanopb/pb_decode.c:1414-1429` | Every fixed32 and fixed64 value is read back, leaving the suffix |
| `ValueTrip.StringTrip` | `JOINUS/Pods/nanopb/pb_decode.c:1468-1501` | A NUL-terminated string is read back as the same C string into a buffer with any prior contents |
| `ValueTrip.BytesTrip` | `JOINUS/Pods/nanopb/pb_decode.c:1431-1466` | bytes and fixed-length bytes are read back exactly |
| `ValueTrip.PackedTrip` | `JOINUS/Pods/nanopb/pb_decode.c:424-449` | A packed chunk of n valid entries fills exactly the next n cells and no other |
| `FieldIterator.FieldIter.constructor` | `JOINUS/Pods/nanopb/pb_common.c:8-18` | A new iterator stands on the first field with its member offset and size pointer |
| `FieldIterator.FieldIter.Begin` | `JOINUS/Pods/nanopb/pb_common.c:8-18` | False exactly for a message without fields; otherwise the iterator stands on the first field |
| `FieldIterator.FieldIter.Next` | `JOINUS/Pods/nanopb/pb_common.c:20-76` | From any position pData is the true offset of the next member (unions, arrays and pointers included), required_field_index the number of required fields before it, and the result is false exactly when it wrapped |
| `FieldIterator.FieldIter.FindTag` | `JOINUS/Pods/nanopb/pb_common.c:78-95` | From any position the search ends, is true exactly when a non-extension field has the tag and then stands on it; otherwise it is back where it started |
| `FieldIterator.CycleVisitsOnce` | `JOINUS/Pods/nanopb/pb_common.c:20-76` | A full cycle of next from any start visits every field exactly once and ends where it began |
| `FieldIterator.Delta` | `JOINUS/Pods/nanopb/pb.h:399-409` | What the PB_DATAOFFSET deltas store determines the offset of the next member from the previous one |
| `InputStream.IStream.constructor` | `JOINUS/Pods/nanopb/pb_decode.c:159-181` | A buffer stream offers exactly the first `size` bytes |
| `InputStream.IStream.ReadByte` | `JOINUS/Pods/nanopb/pb_decode.c:141-157` | Reads the next byte unless the limit is reached; cursor plus bytes_left stays constant |
| `InputStream.IStream.Read` | `JOINUS/Pods/nanopb/pb_decode.c:102-137` | Reads exactly `count` bytes or nothing; cursor plus bytes_left stays constant |
| `InputStream.IStream.SkipBytes` | `JOINUS/Pods/nanopb/pb_decode.c:102-137` | Skips exactly `count` bytes or nothing |
| `InputStream.IStream.DecodeVarint` | `JOINUS/Pods/nanopb/pb_decode.c:255-275` | The shift-and-or loop computes the number its base-128 groups spell, accepts at most ten bytes, and consumes exactly them |
| `InputStream.IStream.DecodeVarint32` | `JOINUS/Pods/nanopb/pb_decode.c:187-247` | The 32-bit loop, its sign-extension checks and its eof flag (raised exactly at the end of the stream) |
| `InputStream.IStream.DecodeTag` | `JOINUS/Pods/nanopb/pb_decode.c:298-319` | Tag, wire type and the eof flag; a zero reads as end of message and is consumed |
| `InputStream.IStream.SkipVarintBytes` | `JOINUS/Pods/nanopb/pb_decode.c:278-287` | Skips one varint of any length |
| `InputStream.IStream.SkipField` | `JOINUS/Pods/nanopb/pb_decode.c:321-331` | Skips the payload of the four known wire types and fails for every other |
| `InputStream.IStream.MakeSubstream` | `JOINUS/Pods/nanopb/pb_decode.c:372-385` | Succeeds exactly when a length can be read and that many bytes are there; the substream offers exactly them and the parent keeps the rest |
| `InputStream.IStream.CloseSubstream` | `JOINUS/Pods/nanopb/pb_decode.c:387-400` | However much the substream read, the parent goes on right after the announced bytes |
| `InputStream.VarintLoopValue` | `JOINUS/Pods/nanopb/pb_decode.c:255-275` | The machine loop (or, shift, cut to 64 bits) from any group on computes the arithmetic value |
| `Decoder.FieldSetToDefault` | `JOINUS/Pods/nanopb/pb_decode.c:836-906` | Resets has_, count and which_ members, clears the first four bytes of an array without a count member, and initialises data, recursively, as specified |
| `Decoder.SetToDefaults` | `JOINUS/Pods/nanopb/pb_decode.c:908-919` | Visits every field once through the iterator; the result is the specified default struct |
| `Descriptor.DefaultsAt` | `JOINUS/Pods/nanopb/pb_decode.c:908-919` | What setting defaults does to each member does not depend on the order of the fields |
| `Descriptor.WipeAt` | `JOINUS/Pods/nanopb/pb_decode.c:862-869` | What clearing the first bytes of a struct does to each of its members |
| `Decoder.DecodeNumber` | `JOINUS/Pods/nanopb/pb_decode.c:1318-1429` | The decoders of the packable types, with their width checks |
| `Decoder.CheckRoom` | `JOINUS/Pods/nanopb/pb_decode.c:1436-1490` | The size checks of bytes and strings in wrapping 32-bit arithmetic accept exactly the sizes that fit |
| `Decoder.DecodeBlob` | `JOINUS/Pods/nanopb/pb_decode.c:1431-1548` | bytes, string and fixed-length bytes decoders, overflow errors included |
| `Decoder.DecodeSubmessage` | `JOINUS/Pods/nanopb/pb_decode.c:1503-1525` | A submessage reads exactly the announced bytes and merges, or re-initialises an array entry; the parent stream goes on behind it |
| `Decoder.DecodeValue` | `JOINUS/Pods/nanopb/pb_decode.c:68-81` | The decoder table |
| `Decoder.FillPacked` | `JOINUS/Pods/nanopb/pb_decode.c:432-447` | The loop over a packed chunk |
| `Decoder.DecodePacked` | `JOINUS/Pods/nanopb/pb_decode.c:424-449` | A packed chunk that holds more than fits is an error |
| `Decoder.DecodeStaticField` | `JOINUS/Pods/nanopb/pb_decode.c:406-480` | decode_static_field for required, optional, repeated and oneof fields |
| `Decoder.EnterField` | `JOINUS/Pods/nanopb/pb_decode.c:988-1017` | Starting a different fixed-count array before the current one is complete is an error; a required field is marked as seen |
| `Decoder.DecodeFound` | `JOINUS/Pods/nanopb/pb_decode.c:988-1020` | One turn of the loop for a known field, fixed-count bookkeeping included |
| `Decoder.DecodeNext` | `JOINUS/Pods/nanopb/pb_decode.c:943-1020` | One turn of the loop: end of message, unknown field or known field, from any iterator position; it consumes at least one byte |
| `Decoder.CountRequiredFields` | `JOINUS/Pods/nanopb/pb_decode.c:1030-1050` | Walking the iterator from wherever it was left counts all required fields |
| `Decoder.CheckComplete` | `JOINUS/Pods/nanopb/pb_decode.c:1023-1070` | The final checks fail exactly for an incomplete fixed-count array or a missing tracked required field |
| `Decoder.DecodeEmpty` | `JOINUS/Pods/nanopb/pb_decode.c:925-1073` | A message without fields: everything is skipped, and the terminator entry answers to tag 0 |
| `Decoder.DecodeFields` | `JOINUS/Pods/nanopb/pb_decode.c:925-1073` | The decoding loop terminates and does what the specification says; on success cursor plus bytes_left is unchanged |
| `Decoder.DecodeNoinit` | `JOINUS/Pods/nanopb/pb_decode.c:925-1073` | pb_decode_noinit for every descriptor |
| `Decoder.Decode` | `JOINUS/Pods/nanopb/pb_decode.c:1075-1087` | pb_decode: defaults first |
| `Decoder.DecodeDelimited` | `JOINUS/Pods/nanopb/pb_decode.c:1104-1117` | pb_decode_delimited: exactly the prefix and the announced bytes are used on success |
| `OutputStream.ExactCapacity` | `JOINUS/Pods/nanopb/pb_encode.c:103-124` | If the sizing pass reports n bytes, the encoder succeeds on a buffer if and only if n bytes fit, writes exactly n bytes, and never past its room |
| `OutputStream.EmittedThen` | `JOINUS/Pods/nanopb/pb_encode.c:103-124` | Two writers in a row succeed exactly when the concatenation of their outputs fits, and write it |
| `OutputStream.ShiftOut` | `JOINUS/Pods/nanopb/pb_encode.c:616-625` | The varint loop fills its ten-byte buffer with exactly the canonical encoding and never overruns it |
| `OutputStream.OStream.constructor` | `JOINUS/Pods/nanopb/pb_encode.c:86-101` | A buffer stream starts with nothing written and the whole buffer as room |
| `OutputStream.OStream.SizingStream` | `JOINUS/Pods/nanopb/pb_encode.c:567-576` | A stream without a callback only counts |
| `OutputStream.OStream.BufWrite` | `JOINUS/Pods/nanopb/pb_encode.c:74-84` | Writes at the cursor, changes nothing else and advances the cursor |
| `OutputStream.OStream.Write` | `JOINUS/Pods/nanopb/pb_encode.c:103-124` | Succeeds exactly when the bytes fit (always when sizing); then exactly these bytes are added |
| `OutputStream.OStream.EncodeVarint` | `JOINUS/Pods/nanopb/pb_encode.c:608-628` | Writes the canonical varint, or fails for lack of room |
| `OutputStream.OStream.EncodeSvarint` | `JOINUS/Pods/nanopb/pb_encode.c:630-639` | Writes the varint of the zigzag form |
| `OutputStream.OStream.EncodeFixed32` | `JOINUS/Pods/nanopb/pb_encode.c:641-650` | Writes the four bytes of the little-endian form |
| `OutputStream.OStream.EncodeFixed64` | `JOINUS/Pods/nanopb/pb_encode.c:653-666` | Writes the eight bytes of the little-endian form |
| `OutputStream.OStream.EncodeTag` | `JOINUS/Pods/nanopb/pb_encode.c:669-673` | Or-ing the wire type into the shifted tag writes the key |
| `OutputStream.OStream.EncodeString` | `JOINUS/Pods/nanopb/pb_encode.c:709-715` | Writes the length and the bytes |
| `Encoder.CheckDefault` | `JOINUS/Pods/nanopb/pb_encode.c:240-337` | The proto3 zero check, recursively through submessages |
| `Encoder.CompareZero` | `JOINUS/Pods/nanopb/pb_encode.c:318-336` | The loop over the bytes of a number answers whether all of them are zero |
| `Scalars.ZeroMember` | `JOINUS/Pods/nanopb/pb_encode.c:318-336` | A number that fits its member is zero exactly when all bytes of the member are |
| `Encoder.CheckAllDefault` | `JOINUS/Pods/nanopb/pb_encode.c:289-309` | The iterator loop over a submessage answers whether every field is default |
| `Encoder.EncodeNumber` | `JOINUS/Pods/nanopb/pb_encode.c:769-850` | The encoders of the packable types |
| `Encoder.StringLength` | `JOINUS/Pods/nanopb/pb_encode.c:890-895` | The loop finds the first NUL within the buffer, or its end |
| `Encoder.EncodeBlob` | `JOINUS/Pods/nanopb/pb_encode.c:852-912` | bytes (with its size check), strings and fixed-length bytes |
| `Encoder.EncodeWithin` | `JOINUS/Pods/nanopb/pb_encode.c:740-764` | The second pass of a submessage never finds that its size changed: the check is proved unreachable at every nesting depth |
| `Encoder.EncodeSubmessage` | `JOINUS/Pods/nanopb/pb_encode.c:717-765` | Sizing pass, length and message are together the length-prefixed encoding, in a buffer as in a sizing stream |
| `Encoder.EncodeValue` | `JOINUS/Pods/nanopb/pb_encode.c:55-68` | The encoder table |
| `Encoder.EncodeTagged` | `JOINUS/Pods/nanopb/pb_encode.c:675-707` | A key for the declared type, then the value |
| `Encoder.EncodeItems` | `JOINUS/Pods/nanopb/pb_encode.c:197-204` | The entries of a packed array, in order |
| `Encoder.EncodeEntries` | `JOINUS/Pods/nanopb/pb_encode.c:207-233` | The entries of an array that is not packed, each with its key, in order |
| `Encoder.PackedSize` | `JOINUS/Pods/nanopb/pb_encode.c:170-191` | The computed or counted size is the size of the encoded entries |
| `Encoder.EncodePacked` | `JOINUS/Pods/nanopb/pb_encode.c:162-205` | Key, length and entries of a packed array |
| `Encoder.EncodeArray` | `JOINUS/Pods/nanopb/pb_encode.c:147-236` | encode_array: nothing for no entries, an error above array_size |
| `Encoder.EncodeField` | `JOINUS/Pods/nanopb/pb_encode.c:341-426` | encode_basic_field for required, optional, repeated and oneof fields |
| `Encoder.Encode` | `JOINUS/Pods/nanopb/pb_encode.c:528-550` | pb_encode writes exactly the specified bytes, or fails exactly when there are none or they do not fit, and never writes past its room |
| `Encoder.EncodeDelimited` | `JOINUS/Pods/nanopb/pb_encode.c:552-555` | The length-prefixed message |
| `Encoder.EncodeNullTerminated` | `JOINUS/Pods/nanopb/pb_encode.c:557-565` | The message and a zero byte |
| `Encoder.GetEncodedSize` | `JOINUS/Pods/nanopb/pb_encode.c:567-576` | Reports exactly the number of bytes the encoder writes |
| `EncodeSize.SizeBound` | `JOINUS/Pods/nanopb/pb_encode.c:717-765` | No struct encodes to more bytes than a bound computed from its descriptor alone |
| `EncodeSize.PackedBound` | `JOINUS/Pods/nanopb/pb_encode.c:162-205` | The size of a packed array stays below the bound, so it is a valid varint |
| `AuthProtocol.RunKeeps` | `JOINUS/Pods/Alamofire/Source/AuthenticationInterceptor.swift:251-403` | In every interleaving: each submitted completion is in exactly one place (in flight, queued, captured in a block, delivered once); isRefreshing holds exactly while one refresh is outstanding; outside the lock a non-empty queue implies isRefreshing |
| `AuthProtocol.StepKeeps` | `JOINUS/Pods/Alamofire/Source/AuthenticationInterceptor.swift:251-403` | Every single critical section, queue block item and completion keeps these invariants |
| `AuthProtocol.CalledAtMostOnce` | `JOINUS/Pods/Alamofire/Source/AuthenticationInterceptor.swift:371-403` | No completion is ever called twice, or before it was submitted |
| `AuthProtocol.QuietMeansDelivered` | `JOINUS/Pods/Alamofire/Source/AuthenticationInterceptor.swift:371-403` | With no call in flight, no block and no refresh outstanding, every completion has been called exactly once |
| `AuthProtocol.NothingStuck` | `JOINUS/Pods/Alamofire/Source/AuthenticationInterceptor.swift:251-403` | As long as some completion has not been called, a step that needs no caller can be taken |
| `AuthBound.StepsBounded` | `JOINUS/Pods/Alamofire/Source/AuthenticationInterceptor.swift:251-403` | In every interleaving: with n handlers submitted and k refreshes that succeeded, at most 8n + 5nk internal steps were taken, k is at most the number of recorded refreshes, and when no internal step is left every handler has been called |
| `AuthBound.StepsFrom` | `JOINUS/Pods/Alamofire/Source/AuthenticationInterceptor.swift:251-403` | The same from any state on: the internal steps taken and the potential left stay below the potential at the start and what submissions and successes added |
| `AuthBound.StepLowers` | `JOINUS/Pods/Alamofire/Source/AuthenticationInterceptor.swift:251-403` | Every internal step lowers the potential, except that a success may add five for each queued adapt handler |
| `AuthBound.ComesToRest` | `JOINUS/Pods/Alamofire/Source/AuthenticationInterceptor.swift:251-403` | From every state there is a run of internal steps, no longer than its potential, after which everything is quiet and every handler has been called |
| `AuthProtocol.RefreshesConserved` | `JOINUS/Pods/Alamofire/Source/AuthenticationInterceptor.swift:331-354` | Over every run the recorded refreshes are those answered plus those outstanding |
| `AuthWindow.WindowBound` | `JOINUS/Pods/Alamofire/Source/AuthenticationInterceptor.swift:331-369` | Over every run no closed time window of length `interval` holds more than maximumAttempts refresh timestamps (none when it is negative) |
| `AuthWindow.RefusedIffFull` | `JOINUS/Pods/Alamofire/Source/AuthenticationInterceptor.swift:356-369` | A refresh is refused exactly when the window ending now already holds maximumAttempts refreshes |
| `AuthRace.RefreshesReplaced` | `JOINUS/Pods/Alamofire/Source/AuthenticationInterceptor.swift:307-328` | Over every run: a retry refreshes a credential that is not the stored one if and only if, when it takes the lock, no refresh is under way and none is refused, and the last step that changed the credential since the retry read it installed a different one |
| `AuthRace.RunCredential` | `JOINUS/Pods/Alamofire/Source/AuthenticationInterceptor.swift:371-372` | The stored credential is what the last successful answer or the last change from outside installed |
| `AuthRace.ReplacedCredentialRefreshedAgain` | `JOINUS/Pods/Alamofire/Source/AuthenticationInterceptor.swift:307-328` | A concrete run in which two rejected requests refresh the same credential twice, the second time after it was replaced |
| `AuthDelivery.RunKept` | `JOINUS/Pods/Alamofire/Source/AuthenticationInterceptor.swift:251-403` | In every run adapt handlers only get adapt results and retry handlers only retry results |
| `AuthDecision.AdaptDecides` | `JOINUS/Pods/Alamofire/Source/AuthenticationInterceptor.swift:251-277` | The critical section of adapt, from every reachable state, with the whole new state: wait while a refresh is under way; missing credential; refresh a credential that requires it, or refuse everything that waits; only otherwise grant the stored one |
| `AuthDecision.AppliedOnlyIfFresh` | `JOINUS/Pods/Alamofire/Source/AuthenticationInterceptor.swift:251-292` | Over every run: a request is given a credential only if its last critical section found exactly that one stored, found that it does not require a refresh, and found no refresh under way |
| `AuthDecision.RetryGuards` | `JOINUS/Pods/Alamofire/Source/AuthenticationInterceptor.swift:294-319` | retry before its critical section, with the whole new state: no authentication error means do not retry, no credential is reported, and a request that used another credential is told to retry at once while the locked state stays |
| `AuthDecision.RetryDecides` | `JOINUS/Pods/Alamofire/Source/AuthenticationInterceptor.swift:321-328` | The critical section of retry, from every reachable state, with the whole new state: wait for the refresh under way, or start one of the credential read before, or refuse everything that waits |
| `AuthDecision.QueuedOnlyIfVetted` | `JOINUS/Pods/Alamofire/Source/AuthenticationInterceptor.swift:294-328` | Over every run: a retry takes the lock, and so queues its handler or starts a refresh, only if its own check for an authentication error and its own comparison with the stored credential both succeeded before |
| `AuthDecision.RunGrounds` | `JOINUS/Pods/Alamofire/Source/AuthenticationInterceptor.swift:294-328` | Over every run: every queued retry handler and every handler in a block has both checks behind it, and whatever a retry handler is told has its grounds among its own steps |
| `AuthDecision.CallersMay` | `JOINUS/Pods/Alamofire/Source/AuthenticationInterceptor.swift:251-328` | A handler is submitted once and starts at the first guard of its operation; the credential can be set at any time; nothing else changes |
| `AuthDecision.QueueDecides` | `JOINUS/Pods/Alamofire/Source/AuthenticationInterceptor.swift:331-403` | One turn of the serial queue, with the whole new state: a refresh is handed over with its own credential; adapt handlers come first; the queue waits for the adapt call it made |
| `AuthDecision.AnswerDecides` | `JOINUS/Pods/Alamofire/Source/AuthenticationInterceptor.swift:343-403` | An answer, with the whole new state: the refresh is over, everything that waits is scheduled in order, and a success installs its credential |
| `AuthFate.ToldAsDeserved` | `JOINUS/Pods/Alamofire/Source/AuthenticationInterceptor.swift:371-403` | In every interleaving: a handler whose last wait ended with an error gets that error; a retry handler whose wait ended with a success retries; an adapt handler that was not refused is applied exactly the credential stored when its last critical section ran, or told that there was none; a retry handler that never waited retries only after it found a credential; once everything is quiet each handler has been told exactly once |
| `AuthFate.RunFated` | `JOINUS/Pods/Alamofire/Source/AuthenticationInterceptor.swift:331-403` | Over every run each block on the serial queue holds exactly handlers whose last wait ended as the block says, waiting handlers were not refused, and each call in flight carries the credential it found |
| `AuthDelivery.BlockIsTold` | `JOINUS/Pods/Alamofire/Source/AuthenticationInterceptor.swift:371-403` | When nothing comes in between and the stored credential requires no refresh, the serial queue tells every handler of a block what the block is for, adapts first, each list in the order it was queued |
| `AuthDelivery.AnswerIsTold` | `JOINUS/Pods/Alamofire/Source/AuthenticationInterceptor.swift:342-353` | When the serial queue is free, nothing comes in between and a new credential requires no refresh itself: after a success every queued adapt is applied the new credential and every queued retry retries, after a failure all of them get the error, in order |
| `AuthState.Interceptor.constructor` | `JOINUS/Pods/Alamofire/Source/AuthenticationInterceptor.swift:241-247` | A new interceptor refreshes nothing and queues nothing |
| `AuthState.Interceptor.IsRefreshExcessive` | `JOINUS/Pods/Alamofire/Source/AuthenticationInterceptor.swift:356-369` | The count of timestamps in the window is compared with the limit |
| `AuthState.Interceptor.HandleRefreshSuccess` | `JOINUS/Pods/Alamofire/Source/AuthenticationInterceptor.swift:371-387` | Stores the credential, empties both queues into one block and ends the refresh |
| `AuthState.Interceptor.HandleRefreshFailure` | `JOINUS/Pods/Alamofire/Source/AuthenticationInterceptor.swift:389-403` | Empties both queues into one block with the error and ends the refresh |
| `AuthState.Interceptor.StartRefreshing` | `JOINUS/Pods/Alamofire/Source/AuthenticationInterceptor.swift:331-354` | Records and schedules a refresh, or fails everything queued when refreshes are excessive |
| `AuthState.Interceptor.LockedAdapt` | `JOINUS/Pods/Alamofire/Source/AuthenticationInterceptor.swift:252-276` | The critical section of adapt |
| `AuthState.Interceptor.LockedRetry` | `JOINUS/Pods/Alamofire/Source/AuthenticationInterceptor.swift:320-326` | The second critical section of retry |
| `AuthState.Interceptor.LockedAnswer` | `JOINUS/Pods/Alamofire/Source/AuthenticationInterceptor.swift:344-351` | The critical section of the authenticator's completion |
| `TaskMap.RunConsistent` | `JOINUS/Pods/Alamofire/Source/RequestTaskMap.swift:47-86` | Over every run that associates only unmapped requests with unmapped tasks the dictionaries are mutual inverses, exactly the mapped tasks have events, and those are the events received since association |
| `TaskHistory.RunMapsPairs` | `JOINUS/Pods/Alamofire/Source/RequestTaskMap.swift:47-148` | Over every run that associates only unmapped requests and tasks, from the operations alone: a task maps to a request and the request to the task if and only if they were associated and since then neither was dropped and at most one of the two events of the task has arrived; so every other pair stays |
| `TaskHistory.FatalExactly` | `JOINUS/Pods/Alamofire/Source/RequestTaskMap.swift:47-148` | Over every such run an operation is fatal if and only if it drops or reports on something unmapped, or reports an event twice |
| `TaskHistory.AssociateMaps` | `JOINUS/Pods/Alamofire/Source/RequestTaskMap.swift:62-64` | On any map: after an association both lookups give the pair, no event has arrived, and every other entry is as before |
| `TaskMap.LaterEventRemoves` | `JOINUS/Pods/Alamofire/Source/RequestTaskMap.swift:115-148` | For every mapped task exactly the later of metrics and completion returns true and removes the pair; an event is fatal exactly for an unmapped task or when it arrives twice |
| `TaskMap.AssociateConsistent` | `JOINUS/Pods/Alamofire/Source/RequestTaskMap.swift:47-66` | Associating keeps the maps consistent if and only if both sides are unmapped or the pair is already associated |
| `TaskMap.SameSize` | `JOINUS/Pods/Alamofire/Source/RequestTaskMap.swift:89-113` | In a consistent map the three dictionaries have the same size, so the checks in the counts never fail |
| `TaskMap.RequestTaskMap.SetTask` | `JOINUS/Pods/Alamofire/Source/RequestTaskMap.swift:47-66` | The setter by request; removing an unmapped request is fatal and changes nothing |
| `TaskMap.RequestTaskMap.SetRequest` | `JOINUS/Pods/Alamofire/Source/RequestTaskMap.swift:68-87` | The setter by task; removing an unmapped task is fatal and changes nothing |
| `TaskMap.RequestTaskMap.AfterGatheringMetrics` | `JOINUS/Pods/Alamofire/Source/RequestTaskMap.swift:115-125` | Metrics first are recorded, metrics last remove the task |
| `TaskMap.RequestTaskMap.AfterCompleting` | `JOINUS/Pods/Alamofire/Source/RequestTaskMap.swift:127-148` | Completion first is recorded, completion last removes the task |
| `TaskMap.RequestTaskMap.Count` | `JOINUS/Pods/Alamofire/Source/RequestTaskMap.swift:89-94` | The size check never fails on a consistent map |
| `TaskMap.RequestTaskMap.EventCount` | `JOINUS/Pods/Alamofire/Source/RequestTaskMap.swift:96-100` | The size check never fails on a consistent map |

## Left out

- User callbacks, extension fields and custom stream callbacks of nanopb, among them the 16-byte skip loop of `pb_read` that only such streams use: arbitrary code that may read or write anything.
- Pointer allocation and release (`PB_ENABLE_MALLOC`), which the app's build turns on: it needs a model of the C heap, and statically allocated fields decode the same way with and without it, except that a union whose `which_` member names no field is then an error. The iterator's arithmetic does cover pointer members.
- `PB_BUFFER_ONLY`, `PB_WITHOUT_64BIT`, `PB_NO_PACKED_STRUCTS` layouts, old-style callbacks and the text of error messages.
- Decoder.FieldSetToDefault: the four bytes cleared in an array without a count member are modelled within the array; when the whole array is shorter than four bytes the write goes on into whatever follows it, which is not modelled.
- Decoder.SetToDefaults: the same write beyond an array shorter than four bytes is not modelled.
- Encoder.CheckDefault: `safe_read_bool` is a comparison of the flag with zero; the bytes of a has_ flag are not modelled.
- OutputStream.OStream.Write: the test whether bytes_written wraps around size_t is always false here, because counters are unbounded numbers.
- AuthWindow.WindowBound: time stamps and the interval are exact real numbers, while the source subtracts and compares Doubles; a window can be off by the rounding of that subtraction.
- AuthWindow.RefusedIffFull: exact real numbers, as above.
- Scalars.LERoundTrip: float and double fields are carried as their bit patterns; rounding does not occur in the codec.
- Wire.Varint32Agrees: stated for at most ten bytes, because `pb_decode_varint32` has no length limit and its shift counter wraps.
- RoundTrip.MsgTrip: assumes distinct tags, NUL-terminated strings, counts within `array_size`, has_ flags and bool members of 0 or 1, unions that select a member or none, a zero default for proto3 singular fields, and submessages and packed arrays below 4 GiB each, the longest length the decoder reads.
- Encoder.Encode: sizes are unbounded numbers; a precondition on the descriptor (`EncodeSize.Sizeable`) keeps every one of them below 2^64, so that size_t never wraps.
- Decoder.DecodeNoinit: after a failure the position of the stream and the contents of the destination are not specified, beyond the stream still being valid.
- Structs are values that the decoder methods take and return; the stream, the iterator and the bitmap words are updated in place.
- Numbers in memory are little-endian, as on the platforms the app is built for.
- A string member is its whole buffer, a bytes member only its contents: bytes behind the announced size of a bytes member are not part of the model.
- InitExact.ForgetsUnlessLeaky: for descriptors whose structs stay below 4 GiB on the wire, so that the messages it finds can be sent.
- InitExact.LeakShows: the same 4 GiB bound.
- LeastMessage.LeastDecodes: the same 4 GiB bound, which keeps the lengths in its message readable.
- LeastMessage.UncheckedIffBeyond64: the same 4 GiB bound.
- DecodedValid.DecodedIsValid: for descriptors with the member sizes of the C types, valid initial values, and which_ members at multiples of their four bytes, as compilers lay structs out unless they are packed.
- Evolution.ReadsOtherVersion: a field both versions have keeps its type, its label and, unless it is a submessage, its size; fields both have are in the same order.
- AuthBound.StepsBounded: the bound counts successful refreshes, since a credential that always requires a refresh, without a refresh window, is refreshed for ever.
- `URLRequest`, `Session`, what `apply` does to a request, and which queue a completion handler runs on.
- `RequestTaskMap` where metrics are not gathered (Linux, watchOS before 7), and its `requests`, `isEmpty` and `isEventsEmpty` accessors.
- `pb_decode_delimited_noinit` and `pb_decode_nullterminated`, which only combine functions that are modelled.
- The rest of the app and of its libraries: user interface, networking and generated tables.
