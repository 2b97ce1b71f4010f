# Verified models of the rust-srec media core

rust-srec records live streams. This project models the parts of it that take media bytes apart and
put them together, and proves that they do so without losing, inventing or misplacing a byte.

- **FLV streams** (`FlvFraming`, `FlvStream`, `FlvDecoder`, `FlvParser`, `FlvWriter`, `FlvRoundTrip`). The incremental
  decoder is a class over a growing buffer. One call is described by the function `FlvStream.Decode`; a
  whole stream by `FlvStream.Reference`, which never sees a buffer. Every sequence of appends and calls is shown to follow
  the reference, so the items do not depend on how the network cuts the stream, garbage and bad headers included. The two
  writers and the simple synchronous parser are related to the same reference.
- **The recorder** (`Metadata`, `Analyzer`, `Recorder`). The analyzer observes tags as they are written, the strategy
  patches the metadata tag when a file is closed, and the writer task rotates files. The statistics are shown to be
  exact at every step, and the file after patching to have the layout the keyframe index speaks of.
- **AMF0** (`Amf0`, `Utf8`, `Amf0RoundTrip`, `Amf0Spelling`, `Amf0Errors`, `Amf0Codec`). Values, encoder, decoder, and the lossy decoder that skips bytes. Which bytes
  decode to which value is stated exactly, for every input.
- **Bits** (`Bits`, `BitIo`, `BitFields`, `ExpGolomb`, `Nal`). Reader and writer are classes whose meaning is a bit string and a
  position in it.
- **AV1 and HEVC containers** (`Leb128`, `Av1Obu`, `AnnexB`, `Isobmff`, `Av1Config`, `Hevc`, `HevcMux`, `Collect`). The parsers run on the bit
  reader above and are proved against functions on bytes.

Code that updates state is a class or a method with its loops; its contract equates the new state with a
function of the old one, and the lemmas are about those functions.

Machine arithmetic is that of a release build: where 64-bit or 8-bit numbers wrap around in the source, the model
takes the remainder. Counters that cannot wrap for inputs that fit in memory are unbounded. Bytes are the integers from 0 to 255,
and bit operations are written as division and remainder.

Where documentation and code differ, the model follows the code, and a theorem says exactly when the two agree:

- `crates/flv/src/writer_async.rs` describes a stream with one PreviousTagSize0, but its header bytes already end in one and
  the first tag writes another: `FlvWriter.LayoutIsDocumentedExactlyWhen`, and what a decoder makes of it,
  `FlvRoundTrip.EncoderIsRecoverable`.
- `crates/flv-fix/src/analyzer.rs` speaks of the first keyframe for the duration, but the first video timestamp is used:
  `Analyzer.StartIsDocumentedExactlyWhen` and `Analyzer.LateKeyframeCounts`.
- The duration is described as the difference of the earliest and the latest timestamp, but only the first and last tags of
  each kind are looked at: `Analyzer.ElapsedIsTheSpanExactlyWhen` and `Analyzer.BackwardTimesCollapse`.
- The minimum interval between indexed keyframes takes a last time of zero as "none yet":
  `Analyzer.SpacedExactlyWhen` and `Analyzer.EarlyKeyframesCrowd`.
- `crates/amf0/src/encode.rs` cuts the lengths of keys, long strings and arrays to their fields without an error:
  `Amf0RoundTrip.LostSilentlyExactlyWhen` and the three lemmas before it.
- The HEVC record writes a layer count of zero or one like the named values for them:
  `HevcMux.RecordRoundTripExactlyWhen` and `HevcMux.SmallCountIsLost`.

## Model

| member | source | states |
|---|---|---|
| FlvFraming.TagHeaderRoundTrip | crates/flv/src/encode.rs:50-92 | the eleven header bytes written for any tag type, filter flag, 24-bit size and 32-bit timestamp read back as those values, with stream id zero |
| FlvFraming.HeaderRoundTrip | crates/flv/src/header.rs:72-140 | a written version-1 file header reads back with its flags and offset nine |
| FlvFraming.HeaderExactlyWhen | crates/flv/src/header.rs:72-140 | for any bytes: a header is parsed if and only if the first five bytes are those it is written with and its offset lies between 9, 65536 and the end of the input |
| FlvFraming.ParseTagHeader | crates/flv/src/framing.rs:20-44 | a data size has 24 bits, so it is below the decoder's limit and the oversized-tag branch is never taken; the type is known exactly when the first byte can start a tag |
| FlvFraming.TypeExactlyWhen | crates/flv/src/framing.rs:20-44 | a known type and a filter flag are read if and only if the first byte is the one they are written as; audio is 8, video 9, script data 18 |
| FlvStream.FindTagStartFirst | crates/flv/src/parser_async.rs:52-87 | the resynchronisation scan stops at the first byte that can start a tag and at no earlier one |
| FlvStream.DecodeKeeps | crates/flv/src/parser_async.rs:95-338 | one decode call, whatever it returns and whatever bytes arrive later, leaves exactly the items that were still to come |
| FlvStream.DecodeConserves | crates/flv/src/parser_async.rs:95-338 | one decode call moves the position by exactly the bytes it takes from the front of the buffer |
| FlvStream.NoProgressIsQuiet | crates/flv/src/parser_async.rs:340-369 | a decode call that consumes nothing and returns nothing means that nothing is left to find in these bytes |
| FlvStream.ResyncProgress | crates/flv/src/parser_async.rs:52-87 | a resynchronisation skips at least one byte, no byte that could start a tag, and stops on one that can |
| FlvStream.SizeIsRemembered | crates/flv/src/parser_async.rs:103-369 | in every state a run can reach: the size the decoder remembers is that of the tag whose size field is due; it is kept while bytes are awaited and forgotten exactly when a call skipped bytes to find a tag |
| FlvStream.FailsExactlyWhen | crates/flv/src/parser_async.rs:103-209 | a whole stream is rejected if and only if it has nine bytes, does not start with a tag, and its header has a prefix no header is written with, an offset under 9, or one over 65536 that has been reached |
| FlvDecoder.EveryRunFollowsReference | crates/flv/src/parser_async.rs:95-338 | in every interleaving of buffer appends and decode calls, what was emitted and what is still to come are together the items of the whole stream |
| FlvDecoder.EveryRunConservesBytes | crates/flv/src/parser_async.rs:95-338 | in every such interleaving the position plus the buffered bytes are the bytes fed, and the buffer is the tail of the stream from the position |
| FlvDecoder.FlvDecoder.TryResync | crates/flv/src/parser_async.rs:52-87 | the scan changes the decoder and the buffer as the one-call description says, and finds a start exactly when bytes are left |
| FlvDecoder.FlvDecoder.TakeTagBody | crates/flv/src/parser_async.rs:254-338 | for any parsed tag header: the size checks, the wait for the whole tag, and the tag taken from the buffer |
| FlvDecoder.FlvDecoder.TakeHeader | crates/flv/src/parser_async.rs:95-211 | the file header is taken, awaited or rejected as the one-call description says |
| FlvDecoder.FlvDecoder.DecodeNext | crates/flv/src/parser_async.rs:95-338 | the state, buffer and outcome after one call are those of the one-call description on every state and buffer |
| FlvDecoder.FlvDecoder.DecodeEof | crates/flv/src/parser_async.rs:340-369 | at the end of input each call yields the next remaining item, or reports the header error, or finds nothing remaining and leaves the buffer empty; it terminates |
| FlvDecoder.Drain | crates/flv/src/parser_async.rs:340-369 | repeated end-of-input calls yield all remaining items in order and empty the buffer |
| FlvDecoder.FramedRead | crates/flv/src/parser_async.rs:340-400 | for every stream and every way of cutting it into chunks the items, their end positions and the final error are those of the uncut stream |
| FlvParser.ParseTag | crates/flv/src/parser.rs:160-205 | one tag is read exactly when all of it is there, and the reader then stands behind it |
| FlvParser.ParseTags | crates/flv/src/parser.rs:46-122 | the loop over PreviousTagSize fields and tags, in all three checking modes |
| FlvParser.ModesAgree | crates/flv/src/parser.rs:46-122 | the checking mode never changes which tags are read: strict mode can only stop earlier, the others never fail |
| FlvParser.StrictExactlyWhen | crates/flv/src/parser.rs:46-122 | on any input a strict parse succeeds if and only if the first PreviousTagSize is the expected one and every later one that is there is the size of the tag before it; otherwise it returns exactly the tags before the first wrong field |
| FlvParser.TruncationLosesOnlyTheCutTag | crates/flv/src/parser.rs:46-205 | cutting any input at any byte loses exactly the tags that do not end before the cut |
| FlvWriter.EncodeHeaderBytes | crates/flv/src/encode.rs:11-43 | the header array filled index by index is the file header |
| FlvWriter.EncodeTagHeaderBytes | crates/flv/src/encode.rs:50-92 | the tag header array filled index by index is the tag header, and a size over 24 bits is rejected |
| FlvFraming.TagHeaderLayout | crates/flv/src/encode.rs:50-92 | which bytes of a tag header hold the type and filter bit, the size, the low three bytes of the time, its high byte, and the stream id, by value and not by how they are cut |
| FlvWriter.FlvWriter.WriteHeader | crates/flv/src/writer.rs:73-88 | the header and PreviousTagSize0 are appended |
| FlvWriter.FlvWriter.WriteTag | crates/flv/src/writer.rs:99-127 | the bytes appended for every accepted tag: the header, with the length cut to 32 bits, the payload, and the size; a cut length over 24 bits is rejected and nothing changes |
| FlvWriter.WriteFile | crates/flv/src/writer.rs:73-127 | a header and tags written in order make up the file that the round trips are about |
| FlvWriter.FlvEncoder.Encode | crates/flv/src/writer_async.rs:44-123 | the bytes appended for a header or a tag, and exactly which items are rejected in which state |
| FlvWriter.EncodeStream | crates/flv/src/writer_async.rs:44-123 | a header and tags given in order produce the whole encoder output |
| FlvWriter.LayoutIsDocumentedExactlyWhen | crates/flv/src/writer_async.rs:20-42 | the encoder produces the layout it documents if and only if there are no tags; otherwise everything after the header stands four bytes later |
| FlvRoundTrip.IncrementalRoundTrip | crates/flv/src/writer.rs:73-127 | the incremental decoder reads a written file back: the header, then every tag in order at its own position, with filter flag, timestamp and payload, and without skipping a byte |
| FlvRoundTrip.JoinsMidStream | crates/flv/src/parser_async.rs:104-130 | tags without a header in front are all found, each at its position, and no header is reported |
| FlvRoundTrip.JunkIsSkipped | crates/flv/src/parser_async.rs:212-369 | bytes that cannot start a tag are skipped where a tag is due, and every tag behind them is found in its place |
| FlvRoundTrip.SyncRoundTrip | crates/flv/src/parser.rs:46-122 | the synchronous parser reads a written file back in every mode, the strict one included |
| FlvRoundTrip.AcceptedExactlyWhen | crates/flv/src/writer_async.rs:72-123 | once its header is out, the encoder accepts a tag of a known type if and only if it has a 24-bit length and its bytes read back as that very tag, stream id included |
| FlvRoundTrip.EncoderIsRecoverable | crates/flv/src/writer_async.rs:44-123 | the decoder yields every encoded tag in order; the first stands at byte 17, behind the four zero bytes of the second PreviousTagSize0 |
| FlvRoundTrip.IncrementalReadsCutFile | crates/flv/src/parser_async.rs:212-369 | on every prefix of a written file, the empty one included, the incremental decoder yields exactly the tags that end before the cut |
| FlvRoundTrip.SyncReadsCutFile | crates/flv/src/parser.rs:46-205 | on every prefix of at least nine bytes the synchronous parser yields the same tags |
| FlvRoundTrip.DecodersAgreeExactlyWhen | crates/flv/src/parser.rs:46-205 | on every input with a valid header: the two decoders give the same tags if and only if the parser met only known types and no whole tag stands behind the first possible tag start in the bytes it left |
| Metadata.BuildFixedSize | crates/flv-fix/src/amf/builder.rs:174-241 | the binary search returns the rendering of the requested length with the most keyframes that are allowed and fit, padded, and says whether some were dropped; for a renderer that grows with the keyframes and pads exactly, it succeeds if and only if the length is allowed and a rendering without keyframes fits |
| Metadata.FinalPayloadIs | crates/flv-fix/src/writer_task.rs:187-203 | what the final payload renders: the summary of the statistics and the first so many entries of the recording's own keyframe index, where one more entry would not fit |
| Analyzer.FlvAnalyzer.AnalyzeHeader | crates/flv-fix/src/analyzer.rs:440-457 | the counters after a header |
| Analyzer.FlvAnalyzer.AnalyzeAudioTag | crates/flv-fix/src/analyzer.rs:459-517 | the counters and timestamps after an audio tag |
| Analyzer.FlvAnalyzer.AnalyzeVideoTag | crates/flv-fix/src/analyzer.rs:519-600 | the counters, timestamps and keyframe index after a video tag |
| Analyzer.FlvAnalyzer.AnalyzeTag | crates/flv-fix/src/analyzer.rs:602-624 | the whole statistics after any tag, the file size included |
| Analyzer.OffsetIsLaidPosition | crates/flv-fix/src/analyzer.rs:602-624 | the running size before a tag is the position at which the synchronous parser finds it |
| Analyzer.CountersConserve | crates/flv-fix/src/analyzer.rs:602-624 | the counters add up: tags by kind to the tag count, bytes by kind and framing to the file size |
| Analyzer.CountersAreSums | crates/flv-fix/src/analyzer.rs:459-624 | over every list of tags each counter is the number, or the payload bytes, of the tags of its kind, and the last timestamp is that of the last tag |
| Analyzer.KeyFramesAre | crates/flv-fix/src/analyzer.rs:519-600 | the keyframes are the unfiltered video tags whose first payload byte has frame type 1, in any format and codec |
| Analyzer.SequenceHeadersAre | crates/flv-fix/src/analyzer.rs:519-600 | the sequence headers are the packets of type 0: of any codec in the enhanced format, of AVC and HEVC in the old one |
| Analyzer.IndexIsExact | crates/flv-fix/src/analyzer.rs:519-600 | the keyframe index is one entry for each chosen keyframe, with its offset and its time |
| Analyzer.LastKeyframeIsLastEntry | crates/flv-fix/src/analyzer.rs:519-600 | the last keyframe position on record is that of the last index entry |
| Analyzer.ChosenInRange | crates/flv-fix/src/analyzer.rs:519-600 | the chosen tags are indexable keyframes in stream order |
| Analyzer.ChosenSpacing | crates/flv-fix/src/analyzer.rs:519-600 | two neighbours in the index are the minimum interval apart, or the first of them is at time zero |
| Analyzer.SpacedExactlyWhen | crates/flv-fix/src/analyzer.rs:519-600 | all neighbours in the index are the minimum interval apart if and only if the first two indexable tags are not one at time zero and another less than the interval later |
| Analyzer.EarlyKeyframesCrowd | crates/flv-fix/src/analyzer.rs:519-600 | keyframes at times zero and one both enter the index |
| Analyzer.ChosenComplete | crates/flv-fix/src/analyzer.rs:519-600 | a keyframe is left out of the index only because it came too soon after a chosen one |
| Analyzer.DurationIsTheSpan | crates/flv-fix/src/analyzer.rs:180-209 | with the times of each kind in order, however audio and video are interleaved, the duration is from the earliest media tag to the latest, in whole seconds |
| Analyzer.ElapsedIsTheSpanExactlyWhen | crates/flv-fix/src/analyzer.rs:168-209 | for times in any order: the elapsed milliseconds are those from the earliest media tag to the latest if and only if some kind starts with the earliest and some kind ends with the latest |
| Analyzer.BackwardTimesCollapse | crates/flv-fix/src/analyzer.rs:168-209 | two video tags five seconds apart in reverse order, with no time elapsed |
| Analyzer.StartIsDocumentedExactlyWhen | crates/flv-fix/src/analyzer.rs:168-209 | the duration starts at the documented first keyframe or audio tag if and only if the first video tag is at the time of the first keyframe, or audio starts no later than both, or there is neither keyframe nor audio and video starts at zero |
| Analyzer.LateKeyframeCounts | crates/flv-fix/src/analyzer.rs:168-209 | two tags with a duration of five seconds, for which the documented rule gives none |
| Recorder.FlvFormatStrategy.PrepareMetadataPatch | crates/flv-fix/src/writer_task.rs:128-185 | only the first metadata tag of a file is recorded; one without room is replaced by the roomier rendering of it; the recorded place is its payload, with the model it was taken apart to; with a dependable renderer it fails if and only if no such payload can be had |
| Recorder.FlvFormatStrategy.WriteItem | crates/flv-fix/src/writer_task.rs:219-258 | after every successful call the statistics describe the file byte for byte, and the returned count is the growth of the file; every storable item, metadata with room included, succeeds |
| Recorder.FlvFormatStrategy.OnFileOpen | crates/flv-fix/src/writer_task.rs:284-307 | opening a file starts from an empty one and keeps the pending header |
| Recorder.FlvFormatStrategy.OnFileClose | crates/flv-fix/src/writer_task.rs:309-367 | a file with a header and a metadata tag gets the final rendering of its own statistics in place of the old payload, unless not even an empty index fits; any other file stays as it is; it never changes in length, and closing succeeds when there is nothing to patch or the renderer is dependable |
| Recorder.SegmentSize | crates/flv-fix/src/writer_task.rs:219-258 | the analyzer's file size is the length of the file |
| Recorder.PatchedBytes | crates/flv-fix/src/writer_task.rs:309-351 | overwriting the recorded payload yields the file of the same tags with that payload replaced |
| Recorder.ClosingKeepsLayout | crates/flv-fix/src/writer_task.rs:309-351 | no byte outside the recorded payload changes, and the file parses to the same types, timestamps, sizes and positions |
| Recorder.ClosedPayloadTellsTheTruth | crates/flv-fix/src/writer_task.rs:309-351 | when an empty index fits, the bytes at the recorded place of the closed file are a rendering of a summary that is true of that file, with the most index entries that fit |
| Recorder.SummaryTellsTheTruth | crates/flv-fix/src/amf/builder.rs:82-106 | file size, audio and video bytes, last timestamp, last keyframe and the flags of the summary are those of the file and its tags |
| Recorder.ClosedUnchanged | crates/flv-fix/src/writer_task.rs:309-367 | without a header, a metadata tag or room for an empty index, closing leaves the file as it is |
| Recorder.IndexPointsAtKeyframes | crates/flv-fix/src/analyzer.rs:519-600 | every index entry of a closed file is the position and time at which the parser finds an indexable keyframe in it, also after the metadata tag was replaced |
| Recorder.NoTagIsLost | crates/pipeline-common/src/writer_task.rs:506-630 | over every sequence of items the tags of all files, in order, are the tags that were stored |
| Recorder.FilesAreShares | crates/pipeline-common/src/writer_task.rs:506-630 | the files that the writer fills are the shares of the stream as it came in: a tag after a header opens a new one; each holds every tag of its share as it came, but for the first metadata tag, which is made roomier if it has no room |
| Recorder.FileKeepsItsShare | crates/flv-fix/src/writer_task.rs:128-185 | in each file at most the payload of the tag to be patched differs from what came in, only if it had no spacer, and then it is 256 bytes over the size of its rewritten form |
| Recorder.CloseFile | crates/pipeline-common/src/writer_task.rs:665-699 | a file that is closed holds its segment, with the final metadata in place, and is as long as the bytes counted for it |
| Recorder.Record | crates/pipeline-common/src/writer_task.rs:582-699 | for every sequence of items, with rotation before each write: success means that the files are the shares of the stream, each with its header, its tags in order and its first metadata tag patched; storable items with dependable models always succeed, and so do items without metadata |
| Amf0Codec.EncodeValue | crates/amf0/src/encode.rs:16-33 | the recursive writer appends the encoding of the value, or fails as it does |
| Amf0Codec.EncodeObject | crates/amf0/src/encode.rs:116-132 | marker, properties in order, end marker |
| Amf0Codec.EncodeEcmaArray | crates/amf0/src/encode.rs:134-148 | marker, count cut to 32 bits, properties, end marker |
| Amf0Codec.EncodeStrictArray | crates/amf0/src/encode.rs:150-163 | marker, count cut to 32 bits, values |
| Amf0Codec.Amf0Decoder.DecodeNext | crates/amf0/src/decode.rs:163-182 | one value from the cursor: the value or the error, and how far the cursor moved in either case |
| Amf0Codec.Amf0Decoder.ReadObject | crates/amf0/src/decode.rs:240-255 | properties up to the end marker, with the lookahead undone when it is not one |
| Amf0Codec.Amf0Decoder.ReadEcmaArray | crates/amf0/src/decode.rs:257-273 | the counted properties and the end marker behind them |
| Amf0Codec.Amf0Decoder.ReadStrictArray | crates/amf0/src/decode.rs:282-293 | the counted values |
| Amf0Codec.Amf0Decoder.IsReadObjectEof | crates/amf0/src/decode.rs:223-238 | the lookahead consumes the end marker or nothing |
| Amf0Codec.Amf0Decoder.DecodeEverything | crates/amf0/src/decode.rs:95-117 | all values up to the end or the first error |
| Amf0Codec.Amf0Decoder.DecodeAllLossy | crates/amf0/src/decode.rs:119-160 | the values, the skipped bytes, the error, and where the cursor stands: behind the last span or skip, or as far behind it as the failing decode read |
| Amf0RoundTrip.RoundTrip | crates/amf0/src/decode.rs:163-302 | followed by any bytes, an encoding decodes to its value and takes exactly its own length |
| Amf0RoundTrip.RoundTripExactlyWhen | crates/amf0/src/encode.rs:16-174 | encoding succeeds and decodes back if and only if all keys and strings have at most 65535 bytes and all counts and long strings 32-bit lengths |
| Amf0RoundTrip.EndMarkerIsOptional | crates/amf0/src/decode.rs:257-273 | the encoding of an associative array without its last three bytes, before anything that is no end marker, is still that array and takes exactly what is left |
| Amf0Spelling.DecodesExactlyWhen | crates/amf0/src/decode.rs:163-302 | for any bytes, value and length: the decoder takes that value off the front if and only if a sound spelling of it stands there, where a boolean may be any byte and an associative array may be left open |
| Amf0Spelling.SpellingReads | crates/amf0/src/decode.rs:163-302 | every sound spelling, in any context, is read as what it means |
| Amf0Spelling.ReadIsSpelled | crates/amf0/src/decode.rs:163-302 | whatever is read is a sound spelling of the result |
| Amf0Spelling.MarkersAre | crates/amf0/src/encode.rs:49-172 | the first byte of every encoding, type by type, as section 2.1 of the AMF0 specification numbers them |
| Amf0Errors.MoreBytesChangeNothing | crates/amf0/src/decode.rs:163-302 | further bytes change a result only if it was the end of the input, or took an array for open there |
| Amf0Errors.TruncatedWaits | crates/amf0/src/decode.rs:163-302 | an encoding cut at any byte reports the end of the input, unless no more than an end marker is missing |
| Amf0Errors.ErrorsBlame | crates/amf0/src/errors.rs:37-39 | a recoverable error is about the last byte read, which is the marker of no supported type |
| Amf0Errors.LossySkipsMarkers | crates/amf0/src/decode.rs:119-160 | a byte that is the marker of no supported type is skipped while the budget lasts |
| Amf0Errors.LossyStops | crates/amf0/src/decode.rs:119-160 | the end of the input and bad text are not skipped |
| Amf0Errors.BadTextIsAnError | crates/amf0/src/decode.rs:217-221 | a string that is not UTF-8 is reported as such |
| Utf8.Utf8ExactlyWhen | crates/amf0/src/decode.rs:217-221 | the test for UTF-8 accepts exactly the encodings of sequences of Unicode scalar values |
| Amf0RoundTrip.LongKeyIsLost | crates/amf0/src/encode.rs:43-51 | an object with a longer key is written without an error and never decodes back |
| Amf0RoundTrip.LongTextIsLost | crates/amf0/src/encode.rs:93-102 | a long string of 2^32 bytes or more likewise |
| Amf0RoundTrip.LongArraysAreLost | crates/amf0/src/encode.rs:134-163 | arrays of 2^32 entries or more likewise |
| Amf0RoundTrip.AcceptedExactlyWhen | crates/amf0/src/encode.rs:16-174 | encoding succeeds if and only if every short string in the value has at most 65535 bytes |
| Amf0RoundTrip.LostSilentlyExactlyWhen | crates/amf0/src/encode.rs:16-174 | a value is written without an error and never decodes back if and only if its short strings fit and some key, count or long string does not |
| Amf0RoundTrip.KeyIsNotObjectEnd | crates/amf0/src/decode.rs:223-238 | no property, not even one with an empty key, looks like the end marker |
| Amf0RoundTrip.EncodingsArePrefixFree | crates/amf0/src/encode.rs:16-174 | no encoding is the beginning of another one |
| Amf0RoundTrip.DecodeAllInverts | crates/amf0/src/decode.rs:95-117 | decoding everything inverts the concatenation of encodings |
| Amf0RoundTrip.DecodedFits | crates/amf0/src/decode.rs:163-302 | whatever is decoded from any bytes can be encoded again |
| Amf0RoundTrip.LossyAccounts | crates/amf0/src/decode.rs:119-160 | on every input the spans of the values and the skipped bytes cover, in order and without overlap, everything consumed, and every span decodes to its value |
| Amf0RoundTrip.LossyRespectsBudget | crates/amf0/src/decode.rs:119-160 | the skipped bytes are at most the budget times one more than the number of values |
| Amf0RoundTrip.LossyExtendsStrict | crates/amf0/src/decode.rs:95-160 | the strictly decoded values are a prefix of the lossy ones; with budget zero the two agree, the error included |
| BitIo.BitReader.ReadBit | crates/bytes-util/src/bit_read.rs:25-43 | the next bit of the stream, or the end of it |
| BitIo.BitReader.ReadBits | crates/bytes-util/src/bit_read.rs:45-57 | up to 64 bits as a number, or nothing when the stream ends before |
| BitIo.BitReader.Align | crates/bytes-util/src/bit_read.rs:60-65 | to the next byte boundary |
| BitIo.BitReader.Read | crates/bytes-util/src/bit_read.rs:98-127 | the aligned and the shifted path return the same bits of the stream; the aligned one may return fewer bytes, the other all or none |
| BitIo.BitReader.SeekBits | crates/bytes-util/src/bit_read.rs:151-197 | a move by any signed number of bits succeeds exactly when the target is in the stream or on a byte boundary, and leaves the reader, cached byte included, at the target; a failed move before the start changes nothing, one past the end leaves the target with the stale byte |
| BitIo.TruncIsFloorUnlessNegative | crates/bytes-util/src/bit_read.rs:151-197 | how division that truncates toward zero differs from the byte and bit a position names |
| BitIo.BitWriter.WriteBit | crates/bytes-util/src/bit_write.rs:20-38 | one bit is appended |
| BitIo.BitWriter.WriteBits | crates/bytes-util/src/bit_write.rs:40-57 | the low bits of a number are appended; a number too large for them is rejected and nothing changes |
| BitIo.BitWriter.Align | crates/bytes-util/src/bit_write.rs:66-73 | zero bits up to the next byte boundary are appended |
| BitIo.BitWriter.Write | crates/bytes-util/src/bit_write.rs:108-118 | both paths append the bits of the bytes |
| BitIo.BitRoundTrip | crates/bytes-util/src/bit_write.rs:18-118 | any list of bits, numbers, byte strings and alignments, written and then read in the same shapes, comes back as it was |
| ExpGolomb.WriteExpGolomb | crates/expgolomb/src/lib.rs:107-124 | the code of a number is appended |
| ExpGolomb.SizeOfExpGolomb | crates/expgolomb/src/lib.rs:143-152 | the length of the code in bits |
| ExpGolomb.ReadExpGolomb | crates/expgolomb/src/lib.rs:70-85 | the number at the current bit in 64-bit arithmetic, on every stream, and the bit behind it |
| ExpGolomb.RoundTripExactlyWhen | crates/expgolomb/src/lib.rs:54-152 | between any other bits a number reads back from exactly its size in bits if and only if it is not the largest 64-bit number |
| ExpGolomb.CodesAre | crates/expgolomb/src/lib.rs:107-124 | number 2^k - 1 + r, r of k bits, is written as k zeros, a one, and r, as section 9.2 of ITU-T H.265 has it |
| ExpGolomb.NothingOverflows | crates/expgolomb/src/lib.rs:70-85 | every intermediate result of that read has 64 bits |
| ExpGolomb.WriteSignedExpGolomb | crates/expgolomb/src/lib.rs:96-104 | the code of the folded number is appended |
| ExpGolomb.SizeOfSignedExpGolomb | crates/expgolomb/src/lib.rs:130-138 | its length in bits |
| ExpGolomb.ReadSignedExpGolomb | crates/expgolomb/src/lib.rs:59-67 | the unfolded number |
| ExpGolomb.SignedRoundTripExactlyWhen | crates/expgolomb/src/lib.rs:54-138 | a signed number reads back if and only if it is not the smallest one, and always from exactly its size in bits |
| ExpGolomb.SignsAlternate | crates/expgolomb/src/lib.rs:59-104 | codes 1, 2, 3, 4 stand for 1, -1, 2, -2, and so on, in both directions |
| ExpGolomb.SignedListRoundTrip | crates/expgolomb/src/lib.rs:54-138 | signed numbers written one after the other behind any bits read back in order |
| Nal.EmulationPreventionWriter.Write | crates/bytes-util/src/nal_emulation_prevention.rs:24-47 | the escaped bytes are appended, whatever was written before; the counter never passes two |
| Nal.EmulationPreventionReader.Read | crates/bytes-util/src/nal_emulation_prevention.rs:49-78 | the buffer is filled with the next unescaped bytes as far as they go, the rest is still to come, and the counter is that of the bytes consumed |
| Nal.ReaderCountIsBounded | crates/bytes-util/src/nal_emulation_prevention.rs:49-78 | on what the writer puts out, cut anywhere, the reader's counter is at most two, so its eight bits never wrap |
| Nal.RoundTrip | crates/bytes-util/src/nal_emulation_prevention.rs:24-78 | unescaping inverts escaping from any counter the writer can reach |
| Nal.ChunkedRoundTrip | crates/bytes-util/src/nal_emulation_prevention.rs:24-78 | written in any pieces and read into buffers of any sizes, the bytes come back, with the reader's counter at most two after every read |
| Nal.NothingIsEmulated | crates/bytes-util/src/nal_emulation_prevention.rs:24-47 | the output never holds two zero bytes followed by 0, 1 or 2, and the counter is the number of zero bytes it ends in |
| Nal.EscapesOnlyWhereNeeded | crates/bytes-util/src/nal_emulation_prevention.rs:24-47 | a prevention byte stands only before a byte of at most three |
| Nal.UnchangedExactlyWhen | crates/bytes-util/src/nal_emulation_prevention.rs:24-47 | the output is the input itself if and only if no two zero bytes in it stand before a byte of at most three |
| Nal.DropsExactlyWhen | crates/bytes-util/src/nal_emulation_prevention.rs:49-78 | on any input the reader drops a byte if and only if it is a three behind two zero bytes or more, counted modulo 256 |
| Nal.GrowthIsBounded | crates/bytes-util/src/nal_emulation_prevention.rs:24-47 | n bytes grow by at most (n - 1) / 2 |
| Nal.GrowthIsTight | crates/bytes-util/src/nal_emulation_prevention.rs:24-47 | an odd number of zero bytes reaches that bound |
| Leb128.WriteLeb128 | crates/av1/src/obu/utils.rs:32-47 | the base-128 bytes of a number are appended and counted |
| Leb128.Leb128Size | crates/av1/src/obu/utils.rs:50-57 | their number |
| Leb128.ReadLeb128FromCursor | crates/av1/src/annex_b.rs:157-178 | at most eight bytes, and a value of at most 32 bits, or an error |
| Leb128.LebRoundTripExactlyWhen | crates/av1/src/obu/utils.rs:10-57 | between any other bytes a number reads back, all of it and nothing more, if and only if it has 32 bits |
| Leb128.ReadsExactlyWhen | crates/av1/src/annex_b.rs:157-178 | for any bytes: a number and the place behind it are read if and only if up to eight bytes spell it, padded or not, every byte but the last announcing another, with digits that weigh 128^i, and it has 32 bits |
| Leb128.LongNumberIsTruncated | crates/av1/src/annex_b.rs:157-178 | 2^56 takes nine bytes, of which the reader takes eight and returns zero |
| Av1Obu.ParseObuHeader | crates/av1/src/obu.rs:37-93 | the header at the cursor through a bit reader: its fields and where it ends, or an error |
| Av1Obu.ReadLeb128 | crates/av1/src/obu/utils.rs:10-27 | the same number as the cursor reads, taken from the bit reader |
| Av1Obu.Mux | crates/av1/src/obu.rs:104-132 | the header bytes through a bit writer and their number; an error exactly when a field does not fit its bits |
| Av1Obu.HeaderSize | crates/av1/src/obu.rs:135-143 | the number of bytes that writing takes |
| Av1Obu.HeaderRoundTripExactlyWhen | crates/av1/src/obu.rs:37-132 | between any other bytes a header reads back if and only if its type is canonical and its size has 32 bits |
| Av1Obu.HeaderExactlyWhen | crates/av1/src/obu.rs:37-93 | for any bytes: a header is read if and only if its first byte and extension stand there as they are written, forbidden and reserved bits clear, and its size in any spelling |
| Av1Obu.NamedCodes | crates/av1/src/obu.rs:146-205 | which type each code names, and that all others are reserved |
| Av1Obu.ReadIsCanonical | crates/av1/src/obu.rs:171-187 | only canonical types and fields that fit are ever read |
| AnnexB.ParseObu | crates/av1/src/annex_b.rs:112-141 | length, header, 64-bit subtraction, consistency check and data of one unit |
| AnnexB.ParseFrameUnit | crates/av1/src/annex_b.rs:105-152 | units until the declared length is used up exactly |
| AnnexB.ParseTemporalUnit | crates/av1/src/annex_b.rs:84-104 | frame units until the declared length is used up exactly |
| AnnexB.ParseAnnexB | crates/av1/src/annex_b.rs:70-82 | the iterator taken to the end or to its first error |
| AnnexB.ComputeFrameUnitPayloadSize | crates/av1/src/annex_b.rs:242-257 | the computed sum is the number of bytes the units take up |
| AnnexB.ComputeFrameUnitSize | crates/av1/src/annex_b.rs:236-239 | the same with the length in front |
| AnnexB.WriteAnnexBObu | crates/av1/src/annex_b.rs:216-233 | one unit without its size field, and the number of bytes written |
| AnnexB.WriteFrameUnit | crates/av1/src/annex_b.rs:203-213 | a frame unit and the number of bytes written |
| AnnexB.WriteTemporalUnit | crates/av1/src/annex_b.rs:181-200 | a temporal unit and the number of bytes written |
| AnnexB.ReadsExactlyTheTilings | crates/av1/src/annex_b.rs:84-152 | a temporal unit is read if and only if the declared lengths tile the input exactly at all three levels; a length shorter than its header never succeeds |
| AnnexB.UnitRoundTripExactlyWhen | crates/av1/src/annex_b.rs:84-257 | between any other bytes a written temporal unit reads back with size fields erased if and only if its types are canonical and its payload has a 32-bit length |
| AnnexB.StreamRoundTrip | crates/av1/src/annex_b.rs:70-257 | a stream of written temporal units reads back in order |
| Isobmff.ParseContainerObu | crates/av1/src/obu_stream.rs:115-130 | one unit, which takes all the rest when it has no size |
| Isobmff.UnsizedTakesTheRest | crates/av1/src/obu_stream.rs:115-130 | a unit without a size takes exactly what follows its header, whatever stands before it |
| Isobmff.ParseSample | crates/av1/src/sample.rs:51-66 | all units of a sample, or an error |
| Isobmff.ValidateSample | crates/av1/src/sample.rs:91-117 | validation accepts exactly the samples that parsing accepts, and ends because each unit takes at least a byte |
| Isobmff.SampleIsSound | crates/av1/src/sample.rs:120-141 | every unit read is of an allowed type, its data is as long as its size says, and only the last one can be without a size |
| Isobmff.AllowedCodes | crates/av1/src/sample.rs:120-141 | which type codes each option shuts out |
| Isobmff.WriteRawObu | crates/av1/src/obu_stream.rs:138-183 | a unit with its size, and the number of bytes written |
| Isobmff.ObuEncodedSize | crates/av1/src/obu_stream.rs:159-166 | that number without writing |
| Isobmff.SampleRoundTripExactlyWhen | crates/av1/src/obu_stream.rs:115-183 | written units come back with their sizes if and only if each is canonical, allowed and of a 32-bit length |
| Av1Config.ConfigObuBytes | crates/av1/src/config.rs:135-161 | the bytes behind the fixed part of a record with marker and version 1 |
| Av1Config.Demux | crates/av1/src/config.rs:177-246 | every field through a bit reader that skips the reserved bits, in both variants |
| Av1Config.PeekAgrees | crates/av1/src/config.rs:135-246 | the short way and the full parser accept the same inputs and return the same units, in both variants |
| Av1Config.MuxRecord | crates/av1/src/config.rs:271-312 | the bytes through a bit writer; an error exactly when a field does not fit its bits |
| Av1Config.SizeIsExact | crates/av1/src/config.rs:249-255 | the size function is the number of bytes written |
| Av1Config.RecordRoundTripExactlyWhen | crates/av1/src/config.rs:177-312 | a written record reads back if and only if its range indication is zero in the file-format variant or has two bits in the other |
| Av1Config.RecordExactlyWhen | crates/av1/src/config.rs:177-246 | for any bytes: a record is read if and only if marker, version, profile and flags stand there as they are written; of the fourth byte only the delay, and in a transport stream the range indication, count |
| Hevc.Demux | crates/h265/src/config.rs:169-274 | every field and array through a bit reader, and exactly which inputs are rejected and which panic: array types from 48 on where they are met, a frame rate code of three after the last array |
| Hevc.FirstSpsNalu | crates/h265/src/config.rs:96-165 | the scan over arrays and units on every input |
| Hevc.FirstSpsAgrees | crates/h265/src/config.rs:96-274 | on every input the full parser accepts, the scan returns the first sequence parameter set in array order, and none exactly when there is none |
| Hevc.ScanIgnoresTheRest | crates/h265/src/config.rs:96-165 | the scan depends on the version, the number of arrays and the arrays only |
| Hevc.ShortWayIsLenient | crates/h265/src/config.rs:96-274 | whatever byte holds frame rate and length size, the scan finds the same set; the full parser accepts the record if and only if the length size code is not 2 and the frame rate code is below 3 |
| Hevc.FixedPartExactlyWhen | crates/h265/src/config.rs:169-274 | whatever stands in the fixed part before readable arrays, the record is accepted if and only if version, length size and frame rate code are; no reserved bit is ever a reason to reject |
| HevcMux.Mux | crates/h265/src/config.rs:304-355 | the bytes through a bit writer, with counts and lengths cut to their fields; a panic exactly when the profile fits and the constraint flags exceed 48 bits, an error exactly when another field does not fit |
| HevcMux.SizeOf | crates/h265/src/config.rs:277-299 | the size function is the number of bytes written |
| HevcMux.RecordRoundTripExactlyWhen | crates/h265/src/config.rs:169-355 | followed by any bytes, a written record reads back if and only if its number of layers is canonical, its length size is not two, its types are admitted, and it has fewer than 256 arrays, each of fewer than 65536 units of fewer than 65536 bytes |
| HevcMux.SmallCountIsLost | crates/h265/src/enums/num_temporal_layers.rs:17-35 | layer counts of zero and one never come back; a count of one is read as not scalable |
| HevcMux.ReadRecordSurvives | crates/h265/src/config.rs:169-274 | whatever record is read from any bytes meets the condition for coming back |
| HevcMux.ArrayExactlyWhen | crates/h265/src/config.rs:220-256 | of the 64 array types five come back, the unnamed ones from 48 on panic, and all others are rejected |
| HevcMux.OnlyVersionOne | crates/h265/src/config.rs:169-215 | a record is read only from 23 bytes or more that start with version 1 and name a length size of 1, 2 or 4; shorter data and other versions are rejected |

## Left out

- Recorder.FlvFormatStrategy.WriteItem: payloads of 2^32 bytes and more are excluded, because the writer cuts the length to 32 bits before it checks it.
- Recorder.Record: the same bound on payloads; a failed write ends the recording, as the pipeline then stops.
- Recorder.NoTagIsLost: it is about the tags as stored, so a metadata tag counts in the form it was written in.
- Metadata.BuildFixedSize: the rendering of metadata properties is a parameter, since it is a long table of names and values; that more keyframes never take fewer bytes (`Monotone`) and that padding supplies exactly what is asked for (`Pads`) are explicit conditions of the clauses that need them.
- BitIo.BitReader.SeekBits: the sum of bit position and count must have 64 bits, which the source does not check either.
- BitIo.BitReader.Read: errors of the underlying reader other than its end.
- AnnexB.WriteTemporalUnit: the sizes are unbounded sums; that they have 64 bits holds for anything in memory.
- Hevc.ShortWayIsLenient: covers records the full parser accepts but for one byte; inputs cut off or misformed behind the first parameter set also pass the scan.
- Which AMF0 script tag counts as metadata, and the model it is taken apart to, are parameters of each item; so is how a model renders a summary and an index.
- Width, height, frame rate and codecs in the summary of a file, which are not part of the statistics here.
- The time of day that the builder puts into the metadata.
- Floating-point numbers in AMF0 are their eight bytes; keyframe times are real numbers.
- Codec, resolution, frame and bit rate statistics of the analyzer, and its text output: finite tables and rounding.
- Audio, video, AVC and HEVC tag contents beyond the keyframe and sequence-header bits: finite tables.
- The position counter during the final discard of undecodable bytes at the end of input, which the source does not advance.
- Error kinds and messages of the AV1 and HEVC parsers: the model says whether they fail.
- The strict low-overhead iterator of `crates/av1/src/obu_stream.rs`: the container iterator without one branch.
- Sequence header parsing, `ivf.rs` and `uvlc` of the AV1 crate: more fields of the same kind.
- The names of the frame rate, parallelism and unit type enumerations in the HEVC record, which are kept as their numbers; each name has one number.
- The H.264 crate, which repeats emulation prevention and the configuration record.
- `io::Seek` for the bit reader, beyond `seek_bits`.
- File names, callbacks, progress reports, timing, logging, HLS, downloading, scheduling, database, command line and frontend.
