# A verified model of the simple-redis RESP codecs and command layer

This project is a Dafny model of the three sequential layers at the heart of
a small Redis server written in Rust. Each layer is modelled with immutable
datatypes and pure functions, and the properties the code promises are proved
about the model.

1. **The incremental RESP codec** (`src/resp/*.rs`). It covers the RESP2/RESP3
   wire grammar: simple strings, errors, integers, bulk strings, arrays, null,
   booleans, doubles, maps and sets.
   - Every frame type has an encoder, a decoder over a growable buffer, and an
     `expect_length` probe.
   - The buffer is an immutable byte sequence.
   - A decode yields a `Decoded` value that records how many bytes were already
     removed from the front of the buffer. This holds on success and on failure.
   - `NotComplete` never removes anything. An integer whose body does not parse
     has its line removed before the error is returned.
   - Arrays and maps probe the total nested length before they consume anything.
2. **The batch decoder** (`src/respv2/`). It works in two phases.
   - Phase one, `parse_frame_length`/`advance`, walks the grammar and only
     measures the span of the next frame.
   - Phase two, `parse_frame`, parses the measured slice into a frame.
   - `RespDecodeV2::decode` measures the frame, splits it off, then parses it.
   - The model reproduces the places where the two phases disagree, and where
     the batch decoder disagrees with the incremental one:
     - the null bulk string `$-1` and the null array `*-1` (phase two reads
       counts unsigned);
     - the empty bulk string and the empty array, which travel in those null
       forms;
     - the zero-length bulk string `$0\r\n\r\n`, which phase one measures as
       its four-byte header alone;
     - sets, whose items phase two reads only `len / 2` of;
     - `i64::MIN`, which phase two cannot read back;
     - a lone CR or LF inside a simple string or error.
   - Agreement is proved on the subset where it holds.
3. **Command parsing and dispatch** (`src/cmd/`).
   - Parsing turns an array frame into a typed `Command`. It looks up the name,
     checks arity through `validate_command`, and checks that arguments are
     BulkStrings holding UTF-8.
   - Execution runs a command against a store of plain maps: strings, hashes
     and sets.

Bytes are `seq<byte>` with `byte = 0..255`. Text is kept as raw bytes. UTF-8
validity is the well-formedness table of the Unicode standard (Table 3-7). A
Map frame holds a sequence of entries; the decoders build it through
`FromPairs`, so a decoded map's entries are key-sorted with unique keys, as the
`BTreeMap` behind it iterates them, and the round-trip lemmas require the same
of the maps they encode.

## Files

| file | module | contents |
|---|---|---|
| bytes.dfy | Bytes | byte sequences, CRLF search, ASCII lower-casing, UTF-8 validity |
| numeric.dfy | Numeric | decimal formatting and parsing of `i64` and `usize` |
| frame.dfy | Frames | frames, errors, decode results, the ordered map behind Map |
| resp_encode.dfy | RespEncode | the encoders |
| resp_decode.dfy | RespDecode | the reconstructed shared helpers, the probes and the decoders |
| resp_props.dfy | RespProps | the probe and the decoder agree; incomplete input consumes nothing |
| resp_roundtrip.dfy | RespRoundTrip | decode after encode gives the frame back |
| resp_prefix.dfy | RespPrefix | every proper prefix of an encoding is reported incomplete |
| resp_examples.dfy | RespExamples | the incremental decoder's unit-test inputs |
| respv2.dfy | RespV2 | both phases of the batch decoder |
| respv2_props.dfy | RespV2Props | phase one measures exactly the encoding |
| respv2_agreement.dfy | RespV2Agreement | phase two reads encodings back; where the decoders diverge |
| respv2_examples.dfy | RespV2Examples | the batch decoder's unit-test inputs |
| store.dfy | Backend | the sequential store |
| commands.dfy | Commands | parsing of every command |
| command_props.dfy | CommandProps | parse after render gives the command back; unknown names; trailing arguments |
| dispatch.dfy | Dispatch | execution |
| dispatch_props.dfy | DispatchProps | read-after-write and HGETALL listings |
| command_scenarios.dfy | CommandScenarios | the command layer's unit-test scenarios |

## Model

| member | source | states |
|---|---|---|
| Bytes.FindCrlf | src/resp/simple_string.rs:37 | a CRLF it finds starts at or after the search start |
| Bytes.FindCrlfSpec | src/resp/simple_string.rs:37 | a CRLF is found exactly when one exists from that point; what is found is the first one |
| Bytes.FirstCrlfOf | src/resp/simple_string.rs:37-38 | in `pre ++ CRLF ++ tail` where `pre` has no CRLF past the start, the first CRLF is the one right after `pre` |
| Bytes.AsciiLower | src/cmd/mod.rs:165 | lower-casing keeps the length and maps each byte separately: `A`..`Z` to `a`..`z`, every other byte to itself |
| Bytes.AsciiIsUtf8 | src/cmd/hmap.rs:64-65 | ASCII bytes are valid UTF-8, so `String::from_utf8` accepts them |
| Numeric.FormatInt | src/resp/integer.rs:9 | an integer's decimal text starts with `-` exactly when it is negative, has no line break, and has only digits after the first byte |
| Numeric.ParseInt | src/resp/integer.rs:19 | a parsed value lies within the target type's range; the text starts with a digit or an allowed sign |
| Numeric.ParsedText | src/resp/integer.rs:19 | a text that parses is an optional sign, leading zeros and the decimal digits of the value's magnitude; a `-` sign needs a signed target and gives a value of at most 0, and a negative value always carries it; without `+`, padding or a sign on 0 the text is exactly the value's canonical formatting |
| Numeric.FormatParseI64 | src/resp/integer.rs:7-19 | every `i64` parses back from its decimal text, negatives included |
| Numeric.FormatParseUsize | src/resp/bulk_string.rs:62-75 | every `usize` length parses back from the decimal the encoder writes |
| Numeric.DecimalRoundTrip | src/resp/array.rs:29 | the digits of a count's decimal text have that count as their value |
| Frames.LessTransitive | src/cmd/hmap.rs:34 | byte-wise lexicographic order on keys is transitive |
| Frames.LessTotal | src/cmd/hmap.rs:34 | any two distinct keys are ordered one way or the other |
| Frames.MapInsertSpec | src/resp/map.rs:68 | inserting into the ordered map keeps it sorted, adds the key, makes the new value visible and leaves every other key's value alone |
| Frames.FromPairsSpec | src/resp/map.rs:64-69 | building a map by inserting pairs in order gives a sorted map with the same keys, where each key holds its last value |
| Frames.FromSortedPairs | src/resp/map.rs:44 | re-inserting an already sorted listing gives that listing back |
| RespDecode.ExtractSimpleFrameData | src/resp/simple_string.rs:37 | Ok exactly when the prefix byte matches and a CRLF follows, at the first CRLF; a wrong first byte is InvalidFrameType; everything else is NotComplete |
| RespDecode.ExtractFixedData | src/resp/null.rs:18 | Ok with the literal's length exactly when the buffer starts with the literal; NotComplete exactly when the buffer is shorter than it |
| RespDecode.ReadHeader | src/resp/array.rs:43 | a header is the unsigned decimal between the prefix and the first CRLF; a missing CRLF is NotComplete, otherwise a bad number is ParseIntError |
| RespDecode.ParseLength | src/resp/bulk_string.rs:75 | an empty buffer is NotComplete; a wrong prefix is InvalidFrameType; otherwise the result is the header read |
| RespDecode.CalcTotalLength | src/resp/array.rs:44 | a total span runs at least through the header and never past the buffer |
| RespDecode.ExpectLine | src/resp/simple_error.rs:44-47 | a line's span is its first-CRLF index plus 2; it fails exactly when extracting the line fails, with the same error |
| RespDecode.ExpectBulkString | src/resp/bulk_string.rs:86-92 | the null form spans 5 bytes; otherwise the span is `end + 2 + len + 2` of the header |
| RespDecode.ExpectArray | src/resp/array.rs:59-65 | the null form spans 5 bytes; any span lies within the buffer |
| RespDecode.ExpectLength | src/resp/array.rs:59-65 | an empty buffer is NotComplete |
| RespDecode.DecodeLine | src/resp/simple_string.rs:36-41 | decodes exactly when the line is complete; consumes through the first CRLF and returns the bytes between the prefix and it; a failure consumes nothing |
| RespDecode.DecodeSimpleString | src/resp/simple_error.rs:38-43 | a decoded line starts with its prefix and ends at the first CRLF, and its value is the text in between |
| RespDecode.DecodeInteger | src/resp/integer.rs:15-20 | a decoded integer is an `i64` read from the text up to the first CRLF; a body that does not parse is ParseIntError with the whole line already consumed; other failures consume nothing |
| RespDecode.DecodeBool | src/resp/bool.rs:14-23 | decodes exactly on `#t\r\n` or `#f\r\n`, consuming 4 bytes; fewer than 4 bytes is NotComplete; a failure consumes nothing |
| RespDecode.DecodeNull | src/resp/null.rs:17-20 | decodes exactly on `_\r\n`, consuming 3 bytes; fewer than 3 bytes is NotComplete |
| RespDecode.DecodeBulkString | src/resp/bulk_string.rs:71-85 | the null form decodes to the empty string; otherwise it decodes exactly when `len + 2` bytes follow the header, returning the first `len` of them and consuming header + `len` + 2 bytes; a failure consumes nothing |
| RespDecode.DecodeItems | src/resp/array.rs:52-55 | a decoded run holds exactly the requested number of frames |
| RespDecode.DecodeCounted | src/resp/array.rs:43-57 | a decoded aggregate holds exactly as many elements as its header announces |
| RespDecode.DecodeFrame | src/resp/array.rs:53-55 | decoding an empty buffer is NotComplete; a first byte that is no frame's prefix is InvalidFrameType with nothing consumed; a decode never consumes more than the buffer holds |
| RespDecode.DecodeArray | src/resp/array.rs:39-58 | `*-1\r\n` decodes to the empty array in 5 bytes; anything else is a counted decode under `*` |
| RespDecode.DecodePairs | src/resp/map.rs:54-69 | a decoded map body holds exactly as many pairs as its header announces |
| RespDecode.DecodeMap | src/resp/map.rs:54-72 | a map's value is its decoded pairs inserted into an ordered map in wire order, so a repeated key keeps its last value; span and errors are those of the pairs |
| RespDecode.CompleteAggregate | src/resp/array.rs:43-48 | an aggregate is consumed only after its header parses and its whole nested span has been probed |
| RespProps.DecodeMatchesProbe | src/resp/array.rs:39-65 | whenever a decode succeeds, `expect_length` reports exactly the bytes it consumed; a probe that fits the buffer rules out NotComplete |
| RespProps.DecodeIncompleteIffShort | src/resp/array.rs:43-48 | decoding is NotComplete exactly when the probe is NotComplete or reports more bytes than the buffer holds; probe errors are decode errors |
| RespProps.ProbeErrorIsDecodeError | src/resp/map.rs:55-56 | when the probe fails, the decode fails with the same error and consumes nothing |
| RespProps.LongProbeIncomplete | src/resp/map.rs:58-60 | a buffer shorter than the probed length is NotComplete, with nothing consumed |
| RespProps.FrameShortConsumesNothing | src/resp/bulk_string.rs:76-79 | an incomplete decode consumes nothing, at any nesting depth |
| RespProps.CountedShortConsumesNothing | src/resp/array.rs:46-48 | an incomplete array or set decode consumes nothing |
| RespProps.PairsShortConsumesNothing | src/resp/map.rs:58-60 | an incomplete map decode consumes nothing |
| RespRoundTrip.LineRoundTrip | src/resp/simple_string.rs:28-41 | a CRLF-free body written as a line reads back whole, consuming body + 3 bytes, whatever follows |
| RespRoundTrip.HeaderRoundTrip | src/resp/bulk_string.rs:61-75 | a count written as a header parses back to that count, and the bytes after the header are untouched |
| RespRoundTrip.SimpleStringRoundTrip | src/resp/simple_string.rs:28-41 | a CRLF-free simple string decodes back from its encoding followed by anything, consuming exactly the encoding |
| RespRoundTrip.ErrorRoundTrip | src/resp/simple_error.rs:30-43 | a CRLF-free error decodes back from its encoding, consuming exactly the encoding |
| RespRoundTrip.IntegerRoundTrip | src/resp/integer.rs:7-20 | every `i64` decodes back from its encoding, consuming exactly the encoding |
| RespRoundTrip.BoolRoundTrip | src/resp/bool.rs:6-22 | both booleans decode back from their encodings |
| RespRoundTrip.NullRoundTrip | src/resp/null.rs:9-20 | null decodes back from `_\r\n` |
| RespRoundTrip.BulkStringRoundTrip | src/resp/bulk_string.rs:57-84 | every bulk string decodes back from its encoding, consuming exactly the encoding |
| RespRoundTrip.EmptyBulkStringRoundTrip | src/resp/bulk_string.rs:57-74 | the empty bulk string is encoded in the null form and comes back empty |
| RespRoundTrip.ItemsRoundTrip | src/resp/array.rs:28-56 | concatenated element encodings decode back to the elements, in order |
| RespRoundTrip.ArrayRoundTrip | src/resp/array.rs:24-57 | an array whose elements round-trip decodes back from its encoding |
| RespRoundTrip.EmptyArrayRoundTrip | src/resp/array.rs:25-42 | the empty array is encoded as `*-1\r\n` and comes back empty |
| RespRoundTrip.PairRoundTrip | src/resp/map.rs:44-67 | a key written as a simple string followed by its value decodes back to that entry |
| RespRoundTrip.EntriesRoundTrip | src/resp/map.rs:44-69 | concatenated entry encodings decode back to the entries, in order |
| RespRoundTrip.MapRoundTrip | src/resp/map.rs:40-72 | a map with ascending CRLF-free keys decodes back from its encoding |
| RespRoundTrip.FrameRoundTrip | src/resp/array.rs:24-65 | every well-formed frame decodes back from its encoding followed by anything, consuming exactly the encoding, and the probe reports the encoding's length |
| RespPrefix.FramePrefixShort | src/resp/array.rs:59-65 | the probe of every proper prefix of an encoding is NotComplete or reports more bytes than the prefix holds |
| RespPrefix.LinePrefixShort | src/resp/simple_string.rs:42-45 | every non-empty proper prefix of a line frame probes as NotComplete |
| RespPrefix.BulkPrefixShort | src/resp/bulk_string.rs:86-92 | every proper prefix of a bulk string encoding probes short |
| RespPrefix.ArrayPrefixShort | src/resp/array.rs:59-65 | every proper prefix of an array encoding probes short |
| RespPrefix.MapPrefixShort | src/resp/map.rs:73-76 | every proper prefix of a map encoding probes short |
| RespPrefix.PartialFrameWaits | src/resp/array.rs:98-103 | a proper prefix of an encoding decodes as NotComplete with nothing consumed, and once the rest arrives the frame decodes whole |
| RespExamples.ArrivesInTwoPieces | src/resp/array.rs:98-103 | a frame whose encoding arrives in two pieces is NotComplete after the first and decodes whole, every byte consumed, after the second |
| RespExamples.SimpleStringWaits | src/resp/simple_string.rs:61-68 | `+hello\r` is NotComplete; with the LF it decodes to "hello" in 8 bytes |
| RespExamples.BooleanWaits | src/resp/bool.rs:35-56 | `#t\r\n` and `#f\r\n` decode to true and false; `#t` alone is NotComplete |
| RespExamples.BulkStringWaits | src/resp/bulk_string.rs:108-114 | `$5\r\nworld` is NotComplete; with the CRLF it decodes to "world" in 11 bytes |
| RespExamples.NullBulkStringDecodes | src/resp/bulk_string.rs:120-128 | `$-1\r\n` decodes to the empty bulk string |
| RespExamples.IntegerExamples | src/resp/integer.rs:31-52 | 123 and -123 encode as `:123\r\n` and `:-123\r\n` and decode back from them |
| RespExamples.SetHelloEncoding | src/resp/array.rs:93-96 | the array [set, hello] is encoded as `*2\r\n$3\r\nset\r\n$5\r\nhello\r\n` |
| RespExamples.ArrayWaits | src/resp/array.rs:98-103 | `*2\r\n$3\r\nset\r\n` is NotComplete; once the second element arrives, [set, hello] decodes in 24 bytes |
| RespExamples.ArrayEncodeExample | src/resp/array.rs:107-119 | [set, hello, world] is encoded as `*3\r\n$3\r\nset\r\n$5\r\nhello\r\n$5\r\nworld\r\n` |
| RespExamples.HelloThenFoo | src/resp/map.rs:96-101 | a map built by inserting "hello" and then "foo" lists "foo" first |
| RespExamples.MapBytesLayout | src/resp/map.rs:93 | the map test input is the encoding of the pairs hello → world, foo → bar in arrival order |
| RespExamples.MapDecodeExample | src/resp/map.rs:90-105 | that input decodes to the map {foo: bar, hello: world}, held in key order, consuming all 38 bytes |
| RespExamples.MapEncodeSorted | src/resp/map.rs:107-120 | a map built by inserting "hello" and then "foo" is written with "foo" first |
| RespV2.SimpleAdvance | src/respv2/parse.rs:32 | a simple frame spans through its first CRLF |
| RespV2.ReadDecimal | src/respv2/parse.rs:129 | an unsigned count read by phase two is between 0 and `i64::MAX`, with at least one digit and its CRLF |
| RespV2.ReadInteger | src/respv2/parse.rs:121-126 | a signed integer read by phase two lies in `-i64::MAX ..= i64::MAX` and spans at least one digit plus CRLF |
| RespV2.ReadLine | src/respv2/parse.rs:188-192 | a line read by phase two holds no CR or LF and is followed directly by CRLF |
| RespV2.AdvancePrefix | src/respv2/parse.rs:31-47 | phase one walks a frame only when its first byte is one of the ten type prefixes |
| RespV2.BulkAdvanceCases | src/respv2/parse.rs:49-58 | a length of -1 or 0 spans the header alone; a length below -1 fails; a positive length spans header, data and CRLF, and only when that CRLF is present |
| RespV2.CountedAdvanceCases | src/respv2/parse.rs:60-69 | a count of zero or less spans the header alone; a positive count spans the header and then exactly that many walked frames, and fails when they do not walk |
| RespV2.MapAdvanceCases | src/respv2/parse.rs:71-83 | a count of zero or less spans the header alone; a positive count spans the header and then exactly that many key lines, each followed by a walked frame, and fails when they do not walk |
| RespV2.ParseFrameShape | src/respv2/parse.rs:96-111 | phase two reads a frame only under one of the ten prefixes; a bulk string holds as many bytes as its unsigned length, an array as many items as its count, a set half as many |
| RespV2.ParseBulkSpan | src/respv2/parse.rs:128-136 | a bulk string read by phase two is the `len` bytes after its unsigned length line, followed by CRLF |
| RespV2.ParseCountedSize | src/respv2/parse.rs:138-149 | an array read by phase two holds as many items as its unsigned count, a set half as many |
| RespV2.ParseItems | src/respv2/parse.rs:144-148 | phase two reads exactly the requested number of items |
| RespV2.ParseEntries | src/respv2/parse.rs:169-173 | phase two reads exactly the requested number of map entries |
| RespV2.ParseFrameLength | src/respv2/parse.rs:17-29 | the measured length is the span the walk covers and lies within the input; every walk failure, truncation or malformed input, is NotComplete |
| RespV2.DecodeV2 | src/respv2/mod.rs:15-19 | a failed measurement is NotComplete with nothing consumed; otherwise exactly the measured span is consumed, and the frame is phase two's parse of that span or InvalidFrame |
| RespV2Props.IntegerAt | src/respv2/parse.rs:121-126 | the `integer` parser reads back every decimal integer above `i64::MIN` |
| RespV2Props.MinIntegerAt | src/respv2/parse.rs:124 | the decimal text of `i64::MIN` does not read back, since its digits overflow `i64` |
| RespV2Props.LineAt | src/respv2/parse.rs:188-192 | a body without CR or LF, followed by CRLF, reads back whole |
| RespV2Props.BrokenLineAt | src/respv2/parse.rs:188-192 | a body holding a lone CR or LF is not read as a line |
| RespV2Props.CountedHeaderOnly | src/respv2/parse.rs:60-69 | an array or set whose count is zero or negative spans only its header |
| RespV2Props.BulkWalk | src/respv2/parse.rs:49-58 | phase one spans exactly the encoding of any bulk string, the null form included |
| RespV2Props.ArrayWalk | src/respv2/parse.rs:60-69 | phase one spans exactly an array's encoding, element by element |
| RespV2Props.MapWalk | src/respv2/parse.rs:71-83 | phase one spans exactly a map's encoding: one line and one frame per entry |
| RespV2Props.FrameWalk | src/respv2/parse.rs:31-94 | phase one spans exactly the encoding of every frame it can walk |
| RespV2Props.FrameLengthsAgree | src/respv2/parse.rs:17-29 | `parse_frame_length` of an encoding followed by anything is the encoding's length, and it equals the incremental probe |
| RespV2Agreement.AgreesWalkable | src/respv2/parse.rs:31-94 | phase one walks every frame that phase two reads back |
| RespV2Agreement.FrameParse | src/respv2/parse.rs:96-192 | phase two parses every agreeing frame back from its encoding, consuming exactly the encoding |
| RespV2Agreement.MeasuredThenParsed | src/respv2/mod.rs:15-19 | when phase two parses the measured span, decode returns that frame and consumes the span |
| RespV2Agreement.MeasuredThenRejected | src/respv2/mod.rs:17-18 | when phase two rejects the measured span, decode is InvalidFrame with the span already consumed |
| RespV2Agreement.BatchRoundTrip | src/respv2/mod.rs:15-23 | on agreeing frames the batch decoder gives the frame back and agrees with the incremental decoder |
| RespV2Agreement.ZeroLengthBulkDiverges | src/respv2/parse.rs:49-58 | `$0\r\n\r\n` is measured as 4 bytes and the batch decoder reports InvalidFrame after consuming them, while the incremental decoder reads the empty bulk string from all 6 bytes |
| RespV2Agreement.SignedCountRejected | src/respv2/parse.rs:128-141 | phase two rejects a bulk, array, map or set count that carries a sign |
| RespV2Agreement.NullFormsDiverge | src/respv2/parse.rs:49-141 | `$-1\r\n` and `*-1\r\n` decode incrementally to the empty value but pass phase one and fail phase two, consuming 5 bytes |
| RespV2Agreement.MinIntegerRejected | src/respv2/parse.rs:121-126 | phase two rejects the encoding of `i64::MIN` |
| RespV2Agreement.MinIntegerDiverges | src/respv2/parse.rs:121-126 | `i64::MIN` round-trips incrementally but is InvalidFrame in the batch decoder |
| RespV2Agreement.BrokenLineRejected | src/respv2/parse.rs:188-192 | phase two rejects a simple string or error whose text holds a lone CR or LF |
| RespV2Agreement.LoneLineBreakDiverges | src/respv2/parse.rs:188-192 | such a line round-trips incrementally but is InvalidFrame in the batch decoder |
| RespV2Agreement.SetHalves | src/respv2/parse.rs:177-186 | a set of n items is measured whole, but phase two keeps only its first n / 2 items; the incremental decoder keeps all n |
| RespV2Examples.SimpleStringExample | src/respv2/mod.rs:31-50 | `+OK\r\n` measures 5 bytes and decodes to the simple string OK |
| RespV2Examples.TruncatedSimpleString | src/respv2/mod.rs:38-43 | `+OK\r` measures as NotComplete |
| RespV2Examples.SimpleErrorExample | src/respv2/mod.rs:52-64 | `-ERR\r\n` decodes to the error ERR |
| RespV2Examples.IntegerExample | src/respv2/mod.rs:66-78 | `:1000\r\n` decodes to 1000 |
| RespV2Examples.BulkStringExample | src/respv2/mod.rs:80-92 | `$6\r\nfoobar\r\n` decodes to foobar in 12 bytes |
| RespV2Examples.NullFormsExample | src/respv2/mod.rs:94-129 | both null forms measure 5 bytes, and phase two then rejects them |
| RespV2Examples.ArrayExample | src/respv2/mod.rs:101-122 | `*2\r\n+OK\r\n-ERR\r\n` decodes to [OK, Error ERR] |
| RespV2Examples.MapExample | src/respv2/mod.rs:131-147 | `%1\r\n+OK\r\n-ERR\r\n` decodes to {OK: Error ERR} |
| RespV2Examples.MeasuredBulkString | src/respv2/parse.rs:202-208 | `$4\r\nping\r\n` measures its full 10 bytes |
| RespV2Examples.MeasuredArray | src/respv2/parse.rs:210-216 | the ping/pong array measures its full 24 bytes |
| RespV2Examples.MeasuredMap | src/respv2/parse.rs:218-227 | `%2\r\n+first\r\n:1\r\n+second\r\n:2\r\n` measures its full 29 bytes |
| RespV2Examples.MeasuredSet | src/respv2/parse.rs:229-235 | the ping/pong set measures its full 24 bytes |
| RespV2Examples.SetExample | src/respv2/parse.rs:177-186 | that set decodes in the batch decoder to [ping] only, and incrementally to [ping, pong] |
| Backend.SetFieldThenGet | src/cmd/hmap.rs:48-53 | after storing a field, reading it gives the stored value and every other (key, field) is unchanged |
| Backend.AddThenMember | src/cmd/set.rs:5-10 | after adding a member it belongs to the set, and the set only grows |
| Commands.FromUtf8 | src/cmd/hmap.rs:64-65 | conversion succeeds exactly on valid UTF-8 and keeps the bytes; otherwise it is Utf8Error |
| Commands.CheckNames | src/cmd/mod.rs:162-180 | the name positions are accepted exactly when each holds a BulkString whose ASCII-lowercased bytes equal the expected name |
| Commands.ValidateCommand | src/cmd/mod.rs:150-181 | accepted exactly when the array has at least names + arguments elements and every name position matches case-insensitively; otherwise InvalidCommand |
| Commands.ExtractArgs | src/cmd/mod.rs:183-185 | the elements after `start`, in order, and nothing when `start` is past the end |
| Commands.ParseStringArg | src/cmd/hmap.rs:98-106 | accepted exactly on a BulkString with valid UTF-8; a non-BulkString is InvalidArgument, bad UTF-8 is Utf8Error |
| Commands.ParseStringArgs | src/cmd/hmap.rs:89-93 | all arguments are accepted exactly when each one is, keeping wire order |
| Commands.StringArgsFirstError | src/cmd/hmap.rs:89-93 | a rejected argument list reports the error of its first bad argument |
| Commands.FieldsFirstError | src/cmd/hmap.rs:87-93 | when the HMGET key is accepted but a field is not, the error reported is that of the first bad argument |
| Commands.ParseEcho | src/cmd/echo.rs:11-24 | accepted exactly with at least one argument, the first a UTF-8 BulkString, which becomes the message; a wrong name or too few elements is InvalidCommand, a non-BulkString argument is InvalidCommand, bad UTF-8 is Utf8Error |
| Commands.ParseGet | src/cmd/mod.rs:133 | accepted exactly with at least one argument, a UTF-8 BulkString key; a wrong name or too few elements is InvalidCommand, a non-BulkString key is InvalidArgument, bad UTF-8 is Utf8Error |
| Commands.ParseSet | src/cmd/mod.rs:134 | accepted exactly with a UTF-8 BulkString key and any frame as value; fewer than two arguments is InvalidCommand, a non-BulkString key is InvalidArgument, bad UTF-8 is Utf8Error |
| Commands.ParseHGet | src/cmd/hmap.rs:55-72 | accepted exactly with at least two arguments, both UTF-8 BulkStrings: key and field; too few elements is InvalidCommand, a non-BulkString argument is InvalidArgument, bad UTF-8 is Utf8Error |
| Commands.ParseHMGet | src/cmd/hmap.rs:74-96 | accepted exactly with a key and at least one field, all UTF-8 BulkStrings, fields in wire order; too few elements is InvalidCommand, and any other rejection is the error of the first bad argument |
| Commands.ParseHGetAll | src/cmd/hmap.rs:108-122 | accepted exactly with a UTF-8 BulkString key, sorting never requested; too few elements is InvalidCommand, a non-BulkString key is InvalidArgument, bad UTF-8 is Utf8Error |
| Commands.ParseHSet | src/cmd/hmap.rs:124-144 | accepted exactly with UTF-8 BulkString key and field, the third argument kept as any frame; fewer than three arguments is InvalidCommand, a non-BulkString key or field is InvalidArgument, bad UTF-8 is Utf8Error |
| Commands.ParseAddMember | src/cmd/set.rs:18-35 | accepted exactly with UTF-8 BulkString key and member; too few elements or a non-BulkString argument is InvalidCommand, bad UTF-8 is Utf8Error |
| Commands.ParseSisMember | src/cmd/set.rs:37-54 | accepted exactly with UTF-8 BulkString key and member; too few elements or a non-BulkString argument is InvalidCommand, bad UTF-8 is Utf8Error |
| Commands.FromArray | src/cmd/mod.rs:126-148 | an empty array, or a first element that is not a BulkString, is InvalidCommand; a name outside the table is Unrecognized; each of the nine known names goes to its own parser |
| Commands.FromFrame | src/cmd/mod.rs:113-124 | a frame that is not an array is InvalidCommand; every array, the empty one included, is handed to the array conversion, so it parses exactly as FromArray parses its elements |
| CommandProps.NamesAreLowerCase | src/cmd/mod.rs:131-141 | every name in the table is its own lower-case form |
| CommandProps.ParseRender | src/cmd/mod.rs:126-148 | every command a client can send parses back from its wire array |
| CommandProps.UnrecognizedIff | src/cmd/mod.rs:130-145 | the parse yields Unrecognized exactly when the first element is a BulkString naming no command |
| CommandProps.UpperCaseIsUnrecognized | src/cmd/mod.rs:131-141 | the name match is case-sensitive: `GET` is Unrecognized |
| CommandProps.ExtraArgsIgnored | src/cmd/set.rs:22-26 | arguments after the ones a command reads do not change the parse, for every command except HMGET |
| CommandProps.ExtraFields | src/cmd/hmap.rs:89-93 | trailing HMGET arguments become further fields, in wire order |
| Dispatch.Snapshot | src/cmd/hmap.rs:28-32 | the snapshot lists only fields of the hash, each with its stored value |
| Dispatch.Flatten | src/cmd/hmap.rs:36-39 | the reply has 2n frames alternating BulkString(field) and value |
| Dispatch.Execute | src/cmd/hmap.rs:7-53 | reads leave the store alone; GET and HGET reply the stored value or Null; HGETALL of a missing key replies the empty array; HMGET and SISMEMBER reply what the backend gives; SET, HSET and ADDMEMBER store exactly their argument and change nothing else; SET, HSET and Unrecognized reply OK; AddMember replies Integer(1); ECHO replies with the message |
| DispatchProps.GetAfterSet | src/cmd/mod.rs:77-86 | GET after SET of a key gives the stored value, and other keys are unaffected |
| DispatchProps.HGetAfterHSet | src/cmd/hmap.rs:7-53 | HGET after HSET of a field gives the stored value, and every other (key, field) is unaffected |
| DispatchProps.AbsentIsNull | src/cmd/hmap.rs:7-46 | GET of a missing key and HGET of a missing key or field reply Null; HGETALL of a missing key replies the empty array |
| DispatchProps.ReadsReplyStored | src/cmd/hmap.rs:7-14 | on any store, GET and HGET reply the stored value when there is one and Null otherwise |
| DispatchProps.AddMemberEffect | src/cmd/set.rs:5-10 | ADDMEMBER adds exactly the member to that key's set and leaves other keys' sets alone |
| DispatchProps.SnapshotLists | src/cmd/hmap.rs:28-32 | iterating a hash lists each of its fields at most once, with its value |
| DispatchProps.HGetAllUnsorted | src/cmd/hmap.rs:22-46 | an unsorted HGETALL lists every field exactly once, each with its value |
| DispatchProps.HGetAllSorted | src/cmd/hmap.rs:33-35 | a sorted HGETALL lists every field exactly once, in ascending order |
| DispatchProps.HGetAllSortedIs | src/cmd/hmap.rs:27-41 | a sorted HGETALL reply is the flattening of the one ascending listing of the hash |
| DispatchProps.HGetAllOrderFree | src/cmd/hmap.rs:33-35 | a sorted HGETALL reply does not depend on the map's iteration order |
| DispatchProps.SortedUnique | src/cmd/hmap.rs:34 | two ascending listings with the same lookups are equal |
| CommandScenarios.GetHelloDecodes | src/cmd/mod.rs:196-201 | `*2\r\n$3\r\nget\r\n$5\r\nhello\r\n` decodes to [get, hello], consuming all 24 bytes |
| CommandScenarios.GetHelloParses | src/cmd/mod.rs:202 | that array parses as GET hello |
| CommandScenarios.GetOnEmptyBackend | src/cmd/mod.rs:204-206 | GET hello on an empty store replies Null |
| CommandScenarios.HGetFromArray | src/cmd/hmap.rs:155-167 | [hget, map, hello] parses as HGET with key map and field hello |
| CommandScenarios.HGetAllFromArray | src/cmd/hmap.rs:169-177 | [hgetall, map] parses as an unsorted HGETALL of map |
| CommandScenarios.HSetFromArray | src/cmd/hmap.rs:179-191 | [hset, map, hello, world] parses as HSET with the BulkString world as value |
| CommandScenarios.EchoHello | src/cmd/echo.rs:14-24 | [echo, hello] parses as ECHO hello |
| CommandScenarios.TwoHSets | src/cmd/hmap.rs:193-214 | two HSETs reply OK and build the hash; HGET then reads world |
| CommandScenarios.SortedHGetAll | src/cmd/hmap.rs:215-226 | a sorted HGETALL of that hash replies [hello, world, hello1, world1], whatever the iteration order |
| CommandScenarios.HashScenario | src/cmd/hmap.rs:193-228 | the whole HSET, HSET, HGETALL sequence on an empty store gives that reply |

## Left out

- `src/resp/mod.rs` is not part of this model. `extract_simple_frame_data`, `extract_fixed_data`, `parse_length`, `calc_total_length` and the `RespFrame` encode/decode dispatch are reconstructed from their call sites, each with the smallest contract the call sites need.
- `calc_total_length` is reconstructed: a nested element that runs past the buffer is modelled as NotComplete.
- `src/resp/set.rs` is not part of this model. The Set frame's incremental codec is reconstructed from its grammar: `~n\r\n` followed by n frames, with no null collapse.
- `src/cmd/map.rs` is not part of this model. GET and SET parsing and execution are reconstructed after the HGET and HSET pattern: one UTF-8 BulkString key, and for SET any frame as value.
- Doubles: float formatting and parsing (`src/resp/double.rs`, and the `float` combinator of phase two) are floating-point behaviour. A Double frame carries its literal text, and no agreement claim covers doubles.
- The backend's internals are a concurrent sharded map. The store is modelled as three sequential maps.
- The backend's `hmget` and `sis_member` live in the backend module, which is not part of this model. They are parameters of `Execute`, and nothing is assumed about their replies.
- The iteration order of a hash is a parameter of `Execute` as well, a function from the hash to a listing of field names.
- Dispatch.HGetAllReply: the sort is expressed as insertion into the ordered map. For the distinct fields of a hash this gives the same listing as `sort_by`. No row is given because the contract is stated by the DispatchProps lemmas.
- Lossy UTF-8 conversion (`from_utf8_lossy` in the decoders) is left out: text stays as raw bytes.
- Error message text in `CommandError` and `RespError` is left out. Only the variant is modelled.
- Sockets, the network module and `BytesMut` buffer management are I/O. A decode result records how many bytes it removed instead of mutating a buffer.
- The winnow combinators of phase two are written as direct recursive functions over a position in the input.
- Commands.ParseGet and Commands.ParseSet cite the name dispatch in `src/cmd/mod.rs`, because their own source file is not part of this model.
- RespDecode.ReadHeader: admits any length up to `usize::MAX`, and the sums its callers form from it (`len + CRLF_LEN`, `end + CRLF_LEN + len + CRLF_LEN`) are unbounded integers here, so their `usize` overflow on a huge announced length (a panic in debug builds, a wrap-around in release builds) is not modelled.
- RespDecode.ExpectBulkString: the same `len + CRLF_LEN` overflow in `expect_length` (`src/resp/bulk_string.rs:91`) is not modelled.
- RespDecode.DecodeBulkString: the same overflow in `decode` (`src/resp/bulk_string.rs:77` and 83) is not modelled; a huge length is simply NotComplete.
- RespDecode.CalcTotalLength, RespDecode.ExpectArray and RespDecode.ExpectLength state only bounds. Their agreement with the decoder is stated by RespProps.DecodeMatchesProbe and RespRoundTrip.FrameRoundTrip.
- RespExamples.MapEncodeSorted: the test gives "foo" the double -123456.789; the lemma lets both values be any frame, because doubles carry their literal text in this model.
- The encoders (RespEncode) carry no contracts of their own. Their byte layouts are the definitions, and the round-trip lemmas are their partners.

## Notes on the code as written

- The command layer requires *at least* `names + arguments` elements and ignores the rest. This is what `validate_command` checks (`frames.len() < cmds.len() + arg_cnt`), and the model follows the code rather than an "exactly that many" arity reading.
- After a successful probe, a failing element inside an array or map (for example an integer body that does not parse) leaves earlier elements consumed. The model reports those bytes in `used`. Only NotComplete is guaranteed to consume nothing.
- In the batch decoder every walk failure, malformed input included, is NotComplete. A malformed frame can therefore be reported as "wait for more bytes" indefinitely.
