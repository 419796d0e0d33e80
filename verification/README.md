# Verified model of the steganography engine

This project models the text-steganography engine and its file helpers in Dafny 4.11 and proves what they promise.
`dafny verify dfyconfig.toml` checks all of it.

## What it models

A secret is sealed (an optional cipher, a trailing CRC-32 where no cipher authenticates), wrapped in an envelope, framed,
and placed by a stack of carriers, each writing invisible characters into the text the previous one produced. Decoding
identifies the carriers, peels them in reverse, checks that all layers agree and reverts the recorded chain, leaving one
wave record a step.

| part | files |
|---|---|
| bits, results, checksums | `Bytes.dfy`, `Results.dfy`, `Checksums.dfy` |
| preamble, light and heavy frame, span search, envelope | `Preamble.dfy`, `LightFrame.dfy`, `HeavyFrame.dfy`, `Span.dfy`, `Envelope.dfy` |
| sealing and reverting | `Sealing.dfy` |
| inserting carriers and legal stacks | `Carrier.dfy`, `Composition.dfy` |
| one layer, the encode loop, the decode cascade and its trace | `Layers.dfy`, `Encoding.dfy`, `Decoding.dfy`, `Trace.dfy` |
| stack round trip, capacity, saturation, excerpts, recommendation | `RoundTrip.dfy`, `Capacity.dfy`, `Saturation.dfy`, `Excerpt.dfy`, `Recommendation.dfy` |
| metadata codecs and strippers | `Base64.dfy`, `Png.dfy`, `Search.dfy`, `Svg.dfy`, `Jpeg.dfy` |
| text encoding repair | `Utf8.dfy`, `Mojibake.dfy` |
| calendar and licence expiry | `Decimals.dfy`, `Calendar.dfy` |
| office math, office metadata, PDF writing and reading back, LaTeX | `Omml.dfy`, `OfficeMeta.dfy`, `Wrapping.dfy`, `Pdf.dfy`, `PdfReading.dfy`, `Tex.dfy` |

Operations that run as loops are methods with loops, each proved equal to a function; the properties are lemmas about
those functions. The metadata record that a walk fills in place is a class. The three inserting carriers are values of
one datatype, which states their alphabets, delimiters, extra stripped characters and whether they overflow.

What a caller supplies is a parameter: ciphers, key derivation, salts and nonces; and the reader of pre-format
packages. The laws assumed of ciphers are hypotheses of the lemmas that need them: decryption undoes encryption
(`Sealing.Invertible`), and a cipher adds a fixed number of bytes (`Sealing.Adds`). A gap of a text is open at a word
boundary, unless code or an equation touches it; `Geometry` holds the character table and the protected gaps those two
tests consult.

## Where the code and its documentation differ

- The capacity report is documented as exact: encode accepts exactly `secret_bytes`. A frame states its length in
  sixteen bits, which the report does not deduct. `ReportIsExact` gives the exact condition, under every mission, and
  `ReportedYetRefused` a cover: 80998 blanks are promised 8977 bytes, and everything over 8176 is refused.
- Peeling gives back the encoder's texts only where the cover holds nothing a carrier strips beside its own alphabet
  (`PeelsBack`). `PeelLosesTimes` is an accepted cover that loses its invisible times sign.
- Saturation is documented to survive excerpting: a fragment that keeps any one frame still recovers. The reader takes
  the first thing that passes for a frame. `EveryExcerptHolds` says exactly for which frames the promise is kept,
  `SoleMagicIsSound` gives a plain check on the frame's bits, and `InnerFrameWins` is a secret for which an excerpt
  decodes to something else.
- Expiry compares timestamps as text. That is right up to year 9999 and wrong from the first second of year 10000
  (`ExpiryRightExactly`, `LaterYetAccepted`).
- Mojibake repair is documented as applied only where it strictly reduces the markers; the code checks only that the
  repaired run has fewer characters. `ScoreFallsExactly` says exactly when the markers fall; `RewrittenAtSameScore` is a
  text rewritten with as many markers as before, `RewrittenAtHigherScore` one that ends with more.
- Escaping for LaTeX and reading back lose carets and tildes and apply ligatures (`EscapeReads`, `EscapeLoses`).
- The PDF writer says a Latin-1 character is kept as its byte; the code writes it as UTF-8, two bytes for one. A line is
  displayed as meant exactly when it has no character of U+00A0 to U+00FF (`ShownExactly`); an acute e is displayed as two
  characters (`AcuteDisplayed`).
- Soft wrapping drops blanks at line starts, and a line of blanks alone produces no line (`BlankLineVanishes`);
  `WrapKeeps` is therefore about printing characters.

## Model

| member | source | states |
|---|---|---|
| `Composition.ValidateComposition` | crates/stegano-core/src/pipeline.rs:104-131 | For any alphabets: a stack is accepted if and only if they are pairwise disjoint and only the last carrier may rewrite visible text |
| `Composition.RefusalNames` | crates/stegano-core/src/pipeline.rs:104-131 | A refused stack is told the first two carriers whose alphabets meet and a character both use, or, when none meet, the first carrier but the last that rewrites visible text and the one behind it |
| `Composition.RewritesBeyond` | crates/stegano-core/src/pipeline.rs:72-93 | A carrier rewrites visible text if and only if its alphabet has a character beyond 22 invisible format controls |
| `Composition.RealCarriersCompose` | crates/stegano-core/src/pipeline.rs:104-131 | A stack of the four carriers, none twice, is legal if and only if the substituting one comes last or not at all |
| `Carriers.CoverBoundsWrites` | crates/stegano-core/src/format/mod.rs:108-111 | The measurement by one bit too many answers yes exactly for a carrier that refuses overflow, or a cover it will not write into |
| `Carriers.CheckWritable` | crates/stegano-core/src/stego/whitespace.rs:195-204 | The count of occupied places refuses a cover exactly when some character of it is of the alphabet |
| `Carriers.PlaceAtWordBoundaries` | crates/stegano-core/src/stego/placement.rs:79-110 | The result is the cover with the characters in order, one in each gap that is neither between two word characters nor protected, none of these left empty before one that is filled, and what is over behind the text |
| `Carriers.SlotsAreOpenGaps` | crates/stegano-core/src/stego/placement.rs:45-71 | The slots counted are the gaps of the skeleton that are at an end or beside a character that is neither alphanumeric nor an underscore, and unprotected |
| `Carriers.SkeletonIs` | crates/stegano-core/src/fidelity/chars.rs:13-23 | The skeleton is the text without 22 format controls, everything else in order |
| `Carriers.PositionsFit` | crates/stegano-core/src/stego/whitespace.rs:259-279 | The positions offered are exactly the whole bytes whose characters, delimiters included, find a slot each |
| `Carriers.Spelled` | crates/stegano-core/src/stego/whitespace.rs:51-74 | What is written for a payload, character by character: each byte's bits from the highest, a delimiter before every byte but the first |
| `Carriers.LetterWritten` | crates/stegano-core/src/stego/whitespace.rs:51-74 | The letter A as each of the three carriers writes it, by code points |
| `Carriers.ReadAfterWrite` | crates/stegano-core/src/stego/whitespace.rs:206-217 | Bits written into a text free of the alphabet read back in order, delimiters and overflow tail included |
| `Carriers.EncodeDecodes` | crates/stegano-core/src/stego/whitespace.rs:229-257 | A payload encoded into a text that holds none of the carrier's characters decodes to itself, and a carrier that overflows refuses to write none |
| `Carriers.ReadAcrossWrite` | crates/stegano-core/src/stego/whitespace.rs:185-187 | What another carrier inserts does not change what a carrier reads |
| `Carriers.ReadAcrossStrip` | crates/stegano-core/src/stego/bidi.rs:294-302 | Stripping another carrier does not change what a carrier reads |
| `Carriers.StripUndoesWrite` | crates/stegano-core/src/stego/whitespace.rs:297-305 | Stripping undoes a write if and only if the text held nothing else the strip removes |
| `Carriers.PositionsUnmoved` | crates/stegano-core/src/stego/placement.rs:68-71 | Invisible insertions leave every carrier's position count as it was |
| `Checksums.BitSerialCrc32` | crates/stegano-core/src/format/crc.rs:45-55 | The masked bit-serial loop computes the reflected CRC-32 of every message |
| `Checksums.BitSerialCrc16` | crates/stegano-core/src/format/crc.rs:21-34 | The bit-serial loop computes CRC-16/CCITT-FALSE of every message |
| `Checksums.Generators` | crates/stegano-core/src/format/crc.rs:21-55 | The two generators have exactly the coefficients of the CRC-32 of IEEE 802.3, reflected, and of CRC-16/CCITT |
| `Checksums.NothingSummed` | crates/stegano-core/src/format/crc.rs:21-55 | Of no bytes the 32-bit checksum is zero and the 16-bit one all ones |
| `Checksums.MakeCrcTable` | crates/stegano-files/src/metadata.rs:358-376 | The table holds, for every byte, eight bit-serial steps from that byte |
| `Checksums.TableCrc32` | crates/stegano-files/src/metadata.rs:380-387 | The table-driven checksum equals the bit-serial one on every message |
| `Checksums.FoldInjective` | crates/stegano-core/src/format/crc.rs:45-55 | Over any message, distinct checksum states stay distinct |
| `Checksums.BurstChangesCrc32` | crates/stegano-core/src/format/crc.rs:45-55 | Two messages that differ inside one window of at most four bytes have different checksums |
| `Preambles.PreambleRoundTrip` | crates/stegano-core/src/format/preamble.rs:170-224 | A preamble's 24 bytes parse back to it, whatever follows them |
| `Preambles.ParsesOnlyWritten` | crates/stegano-core/src/format/preamble.rs:170-224 | Nothing parses but bytes that open with a written preamble, its checksum included |
| `Preambles.PreambleLayout` | crates/stegano-core/src/format/preamble.rs:152-168 | The 24 bytes of every preamble, place by place |
| `LightFrames.PayloadCapacityBytes` | crates/stegano-core/src/format/frame_light.rs:72-75 | A payload fits the reported room exactly when its frame fits the positions |
| `LightFrames.LightRoundTrip` | crates/stegano-core/src/format/frame_light.rs:117-162 | A built light frame reads back exactly, salt included, whatever positions follow it |
| `LightFrames.ReadsOnlyFrames` | crates/stegano-core/src/format/frame_light.rs:117-162 | Nothing reads as a light frame but bytes that open with a built one, header checksum included |
| `LightFrames.LightLayout` | crates/stegano-core/src/format/frame_light.rs:19-28 | The bytes of every light frame, place by place |
| `LightFrames.ScanLight` | crates/stegano-core/src/format/frame_light.rs:187-203 | The scan returns the frame at the first offset where a whole one stands, header checksum included, and nothing exactly where there is none |
| `LightFrames.ScanFindsFrame` | crates/stegano-core/src/format/frame_light.rs:187-203 | Wherever a built frame lies whole, the scan finds it, or one that validates earlier |
| `HeavyFrames.ForPositions` | crates/stegano-core/src/format/frame.rs:111-157 | The two layout loops produce the markers and the slots between them |
| `HeavyFrames.MarkersExactly` | crates/stegano-core/src/format/frame.rs:111-157 | The markers are exactly the multiples of the spacing with room for one between the replicas; the spacing is an eighth of the positions, kept between 64 and 512 |
| `HeavyFrames.LayoutShape` | crates/stegano-core/src/format/frame.rs:111-157 | Slots and markers lie apart between the replicas, and the free bits are the span less both preambles and 32 a marker |
| `HeavyFrames.Build` | crates/stegano-core/src/format/frame.rs:231-293 | A heavy frame is built if and only if the layout exists, the payload is not empty, fits the slots and a 16-bit length |
| `HeavyFrames.MarkersStand` | crates/stegano-core/src/format/frame.rs:231-293 | In every built frame each marker stands whole, the magic and its own number; no payload bit lies over one |
| `HeavyFrames.PayloadPlaced` | crates/stegano-core/src/format/frame.rs:231-293 | In every built frame the payload's bits stand in the free positions, in order |
| `HeavyFrames.HeavyRoundTrip` | crates/stegano-core/src/format/frame.rs:303-371 | A built heavy frame reads back its preamble from both replicas and its payload from the slots |
| `HeavyFrames.ReadsOnlyReplicas` | crates/stegano-core/src/format/frame.rs:303-371 | Nothing reads as a heavy frame but a stream with the same preamble at its head and, backwards, at the end of its whole bytes, whose slots hold the declared bits |
| `HeavyFrames.LocatesExactly` | crates/stegano-core/src/format/frame.rs:373-401 | A preamble is located if and only if one stands at the head, or backwards at the end with at most seven positions behind it, whatever became of the other replica |
| `Spans.SearchSpan` | crates/stegano-core/src/pipeline.rs:803-823 | The growing search computes the specified search |
| `Spans.FreeGrowth` | crates/stegano-core/src/format/frame.rs:185-188 | The free bits never grow faster than the span, and the markers never thin out |
| `Spans.MinimumSpanIsSmallest` | crates/stegano-core/src/pipeline.rs:803-823 | Any span returned holds the payload, and no smaller multiple of eight does |
| `Spans.MinimumSpanExists` | crates/stegano-core/src/pipeline.rs:803-823 | The rounds allowed suffice for every payload a frame can declare; an empty one is refused |
| `Envelopes.EnvelopeRoundTrip` | crates/stegano-core/src/format/envelope.rs:76-94 | Every envelope with machine-word lengths parses back from its bytes |
| `Envelopes.ParsesExactly` | crates/stegano-core/src/format/envelope.rs:76-94 | Bytes parse as an envelope if and only if they spell it: version two, then each field in order, every length a varint of at most 64 bits, every id well-formed text |
| `Envelopes.OneStepOnTheWire` | crates/stegano-core/src/format/envelope.rs:65-74 | The bytes of an envelope with an integrity step and a short payload |
| `Envelopes.VarintOfTwo` | crates/stegano-core/src/format/envelope.rs:65-74 | A length of 128 to 16383 takes two bytes, its low seven bits first |
| `Envelopes.EnvelopeLenGrows` | crates/stegano-core/src/pipeline.rs:360-364 | The envelope is longer than its payload and strictly grows with it, across every varint boundary |
| `Sealing.SealSecret` | crates/stegano-core/src/pipeline.rs:755-791 | Sealing step by step yields the specified salt, chain, payload and authentication flag, or the first refusal |
| `Sealing.SealReverts` | crates/stegano-core/src/pipeline.rs:1485-1565 | Reverting the recorded chain, last step first, gives the secret back, for every cipher choice |
| `Sealing.StepNeeds` | crates/stegano-core/src/pipeline.rs:1485-1565 | No ciphered step reverts without a password and a cipher of its name; the first such cipher decides, under the derived key or the password as its kind demands |
| `Sealing.IntegrityRefusesOneByte` | crates/stegano-core/src/pipeline.rs:1485-1565 | A sealed payload changed in exactly one byte, body or checksum, is refused |
| `Sealing.IntegrityRefusesBurst` | crates/stegano-core/src/pipeline.rs:1485-1565 | So is one changed anywhere inside a window of four bytes of its body |
| `Sealing.ShapeIsMeasured` | crates/stegano-core/src/pipeline.rs:308-357 | The chain and size measured on a probe are those of every seal |
| `Layers.PlaceLayer` | crates/stegano-core/src/pipeline.rs:844-892 | A layer is returned only if it reads back as the envelope that was written |
| `Layers.PlacingSucceeds` | crates/stegano-core/src/pipeline.rs:844-892 | For an inserting carrier the read back never fails: placing succeeds if and only if the frame is built and the write is accepted |
| `Layers.LayerSpans` | crates/stegano-core/src/pipeline.rs:844-892 | A heavy frame spans all whole bytes of positions for a carrier that rewrites visible text and the smallest span for one that inserts; a light one is header and payload |
| `Layers.LayerBitsHold` | crates/stegano-core/src/pipeline.rs:1222-1274 | Either frame's bits are whole bytes that are recognised and read as the envelope, with its salt where one matters |
| `Layers.ReadsInOrder` | crates/stegano-core/src/pipeline.rs:1222-1274 | A stream that opens like a light frame is that frame or an error; otherwise a heavy frame is read first, and then the first whole light frame anywhere |
| `Layers.FramedExactly` | crates/stegano-core/src/format/frame.rs:457-482 | A stream is framed if and only if a heavy preamble is located or a whole light frame stands somewhere in it |
| `Capacities.LayerAccepted` | crates/stegano-core/src/pipeline.rs:1109-1157 | One turn of the encode loop adds its layer if and only if the mission's ceiling, the carrier's room and the frame's length field all allow the envelope |
| `Encoding.EncodeForMission` | crates/stegano-core/src/pipeline.rs:1072-1177 | The whole encode equals the specification: validation, seal, then every layer on the running text |
| `Decoding.DecodeTraced` | crates/stegano-core/src/pipeline.rs:1283-1478 | The cascade with its loops equals the specification, trace and all |
| `Decoding.Recover` | crates/stegano-core/src/pipeline.rs:1586-1693 | The recovery sweep equals the specification whose results `Traces.RecoveryDelivers` and `Traces.RecoveryFindsNothing` state |
| `Decoding.IdentifiedFramed` | crates/stegano-core/src/pipeline.rs:1283-1478 | Only carriers holding a frame are identified, and none exactly when no candidate holds one |
| `Traces.TraceInvariant` | crates/stegano-core/src/pipeline.rs:1283-1478 | Every run: Ok exactly when waves ran and all passed; a failed wave is unique, last and named by the error; recovery exactly when there are candidates and none is framed |
| `Traces.CascadeDecides` | crates/stegano-core/src/pipeline.rs:1283-1478 | A cascade succeeds if and only if all layers hold the same bytes, they parse and the chain reverts; then the waves are identify, the carriers reversed, envelope, the chain reversed, each under its own oracle, the cipher is the chain's and integrity_valid is true |
| `Traces.LayerFailureNamed` | crates/stegano-core/src/pipeline.rs:1283-1478 | The last applied layer that cannot be read, or differs from those above it, ends the run: it alone failed, those above it passed, and the error names it |
| `Traces.OpeningFailureNamed` | crates/stegano-core/src/pipeline.rs:1283-1478 | Layers that agree on bytes that are no envelope fail there; otherwise the error names the last step of the chain that does not revert |
| `Traces.DedupIs` | crates/stegano-core/src/pipeline.rs:1283-1478 | The carriers named are those identified, in order, equal neighbours once |
| `Traces.RecoveryExplains` | crates/stegano-core/src/pipeline.rs:1586-1693 | Recovery always leaves two waves, and a recovered result always carries the explicit warning |
| `Traces.RecoveryDelivers` | crates/stegano-core/src/pipeline.rs:1586-1693 | With none framed, the first candidate whose bytes, zeros behind them aside, are a pre-format package decides: its plaintext, cipher, validity and id are the answer, with exactly the warnings that apply, or the refusal to open it |
| `Traces.RecoveryFindsNothing` | crates/stegano-core/src/pipeline.rs:1586-1693 | Where no candidate carries one, nothing is detected, which no wave calls a failure |
| `RoundTrips.LayeredDecodes` | crates/stegano-core/src/pipeline.rs:1283-1478 | Any texts written layer upon layer decode to the secret from every non-empty choice of their carriers, in any order, beside any strangers |
| `RoundTrips.StackRoundTrip` | crates/stegano-core/src/pipeline.rs:1072-1177 | Whenever encode succeeds through a legal stack of inserting carriers, decode returns exactly the secret, for both frames and every mission |
| `RoundTrips.PeelsBack` | crates/stegano-core/src/pipeline.rs:1283-1478 | In the original order every peeled text is the text encode produced, down to the cover, if and only if the cover holds nothing a carrier also strips |
| `Capacities.PeelLosesTimes` | crates/stegano-core/src/pipeline.rs:1283-1478 | A concrete cover that encode accepts and peeling does not give back |
| `RoundTrips.RealStacksQualify` | crates/stegano-core/src/pipeline.rs:104-131 | All stacks of the three inserting carriers meet what the round trip asks |
| `Capacities.SearchLargest` | crates/stegano-core/src/pipeline.rs:413-458 | The binary search ends and finds the largest secret the frame holds |
| `Capacities.LargestDecides` | crates/stegano-core/src/pipeline.rs:413-458 | A secret's envelope fits the frame if and only if the secret is no longer than the figure |
| `Capacities.CapacityOf` | crates/stegano-core/src/pipeline.rs:413-458 | secret_bytes + overhead_bytes == framed_bytes |
| `Capacities.FiguresMean` | crates/stegano-core/src/pipeline.rs:413-458 | A carrier's figures: positions, their whole bytes, whether the cover bounds it, and the largest secret whose envelope the frame holds |
| `Capacities.MeasureStack` | crates/stegano-core/src/pipeline.rs:485-522 | The report loop equals the specification, errors included |
| `Capacities.CapacityIsTheGate` | crates/stegano-core/src/pipeline.rs:1072-1177 | For a carrier the cover bounds, every non-empty secret passes the size gate if and only if its length is at most secret_bytes |
| `Capacities.RunningText` | crates/stegano-core/src/pipeline.rs:1072-1177 | Each later carrier finds on the running text the positions and the clean alphabet it had on the cover |
| `Capacities.ReportIsExact` | crates/stegano-core/src/pipeline.rs:460-472 | Under every mission, encode succeeds exactly when every figure allows the secret and the envelope, sized before sealing, is at most 8191 bytes |
| `Capacities.MinimumPasses` | crates/stegano-core/src/pipeline.rs:485-522 | With no density ceiling, the stack minimum passes every gate on the running text if a frame can declare its envelope, and is the limit when every carrier is bounded |
| `Capacities.ReportedYetRefused` | crates/stegano-core/src/pipeline.rs:460-472 | The documented promise fails on 80998 blanks: a bounded carrier is promised 8977 bytes and encode refuses all secrets over 8176, under every mission |
| `Capacities.ReportedRoom` | crates/stegano-core/src/pipeline.rs:1072-1177 | The room encode reports is the narrowest carrier's room on the cover |
| `Capacities.EncodeReports` | crates/stegano-core/src/pipeline.rs:1072-1177 | Every success reports the carriers in order, the envelope's bits and eight times the narrowest carrier's room |
| `Capacities.GatesName` | crates/stegano-core/src/pipeline.rs:1109-1157 | A layer over a thirty-second of the positions, or over a bounded carrier's room, is refused with both sizes in bits |
| `Capacities.RefusalsFallShort` | crates/stegano-core/src/pipeline.rs:1072-1177 | Through any stack, either frame and either gate, every refusal for room asks for more than there is |
| `Recommendations.RecommendFramed` | crates/stegano-core/src/pipeline.rs:633-735 | Measuring, stable sorting and picking equal the specification |
| `Recommendations.StrictestMeans` | crates/stegano-core/src/pipeline.rs:633-735 | A carrier's mission is the strictest whose ceiling and frame hold the envelope |
| `Recommendations.RecommendationSound` | crates/stegano-core/src/pipeline.rs:633-735 | fits if and only if the shortfall is zero; otherwise the shortfall is the envelope less the best hold; the pick is beaten by no carrier; every carrier is listed once, best first |
| `Recommendations.ListedBestFirst` | crates/stegano-core/src/pipeline.rs:633-735 | Over plain ceilings of 25, 50 and 85 percent: the carriers are listed by strictest mission, then by the share of the positions the envelope takes, ties in the caller's order, those that hold nothing last; the first is the pick |
| `Recommendations.ShortfallIsLeast` | crates/stegano-core/src/pipeline.rs:633-735 | When nothing fits, every carrier lacks the reported bytes or more under the loosest mission, and one lacks just these |
| `Recommendations.RecommendedEncodes` | crates/stegano-core/src/pipeline.rs:1072-1177 | Encoding through a recommended carrier under its recommended mission passes both gates, and succeeds exactly when the carrier will write into the cover and a frame can declare the envelope |
| `Saturation.SaturateThroughStack` | crates/stegano-core/src/pipeline.rs:995-1031 | The saturation loop equals the specification |
| `Saturation.CopiesFill` | crates/stegano-core/src/pipeline.rs:904-934 | A cover with room for a frame is filled with whole copies but for less than one frame |
| `Saturation.SaturatedRoundTrip` | crates/stegano-core/src/pipeline.rs:995-1031 | A saturated document decodes to exactly the secret, like a plain one |
| `Saturation.SaturationReports` | crates/stegano-core/src/pipeline.rs:995-1031 | Every success reports the carriers in order, the bits of one copy, and no more room than any carrier had on the text it was given |
| `Excerpts.ExcerptReadsWindow` | crates/stegano-core/src/pipeline.rs:904-934 | Any stretch of a text reads as a contiguous window of what the text reads as |
| `Excerpts.WindowHoldsCopy` | crates/stegano-core/src/pipeline.rs:904-934 | Every window of at least 2L-1 bits holds a whole frame that starts before offset L |
| `Saturation.ChannelsFilled` | crates/stegano-core/src/pipeline.rs:986-1031 | Through a whole stack, every carrier reads the last text as whole copies of the frame, as many as the cover has room for |
| `Excerpts.LongExcerptKeeps` | crates/stegano-core/src/pipeline.rs:904-934 | An excerpt from which 2L-1 bits are read keeps a whole frame, wherever it is cut out |
| `Excerpts.EveryExcerptHolds` | crates/stegano-core/src/pipeline.rs:910-934 | Of two copies or more, through any stack: every excerpt that keeps any one frame reads as the secret, if and only if the frame is sound, which is a condition on the frame and the channel's length |
| `Excerpts.SoleMagicIsSound` | crates/stegano-core/src/pipeline.rs:1222-1274 | A frame whose doubled bits show the magic only where a copy starts is sound |
| `Excerpts.ImpostorReads` | crates/stegano-core/src/pipeline.rs:1222-1274 | Where a whole light frame with another payload stands inside the doubled frame, every window from there reads as that payload and the frame is not sound |
| `Excerpts.ImpostorBreaks` | crates/stegano-core/src/pipeline.rs:910-934 | Then some excerpt of the document that keeps a frame does not give the secret |
| `Excerpts.InnerFrameWins` | crates/stegano-core/src/pipeline.rs:910-934 | The failing input: a secret that is another secret's frame, saturated into blanks; an excerpt that keeps a whole frame decodes to the other secret |
| `Excerpts.ExcerptDecodes` | crates/stegano-core/src/pipeline.rs:986-1031 | From any excerpt of a saturated stack's output, every choice of carriers of which a whole frame is kept is identified, never swept for, and decodes to exactly the secret where the frame is sound |
| `Mojibake.FixMojibake` | crates/stegano-files/src/text_encoding.rs:59-104 | The cursor loops repair exactly the maximal runs the specification repairs |
| `Mojibake.TablesInvert` | crates/stegano-files/src/text_encoding.rs:149-163 | The two Windows-1252 tables are inverse, but for the five undefined bytes |
| `Mojibake.ReadByCodePage` | crates/stegano-files/src/text_encoding.rs:133-146 | Every byte garbles to its Windows-1252 character, by the code points of the code page |
| `Mojibake.QuoteRepaired` | crates/stegano-files/src/text_encoding.rs:59-104 | The commonest corruption, U+00E2 U+20AC U+2122, is repaired to U+2019 |
| `Mojibake.ScoresWhenPaired` | crates/stegano-files/src/text_encoding.rs:109-131 | A text is looked at if and only if it holds a lead byte's character before a continuation byte's; otherwise it is left alone |
| `Mojibake.RepairInvertsCorruption` | crates/stegano-files/src/text_encoding.rs:59-104 | Over all texts, repair gives back a text read in the wrong encoding if and only if it is ASCII, or its bytes avoid the five undefined ones and some character has a lead byte C2, C3, CE, CF or E2 with a second byte other than 8E, 98, 9E, 9F |
| `Mojibake.ScoreGarbled` | crates/stegano-files/src/text_encoding.rs:109-131 | The score of a garbled text is the number of such characters in the text it was |
| `Mojibake.SharpNotRepaired` | crates/stegano-files/src/text_encoding.rs:59-62 | A sharp s has no undefined byte, scores nothing garbled and stays garbled |
| `Mojibake.ScoreFallsExactly` | crates/stegano-files/src/text_encoding.rs:55-104 | The documented reduction: the score falls if and only if the texts the replaced runs spell have, in all, more marked characters than markers, and by exactly that |
| `Mojibake.ReplacedIsGarbled` | crates/stegano-files/src/text_encoding.rs:76-101 | A run that is replaced is exactly its replacement read in the wrong encoding, and scores its marked characters |
| `Mojibake.RewrittenAtSameScore` | crates/stegano-files/src/text_encoding.rs:55-104 | A text that is rewritten while its score stays |
| `Mojibake.RewrittenAtHigherScore` | crates/stegano-files/src/text_encoding.rs:55-104 | A text whose score the repair raises |
| `Mojibake.FixIsConservative` | crates/stegano-files/src/text_encoding.rs:59-104 | On any input the ASCII characters and their order are kept and the text never gets longer |
| `Base64.EncodeChunks` | crates/stegano-files/src/metadata.rs:492-513 | The chunk loop writes the encoding, four characters for every three bytes begun |
| `Base64.DecodeChunks` | crates/stegano-files/src/metadata.rs:518-573 | The table-driven loop decodes, or refuses, exactly as specified |
| `Base64.Encode` | crates/stegano-files/src/metadata.rs:492-513 | The encoded length is four times the rounded-up third |
| `Base64.AlphabetIs` | crates/stegano-files/src/metadata.rs:487-488 | The 64 digits are the alphabet of section 4 of RFC 4648, in order |
| `Base64.GroupIs` | crates/stegano-files/src/metadata.rs:492-513 | Each character of a full group is six bits of the three bytes, the highest first |
| `Base64.StaysInAlphabet` | crates/stegano-files/src/metadata.rs:492-513 | Only digits of the alphabet and the pad are written |
| `Base64.RoundTrip` | crates/stegano-files/src/metadata.rs:518-573 | Decode after encode is the identity on every byte string |
| `Base64.WhitespaceIgnored` | crates/stegano-files/src/metadata.rs:518-573 | One whitespace character inserted anywhere, in any input, changes nothing |
| `Base64.AcceptsExactly` | crates/stegano-files/src/metadata.rs:518-573 | Decoding succeeds if and only if what is left without whitespace is whole groups of four, each of digits with at most two pads at its end |
| `Base64.SpacedRoundTrip` | crates/stegano-files/src/metadata.rs:518-573 | An encoding with any whitespace inserted, anywhere and any amount, decodes to what was encoded |
| `Png.WriteTextChunk` | crates/stegano-files/src/metadata.rs:296-320 | The chunk goes in after the first 33 bytes and every other byte is copied |
| `Png.ChunkVerifies` | crates/stegano-files/src/metadata.rs:296-320 | The chunk ends in the checksum of its own type and data |
| `Png.ReadTextChunk` | crates/stegano-files/src/metadata.rs:324-354 | The cursor walk reads the first text chunk under the keyword |
| `Png.ReadsFirst` | crates/stegano-files/src/metadata.rs:324-354 | What is read is the first tEXt chunk under the keyword among the chunks, none behind the end chunk |
| `Png.RecoverAfterEmbed` | crates/stegano-files/src/metadata.rs:283-290 | What is embedded is recovered, whatever text chunks were there |
| `Png.SecondEmbedWins` | crates/stegano-files/src/metadata.rs:259-281 | A second embed wins |
| `Png.RecoverReads` | crates/stegano-files/src/metadata.rs:283-354 | Text under the keyword that is not UTF-8 counts as none, and text that is not base64 is an error |
| `Png.StripPng` | crates/stegano-files/src/strip.rs:115-147 | The stripping walk equals the specification, truncation and the end chunk included |
| `Png.StripKeepsTheRest` | crates/stegano-files/src/strip.rs:115-147 | For every byte string, cut into chunks by their length fields: the output is exactly the chunks not named tEXt, zTXt, iTXt, eXIf or tIME, up to the end chunk |
| `Png.StripAfterEmbed` | crates/stegano-files/src/strip.rs:115-147 | Strip after embed equals strip alone |
| `Png.StripLaws` | crates/stegano-files/src/strip.rs:115-147 | For every PNG, stripping twice is stripping once and nothing is recovered after it |
| `Search.SearchTag` | crates/stegano-files/src/metadata.rs:468-483 | The scan finds the first tag, letter case aside, past every look-alike |
| `Search.FirstTag` | crates/stegano-files/src/metadata.rs:468-483 | What is found is the first place where the name stands in any letter case and a bracket, slash, blank or the end follows; nothing is found exactly where there is none |
| `Svg.RecoverAfterEmbed` | crates/stegano-files/src/metadata.rs:441-452 | What is embedded is recovered, if no payload marker or metadata tag comes before the root's opening tag ends |
| `Svg.SecondEmbedWins` | crates/stegano-files/src/metadata.rs:391-439 | A second embed wins |
| `Svg.RecoverReads` | crates/stegano-files/src/metadata.rs:441-463 | What stands between the first payload marker and the next closing one is the payload, or, where it is not base64, an error |
| `Svg.FirstCutUndoesEmbed` | crates/stegano-files/src/metadata.rs:391-439 | Embedding only adds: cutting the first metadata element, as the stripper finds and ends it, gives the document back exactly |
| `Svg.EmbedsInRoot` | crates/stegano-files/src/metadata.rs:391-439 | The payload goes in right behind the first root tag; a root that closes itself is refused |
| `Svg.CutsElement` | crates/stegano-files/src/strip.rs:160-209 | Each cut takes the first metadata element whole: its tag alone if that closes itself, else through the next closing tag in any letter case, or to the end of the text if there is none |
| `Svg.NothingToCut` | crates/stegano-files/src/strip.rs:160-209 | A text with no metadata tag is left as it is |
| `Svg.UnclosedStays` | crates/stegano-files/src/strip.rs:160-209 | A metadata tag that never ends is left, with all behind it |
| `Svg.StripElements` | crates/stegano-files/src/strip.rs:160-209 | The two-cursor loop equals the specification |
| `Svg.StripAfterEmbed` | crates/stegano-files/src/strip.rs:160-209 | Strip after embed equals strip alone |
| `Jpeg.StripJpeg` | crates/stegano-files/src/strip.rs:213-262 | The marker walk ends on every input and equals the specification |
| `Jpeg.WalkDropsSegments` | crates/stegano-files/src/strip.rs:213-262 | For every byte string, cut into markers that stand alone and segments by their length fields: the output is the input less exactly the APP1 and APP13 segments met |
| `Jpeg.TailEndsBoth` | crates/stegano-files/src/strip.rs:213-262 | From where the walk stops, a start of scan included, input and output end alike |
| `Jpeg.StripLaws` | crates/stegano-files/src/strip.rs:213-262 | For every input that starts with SOI, stripping twice is stripping once |
| `Calendar.DaysToYmd` | crates/stegano-core/src/license.rs:497-521 | The licence loop computes the specified date |
| `Calendar.DaysToDate` | crates/stegano-cli/src/main.rs:2503-2522 | The command line's loop computes the same date on every input |
| `Calendar.DateCounts` | crates/stegano-core/src/license.rs:497-521 | Every day number becomes a valid date whose Gregorian day count is that number |
| `Calendar.DateIsFound` | crates/stegano-core/src/license.rs:497-521 | Every valid date is the date of its day number |
| `Calendar.YearStarts` | crates/stegano-core/src/license.rs:523-525 | The loop's year starts agree with the closed-form count of leap days |
| `Calendar.CivilDays` | crates/stegano-core/src/license.rs:497-525 | The day number of every date agrees with the Gregorian closed form, months and leap days included |
| `Calendar.Rendered` | crates/stegano-core/src/license.rs:476-495 | Before year 10000 every instant is rendered in twenty characters from which date and time of day read back |
| `Calendar.ExpiryTo9999` | crates/stegano-core/src/license.rs:332-344 | Up to year 9999 a licence accepts an instant if and only if it is not later than the expiry, or there is none |
| `Calendar.ExpiryRightExactly` | crates/stegano-core/src/license.rs:332-344 | For all instants, text comparison decides rightly if and only if the years have equally many digits, or the shorter is not over the number the longer's first digits spell |
| `Calendar.LaterYetAccepted` | crates/stegano-core/src/license.rs:332-344 | The first second of year 10000 is accepted by every licence that expired in years 2000 to 9999 |
| `Omml.MatchingClose` | crates/stegano-files/src/docx_common.rs:234-264 | The depth-counting loop equals the specification on any text |
| `Omml.MatchesOwnClose` | crates/stegano-files/src/docx_common.rs:234-264 | In well-formed markup the close returned is that of the element just opened, whatever is nested in it |
| `Omml.ChildrenAll` | crates/stegano-files/src/docx_common.rs:289-311 | The cursor loop equals the specification on any text |
| `Omml.ChildrenAreOutermost` | crates/stegano-files/src/docx_common.rs:289-311 | In well-formed markup the result is the bodies of the outermost elements of the name, in document order |
| `Omml.Child` | crates/stegano-files/src/docx_common.rs:267-285 | The cursor loop equals the specification on any text |
| `Omml.ChildIsFirst` | crates/stegano-files/src/docx_common.rs:267-285 | In well-formed markup the result is the body of the first element of the name, empty if it closes itself |
| `Tex.EscapeLoop` | crates/stegano-files/src/export.rs:149-167 | The character loop writes the specified escapes |
| `Tex.ReadLoop` | crates/stegano-files/src/import.rs:1059-1132 | The shared-cursor loops equal the specification wherever they stay in the modelled arms |
| `Tex.EscapeReads` | crates/stegano-files/src/import.rs:1059-1132 | For every text, reading its escaped form gives the text without carets and tildes, its ligatures applied |
| `Tex.EscapeUndone` | crates/stegano-files/src/export.rs:149-167 | Reading undoes escaping if and only if the text has no caret, no tilde and no ligature pair |
| `Tex.SymbolsRead` | crates/stegano-files/src/import.rs:981-1048 | Each symbol command reads as a line break, a blank or its own character |
| `Tex.LigaturesAre` | crates/stegano-files/src/import.rs:1051-1056 | Three hyphens, two, and the two quote pairs become one character each |
| `Tex.EscapeLoses` | crates/stegano-files/src/export.rs:149-167 | A caret and a tilde come back as nothing, two hyphens as a dash |
| `OfficeMeta.NativeMetadata.CommitSlot` | crates/stegano-files/src/native_metadata.rs:291-332 | One field filled, appended or left alone, the others unchanged |
| `OfficeMeta.NativeMetadata.ParseOfficeMeta` | crates/stegano-files/src/native_metadata.rs:339-394 | The event loop fails exactly on bad captured text, and otherwise commits what the walk commits, in order |
| `OfficeMeta.FailsExactly` | crates/stegano-files/src/native_metadata.rs:339-394 | On any events the walk fails if and only if text that cannot be read comes while an element is being captured |
| `OfficeMeta.WalkCommitsInnermost` | crates/stegano-files/src/native_metadata.rs:339-394 | For every well-formed tree, exactly the innermost recognised elements are committed, in document order, each with its whole subtree's text |
| `OfficeMeta.LastNonBlankWins` | crates/stegano-files/src/native_metadata.rs:291-332 | Every field, keywords included, ends as its last value that is not blank, each further keyword appended behind a comma, and is absent exactly when it has none |
| `OfficeMeta.Recognised` | crates/stegano-files/src/native_metadata.rs:250-278 | Every element name fills the field both formats mean by it, appends a keyword, opens a custom property, or is passed over |
| `OfficeMeta.TrimIs` | crates/stegano-files/src/native_metadata.rs:291-332 | Values lose exactly the white space at their two ends |
| `OfficeMeta.CustomInOrder` | crates/stegano-files/src/native_metadata.rs:291-332 | The custom properties kept are the named ones, in document order |
| `OfficeMeta.TreeToRecord` | crates/stegano-files/src/native_metadata.rs:339-394 | For every well-formed tree, the walk succeeds and leaves exactly the record that the tree's innermost elements spell |
| `Pdf.WritePdf` | crates/stegano-files/src/pdf_native.rs:42-136 | The writer, with its offsets array, produces the specified bytes |
| `Pdf.OffsetsPoint` | crates/stegano-files/src/pdf_native.rs:42-136 | Each recorded offset is where that object and its header begin |
| `Pdf.StartxrefPoints` | crates/stegano-files/src/pdf_native.rs:42-136 | The number read back after startxref is where the table begins |
| `Pdf.TablePoints` | crates/stegano-files/src/pdf_native.rs:42-136 | While the body fits ten digits, entry k stands 20(k-1) bytes into the entries and reads back as object k's offset |
| `Pdf.EntryLength` | crates/stegano-files/src/pdf_native.rs:42-136 | An entry is twenty bytes if and only if its offset fits ten digits |
| `Pdf.StreamLengthExact` | crates/stegano-files/src/pdf_native.rs:42-136 | In the finished document, at the offset recorded for a page's stream: the length read back is the stream's, and that many bytes on stands the end marker |
| `Pdf.PagesKeepLines` | crates/stegano-files/src/pdf_native.rs:42-136 | The pages together are all the wrapped lines, 48 on each page but the last |
| `Pdf.EscapedReads` | crates/stegano-files/src/pdf_native.rs:195-211 | A literal-string reader takes from an escaped line's bytes exactly the bytes of the characters shown, and stops where it ends |
| `Pdf.PageReads` | crates/stegano-files/src/pdf_native.rs:140-154 | A page's stream reads back, line by line, as the bytes of the lines shown |
| `Pdf.ShownExactly` | crates/stegano-files/src/pdf_native.rs:195-211 | In the font's encoding a line is displayed as shown if and only if it has no character of U+00A0 to U+00FF, and as written if and only if it is printable ASCII |
| `Pdf.AcuteDisplayed` | crates/stegano-files/src/pdf_native.rs:195-211 | An acute e is shown as one character and displayed as two |
| `PdfReading.TableFound` | crates/stegano-files/src/pdf_native.rs:42-136 | The number behind the last startxref is where the table begins |
| `PdfReading.OffsetFound` | crates/stegano-files/src/pdf_native.rs:42-136 | Through the table every object number leads to its object |
| `PdfReading.PagesNamed` | crates/stegano-files/src/pdf_native.rs:42-136 | From the trailer by way of the catalog to the page tree: its list names the page objects in order and its count is theirs |
| `PdfReading.PageFound` | crates/stegano-files/src/pdf_native.rs:42-136 | A page object's contents reference leads to the stream that shows that page's lines |
| `PdfReading.DocumentShows` | crates/stegano-files/src/pdf_native.rs:42-136 | Following the references from the end of the file shows every wrapped line of the text, in order, page by page |
| `Wrapping.WrapText` | crates/stegano-files/src/pdf_native.rs:158-190 | The wrapping loops equal the specification |
| `Wrapping.WrapKeeps` | crates/stegano-files/src/pdf_native.rs:158-190 | No line is over 88 characters and every printing character is kept, in order |
| `Wrapping.BlankLineVanishes` | crates/stegano-files/src/pdf_native.rs:158-190 | A line gives no line on the page if and only if, its returns trimmed, it is not empty and holds only blanks |
| `Wrapping.BlankTextVanishes` | crates/stegano-files/src/pdf_native.rs:158-190 | The text of one blank has no line, the empty text has one |
| `Wrapping.ReturnsTrimmed` | crates/stegano-files/src/pdf_native.rs:158-190 | A line of the text loses the carriage returns at its end, all of them and nothing else |
| `Wrapping.ParagraphWhole` | crates/stegano-files/src/pdf_native.rs:158-190 | For every paragraph: the lines' words are the paragraph's, in order, only those over 88 characters cut |
| `Wrapping.WordsStandWhole` | crates/stegano-files/src/pdf_native.rs:156-190 | For every text: its words are kept in order, and each of 1 to 88 characters stands unbroken in some line |
| `Wrapping.LinesFull` | crates/stegano-files/src/pdf_native.rs:158-190 | Within a line of the text, no line of the page could have taken the first word of the next: the two and a blank exceed 88 characters |
| `Wrapping.LineStays` | crates/stegano-files/src/pdf_native.rs:158-190 | A line of the text is one line of the page, unchanged, if and only if it is empty, or at most 88 characters and no blank first |

## Left out

- The homoglyph carrier's writing and reading: its alphabet is part of stack validation; the round trip, capacity and saturation results are about inserting carriers.
- The Unicode table of alphanumeric characters, and the search for code and equations: parameters of `Geometry`, so the results hold for every choice.
- Cryptography itself (AEAD, key derivation, post-quantum sealing, signatures, digests) and randomness.
- Wave sizes and timing, human-readable reasons, confidence scores, and the density figure repeated in a recommendation.
- The secondary resynchronisation scan of the heavy frame, and reading a frame under the legacy compatibility path.
- JSON of pre-format packages, and opening one: functions the reader supplies.
- Floating point in the density ceilings: 25, 50 and 85 percent are exact rationals, and fill ratios are reals.
- Capacities.ReportedYetRefused: takes as given that a blank is not alphanumeric and that blanks hold no code and no equation (`BlanksOpen`), and so does `PeelLosesTimes`.
- Pdf.ShownExactly: lets the five bytes Windows-1252 leaves undefined stand for themselves, where a viewer shows bullets.
- Png.RecoverAfterEmbed: assumes the text chunk's length is below 4 GiB, which is what the 32-bit length field can state.
- Png.SecondEmbedWins: the same assumption on the second payload.
- Png.RecoverReads: the same assumption.
- Png.StripAfterEmbed: the same assumption.
- Decoding.DecodeTraced: results and errors carry no reason strings, and waves no byte counts.
- Tex.ReadLoop: says nothing where the reader would take inline math, a command word with its own arm, an accent over a letter or an unclosed group; escaped text never leads there.
- Svg.StripElements: that stripping twice is stripping once is not claimed, because removal can join fragments into a new tag.
- Pdf.WritePdf: the reference to the font and the other fixed entries of the dictionaries are text no property reads.
- PdfReading.DocumentShows: assumes the objects take fewer than ten billion bytes, which is what an entry of the table can state.
- OfficeMeta.NativeMetadata.ParseOfficeMeta: takes the reader's events as input, so end-tag checking and unescaping are the reader's; named fields are one map.
- Overlap of strings by byte offset: texts are sequences of characters, and the searches modelled only look for ASCII patterns, so byte and character positions correspond.
- ZIP archives, other document formats, the browser-driven PDF path, command-line handling, JSON-RPC and file access.
- Forensic scores and metrics, which are heuristics without an exact claim.
