# Verified models of four Lass components

Lass is a C++ library.  This project models the parts of it that carry a loop, a protocol or a
numerical argument worth proving, and proves what those parts are for.  `dafny verify dfyconfig.toml`
checks everything.

**The run-length image codecs** of `lass/io/image.cpp`.
`Packets` says, without any loop variable, which packets a greedy coder emits; `TargaRle` and
`RadianceRle` are the two byte formats, each with the saver's loop proved against `Packets` and the
loader's loop proved against a format function.  `TargaImage` and `RadianceImage` are whole pictures in
a class `Image` with a mutable raster; `RadianceScanline` and `RadianceReader` are one scanline with its
width marker and four separately coded components.  `Rgbe` is the shared-exponent pixel over exact
reals, with the exact sets of pixels on which the error bound and the stability of a second save hold.
`TargaFormat` and `RadianceFormat` say by coordinates which bytes of a file become which pixel, for every
header, without the functions the loaders are proved against.

**The generators** of `lass/num/random.cpp`.
`MersenneTwister` ties the 624 words overwritten in place to the plain infinite recurrence of section
29.6.3.2 [rand.eng.mers] of ISO/IEC 14882:2017; `MersenneTheorems` holds what follows from it
(tempering is invertible, a reload loses exactly the 31 bits that never mattered, seeds give different
streams), and `MersenneValues` computes draws of the default seed through 406 seed words.  `XorShift` shows
that the step of xorshift128+ is a bijection, `XorShiftValues` what its draws are as integers.  `RadicalInverse` and
`Stratification` show that the digit loop computes the radical inverse, and exactly when base^k draws in
a row fall one into each interval of length base^-k.

**The tabulated sampler** of `lass/num/inverse_transform_sampling.h`, over the reals.
`InverseTransform` is one table, `InverseTransform2D` the class with its two tables built in place.

**The byte transport** of `lass/io`.
`OutputSocket` is the buffered writer with its background flusher as a state machine whose steps are
the critical sections of the source, under every script of partial and failing sends; `InputSocket` is the
reader under every script of partial receives; `OutputTiming` says when bytes go out and when not,
`Sessions` what each of several sockets gets, and `Transport` puts both ends together.  `Serialization`, `Endian` and `MemoryBlock` are typed reading and
writing in both byte orders over a memory cursor that computes in wrapping 64-bit integers, and
`SocketSerialization` is typed reading from a socket.  `WireFormat` and `ItemFormat` write out the bytes.

In each module a value-level function says what an operation does, a class or a method with the loops of
the source is proved equal to it, and the theorems are about the function.  The modules named after a format,
a value or a timing state what such a function yields in terms of bytes, numbers and positions alone.

Where the code differs from what its comments or tests say, the model follows the code:

- `EndiannessSetter(stream, num::littleEndian);` in the TARGA header code (lass/io/image.cpp:1707, 1717)
  makes a temporary that is gone at the semicolon, so the stream's own byte order is used.  It is a
  parameter here; the header survives because writer and reader use the same one.
- Comments in the TARGA code speak of "type 2" and "type 11"; the code writes type 10 and reads 2 and 10.
- A read from memory that gets fewer bytes than asked for leaves the stream good and the rest of the variable
  unset (`Serialization.TruncationGoesUnnoticed`) or, in a string, zero (`ItemFormat.CutString`); only a read
  that starts at the end is noticed.
- Over a socket this cannot happen: a read that gets fewer bytes than asked for always sets eof or bad
  (`SocketSerialization.ItemsArrive`), and an empty string at the end survives.
- `BinaryISocket::setSocket` calls `setstate(goodbit)`, which clears nothing: a stream that has failed stays
  failed with its new socket (`InputSocket.ReadsAfterSetSocket`).
- A list in memory whose last item is an empty string does not survive (`Serialization.RoundTrip`), because reading
  zero bytes at the end of the block sets the end-of-file bit.
- `flushImpl` does not move the unsent rest to the front of the buffer, so a flush after `clear()` may
  send the wrong bytes (`OutputSocket.FlushAfterClear`, `OutputSocket.ClearResendsTheWrongByte`).
- The saver writes a marker per scanline even for pictures without columns, and the loader never reads
  it (`RadianceImage.OpenInvertsSave`).
- Pixels just above the saver's threshold of 1e-32 come back below it and vanish at the second save
  (`Rgbe.StableExactly`).
- The 64-bit counter of the radical inverse wraps, which costs the stratification unless the wrap falls
  on a multiple of base^k (`Stratification.StratifiedExactly`).
- The sampler's documentation allows the sample 0, but when the first cell or row has no weight the code
  divides 0 by 0 there; on all other samples it inverts the distribution (`InverseTransform.DrawInvertsCdf`,
  `InverseTransform2D.ReportedDensity`).
- The sampler's cells are half open on the left: a draw lies in (i/n, (i+1)/n], so taking the floor of
  n times the draw gives the reported index except on cell boundaries (`InverseTransform.DrawInvertsCdf`).

## Model

| member | source | states |
|---|---|---|
| Bytes.TagBitsAreBitOperations | lass/io/image.cpp:1021-1025 | testing, clearing and setting the high bit in integer arithmetic is what the masks of the source do, for every byte |
| Packets.StepIsDeterministic | lass/io/image.cpp:1380-1420 | at a given place of a given line the greedy coder can emit only one packet |
| Packets.CoveringIsUnique | lass/io/image.cpp:1380-1420 | two packet lists that both cover the same line greedily are the same list |
| Packets.ShortRawIsFollowedByRun | lass/io/image.cpp:1493-1531 | a raw packet below capacity that does not end the line is followed by a run, the step behind the size bounds |
| TargaRle.CountSame | lass/io/image.cpp:1385-1392 | the inner loop finds the maximal run of equal pixels, capped at 128 |
| TargaRle.WriteRaw | lass/io/image.cpp:1399-1409 | the collected pixels become one raw packet, tag and pixels in order |
| TargaRle.PackLine | lass/io/image.cpp:1378-1420 | the saver's loop writes exactly the greedy packets of the scanline: every pixel once, in order, none across the end |
| TargaRle.CopyInto | lass/io/image.cpp:1034-1042 | a raw packet is copied pixel by pixel, and fails exactly when bytes run out or the line ends |
| TargaRle.RepeatInto | lass/io/image.cpp:1025-1033 | a run packet fills its pixels, and fails exactly when the line ends |
| TargaRle.UnpackPacketInto | lass/io/image.cpp:1019-1043 | one round of the loader's loop decodes one packet of the format and leaves the pixels before it alone |
| TargaRle.UnpackLineInto | lass/io/image.cpp:1014-1044 | the loader's loop decodes one line of the format in place, for 3 and 4 byte pixels, or fails exactly when the format has no result |
| TargaRle.UnpackInvertsPack | lass/io/image.cpp:1378-1420 | whatever follows, decoding what the saver wrote gives the scanline back and leaves exactly what follows |
| TargaRle.PackedIsInjectiveFunction | lass/io/image.cpp:1378-1420 | equal scanlines get equal bytes and different scanlines different bytes |
| TargaRle.WorstCaseSize | lass/io/image.cpp:1378-1420 | a scanline of c pixels takes at most 4c + ceil(c/128) bytes |
| TargaImage.ReadHeaderInverts | lass/io/image.cpp:1705-1721 | reading a written header gives all twelve fields back, between machines of any byte orders |
| TargaImage.DecodeInto | lass/io/image.cpp:1054-1067 | one decoded line lands in its row of the raster, mirrored when asked, and no other pixel changes |
| TargaImage.UnpackPlainLineInto | lass/io/image.cpp:1045-1052 | the type-2 loop reads one line of plain pixels or fails exactly when the bytes run out |
| TargaImage.Image.EncodeScanline | lass/io/image.cpp:1365-1376 | one row of the raster becomes bytes in the order blue, green, red, alpha |
| TargaImage.Image.SaveLines | lass/io/image.cpp:1359-1421 | the body holds the packets of every row from the last one up |
| TargaImage.Image.SaveTarga | lass/io/image.cpp:1336-1424 | fails exactly when a dimension does not fit 16 bits, otherwise writes header and body of the picture |
| TargaImage.Image.DecodeScanline | lass/io/image.cpp:1054-1067 | the decoded line replaces one row of the raster and nothing else |
| TargaImage.Image.PlaceLine | lass/io/image.cpp:1005-1067 | the line read next goes to its row, whichever way the file is ordered, and earlier lines stay |
| TargaImage.Image.ReadLines | lass/io/image.cpp:1000-1068 | the loop over the lines fills the raster as the format says and returns what is left of the stream |
| TargaImage.Image.Resize | lass/io/image.cpp:963 | the raster gets the size of the picture |
| TargaImage.Image.OpenTargaTrueColor | lass/io/image.cpp:983-1071 | the image becomes the picture in the file's lines, or the failure is reported |
| TargaImage.Image.OpenTarga | lass/io/image.cpp:957-977 | opens types 2 and 10 with 24 or 32 bits and rejects every other header |
| TargaImage.OpenInvertsSave | lass/io/image.cpp:1336-1424 | for every picture up to 65535 by 65535 opening the saved file restores every pixel in its row and column and leaves over exactly what followed |
| TargaImage.Image.Transfer | lass/io/image.cpp:1336-1424 | saving one image and opening the bytes in another makes the rasters equal, exactly when the dimensions fit |
| TargaImage.FileSize | lass/io/image.cpp:1336-1424 | a file is at most 18 bytes and 4c + ceil(c/128) bytes per row long |
| TargaFormat.HeaderFields | lass/io/image.cpp:1705-1721 | the twelve fields stand at bytes 0 to 17 in that order, two-byte fields in the order of the stream |
| TargaFormat.SavedHeaderBytes | lass/io/image.cpp:1346-1356 | the 18 bytes of every saved file: type 10, origins 0, dimensions, 32 bits, descriptor 0x08 |
| TargaFormat.OtherFilesAreRefused | lass/io/image.cpp:965-998 | the format error is raised if and only if the type is neither 2 nor 10 or the pixel size neither 24 nor 32 |
| TargaFormat.PlainFile | lass/io/image.cpp:957-1071 | for every type-2 file, whatever its image identification, colour map and descriptor: pixel (y, x) has blue, green, red and alpha from the bytes at its place, counted in either direction, and alpha 255 in 24-bit files; there is no result if and only if the pixels are not all there |
| TargaFormat.PackedFile | lass/io/image.cpp:1014-1067 | for every type-10 file of any packets of up to 128 pixels, with 3 or 4 bytes a pixel, under every such header: each pixel comes to its place and what follows is left over |
| TargaFormat.SavedLineStarts | lass/io/image.cpp:1378-1420 | a saved line begins with the longest run of 2 to 128 equal pixels if it starts with two equal ones, else with up to 128 single pixels up to the next two equal ones; the rest is the saved rest of the line |
| RadianceRle.TagsNeverCollide | lass/io/image.cpp:1505-1523 | raw tags are 1 to 128 and run tags 131 to 255 |
| RadianceRle.CountSame | lass/io/image.cpp:1491-1500 | the inner loop finds the maximal run of equal component values, capped at 127 |
| RadianceRle.PackChannel | lass/io/image.cpp:1487-1531 | the saver's loop writes exactly the greedy packets of the component |
| RadianceRle.UnpackInvertsPack | lass/io/image.cpp:1487-1531 | whatever follows, decoding a component gives its values back and leaves exactly what follows |
| RadianceRle.PackedIsInjectiveFunction | lass/io/image.cpp:1487-1531 | equal components get equal bytes and different ones different bytes |
| RadianceRle.WorstCaseSize | lass/io/image.cpp:1487-1531 | a component of c values takes at most c + ceil(c/128) bytes |
| RadianceScanline.MarkerHoldsWidth | lass/io/image.cpp:1480-1485 | for every width up to 32767 the four marker bytes are recognised as a marker and hold the width |
| RadianceScanline.PackScanline | lass/io/image.cpp:1478-1532 | marker and the four components in order, each coded by itself |
| RadianceScanline.ZipInvertsChannels | lass/io/image.cpp:1142-1166 | putting the four components together again gives the pixels |
| RadianceScanline.ScanlineRoundTrip | lass/io/image.cpp:1478-1532 | decoding a saved scanline of 1 to 32767 pixels gives the RGBE bytes back and leaves exactly what follows; a scanline without pixels leaves its marker |
| RadianceScanline.ScanlineIsInjectiveFunction | lass/io/image.cpp:1478-1532 | two scanlines of the same width have equal bytes exactly when they are equal |
| RadianceScanline.ScanlineSize | lass/io/image.cpp:1478-1532 | a scanline of c pixels takes at most 4 + 4(c + ceil(c/128)) bytes |
| RadianceReader.StoreByte | lass/io/image.cpp:1161-1163 | one component of one pixel changes, counted in file order in either direction |
| RadianceReader.UnpackSpanInto | lass/io/image.cpp:1147-1164 | one span of the new coding fills its values of one component and leaves the other components and pixels alone, or fails exactly when the format has no result |
| RadianceReader.UnpackChannelInto | lass/io/image.cpp:1144-1165 | the span loop decodes one whole component in place |
| RadianceReader.UnpackPartsInto | lass/io/image.cpp:1142-1166 | after the loop over the four components the piece holds exactly the decoded pixels, whatever the buffer held before |
| RadianceReader.UnpackPieceInto | lass/io/image.cpp:1132-1195 | a marker starts a coded piece, other bytes are one pixel; either lands at its place |
| RadianceReader.UnpackScanlineInto | lass/io/image.cpp:1128-1196 | the loader's loop over a scanline decodes it in place, left to right or right to left, or fails exactly when the format has no result |
| RadianceImage.DecodeInto | lass/io/image.cpp:1198-1210 | one row of the raster gets the decoded pixels and no other pixel changes |
| RadianceImage.Image.EncodeScanline | lass/io/image.cpp:1451-1476 | one row of the raster becomes shared-exponent bytes |
| RadianceImage.Image.SaveLines | lass/io/image.cpp:1448-1533 | the body holds the coded scanlines of all rows in order |
| RadianceImage.Image.SaveRadianceHdr | lass/io/image.cpp:1429-1535 | fails exactly when the image is wider than 32767, otherwise yields header values and body |
| RadianceImage.Image.Resize | lass/io/image.cpp:1113 | the raster gets the size in the header |
| RadianceImage.Image.DecodeScanline | lass/io/image.cpp:1198-1210 | the decoded scanline replaces one row of the raster and nothing else |
| RadianceImage.Image.PlaceLine | lass/io/image.cpp:1115-1210 | the scanline read next goes to its row for either order of rows and columns, and earlier rows stay |
| RadianceImage.Image.ReadLines | lass/io/image.cpp:1115-1211 | the loop over the scanlines fills the raster as the format says and returns what is left of the stream |
| RadianceImage.Image.OpenRadianceHdr | lass/io/image.cpp:1101-1213 | the image becomes the picture in the body for every header, with its orders and colour corrections |
| RadianceImage.OpenInvertsSave | lass/io/image.cpp:1429-1535 | opening what was saved gives every pixel quantised in its place; nothing of the picture is left over if and only if it has columns or no rows |
| RadianceImage.Image.Transfer | lass/io/image.cpp:1429-1535 | saving one image and opening the bytes in another makes it the quantised picture, exactly when the width fits |
| RadianceImage.SettledExactly | lass/io/image.cpp:1451-1476 | encoding the quantised picture gives the same bytes per pixel if and only if every pixel is black to the saver or at least 208 * 2^-114 |
| RadianceImage.SavedAgain | lass/io/image.cpp:1429-1535 | saving the reopened picture writes the same body if and only if every pixel is settled in that sense |
| RadianceImage.BodySize | lass/io/image.cpp:1478-1532 | the body is at most 4 + 4(c + ceil(c/128)) bytes per row long |
| RadianceFormat.DecodedColor | lass/io/image.cpp:1100-1110 | each component is its correction times its byte times 2^(exponent byte - 136), and black for exponent byte 0, for any corrections |
| RadianceFormat.ArrangedIsStored | lass/io/image.cpp:1115-1122 | scanline p and pixel q of the file are row p and column q, each counted from the other end when y increases or x does not |
| RadianceFormat.SavedBodyOpens | lass/io/image.cpp:1101-1211 | opening a saved body under any orders and corrections gives the quantised picture in these orders, every component times its correction |
| RadianceFormat.PlainBody | lass/io/image.cpp:1169-1210 | a body of plain pixels under any header: pixel (y, x) comes from the four bytes at its place, and there is no result if and only if the pixels are not all there |
| RadianceFormat.StoredBody | lass/io/image.cpp:1128-1210 | a body whose scanlines are plain pixels and coded pieces in any order, of any spans that end with their piece, under any header: every pixel comes to its place and what follows is left over |
| RadianceFormat.SavedChannelStarts | lass/io/image.cpp:1487-1531 | a saved component begins with the longest run of 3 to 127 equal values if it starts with three equal ones, else with up to 128 values up to the next three equal ones; the rest is the saved rest of the component |
| RadianceFormat.SavedScanlineStarts | lass/io/image.cpp:1480-1485 | a saved scanline begins with 2, 2 and its width, highest byte first |
| RadianceFormat.BlackExactly | lass/io/image.cpp:1460-1466 | exactly the pixels whose largest component is below 10^-32 are saved as four zero bytes |
| Rgbe.Exponent | lass/io/image.cpp:1467-1468 | the exponent of `frexp` for every positive number: 2^(e-1) <= m < 2^e |
| Rgbe.ExponentIsUnique | lass/io/image.cpp:1467-1468 | no other exponent satisfies that bound |
| Rgbe.NormalizedIsScaled | lass/io/image.cpp:1469-1473 | the factor 256 * mantissa / maximum is the power of two 2^(8-e) |
| Rgbe.LargestInUnits | lass/io/image.cpp:1460-1475 | the largest component scales to 128 up to but not including 256 |
| Rgbe.ErrorBound | lass/io/image.cpp:1460-1475 | for 1e-32 <= m < 2^127 every non-negative component decodes to at most itself and falls short by less than 2^(e-8), which is at most m/128 |
| Rgbe.AccurateExactly | lass/io/image.cpp:1460-1475 | a non-negative pixel decodes to at most itself and within m/128 if and only if m is 0 or 1e-32 <= m < 2^127 |
| Rgbe.SaturationLosesHalf | lass/io/image.cpp:1475 | from 2^127 on the clamped exponent loses at least half of the largest component |
| Rgbe.StableExactly | lass/io/image.cpp:1460-1475 | encoding the decoded pixel gives the same four bytes if and only if m < 1e-32 or m >= 208 * 2^-114 |
| MersenneTwister.TwistIsNextWord | lass/num/random.cpp:187-193 | `twist` with its two-word table is one step of the recurrence |
| MersenneTwister.TermOfWindow | lass/num/random.cpp:163-184 | 624 neighbouring terms, taken as initial terms, generate the rest of the same sequence |
| MersenneTwister.RandomMT19937.constructor | lass/num/random.cpp:104-107 | a default generator is in the state of one seeded with 5489 |
| MersenneTwister.RandomMT19937.FromSeed | lass/num/random.cpp:113-116 | constructing with a seed starts that seed's sequence |
| MersenneTwister.RandomMT19937.Seed | lass/num/random.cpp:122-133 | the seeding loop fills the 624 words of the seeding recurrence, in 32-bit arithmetic |
| MersenneTwister.RandomMT19937.RegenerateFront | lass/num/random.cpp:173-177 | the first loop of `reload` writes the next 227 terms |
| MersenneTwister.RandomMT19937.RegenerateBack | lass/num/random.cpp:178-181 | the second loop, which reads words already overwritten, writes the next 396 terms |
| MersenneTwister.RandomMT19937.Regenerate | lass/num/random.cpp:173-182 | in place, the window of terms moves on by exactly 624 |
| MersenneTwister.RandomMT19937.Reload | lass/num/random.cpp:163-184 | a reload, from the never-seeded state too, keeps the sequence and moves the window on |
| MersenneTwister.RandomMT19937.Next | lass/num/random.cpp:139-156 | a draw is the tempered next term, across reloads |
| MersenneTwister.RandomMT19937.Draws | lass/num/random.cpp:139-184 | any number of draws are the next tempered terms in order |
| MersenneTwister.SeededDraws | lass/num/random.cpp:122-184 | for every seed the i-th draw is tempering applied to term 624 + i of the recurrence |
| MersenneTwister.DefaultIsSeed5489 | lass/num/random.cpp:104-171 | a default generator draws forever what one seeded with 5489 draws |
| MersenneTwister.RandomMT19937.GetState | lass/num/random.inl:214-219 | the saved state is the index and the 624 words |
| MersenneTwister.RandomMT19937.SetState | lass/num/random.inl:223-231 | a restored state determines the sequence, also for the index that means never seeded |
| MersenneTwister.Restore | lass/num/random.inl:214-231 | a generator restored from another one's state draws the same numbers forever |
| MersenneTheorems.UntemperInverts | lass/num/random.cpp:148-153 | an explicit inverse undoes tempering on every word |
| MersenneTheorems.TemperIsInjective | lass/num/random.cpp:148-153 | two words temper to the same word if and only if they are equal |
| MersenneTheorems.TwistMapIsInjective | lass/num/random.cpp:187-193 | the twist determines the top bit of the one word and the low 31 bits of the other |
| MersenneTheorems.AgreementSpreads | lass/num/random.cpp:163-193 | two sequences agree on the 19937 effective bits at one place if and only if they do at every place |
| MersenneTheorems.EffectiveStateIsAgreement | lass/num/random.cpp:163-193 | agreement at the start is equality of all words but the low 31 bits of word 0 |
| MersenneTheorems.ReloadLosesNothing | lass/num/random.cpp:163-193 | after any number of reloads two states agree on the effective bits if and only if they did before |
| MersenneTheorems.EqualStretchMeansEqualForever | lass/num/random.cpp:139-193 | two generators draw the same 624 numbers somewhere if and only if their effective states are equal, and then they draw the same numbers always |
| MersenneTheorems.SeedStepIsInjective | lass/num/random.cpp:127-131 | a step of the seeding recurrence maps different words to different words |
| MersenneTheorems.DifferentSeedsDiffer | lass/num/random.cpp:122-193 | different seeds never give the same 624 numbers at the same place |
| MersenneTheorems.SeededStateNeverDies | lass/num/random.cpp:122-193 | after any seed every 624 terms in a row hold one that is not 0 |
| MersenneValues.PublishedDraws | lass/num/random.cpp:122-193 | for seed 5489 the first ten draws are the published ones, from 3499211612 on, and draw 227, the first that depends on a word of the same reload, is 2397746050 |
| MersenneValues.DefaultDraws | lass/num/random.cpp:122-193 | the generator that was never seeded draws these numbers |
| XorShift.RandomXorShift128Plus.constructor | lass/num/random.cpp:199-201 | any two words are a state |
| XorShift.RandomXorShift128Plus.FromSeed | lass/num/random.cpp:203-206 | constructing with a seed is seeding |
| XorShift.RandomXorShift128Plus.Seed | lass/num/random.cpp:218-222 | the state becomes the seed and 0xffff |
| XorShift.RandomXorShift128Plus.Next | lass/num/random.cpp:208-216 | a draw makes one step and returns the sum of the two new words modulo 2^64 |
| XorShift.RandomXorShift128Plus.Draws | lass/num/random.cpp:208-216 | any number of draws make as many steps and return their outputs in order |
| XorShift.StepBackInverts | lass/num/random.cpp:208-216 | an explicit inverse undoes every step |
| XorShift.StepInvertsBack | lass/num/random.cpp:208-216 | and every state is the successor of what the inverse gives |
| XorShift.RunIsBijective | lass/num/random.cpp:208-216 | n steps are undone by n inverse steps, and the other way round |
| XorShift.RunsMeetOnlyIfEqual | lass/num/random.cpp:208-216 | two states are equal after n steps if and only if they were equal |
| XorShift.DeadIsIsolated | lass/num/random.cpp:208-216 | a run is in the all-zero state if and only if it started there |
| XorShift.SeededRuns | lass/num/random.cpp:208-222 | no seed ever reaches the all-zero state and different seeds never share a state after the same number of draws |
| XorShiftValues.SumIsModular | lass/num/random.cpp:208-216 | adding two words is adding their values modulo 2^64 |
| XorShiftValues.DrawIsSumOfWords | lass/num/random.cpp:208-216 | every draw of every run is the sum of the two words of the new state modulo 2^64 |
| XorShiftValues.FirstDraws | lass/num/random.cpp:208-222 | the first four draws after seeding with 42 |
| RadicalInverse.RandomRadicalInverse.constructor | lass/num/random.cpp:228-233 | a new generator starts at counter 0 and is ready to draw when the base is at least 2 |
| RadicalInverse.RandomRadicalInverse.Seed | lass/num/random.cpp:250-253 | seeding sets the counter |
| RadicalInverse.RandomRadicalInverse.Next | lass/num/random.cpp:235-248 | the digit loop terminates with the radical inverse of the counter, which wraps at 2^64 |
| RadicalInverse.RandomRadicalInverse.Draws | lass/num/random.cpp:235-248 | any number of draws are the radical inverses of consecutive counters |
| RadicalInverse.AddDigit | lass/num/random.cpp:240-246 | one round of the digit loop moves one digit from the rest to the result |
| Stratification.PhiDigits | lass/num/random.cpp:235-248 | the first k digits of the radical inverse are the k low digits of the counter reversed |
| Stratification.UnreversedOfReversed | lass/num/random.cpp:235-248 | reversing k digits twice gives the number modulo base^k |
| Stratification.ReversedOfUnreversed | lass/num/random.cpp:235-248 | every k-digit number is the reversal of one k-digit number |
| Stratification.CellIsReversal | lass/num/random.cpp:235-248 | the radical inverse lies in cell j of base^k if and only if the reversed low digits are j |
| Stratification.ReversedIsResidue | lass/num/random.cpp:235-248 | which is a condition on the counter modulo base^k |
| Stratification.StratifiedIsCompleteResidues | lass/num/random.cpp:235-248 | base^k draws fall one into each cell if and only if their counters form a complete residue system |
| Stratification.StratifiedExactly | lass/num/random.cpp:235-248 | for every base >= 2, start and k: one draw per cell if and only if the counter does not wrap between two of the draws or base^k divides 2^64 |
| Stratification.StratifiedDraws | lass/num/random.cpp:235-248 | the class draws one number in each interval [j/base^k, (j+1)/base^k) whenever the counter does not wrap between the draws or base^k divides 2^64 |
| InverseTransform.LowerBound | lass/num/inverse_transform_sampling.h:70 | binary search finds the first entry not below the sample in an ascending slice, and the first of all when the entries are undefined quotients |
| InverseTransform.SampleCdf1D | lass/num/inverse_transform_sampling.h:65-88 | the three branches return value, density and index of the cell that the lower bound selects; a table of undefined quotients gives an undefined value and density and cell 0 |
| InverseTransform.PartialSum | lass/num/inverse_transform_sampling.h:142-147 | the running sums of a slice, in place, and nothing else |
| InverseTransform.Divide | lass/num/inverse_transform_sampling.h:145-149 | a slice divided by a number, in place, and nothing else; 0 divided by 0 is undefined |
| InverseTransform.ToCdf | lass/num/inverse_transform_sampling.h:142-149 | a slice of non-negative weights becomes its normalised running sums, in place, or undefined quotients if the weights add up to 0; the total is returned |
| InverseTransform.WeightsGiveCdf | lass/num/inverse_transform_sampling.h:134-150 | non-negative weights with a positive total give an ascending table that ends in 1 |
| InverseTransform.CdfStep | lass/num/inverse_transform_sampling.h:142-145 | the step over a cell is the cell's share of the weight |
| InverseTransform.LowerBoundIsSlice | lass/num/inverse_transform_sampling.h:70 | for every sample in [0, 1], index i is chosen if and only if the sample lies in the slice (c[i-1], c[i]] of the table, the first slice including 0 |
| InverseTransform.DrawInvertsCdf | lass/num/inverse_transform_sampling.h:65-88 | for every sample in [0, 1]: the draw has a value in [0, 1] that the piecewise linear function maps back to the sample if and only if the sample is above 0 or the first cell has weight; the value then lies in cell i, and the density is always the slope |
| InverseTransform.DrawOfZero | lass/num/inverse_transform_sampling.h:71-76 | the sample 0 draws 0, which is mapped back to 0, unless the first cell has no weight, where the code computes 0/0 |
| InverseTransform.DrawIsStrictlyIncreasing | lass/num/inverse_transform_sampling.h:65-88 | a larger sample draws a larger value, from sample 0 on, if and only if the smaller sample has a draw |
| InverseTransform.DrawHasDistribution | lass/num/inverse_transform_sampling.h:65-88 | the draw is at most v if and only if the sample is at most the piecewise linear function at v, for every v in [0, 1]: uniform samples give draws with exactly the tabulated distribution |
| InverseTransform2D.TotalOfRows | lass/num/inverse_transform_sampling.h:138-148 | the total of the row totals is the total of the table |
| InverseTransform2D.SlopesMultiply | lass/num/inverse_transform_sampling.h:120-150 | the product of the two slopes is uSize * vSize * w[i][j] / sum(w), though both tables were summed and normalised separately |
| InverseTransform2D.InverseTransformSampling2D.constructor | lass/num/inverse_transform_sampling.h:100 | a new sampler is empty |
| InverseTransform2D.InverseTransformSampling2D.BuildRow | lass/num/inverse_transform_sampling.h:138-146 | one row of the table is replaced by its distribution, or by undefined quotients if it has no weight, and its total goes to the marginal table |
| InverseTransform2D.InverseTransformSampling2D.BuildCdf | lass/num/inverse_transform_sampling.h:134-150 | in place, both tables become the distributions of rows and row totals, rows without weight included |
| InverseTransform2D.InverseTransformSampling2D.Reset | lass/num/inverse_transform_sampling.h:108-118 | throws exactly for an empty table and then changes nothing; otherwise, for every table of non-negative weights, the sampler represents the weights, whose total is that of the row totals |
| InverseTransform2D.InverseTransformSampling2D.Sample | lass/num/inverse_transform_sampling.h:120-129 | the draw is the one the two tables define, for every table of non-negative weights and every sample in the closed unit square |
| InverseTransform2D.ReportedDensity | lass/num/inverse_transform_sampling.h:120-129 | the reported density is exactly uSize * vSize * w[i][j] / sum(w) of the reported cell, unless the reported row has no weight; that happens if and only if x is 0 and the first row has none, and then it is the first row and the density is undefined |
| InverseTransform2D.RowWithoutWeight | lass/num/inverse_transform_sampling.h:120-129 | a row without weight is reported if and only if x is 0 and it is row 0 |
| InverseTransform2D.SampleCdf | lass/num/inverse_transform_sampling.h:65-88 | on a slice that holds the table of some weights, undefined quotients included, the draw is the one those weights define |
| InverseTransform2D.DrawIsInverse | lass/num/inverse_transform_sampling.h:120-129 | for every sample in the unit square: the row coordinate lies in the reported cell and the marginal distribution maps it back if and only if x is above 0 or the first row has weight; then the column coordinate does so if and only if y is above 0 or the first cell of the row has weight, and exactly then the density is positive |
| InverseTransform2D.DrawsHaveDistribution | lass/num/inverse_transform_sampling.h:120-129 | wherever the row coordinate is defined, row coordinates have the marginal distribution and column coordinates the conditional distribution of the row |
| InverseTransform2D.CellProbability | lass/num/inverse_transform_sampling.h:120-129 | on the whole unit square, cell (i, j) of a row with weight is drawn exactly for the samples in a rectangle whose area is w[i][j] / sum(w) |
| InverseTransform2D.DensityIntegratesToOne | lass/num/inverse_transform_sampling.h:120-150 | the density, integrated over the unit square cell by cell, is 1 for every table with weight |
| InverseTransform2D.AreasAddUpToOne | lass/num/inverse_transform_sampling.h:120-150 | the areas of the sample rectangles, taken from the two tables the class builds, add up to 1, rows without weight included |
| OutputSocket.Wire.Send | lass/io/binary_o_socket.cpp:269-285 | a send takes any part of what it is given, as the script says, or fails |
| OutputSocket.BinaryOSocket.constructor | lass/io/binary_o_socket.cpp:58-86 | the stream starts good, empty and with a buffer when it has a socket |
| OutputSocket.BinaryOSocket.Init | lass/io/binary_o_socket.cpp:215-238 | the buffer gets the requested size or the socket's, and is empty |
| OutputSocket.BinaryOSocket.SendPending | lass/io/binary_o_socket.cpp:259-286 | the sending loop, pieces capped at INT_MAX, sends a prefix of the live bytes and reports failure |
| OutputSocket.BinaryOSocket.FlushImpl | lass/io/binary_o_socket.cpp:259-286 | a flush of a good stream sends the live bytes or sets the bad bit, and keeps the invariant |
| OutputSocket.BinaryOSocket.FlushWhenFull | lass/io/binary_o_socket.cpp:188-191 | a full buffer is flushed before anything is copied |
| OutputSocket.BinaryOSocket.CopyIn | lass/io/binary_o_socket.cpp:198-205 | a chunk is copied behind the live bytes and counts as accepted |
| OutputSocket.BinaryOSocket.WriteChunk | lass/io/binary_o_socket.cpp:186-206 | one round of the writing loop leaves the meaning of the whole write unchanged |
| OutputSocket.BinaryOSocket.DoWrite | lass/io/binary_o_socket.cpp:175-211 | a write accepts all its bytes and returns their number, or returns 0; the state afterwards is the value-level one |
| OutputSocket.BinaryOSocket.SetSocket | lass/io/binary_o_socket.cpp:126-134 | flushes to the old socket, then starts with the new one |
| OutputSocket.BinaryOSocket.FlusherRound | lass/io/binary_o_socket.cpp:242-256 | one beat of the flusher: skip once after a write, otherwise flush |
| OutputSocket.BinaryOSocket.Close | lass/io/binary_o_socket.cpp:90-111 | the destructor stops the flusher and flushes |
| OutputSocket.BinaryOSocket.Execute | lass/io/binary_o_socket.cpp:175-286 | any interleaving of critical sections has the effect of the value-level run |
| OutputSocket.StepKeepsInv | lass/io/binary_o_socket.cpp:175-286 | every step keeps: live bytes within a non-empty buffer, sent a prefix of accepted, and on a good stream sent plus live bytes equal accepted |
| OutputSocket.RunInvariant | lass/io/binary_o_socket.cpp:175-286 | at every point of every interleaving with any partial sends, while the stream is good, bytes sent followed by the live bytes are all bytes written |
| OutputSocket.FailureIsFinal | lass/io/binary_o_socket.cpp:259-286 | after a failed send nothing more is sent or accepted, and what was sent stays a prefix of what was accepted |
| OutputSocket.TwoBeatsSendAll | lass/io/binary_o_socket.cpp:242-256 | two beats of the flusher, or one without a write in between, send everything accepted |
| OutputSocket.CloseSendsAll | lass/io/binary_o_socket.cpp:90-111 | a stream that is good after closing has sent everything accepted |
| OutputSocket.FlushAfterClear | lass/io/binary_o_socket.cpp:259-286 | after a failed flush, clearing and flushing again delivers the right bytes if and only if the front of the buffer equals the unsent rest |
| OutputSocket.ClearResendsTheWrongByte | lass/io/binary_o_socket.cpp:259-286 | a run of the class from its construction on: 1, 2 are written, a send takes one byte and the next send fails; after a clear the flush succeeds and the socket has got 1, 1 |
| OutputTiming.DrainReaches | lass/io/binary_o_socket.cpp:268-285 | the sending loop sends exactly what the answers before the first failure can take, INT_MAX bytes at most with each, and fails if and only if that is not all |
| OutputTiming.FlushReaches | lass/io/binary_o_socket.cpp:259-286 | a flush of a good stream sends the front of the buffer that far, takes as much off the live bytes, and sets the bad bit and no other if it fails |
| OutputTiming.BeatAfterWriteWaits | lass/io/binary_o_socket.cpp:175-256 | from any state, the first beat after a write that succeeded sends and changes nothing; the second sends what the socket takes, everything if no send fails |
| OutputTiming.IdleBeats | lass/io/binary_o_socket.cpp:242-256 | a beat that finds the lock taken, and any beat after closing, does nothing |
| OutputTiming.FittingWriteSendsNothing | lass/io/binary_o_socket.cpp:175-211 | data that fits behind the live bytes is buffered and nothing is sent |
| OutputTiming.NewStream | lass/io/binary_o_socket.cpp:70-286 | a new stream is good, holds nothing and has sent nothing; a write that fits and two beats send it whole if the socket takes it |
| OutputTiming.WriteWithoutSocket | lass/io/binary_o_socket.cpp:179-183 | a write without a socket sets the bad bit, accepts nothing and changes nothing else |
| OutputTiming.BufferFits | lass/io/binary_o_socket.cpp:215-232 | after any run the buffer is as large as requested if that fits the socket, else, or if nothing was requested, as large as the socket's |
| Sessions.ReceivedMatchesWritten | lass/io/binary_o_socket.cpp:126-286 | in every good run with any socket changes, what each socket took is what was written while it was installed, plus what was pending at the start and less what is still in the buffer |
| Sessions.EachSocketGetsItsWrites | lass/io/binary_o_socket.cpp:126-286 | while the stream is good every replaced socket received exactly the bytes written while it was installed, and the present one all but the live bytes |
| Sessions.EachSocketGetsAPrefix | lass/io/binary_o_socket.cpp:126-286 | whatever fails, each socket received a prefix of the bytes accepted while it was installed |
| Sessions.AcceptedWithinWritten | lass/io/binary_o_socket.cpp:175-211 | whatever fails, the bytes accepted while a socket was installed are a prefix of the bytes written meanwhile |
| InputSocket.Channel.Receive | lass/io/binary_i_socket.cpp:110-127 | a receive delivers any part of what it is asked for, nothing, or fails |
| InputSocket.ReceiveAll | lass/io/binary_i_socket.cpp:104-129 | the reading loop gathers pieces until all bytes are there, the peer closes or a receive fails, and puts them in order into the caller's buffer |
| InputSocket.ReceivePiece | lass/io/binary_i_socket.cpp:108-128 | one round of the reading loop either ends the read or puts the next piece behind what there is |
| InputSocket.BinaryISocket.constructor | lass/io/binary_i_socket.cpp:52-68 | the stream starts good |
| InputSocket.BinaryISocket.DoRead | lass/io/binary_i_socket.cpp:93-130 | a read returns what the value-level reader returns, sets eof or bad as it does, and leaves the rest of the caller's buffer alone |
| InputSocket.BinaryISocket.SetSocket | lass/io/binary_i_socket.cpp:83-87 | the socket is replaced and no error bit is cleared |
| InputSocket.GoodReadsAreExact | lass/io/binary_i_socket.cpp:93-130 | reads after which the stream is good returned exactly the bytes asked for, in order, and took no more off the channel |
| InputSocket.ReadsAfterSetSocket | lass/io/binary_i_socket.cpp:83-130 | reads from a new socket return bytes if and only if the stream was good before it was installed; if it was not, nothing is taken off the new socket, and if it still is afterwards the reads are exact |
| InputSocket.ReadSignals | lass/io/binary_i_socket.cpp:93-130 | eof and 0 bytes if and only if some receive delivers nothing, bad and the bytes that came before if and only if one fails, fail and 0 bytes if and only if there is no socket; otherwise all bytes and no bit |
| Transport.ReadsReturnWrites | lass/io/binary_o_socket.cpp:126-286 | end to end, for every split of sends and receives and any socket changes, reads behind the k-th socket that leave the reader good return the concatenation of the writes made while it was installed, cut as asked |
| Transport.ReadsReturnAccepted | lass/io/binary_i_socket.cpp:93-130 | even when the writer failed, reads behind the k-th socket that leave the reader good return a prefix of what the writer accepted while it was installed, cut as asked |
| Transport.TypedValuesArrive | lass/io/binary_i_stream.cpp:184-283 | typed values end to end, whatever fails at either end: a reader behind the k-th socket gets some of the values written while it was installed, from the first on, each whole, and all of them if and only if its stream is good afterwards |
| MemoryBlock.BinaryIMemoryBlock.constructor | lass/io/binary_i_memory_block.cpp:67-73 | a stream over a block starts good at position 0 |
| MemoryBlock.BinaryIMemoryBlock.Between | lass/io/binary_i_memory_block.cpp:79-94 | a stream between two pointers is the stream over the block, or has the bad bit when they are the wrong way round |
| MemoryBlock.BinaryIMemoryBlock.Closed | lass/io/binary_i_memory_block.cpp:55-61 | a stream without a block |
| MemoryBlock.BinaryIMemoryBlock.DoRead | lass/io/binary_i_memory_block.cpp:100-125 | in wrapping 64-bit arithmetic, a read copies exactly the in-range slice and sets the same bits as the unbounded cursor |
| MemoryBlock.BinaryIMemoryBlock.SeekgTo | lass/io/binary_i_stream.cpp:81-89 | an absolute seek clears eof and moves unless the stream has failed |
| MemoryBlock.BinaryIMemoryBlock.SeekFrom | lass/io/binary_i_memory_block.cpp:148-170 | the overflow tests on machine integers decide exactly whether the unbounded target is a position |
| MemoryBlock.BinaryIMemoryBlock.Seekg | lass/io/binary_i_memory_block.cpp:136-191 | a relative seek does what the unbounded cursor does |
| MemoryBlock.BinaryIMemoryBlock.Execute | lass/io/binary_i_memory_block.cpp:100-191 | any list of seeks and reads behaves as over unbounded integers |
| MemoryBlock.RunKeepsValid | lass/io/binary_i_memory_block.cpp:100-191 | every run keeps the cursor valid and the block unchanged |
| MemoryBlock.SeekFailsExactlyOffTheRange | lass/io/binary_i_memory_block.cpp:136-191 | a seek sets the fail bit if and only if its target is no position, and then does not move |
| MemoryBlock.FailureIsForever | lass/io/binary_i_stream.cpp:81-101 | once failed, no later operation returns a byte or moves the position |
| MemoryBlock.SplitReads | lass/io/binary_i_memory_block.cpp:100-125 | reads split in any way return together the same stretch of the block |
| MemoryBlock.SeekThenRead | lass/io/binary_i_memory_block.cpp:100-133 | after an absolute seek, from the end of the block too, a read returns exactly the bytes from there on, as many as asked for or as there are, and sets eof if and only if there are none |
| MemoryBlock.SeekToIsSeekFromTheStart | lass/io/binary_i_stream.cpp:81-101 | seeking to a position and seeking that far from the beginning are the same in every state |
| MemoryBlock.ReadSignals | lass/io/binary_i_memory_block.cpp:100-125 | which reads set bad and eof, and that the position moves by what is returned |
| Endian.ReadBackInvertsWritten | lass/num/endianness.inl:58-139 | a number written in a stream order on one machine is read back on another, for all four machine orders |
| Endian.WrittenBytesArePortable | lass/num/endianness.inl:58-139 | the bytes depend on the stream's order only, not on the machine |
| Endian.LowBytesInverse | lass/num/endianness.inl:58-66 | the bytes of a number determine it |
| WireFormat.WrittenByteIsDigit | lass/num/endianness.inl:58-139 | byte k of a number, from the low end, is its digit k to base 256: first byte lowest in little-endian order, last byte lowest in big-endian order |
| WireFormat.SmallNumbers | lass/num/endianness.inl:58-139 | what one byte and two bytes are read as in either order |
| Serialization.TwosComplementInverse | lass/io/binary_i_stream.cpp:270-283 | signed numbers survive as two's complement of their width |
| Serialization.TruncationGoesUnnoticed | lass/io/binary_i_stream.cpp:270-283 | extraction fails if and only if it starts at the end; a number cut off by the end is completed from uninitialised memory on a good stream |
| Serialization.ReadStringAt | lass/io/binary_i_stream.cpp:217-233 | a string in the middle of a block is read back, and the empty string only if bytes follow |
| Serialization.RoundTrip | lass/io/binary_i_memory_block.cpp:111-124 | for every list of integers, bools and strings in either byte order, reading the written bytes gives the list back on a good stream if and only if it does not end in an empty string; if it does, only that string is lost |
| Serialization.ByteSink.DoWrite | lass/io/binary_o_stream.cpp:246-252 | bytes are appended |
| Serialization.ByteSink.WriteValue | lass/io/binary_o_stream.cpp:246-252 | a number is appended in the stream's byte order |
| Serialization.ByteSink.WriteString | lass/io/binary_o_stream.cpp:256-262 | a string is appended behind its 64-bit length |
| Serialization.ByteSink.Insert | lass/io/binary_o_stream.cpp:183-262 | an item is appended in its format, bools as one byte |
| Serialization.ByteSink.InsertAll | lass/io/binary_o_stream.cpp:183-262 | a list is appended item by item |
| Serialization.ReadValue | lass/io/binary_i_stream.cpp:270-283 | a number is extracted as the value-level reader does, and fits its width |
| Serialization.ExtractString | lass/io/binary_i_stream.cpp:217-233 | a string is extracted as the value-level reader does |
| Serialization.Extract | lass/io/binary_i_stream.cpp:184-233 | an item is extracted as the value-level reader does, any non-zero byte being true |
| Serialization.ExtractAll | lass/io/binary_i_stream.cpp:184-283 | a list is extracted as the value-level reader does |
| Serialization.Transfer | lass/io/binary_o_stream.cpp:183-262 | writing a list to memory and extracting it returns it unchanged on a good stream if and only if it does not end in an empty string |
| ItemFormat.WrittenBool | lass/io/binary_o_stream.cpp:183-262 | true is the byte 1 and false the byte 0 |
| ItemFormat.ExtractedBool | lass/io/binary_i_stream.cpp:184-193 | from memory 0 is false and each of the other 255 bytes is true |
| ItemFormat.ReceivedBool | lass/io/binary_i_stream.cpp:184-193 | the same from a socket, unless the read fails and nothing is assigned |
| ItemFormat.WrittenNumber | lass/io/binary_o_stream.cpp:246-252 | numbers are their digits to base 256 in the stream's order, signed ones those of their value modulo 256^width |
| ItemFormat.WrittenString | lass/io/binary_o_stream.cpp:256-262 | a string is eight bytes with its length and then its characters |
| ItemFormat.CutString | lass/io/binary_i_stream.cpp:217-233 | a string in memory that is cut off after some of its characters is extracted with zeros for the others on a good stream; cut off right behind its length it is not extracted |
| SocketSerialization.ItemArrives | lass/io/binary_i_stream.cpp:184-283 | from a socket an item is extracted whole, or the stream is no longer good and nothing is assigned |
| SocketSerialization.ItemsArrive | lass/io/binary_i_stream.cpp:184-283 | from a channel that holds a written list, or only the start of it, under every script of receives: the items read are the first ones, each whole, and all of them if and only if the stream is good; a trailing empty string is no exception and a value cut off is never assigned |
| SocketSerialization.EverythingArrives | lass/io/binary_i_socket.cpp:93-130 | if every receive delivers something, the whole list arrives on a good stream and what follows it is left, however the bytes are cut |
| SocketSerialization.ExtractValue | lass/io/binary_i_stream.cpp:270-283 | a number is extracted from a socket as the value-level reader does, and fits its width |
| SocketSerialization.ExtractString | lass/io/binary_i_stream.cpp:217-233 | a string is extracted from a socket as the value-level reader does, if the length that was sent meets the assertion of `doRead` |
| SocketSerialization.Extract | lass/io/binary_i_stream.cpp:184-233 | an item is extracted from a socket as the value-level reader does, under the same assertion |
| SocketSerialization.ExtractAll | lass/io/binary_i_stream.cpp:184-283 | a list that was written is extracted as the value-level reader does, and the assertion never fails |

## Left out

- The text header of Radiance files: its fields are values here, and the corrections are what the loader computes from exposure and colour correction.
- The older run-length coding of Radiance files (lass/io/image.cpp:1169-1195): `previous` is declared anew for every pixel, and the saver never writes it.
- The image readers never look at the stream's state.  Once the bytes run out the source goes on with variables that are unset or stale, and a packet or span that reaches past the end of a line is only an assertion there.  The model's readers end without a result in both cases.
- TargaRle.CopyInto: no result when the bytes run out or the line ends, as just said.
- TargaRle.RepeatInto: no result when the line ends.
- TargaRle.UnpackPacketInto: no result when the bytes run out or the packet is too long.
- TargaRle.UnpackLineInto: no result when the bytes run out or a packet is too long.
- TargaImage.UnpackPlainLineInto: no result when the bytes run out.
- TargaImage.Image.ReadLines: no result for a body that is cut short or has a packet across a line's end.
- TargaImage.Image.OpenTargaTrueColor: reports such bodies, which the source does not.
- TargaImage.Image.OpenTarga: reports a header that is cut short, which the source does not.
- TargaImage.DecodeInto: components stay bytes; the scaling by 1/255 to floats is left out.
- TargaImage.Image.EncodeScanline: components are bytes already; clamping and scaling of floats are left out.
- RadianceReader.UnpackSpanInto: no result when the bytes run out or the span is too long.
- RadianceReader.UnpackChannelInto: no result when the bytes run out or a span is too long.
- RadianceReader.UnpackPartsInto: no result when the bytes run out or a span is too long.
- RadianceReader.UnpackPieceInto: no result for the older coding, or when the bytes run out.
- RadianceReader.UnpackScanlineInto: no result for the older coding, or when the bytes run out.
- RadianceImage.Image.SaveRadianceHdr: yields the header's values; the text and the primaries are left out.
- RadianceImage.Image.ReadLines: no result for bodies in the older coding or cut short.
- RadianceImage.Image.OpenRadianceHdr: takes the header's values, and has no result for such bodies.
- Alpha in Radiance pixels, colour spaces, gamma and compositing.
- Rounding in the radical inverse, the sampler and the Radiance pixels, whose scaling is exact apart from it; infinities, and NaN other than the sampler's 0 / 0.
- InverseTransform2D.InverseTransformSampling2D.Reset: takes no negative weights, whose running sums need not ascend.
- RadicalInverse.RandomRadicalInverse.constructor: takes no base 0, whose inverse is infinite in the source; with base 1 the digit loop of a draw does not end, so draws need a base of at least 2.
- Seeding the Mersenne twister with an array of keys, and draws below a supremum (lass/num/random.inl): reductions of the draws proved here.
- Floating-point, pointer and wide-string items of the serialisation: their bytes travel as the integers do.
- OutputSocket.Wire.Send: follows a finite script, and a script that is used up fails, so a peer that accepts 0 bytes for ever is not modelled.
- InputSocket.Channel.Receive: follows a finite script in the same way.
- OutputSocket.RunInvariant: `clear()` is no step of a run, because the invariant does not survive it; `FlushAfterClear` says what happens instead.  Threads interleave whole critical sections; errors thrown while locking are left out.
- MemoryBlock.BinaryIMemoryBlock.SeekFrom: takes no least `off_type`, because the source negates it and that overflows.
- MemoryBlock.BinaryIMemoryBlock.Seekg: takes the least `off_type` only from the beginning, for the same reason.
- SocketSerialization.ItemsArrive: takes strings of fewer than 2^31 bytes, because `doRead` asserts that its count fits an `int` (lass/io/binary_i_socket.cpp:106).
- Exhausted memory, in particular for a string whose claimed length exceeds the memory.
- The file formats `lass`, PFM and IGI, `filterMedian`, the generators Park-Miller, XKCD and Standard, and the rest of the library.
