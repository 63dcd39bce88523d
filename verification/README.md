# A verified model of the Mesytec acquisition pipeline

The library collates the module readouts of a VME crate into events, serialises events to 32-bit
words, wraps them in MFM frames, relays or records the frames, and parses the words back. This
project models those stages and proves how each behaves over whole runs and how they compose.

Check it with `dafny verify dfyconfig.toml` (Dafny 4.11).

## How the model is laid out

| file | what it models |
|---|---|
| Words.dfy | 32-bit words, the bit masks that classify them, little-endian bytes, `size_t` to `uint32_t` |
| VmeModules.dfy | module descriptions, the bit fields of data words, the `bus` and `module` classes |
| EventData.dfy | channel data, `module_data`, `event`, the serialiser |
| LookupMap.dfy | `fast_lookup_map`, its slots owning cells on the heap |
| CrateMap.dfy | the crate map file loop, from lines split at commas |
| ReaderV1.dfy, ReaderV0.dfy | what reading frame revisions 1 and 0 means |
| BufferReader.dfy | the `buffer_reader` class with its two loops |
| RoundTrip.dfy | the serialiser and the revision 1 reader, composed both ways |
| Agreement.dfy | where the two revisions agree |
| Collator.dfy, Collation.dfy | the collating callback, and whole runs of it |
| Transmitter.dfy | the transmitter's main loop, with its reset after an exception |
| Mfm.dfy | the frame encoder and the header decoder |
| Messages.dfy, NarvalRelay.dfy, Recorder.dfy | the two relays |
| EndToEnd.dfy | from callbacks, through frames and relays, back to modules |
| Basics.dfy | options and sequences |

Revision 1 is described by cutting the buffer at its last header (`ReaderV1.Parse`), with no state
machine; the loop is proved against that. Revision 0 keeps its state between calls, so the loop is
proved against a machine (`ReaderV0.Read`), and the machine against a description by positions
(`ReaderV0.Modules`). The readers look modules up in a plain map; `LookupMap` and `CrateMap` show
that the lookup class filled from a crate map file is such a map. The readers decode with the
functions of `VmeModules`; the `Module` class, with its data register and its masks, is proved to
compute the same ones.

An exception is an `Option`, a `Result`-like datatype or a `bool` result. A read of something the
source never initialised, an overrun of a fixed buffer or a failed `assert` is a precondition, stated
exactly: `ReaderV1.Defined`, `Collator.BlockOk`, `FastLookupMap.InBounds`, `CrateMap.StorageFor`, the
size bounds of `MfmConverter.Convert` and `ZmqReceiver.ProcessMessage`. Sockets are lists of receive
results, where `None` is a timeout. The external readout parser is an arbitrary list of callbacks. The
callback function given to a reader or to the collator is taken not to throw and not to change the
event.

## What the proofs turned up

- `read_buffer_collate_events` is documented to return the number of events of this buffer
  (lib/mesytec_buffer_reader_mvlc_parser.h:103-104). It returns the count since the last `reset`; the
  two agree exactly when that count was 0 (`Collation.CountIsOfThisBuffer`,
  `Collation.SecondBufferCountsBoth`).
- Module id 0 means "no module" to the revision 1 reader, while the crate map documentation uses 0x0
  as an example id (lib/mesytec_experimental_setup.cpp:18). Such a module is collated and sent but
  never delivered (`RoundTrip.ParserUndoesPrinter`, `EndToEnd.IdZeroIsSentButNotExpected`).
- The event counter of a frame is never set by the collator, only carried along
  (`Collation.CollationIsExact`).
- The four-byte size field of a frame really holds three bytes, because the next store overwrites the
  fourth; enough for sizes below 32 MiB (`Mfm.SizeSurvives`) and so for the 4 MiB buffer.
- The transmitter sends frames of up to 4 MiB; the recorder's buffer is 1 MiB and is overrun exactly by
  a larger frame (`Recorder.BufferHoldsIffFrameFits`), that is by an event of more than 262138 words
  (`Recorder.FrameFitsIffFewWords`); `Recorder.SentButTooLarge` is one.
- A message larger than the Narval output buffer blocks the relay for as long as the buffer stays
  that small (`NarvalRelay.TooLargeBlocksTheRelay`, `NarvalRelay.RelayDrainsIffAllFit`).
- Before a lookup map has storage, `has_object` reads past the end of an empty vector for every id up to
  the largest one added, and so for id 0 of a new map (`FastLookupMap.MissingSlots`,
  `LookupMap.MapsWithoutStorage`).
- After an exception the transmitter resets the collator, which then knows no readout stack, and never
  initialises it again. Only the events before the first exception are delivered, so none is lost
  exactly when no callback that would deliver one comes later
  (`Transmitter.NothingLostIffNoFiringAfterException`); `Transmitter.EventLostAfterException` is a loss.
- The last line of a crate map file is ignored exactly when it lacks its newline
  (`CrateMap.LastLineNeedsNewline`).

## Model

| member | source | states |
|---|---|---|
| Words.KindsExcludeEachOther | lib/mesytec_module.cpp:37-56 | header, data, end-of-event and fill words exclude each other, and every frame header is an end-of-event word |
| Words.LittleEndianRead | lib/mesytec_module.cpp:27-35 | a word read from a byte buffer consists of exactly the four bytes at that place, least significant first |
| Words.WordsOfToBytes | lib/mesytec_module.cpp:27-35 | reading the little-endian bytes of any words gives the words back |
| Words.ToNatToU32 | execs/mesytec_receiver_mfm_transmitter.cpp:72-86 | a size converted to `uint32_t` keeps its value exactly when it is below 2^32 |
| Words.LittleEndianOfNumber | lib/mesytec_module.cpp:27-35 | a word put together from four byte values has these bytes, least significant first, and is read back from them |
| Words.KindsByValue | lib/mesytec_module.h:224-270 | each kind of word is a range of values, for VMMR TDC data with the third byte 0; frame headers are six values of the first byte |
| Words.HeaderOfId | lib/mesytec_module.cpp:112-115 | for every id, the header word holding that id is a module header and is read as that id |
| Words.ModuleIdIsThirdByte | lib/mesytec_module.cpp:112-115 | of every word the module id is bits 16 to 23 |
| Words.LengthInHeader | lib/mesytec_module.cpp:102-105 | below any id and setting, an MDPP header holds a length of 10 bits |
| Words.LongLengthInHeader | lib/mesytec_module.cpp:107-110 | a VMMR header holds a length of 12 bits |
| Words.CounterInEndOfEvent | lib/mesytec_module.cpp:133-136 | every 30-bit counter put below the two marker bits is an end-of-event word and is read back |
| Words.EndOfEventHoldsCounter | lib/mesytec_module.cpp:133-136 | every end-of-event word is its 30-bit counter below the two marker bits |
| VmeModules.FirmwareGroups | lib/mesytec_module.h:627-643 | which firmwares are Mesytec modules, decodable, VMMR, TGV and scaler, and which channel counts are accepted |
| VmeModules.DecimalStandsForNumber | lib/mesytec_module.h:322 | the digits in a channel name stand for its number, without a leading zero |
| VmeModules.MakeBus | lib/mesytec_module.h:317-326 | a bus has one default-named channel for each channel number below the count |
| VmeModules.Module.constructor | lib/mesytec_module.h:453-488 | a constructed module has the buses, channels and masks of its description |
| VmeModules.Module.Create | lib/mesytec_module.h:453-488 | construction fails exactly for an MDPP module with neither 16 nor 32 channels |
| VmeModules.Module.InitialiseBusMap | lib/mesytec_module.h:397-404 | buses are numbered from 0 and each has the given number of channels |
| VmeModules.Module.DecodesAsDescribed | lib/mesytec_module.h:397-512 | the constructor's masks and divisors cut out the channel number (bits 16-19 or 16-20 of MDPP words, the low 8 of bits 12-23 of VMMR ADC words, else 0) and the type given by the two flag bits above it, or by the VMMR word kind |
| VmeModules.Module.GetBusNumber | lib/mesytec_module.h:507-512 | bits 24-27 for a VMMR, 0 for any other module |
| VmeModules.Module.DecodeLosesNothing | lib/mesytec_module.h:498-591 | the decoded type, bus, channel and datum put back in their places give the data word if and only if the bits that decoding leaves out are clear |
| VmeModules.Module.MdppDecodeStaysInside | lib/mesytec_module.h:397-412 | for every word, an MDPP module decodes bus 0, a channel that its constructor built and a known data type |
| VmeModules.Module.VmmrDecodeStaysInside | lib/mesytec_module.h:498-512 | a VMMR word indexes an existing channel if and only if the bus exists and, for an ADC word, bit 19 is clear |
| VmeModules.Module.VmmrSubaddressBelow128 | lib/mesytec_module.h:498-512 | with 16 buses, every ADC word with a 12-bit subaddress below 128 indexes the channel of that number |
| EventData.DecodesVmmrAdc | lib/mesytec_module.h:498-591 | a VMMR ADC word put together from any bus, subaddress and datum decodes to these; only the upper four bits of the subaddress are lost |
| EventData.DecodesVmmrTdc | lib/mesytec_module.h:498-591 | a VMMR TDC word put together from any bus and datum decodes to these, on channel 0 |
| EventData.DecodesMdpp16 | lib/mesytec_module.h:498-591 | a word of a 16-channel MDPP put together from any flags, channel and datum decodes to these, with the data type of its flags and firmware |
| EventData.DecodesMdpp32 | lib/mesytec_module.h:498-591 | the same for 32 channels, with the fields in their other places |
| EventData.ModuleData.SetHeaderWord | lib/mesytec_data.h:142-168 | everything read before is dropped; id and announced length follow the header and firmware |
| EventData.HeaderStartsModule | lib/mesytec_data.h:142-168 | a header word put together from any id and low half starts a module of that id, announcing its low 10 bits (MDPP), 12 bits (VMMR), or 4 (TGV, scaler) |
| EventData.ModuleRecord.AddDataToBuffer | lib/mesytec_data.h:207-220 | header and data words are appended in order, or nothing when there is no data |
| EventData.ModuleRecord.SizeOfBuffer | lib/mesytec_data.h:221-228 | the size announced for a module is that of what it appends |
| EventData.Event.AddModuleData | lib/mesytec_data.h:292 | the module is moved to the end of the event; the source keeps its numbers but no data |
| EventData.Event.SizeOfBuffer | lib/mesytec_data.h:302-308 | the size announced for an event is the length of its output buffer |
| EventData.Event.GetOutputBuffer | lib/mesytec_data.h:309-317 | the output buffer is the concatenation of what the modules append, in order |
| LookupMap.FastLookupMap.AddId | lib/fast_lookup_map.h:200-206 | at any time: the id is listed last, the maximum stays the maximum, lookups do not change; the storage stays complete unless it exists and the id is beyond it |
| LookupMap.FastLookupMap.AddObject | lib/fast_lookup_map.h:207-230 | for any id that has a slot, listed or not: lookup afterwards is the plain map updated at this id, in a fresh cell, no other slot touched |
| LookupMap.FastLookupMap.InitializeObjectStorage | lib/fast_lookup_map.h:33-48 | storage has maxindex+1 empty slots |
| LookupMap.FastLookupMap.HasObject | lib/fast_lookup_map.h:240-244 | true exactly for the keys of the plain map, for every id whose slot exists if it is read |
| LookupMap.FastLookupMap.MissingSlots | lib/fast_lookup_map.h:240-244 | in the documented order of calls the slot read is missing exactly for the ids up to maxindex of a map without storage |
| LookupMap.MapsWithoutStorage | lib/fast_lookup_map.h:240-244 | two such maps: a new one asked for id 0, and one with only the id 5 added asked for id 3 |
| LookupMap.FastLookupMap.GetObject | lib/fast_lookup_map.h:245-264 | the object that the plain map holds, in the map's own cell; an exception exactly for a missing key |
| LookupMap.FastLookupMap.Assign | lib/fast_lookup_map.h:110-132 | succeeds exactly when every listed id has an object; the copy has the ids up to the first without one, that one included, and in fresh cells the objects before it |
| LookupMap.Copy | lib/fast_lookup_map.h:52-69 | the copy constructor makes a deep copy with the same order and the same objects for the listed ids |
| LookupMap.FastLookupMap.Clear | lib/fast_lookup_map.h:95-109 | the map is as newly constructed |
| LookupMap.FastLookupMap.Visit | lib/fast_lookup_map.h:134-198 | iteration gives the objects in the order in which their ids were added, or throws exactly when a listed id has none |
| CrateMap.ReadCrateMap | lib/mesytec_experimental_setup.cpp:61-99 | into any lookup map: an unacceptable line throws with earlier ids listed and no object added; else lookups give name, id, channel count and firmware of the last line with the id, or what they gave before, ids are listed in file order, repeats included, and visiting throws exactly for an id without object |
| CrateMap.FirmwareNames | lib/mesytec_experimental_setup.cpp:47-59 | which firmware each of the eleven names stands for |
| CrateMap.OtherNamesAreUnknown | lib/mesytec_experimental_setup.cpp:47-59 | a name is unknown if and only if it is none of these |
| CrateMap.AcceptedByName | lib/mesytec_experimental_setup.cpp:74-84 | which lines throw and which are passed over, from their firmware name and channel count |
| CrateMap.LastLineIsFound | lib/mesytec_experimental_setup.cpp:82-94 | what is found for an id is the name, id, channel count and firmware of the last line with it |
| CrateMap.ListedInFileOrder | lib/mesytec_experimental_setup.cpp:80-84 | the ids are listed in file order, those of exactly the lines that are no markers |
| CrateMap.LastByIdIsLast | lib/mesytec_experimental_setup.cpp:82-94 | the description found for an id is the one after which no other has that id |
| CrateMap.LoadedIds | lib/mesytec_experimental_setup.cpp:61-94 | an id can be looked up if and only if some line that is not a marker has it |
| CrateMap.LastLineNeedsNewline | lib/mesytec_experimental_setup.cpp:74-75 | when all other lines are terminated, all lines are read if the last is too, and all but the last otherwise |
| CrateMap.MarkersHaveNoEffect | lib/mesytec_experimental_setup.cpp:80-84 | START_READOUT and END_READOUT lines change nothing |
| BufferReader.DecodeWith | lib/mesytec_buffer_reader.h:73-80 | what is decoded through the data register of a module object is what its description says of the word |
| BufferReader.Reader.ReadEventInBufferV1 | lib/mesytec_buffer_reader.h:43-88 | the delivered modules, or the exception, are a function of the buffer alone: the grouping at headers; and the state left behind |
| ReaderV1.LeadingWordsVanish | lib/mesytec_buffer_reader.h:52-84 | words before the first header never reach the event |
| ReaderV1.ParseConcat | lib/mesytec_buffer_reader.h:52-84 | reading a buffer followed by one that starts with a header gives the modules of the first, then those of the second |
| ReaderV1.HeaderFirstIsDefined | lib/mesytec_buffer_reader.h:51-80 | a header-first buffer of decodable modules never uses an unset module pointer or mask, whatever the scaler flag was |
| ReaderV1.WhatIsDefined | lib/mesytec_buffer_reader.h:51-80 | after a header a data word is defined if and only if the firmware sets the masks or is a scaler; before the first, if and only if the scaler flag is set |
| RoundTrip.OneModuleIsRead | lib/mesytec_buffer_reader.h:51-85 | a header of any id and then other words give, unless the id is 0, one module of that id, with all words of a scaler, else with the data words, position by position, as they decode |
| RoundTrip.ReadPrinted | lib/mesytec_data.h:207-220 | reading what the serialiser prints gives, module by module, the group of its header and words |
| RoundTrip.ParserUndoesPrinter | lib/mesytec_buffer_reader.h:42-88 | reading a printed event gives the same headers and words if and only if every module has data, a nonzero id and only words that its kind keeps |
| RoundTrip.BytesAreReadBack | lib/mesytec_data.h:309-317 | the same through the bytes of the output buffer |
| RoundTrip.ParseThenPrintIsIdempotent | lib/mesytec_buffer_reader.h:52-84 | printing what was read and reading it again gives the same modules, decoded fields included, less those without data, and the same print |
| RoundTrip.NormalForm | lib/mesytec_buffer_reader.h:52-84 | printing what was read is the buffer without exactly the words that are not kept, the headers of modules left empty, and everything of id 0 |
| BufferReader.Reader.ReadEventInBufferV0 | lib/mesytec_buffer_reader.h:95-136 | modules, exception, event counter and the state carried to the next call are those of the machine, and the modules those of the description |
| ReaderV0.ChunkingInvariance | lib/mesytec_buffer_reader.h:95-136 | any cut of a stream into buffers gives the same modules in order, the same exception and the same final state as one buffer |
| ReaderV0.Grouping | lib/mesytec_buffer_reader.h:103-133 | the modules are those of the closing words: each with the last header and the MDPP data since the last boundary; the frame-header test adds none |
| ReaderV0.ClosingWordsAreThose | lib/mesytec_buffer_reader.h:123 | the closing words are exactly the end-of-event words that are the first after a header or MDPP data word, in order |
| ReaderV0.ClosesByValue | lib/mesytec_buffer_reader.h:103-123 | the same from the values of the words alone |
| ReaderV0.ClosedModuleIs | lib/mesytec_buffer_reader.h:103-130 | a closed module has its end-of-event word, the 30-bit counter in it, the last header, and, position by position, the MDPP words since the last boundary |
| ReaderV0.RunningIffReadsThrough | lib/mesytec_buffer_reader.h:106-118 | no exception and no undefined decode if and only if every header is known and every MDPP word belongs to a module that can decode it |
| ReaderV0.FirstUnreadableDecides | lib/mesytec_buffer_reader.h:106-118 | the first unreadable word decides which id the exception names, or that a decode is undefined |
| BufferReader.Reader.ReadEventInBuffer | lib/mesytec_buffer_reader.h:183-197 | dispatch by revision: when the event is delivered, what it holds, which exception is thrown and what state is left, for each; an exception, and no change, for any revision above 1 |
| Agreement.RevisionsAgree | lib/mesytec_buffer_reader.h:43-136 | on revision 0 streams, both readers deliver the same headers, words and decoded fields if and only if no module has id 0 or is a scaler and VMMR data is on bus 0 |
| Agreement.MdppRevisionsAgree | lib/mesytec_buffer_reader.h:43-136 | in particular on all streams of MDPP modules of nonzero id |
| Collator.MvlcParserBufferReader.EventDataCallback | lib/mesytec_buffer_reader_mvlc_parser.h:113-229 | the event being built, the event delivered if any, the count and the exception are those of the callback specification |
| Collator.MvlcParserBufferReader.AddScaler | lib/mesytec_buffer_reader_mvlc_parser.h:177-198 | four words become one scaler module |
| Collator.MvlcParserBufferReader.AddOrdinary | lib/mesytec_buffer_reader_mvlc_parser.h:207-218 | a module holds the words after its header, less end-of-event words and, for Mesytec modules, fill words |
| Collator.MvlcParserBufferReader.ReadBufferCollateEvents | lib/mesytec_buffer_reader_mvlc_parser.h:238-263 | the callbacks of a buffer are run in order up to the first that throws; the running count is returned |
| Collator.MvlcParserBufferReader.Reset | lib/mesytec_buffer_reader_mvlc_parser.h:24-33 | nothing is pending, nothing counted and no stack known; timestamp and event counter stay |
| Collator.MvlcParserBufferReader.InitialiseReadout | lib/mesytec_buffer_reader_mvlc_parser.h:45-47 | the stacks of the crate configuration are known, nothing else changes |
| Collation.CollationIsExact | lib/mesytec_buffer_reader_mvlc_parser.h:222-228 | after any run, the delivered events are one for each firing callback, with all modules accepted since the one before; the rest is pending; the count is theirs modulo 2^32 |
| Collation.Conservation | lib/mesytec_buffer_reader_mvlc_parser.h:113-229 | modules of delivered events, then pending ones, are all accepted modules in order; each callback for the last stack that does not throw delivers one event |
| Collation.CountIsOfThisBuffer | lib/mesytec_buffer_reader_mvlc_parser.h:103-104 | the returned count is that of this buffer, modulo 2^32, if and only if nothing was counted before |
| Collation.SecondBufferCountsBoth | lib/mesytec_buffer_reader_mvlc_parser.h:262 | with one event counted before, a buffer of one event returns 2 |
| Collation.TimestampTracking | lib/mesytec_buffer_reader_mvlc_parser.h:151-167 | every event that the collator delivers in a run carries the latest timestamp of the whole history up to the callback that fired it, and the event being built the latest of all |
| Collation.LatestStampIsLatest | lib/mesytec_buffer_reader_mvlc_parser.h:160-163 | that timestamp is the one of a timestamp block after which there is no other |
| Collation.StampsAddNoModule | lib/mesytec_buffer_reader_mvlc_parser.h:151-167 | timestamp blocks are those of TGV modules; they give the low halves of three words and no module |
| Collation.WhatIsAsserted | lib/mesytec_buffer_reader_mvlc_parser.h:173-202 | exactly what is taken for granted of a block, from the values of its words |
| Collation.BlocksThatCount | lib/mesytec_buffer_reader_mvlc_parser.h:126-167 | a block adds a module if and only if it has more than two words and is of a known module that is no TGV |
| Collation.OrdinaryBlockIsSent | lib/mesytec_buffer_reader_mvlc_parser.h:207-218 | the words kept are, position by position and each as often as it occurs, those that are no end-of-event words and, for Mesytec modules, not 0 |
| Collation.ScalerBlockIsSent | lib/mesytec_buffer_reader_mvlc_parser.h:171-202 | words 1 to 4 are kept under word 0 and words 7 to 10 under word 6; for an unknown second id the first four, and the exception names the id |
| Collation.SeenEndsAtException | lib/mesytec_buffer_reader_mvlc_parser.h:190 | blocks are processed up to and including the first that throws, whose exception is reported |
| Transmitter.MainLoop | execs/mesytec_receiver_mfm_transmitter.cpp:217-267 | over any buffers, the collator object and the delivered events are those of the specification, in which an exception ends its buffer and resets the collator |
| Transmitter.TransmitsUpToFirstException | execs/mesytec_receiver_mfm_transmitter.cpp:254-267 | however the callbacks are spread over buffers, exactly the events of those up to the first exception are delivered; without one, all is as for one long buffer |
| Transmitter.NothingLostIffNoFiringAfterException | execs/mesytec_receiver_mfm_transmitter.cpp:254-267 | every callback for the last stack that does not throw delivers its event if and only if none comes after one that throws |
| Transmitter.EventLostAfterException | execs/mesytec_receiver_mfm_transmitter.cpp:259-266 | a readout with an unknown second scaler throws, and the event of the next readout is lost |
| Transmitter.HalfKnownScalersThrow | lib/mesytec_buffer_reader_mvlc_parser.h:187-191 | the twelve words of such a readout meet every assertion made before the exception |
| Transmitter.CallsAreMade | lib/mesytec_buffer_reader_mvlc_parser.h:238-263 | the calls that the collator makes for a buffer are those up to and including the first that throws |
| Transmitter.NothingDeliveredAfterReset | lib/mesytec_buffer_reader_mvlc_parser.h:24-33 | after a reset no event is delivered, whatever is read, until the readout is initialised again |
| Mfm.MfmConverter.Convert | execs/mesytec_receiver_mfm_transmitter.cpp:52-100 | despite the overlapping stores, the message is the specified frame; no frame for an event without modules |
| Mfm.MfmConverter.WriteStart | execs/mesytec_receiver_mfm_transmitter.cpp:71-75 | after the overlapping stores the size field has its fourth byte 0 and the type and revision are intact |
| Mfm.SizeSurvives | execs/zmq_receiver.cpp:33 | an even size is recovered if and only if it is below 2^25 |
| Mfm.FrameRoundTrip | execs/zmq_receiver.cpp:24-40 | every frame is accepted, and size, type, blob size, the 48-bit timestamp and the event counter are recovered |
| Mfm.BlobRoundTrip | execs/mesytec_receiver_mfm_transmitter.cpp:88-89 | the blob is exactly the serialised words |
| Mfm.FrameBytes | execs/mesytec_receiver_mfm_transmitter.cpp:66-89 | every frame byte by byte: marker, size, type 0x4adf, revision 1, timestamp, counter, two zero bytes, blob size, blob |
| Mfm.Bytes16Are | execs/mesytec_receiver_mfm_transmitter.cpp:78-80 | a 16-bit field is stored with its less significant byte first |
| Mfm.DecoderAccepts | execs/zmq_receiver.cpp:24-40 | which messages are too short, of another size, of another type, or frames, from their bytes |
| NarvalRelay.NarvalReceiver.ProcessBlock | narval/zmq_narval_receiver.cpp:70-131 | the output holds whole messages in order within its size, nothing beyond them is written, and the carry-over is as specified; the loop ends |
| NarvalRelay.NextBlockIsSound | narval/zmq_narval_receiver.cpp:101-130 | a block loses and reorders nothing and keeps within its size; it ends when the next message does not fit, or with the first receive call that gives nothing, which is the last one used |
| NarvalRelay.RelayConservation | narval/zmq_narval_receiver.cpp:70-131 | over any run with any sizes, outputs, then the pending message, then what is still to come are all messages in order |
| NarvalRelay.PendingIsSentIffItFits | narval/zmq_narval_receiver.cpp:104-108 | a pending message goes out with the next block if and only if it fits; until then nothing moves |
| NarvalRelay.RelayDrainsIffAllFit | narval/zmq_narval_receiver.cpp:70-131 | with enough blocks of one size, everything is sent on if and only if every message fits that size |
| NarvalRelay.TooLargeBlocksTheRelay | narval/zmq_narval_receiver.cpp:104-108 | as long as every output is smaller than the pending message, nothing is sent and nothing received |
| Recorder.ZmqReceiver.constructor | execs/zmq_receiver.cpp:126-138 | nothing is recorded; the file size is in units of 1048576 bytes, a negative one wraps to 64 bits |
| Recorder.ZmqReceiver.ProcessMessage | execs/zmq_receiver.cpp:159-186 | a frame is recorded as specified: the buffer is dumped if and only if the frame does not fit in it, and the bytes in files and buffer are given; anything else stops the program and changes nothing |
| Recorder.ZmqReceiver.DumpBuffer | execs/zmq_receiver.cpp:163-181 | the open file is closed if and only if its bytes and those of the buffer together exceed the limit; the bytes of the buffer then start a new file, otherwise they are appended |
| Recorder.ZmqReceiver.Run | execs/zmq_receiver.cpp:140-201 | the loop records every frame up to the first message that is none |
| Recorder.ZmqReceiver.AllBytesAreRecorded | execs/zmq_receiver.cpp:175-186 | closed files, open file and buffer, end to end, are the bytes of all frames |
| Recorder.RecorderInvariant | execs/zmq_receiver.cpp:126-186 | after every run of frames of at most 1 MiB, files and buffer hold all frames whole and in order; the buffer is within 1 MiB, files within the limit, and closed files longer than the limit less 1 MiB |
| Recorder.DumpClosesIffFull | execs/zmq_receiver.cpp:164 | a file is closed if and only if the buffer does not fit in it |
| Recorder.RecordDumpsIffNoRoom | execs/zmq_receiver.cpp:161 | the buffer is dumped if and only if the frame does not fit in it |
| Recorder.RecordingLayout | execs/zmq_receiver.cpp:140-186 | after every run, files are made of whole buffer loads: a load ended only because the next frame did not fit, a file only because the next load did not fit, and only the first load of a new file may exceed the limit |
| Recorder.BufferHoldsIffFrameFits | execs/zmq_receiver.cpp:159-186 | recording a frame keeps the buffer within 1 MiB if and only if the frame is at most 1 MiB |
| Recorder.FrameFitsIffFewWords | execs/zmq_receiver.cpp:126-128 | a frame is that small if and only if its event has at most 262138 words; the transmitter sends up to 1048570 |
| Recorder.SentButTooLarge | execs/zmq_receiver.cpp:126-128 | an event of one module with 262139 data words gives a frame that is sent and accepted but that the buffer cannot hold |
| EndToEnd.SenderFilterIsInvisible | lib/mesytec_buffer_reader_mvlc_parser.h:207-218 | the collator's end-of-event and fill filter does not change what the reader keeps |
| EndToEnd.ExpectedHoldsMesytecWords | lib/mesytec_buffer_reader.h:51-84 | the module expected of an ordinary block has its header and id and holds exactly its Mesytec words, each as its description decodes it |
| EndToEnd.IdZeroIsSentButNotExpected | lib/mesytec_buffer_reader.h:55 | a block of a known module with id 0 whose words are serialised and of which nothing is read back |
| EndToEnd.EventIsReadBack | lib/mesytec_buffer_reader.h:42-88 | the blob of a frame, read as revision 1, gives for each block the group of its header and words as the readout had them, decoded fields included, nothing for id 0, and no exception |
| EndToEnd.SentFramesAreReadBack | execs/mesytec_receiver_mfm_transmitter.cpp:218-267 | over the whole run of the transmitter, exceptions and resets included, reading the frames it sends gives, event by event, whole modules as expected of the blocks processed since the event before |
| EndToEnd.FramesDelimitThemselves | execs/zmq_receiver.cpp:33-34 | the bytes of a list of frames are those of no other list of frames |
| EndToEnd.RelayedRunIsReadBack | narval/zmq_narval_receiver.cpp:70-131 | through the Narval relay, with timeouts anywhere and any block sizes: what was sent on and what still waits read as the run |
| EndToEnd.DrainedRunIsReadBack | narval/zmq_narval_receiver.cpp:70-131 | with enough blocks of a size in which every frame fits, what was sent on is all |
| EndToEnd.RelayedBytesAreReadBack | narval/zmq_narval_receiver.cpp:110-112 | after any blocks of any sizes, the bytes sent on, however they are cut into frames, and the frames that still wait read as the run |
| EndToEnd.RecordedRunIsReadBack | execs/zmq_receiver.cpp:140-201 | the same from the bytes in the recorder's files and buffer, however they are cut into frames |
| EndToEnd.DeliveredChannelsExist | lib/mesytec_module.h:397-512 | every item of MDPP data read from any frame is on bus 0, names a channel its module built and has a known type; an item of VMMR data names one if and only if the bus exists and, for an ADC word, bit 19 is clear |

## Left out

- The readout parser itself and the crate configuration: an arbitrary list of callbacks stands for them, and of the parser state only the number of readout stacks is modelled. That a reset parser still makes callbacks is allowed for, not claimed; an exception in a callback is taken to leave the parser at once.
- ZeroMQ, timeouts, clocks, command lines, signals, logging, printing and description strings.
- Callback functions that throw or that change the event they are given.
- Detector names, data type aliases and `read_detector_correspondence`.
- Opening the crate map file, splitting its lines and converting its numbers.
- `extract_frame_info`, extended timestamps and `define_setup`: field extraction that no stage above uses.
- The raw-pointer variant of the lookup map, its destructor and what a move leaves in its source.
- BufferReader.Reader.ReadEventInBufferV1: decodes with the description of a module, not by `DecodeWith` on a shared module object, whose data register nothing reads between words.
- EventData.Event.GetOutputBuffer: an event holds the values of its modules, so vectors sharing memory or reserved capacity are not captured.
- Recorder.ZmqReceiver.ProcessMessage: files are byte sequences in order of their index; names and the closing of the last file are not modelled.
- EndToEnd.SentFramesAreReadBack: assumes of the blocks only what `Readable` says up to the first exception (headers that are headers of known modules, no other word like a header).
