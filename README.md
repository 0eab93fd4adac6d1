# planefinder-kml in Dafny

This project models the core of planefinder-kml. That program reads the Plane Finder "firehose" aircraft feed and serves the aircraft it keeps as a KMZ/KML document for Google Earth. The core has three parts:

- **Framing and forwarding** (`firehose_client.py`). The feed is a byte stream of frames. Each frame is `DLE STX payload DLE ETX` (`0x10 0x02 … 0x10 0x03`), and a literal `0x10` inside the payload is sent doubled. The client keeps the bytes that are not yet a complete frame in a buffer. For each complete frame, it tells gzip data from plain data by the two-byte gzip signature. It decodes the JSON object and passes every non-empty mapping to the data processor.
  - Modelled in `DleProtocol` (`dle_protocol.dfy`) and `Firehose` (`firehose_client.dfy`).
- **Filtering and statistics** (`data_processor.py`). `DataProcessor` admits records in a fixed order of checks: position, on-ground, altitude present, minimum altitude, maximum altitude. It keeps running counters, merges filter updates at run time, and calls its callbacks with every non-empty accepted batch.
  - Modelled in `DataProcessing` (`data_processor.dfy`).
- **Aircraft database and placemarks** (`kmz_generator.py`). `OptimizedKMZGenerator` upserts the records it is given under their ICAO hex code (`adshex`), ages every entry and deletes those older than the persistence window. For the minimal KML document it emits:
  - one labelled point per positioned aircraft;
  - one prediction line when the aircraft also has a heading and a positive speed.
  - Modelled in `OrderedDict`, `AircraftCache`, `DecimalFormat`, `KmlPlacemarks` and `KmzGenerator`.

Each part keeps the source's form:

- The two scanning loops of `extract_frames` are the method `DleProtocol.ExtractFrames`, with its inner loop as `ReadFrame`. The loops are proved against `ScanAt` and `FrameAt`, which read the buffer by index as the loops do. Two lemmas prove these equal to `Scan` and `ReadBody`, which read suffixes of the buffer. The properties are lemmas about `Scan`.
- `DataProcessor`, `FirehoseClient` and `OptimizedKmzGenerator` are classes whose methods update their fields. Each loop of the source is a `while` loop, proved against a specification function: `Admitted`, `CallsFor`, `Forwarded`, `Upserted`, `Swept` or `Placemarks`.

The model follows Python semantics in these places:

- A record field is `Missing`, `Null` or `Has(v)`. This keeps `d.get(k)` (absent and null both give None) apart from `d.get(k, 0)` (only an absent key gives 0).
- `filters or default` turns an empty configuration into the defaults.
- An empty `adshex` is falsy and is skipped.
- `round` rounds halves to even.
- `f"{n:03d}"` puts the sign inside the width, so -5 prints as `-05`.
- A Python `dict` keeps insertion order. The database is an ordered dictionary: re-assigning a key keeps its place, and a new key goes last.

In two places the code does something a reader might not expect; the model follows the code:

- A start marker split across two reads, `0x10` at the end of one read and `0x02` at the start of the next, is not kept. The outer loop stops one byte before the end, so the `0x10` is dropped and the frame is lost. `DleProtocol.SplitStartMarkerLosesFrame` shows this on a concrete input. `DleProtocol.SplitEquivalence` proves that every other split gives the same frames as one read of the whole. This includes a first read that ends inside an open frame: that read is kept whole, even when it ends with a `0x10` and the next read begins with `0x02` (`DleProtocol.SplitInsideEscapeAgrees`).
- Expired aircraft are deleted only inside `update_aircraft_data`. `get_current_aircraft` does not sweep and does not recompute ages. An aircraft therefore stays in the document until the next update, however old it is.

## Model

| member | source | states |
|---|---|---|
| DleProtocol.ReadBody | firehose_client.py:47-63 | a closed frame body uses up at least the two terminator bytes |
| DleProtocol.FrameAtSuffix | firehose_client.py:47-63 | reading a frame body by index from `j` gives the same payload as reading the suffix from `j`, and it resumes at the suffix after the terminator; both readings find the frame incomplete together |
| DleProtocol.ScanAtSuffix | firehose_client.py:39-69 | scanning by index from `i` gives the frames and remainder of scanning the suffix from `i` |
| DleProtocol.ReadFrame | firehose_client.py:43-67 | the inner loop ends on `DLE ETX` with the un-doubled payload and the index after the terminator, or reports the frame incomplete, exactly as the index reading of the body gives |
| DleProtocol.ExtractFrames | firehose_client.py:33-71 | the frames and remainder returned by the nested loops are exactly those of the scan specification |
| DleProtocol.StuffLength | firehose_client.py:54-57 | doubling adds one byte per `0x10` of the payload |
| DleProtocol.ReadStuffed | firehose_client.py:47-63 | reading a doubled payload followed by `DLE ETX` gives back the payload and the bytes after the terminator |
| DleProtocol.ScanEncodedThen | firehose_client.py:39-71 | after a stream of well-formed frames, the scan yields those payloads, in order, before whatever the rest of the buffer yields |
| DleProtocol.RoundTrip | firehose_client.py:39-71 | encoding any list of payloads and scanning gives exactly those payloads and an empty remainder |
| DleProtocol.TrailingByteDropped | firehose_client.py:39-71 | one byte after the last complete frame is neither a frame nor kept in the remainder |
| DleProtocol.SkipNoise | firehose_client.py:68-69 | bytes at which no start marker begins are skipped: the scan equals the scan of what follows them |
| DleProtocol.NoiseBetweenFrames | firehose_client.py:39-41 | bytes before a frame that contain no `0x10` never appear in any frame |
| DleProtocol.LoneEscapeCopied | firehose_client.py:58-60 | a `0x10` followed by anything but `0x03` or `0x10` is copied as a literal and the scan moves on by one byte |
| DleProtocol.ReadPlain | firehose_client.py:61-63 | payload bytes other than `0x10` are copied unchanged |
| DleProtocol.NestedStartIsData | firehose_client.py:58-60 | a `DLE STX` inside a frame does not start a new frame; it becomes payload |
| DleProtocol.UnstuffLeavesStuffing | firehose_client.py:73-76 | `unstuff_data` is the identity, so applied to a doubled payload that contains `0x10` it does not give back the payload |
| DleProtocol.RemainderShape | firehose_client.py:64-67 | the remainder is empty, or a suffix of the buffer that starts with `DLE STX` and whose frame never terminates; scanning it again yields no frame and keeps all of it |
| DleProtocol.ReadBodyRestIsSuffix | firehose_client.py:52 | after a closed frame the scan resumes on a suffix of the buffer |
| DleProtocol.ReadBodyExtends | firehose_client.py:47-63 | a frame already closed in a buffer stays closed, with the same payload, when more bytes arrive |
| DleProtocol.SplitEquivalence | firehose_client.py:39-71 | scanning one read, then the remainder followed by the next read, gives the frames and remainder of one scan over both reads, whenever the first read leaves a remainder or does not end with `0x10` before a next read starting with `0x02` |
| DleProtocol.SplitInsideEscapeAgrees | firehose_client.py:47-67 | a split between a doubled `0x10` and a payload `0x02` is not a lost start marker: the open frame is kept whole and the two reads agree with one |
| DleProtocol.SplitStartMarkerLosesFrame | firehose_client.py:39-41 | with the split inside a start marker, the two-call scan loses a frame that the one-call scan finds |
| Firehose.ForwardedShape | firehose_client.py:167-183 | at most one batch per frame; each forwarded batch is non-empty and comes from a frame that decodes to it |
| Firehose.ForwardedAppend | firehose_client.py:167-183 | the frames of two reads forward the first read's batches, then the second's |
| Firehose.FirehoseClient.constructor | firehose_client.py:81-87 | a new client has an empty buffer and is not connected |
| Firehose.FirehoseClient.BeginSession | firehose_client.py:139-140 | a fresh connection starts with an empty buffer |
| Firehose.FirehoseClient.ProcessBuffer | firehose_client.py:163-186 | the buffer becomes the scan's remainder; exactly the decodable non-empty frames reach the processor, in order; the processor's counters end as `StatsAfter` of those batches, so payloads grow by their number, records by their size, and filtered, on-ground and too-low by their per-batch counts summed; the pass rate, configuration and callbacks follow; the callback calls made are those of each batch in turn; nothing else changes |
| Firehose.FirehoseClient.Receive | firehose_client.py:150-151 | the new bytes are appended and the buffer processed: the buffer becomes the remainder of scanning the old buffer followed by the new bytes, and the processor's counters and the callback calls are those of the batches forwarded from that scan; the connection flag, configuration and callbacks are unchanged |
| DataProcessing.Screen | data_processor.py:56-81 | a record passes exactly when it has a position, is not on the ground, has an altitude, and lies within each bound that is set (bounds included); on-ground, missing-position and too-low each have their exact condition |
| DataProcessing.AdmittedMembers | data_processor.py:32-38 | a record is accepted exactly when it is in the input and passes the checks |
| DataProcessing.AdmittedAppend | data_processor.py:35-38 | acceptance keeps input order across concatenated inputs |
| DataProcessing.StatsAfterCounts | data_processor.py:29-43 | over a run of batches, payloads grow by the number of batches, records by their total size, filtered by the accepted records summed over batches, on-ground and too-low by their verdict counts summed; the configuration is unchanged, and after at least one batch with some record seen the rate is the exact ratio |
| DataProcessing.CallsAfterShape | data_processor.py:46-52 | every callback call over a run of batches goes to a registered callback, with a non-empty batch accepted from one of the batches, and records whether that callback raised |
| DataProcessing.RejectionAccounting | data_processor.py:56-81 | the accepted count is the number of passes, and each record adds to at most one of accepted, on-ground and too-low |
| DataProcessing.DataProcessor.constructor | data_processor.py:12-23 | an empty configuration means the defaults (max 10000, min 100); every counter starts at zero; the reported configuration equals the active one |
| DataProcessing.DataProcessor.AddCallback | data_processor.py:25-27 | the callback is appended after those already registered |
| DataProcessing.DataProcessor.PassesFilters | data_processor.py:56-81 | the result is the screening verdict; only an on-ground or too-low record adds one to its counter |
| DataProcessing.DataProcessor.ProcessAircraftData | data_processor.py:29-54 | accepted is the order-preserving selection of passing records; payloads +1, total +input size, filtered +accepted, ground and low-altitude counters + their verdict counts, the rate recomputed once a record has been seen (together, the counters are `AfterBatch` of the old ones); each callback called once, in order, with the batch, only when it is non-empty |
| DataProcessing.DataProcessor.NotifyCallbacks | data_processor.py:46-52 | no call for an empty batch; otherwise every registered callback once, in registration order, with the batch, a raising one included |
| DataProcessing.DataProcessor.UpdateFilters | data_processor.py:83-86 | exactly the given keys are overwritten, the others keep their values, and the reported configuration follows |
| DataProcessing.DataProcessor.GetStats | data_processor.py:88-90 | the snapshot is the counters; its configuration is the active one and filtered never exceeds total |
| OrderedDict.WithoutAll | kmz_generator.py:61-62 | removing a set of keys keeps exactly the others, no more elements than before, still without repeats |
| OrderedDict.WithoutAllAppend | kmz_generator.py:61-62 | removal distributes over concatenation, so the surviving keys keep their relative order |
| OrderedDict.WithoutOne | kmz_generator.py:62 | removing a key that occurs once cuts out exactly its position |
| OrderedDict.WithoutAllStep | kmz_generator.py:61-62 | deleting keys one after another equals deleting them all at once |
| OrderedDict.Dict.Put | kmz_generator.py:50 | assignment keeps the dictionary well formed and adds exactly the assigned key, mapped to the new value; the other keys keep their values; an existing key keeps its place and the order is unchanged, a new key goes last |
| OrderedDict.Dict.Delete | kmz_generator.py:62 | deletion keeps the dictionary well formed and removes exactly that key; a present key leaves just its own place in the order, the others keep their order and values; deleting an absent key changes nothing |
| OrderedDict.Dict.Values | kmz_generator.py:67 | one value per key, in key order, and exactly the stored values |
| AircraftCache.Upserted | kmz_generator.py:32-50 | the upsert keeps the database well formed and every entry stored under its own non-empty hex code |
| AircraftCache.Swept | kmz_generator.py:53-62 | exactly the entries with age at most the window remain; each has its age set to now minus last seen, so no remaining age exceeds the window; other fields are unchanged |
| AircraftCache.UpsertedKeys | kmz_generator.py:32-50 | after the upsert the keys are the old keys plus those of records with a truthy hex code; old keys keep their order and come first |
| AircraftCache.UpsertLastWins | kmz_generator.py:38-50 | the entry under a key is built from the last record of the batch with that key: lat, lon, heading, speed as read, altitude and vertical rate defaulting to 0, last seen now, age 0 |
| AircraftCache.UpsertUntouched | kmz_generator.py:32-50 | an entry whose key no record carries is unchanged by the upsert |
| AircraftCache.UpsertRefreshes | kmz_generator.py:46-47 | an entry refreshed by the batch has last seen now and age 0 |
| AircraftCache.RefreshedSurvive | kmz_generator.py:50-58 | with a non-negative window, the sweep of the same call never removes an entry the batch refreshed |
| AircraftCache.UntouchedKeepFields | kmz_generator.py:54-58 | an unexpired untouched entry keeps every field except its age |
| DecimalFormat.NatDigits | kmz_generator.py:112 | at least one decimal digit, with no leading zero |
| DecimalFormat.NatDigitsValue | kmz_generator.py:112 | the digits of a number denote that number |
| DecimalFormat.FormatRoundTrip | kmz_generator.py:112 | the three-figure text of any integer reads back as that integer |
| DecimalFormat.FormatShape | kmz_generator.py:112 | at least three characters, all digits except a leading minus exactly for negative numbers; exactly three characters from -99 to 999 |
| KmlPlacemarks.RoundHundreds | kmz_generator.py:111 | the result is within 50 of altitude/100 hundreds, and at an exact half it is even |
| KmlPlacemarks.RoundHundredsUnique | kmz_generator.py:111 | nearest with halves to even has exactly one answer, the one computed |
| KmlPlacemarks.LabelRoundTrip | kmz_generator.py:111-121 | the label is four spaces, the rounded altitude in three figures, and `" ^"` above 200, `" v"` below -200, nothing otherwise; reading it back gives the rounded altitude and the tendency |
| KmlPlacemarks.NullVersusAbsent | kmz_generator.py:39-117 | the stored entry of a positioned record fails to render exactly when its altitude or vertical rate is an explicit null; when both are absent or present, its point's label uses the value, 0 for an absent one |
| KmlPlacemarks.PlacemarksFail | kmz_generator.py:102-121 | the document fails exactly when some positioned aircraft has a null altitude or vertical rate |
| KmlPlacemarks.RenderCounts | kmz_generator.py:109-135 | one aircraft gives one point exactly when it has lat and lon, and one line exactly when it also has a heading and a positive speed |
| KmlPlacemarks.PlacemarkCounts | kmz_generator.py:102-164 | one point per positioned aircraft, one line per positioned aircraft with heading and positive speed, so never more lines than points |
| KmlPlacemarks.LineFollowsPoint | kmz_generator.py:123-164 | every prediction line comes right after the point of the same aircraft, from the same position |
| KmzGenerator.OptimizedKmzGenerator.constructor | kmz_generator.py:18-23 | an empty database, no update yet, and the given refresh interval and persistence time, 1 and 15 seconds when not given |
| KmzGenerator.OptimizedKmzGenerator.UpdateAircraftData | kmz_generator.py:25-62 | the new database is the sweep of the upsert of the batch into the old one, and the update time is now |
| KmzGenerator.OptimizedKmzGenerator.AgeEntries | kmz_generator.py:53-59 | every entry gets its age at now with its order kept; the collected keys are exactly those past the window |
| KmzGenerator.OptimizedKmzGenerator.RemoveExpired | kmz_generator.py:61-62 | deleting the collected keys from the aged database leaves the sweep's result |
| KmzGenerator.OptimizedKmzGenerator.GetCurrentAircraft | kmz_generator.py:64-67 | one entry per key, exactly the stored entries, with no sweep |
| KmzGenerator.OptimizedKmzGenerator.GenerateMinimalKml | kmz_generator.py:101-165 | the loop emits exactly the placemarks of the stored aircraft in database order, or fails where the source raises |

## Left out

- Connection lifecycle (`start`, `stop`, `_run_client`, `_connect_and_run`): TLS sockets, the authentication message, blocking reads, threads and sleeping before reconnecting are I/O and concurrency. A received chunk is the argument of `Receive`, and a new connection is `BeginSession`.
- `gzip.decompress`, `bytes.decode` and `json.loads` are library calls. They are the parameters `gunzip` and `parseJson`, and None stands for the exception the source catches. `parseJson` gives the values of the decoded object, in order.
- Firehose.FirehoseClient.ProcessBuffer: a payload that decodes to a truthy JSON value that is not an object, like a list, makes `process_aircraft_data` raise at `aircraft_dict.values()`, after it has counted the payload. The model only has objects, so this partial update is not modelled.
- DataProcessing.DataProcessor.ProcessAircraftData: `filter_pass_rate` is kept as the exact percentage `filtered / total * 100`, without Python's `round(…, 1)` to one decimal in floating point.
- DataProcessing.DataProcessor.ProcessAircraftData: callbacks are identities with a `raises` flag. A callback's own effects are outside the model, and the list of calls made is returned instead.
- DataProcessing.DataProcessor.ProcessAircraftData: records whose fields have other JSON types are not modelled. In the source, a string altitude compared with `min_altitude`, or a record that is not an object, makes `_passes_filters` raise partway through the batch. By then the payload and total counters, and possibly some on-ground and too-low counters, have already grown, while filtered and the pass rate have not; `_process_buffer` catches the error and the batch is not passed to the callbacks. In the model, altitudes and vertical rates are integers, positions, headings and speeds are reals, and `is_on_ground` is its truthiness.
- Locking: `threading.Lock` is concurrency. Each method call is atomic.
- The clocks `time.time()` and `datetime.now()` are the integer parameter `now` in seconds. `lastUpdateTime` records that same reading.
- KmzGenerator.OptimizedKmzGenerator.GenerateMinimalKml: the model gives the list of placemarks, not the XML text. It does not compute the far end of a prediction line (the floating-point geometry of kmz_generator.py:137-154).
- KmlPlacemarks.RoundHundreds: it rounds the exact quotient `altitude / 100`, halves to even. Python rounds the floating-point quotient. The two agree for altitudes of realistic size, but not for every integer: for 100000000000000149 the float quotient is 1000000000000001.5, which rounds to 1000000000000002, while the exact rounding is 1000000000000001.
- `generate_main_kml`, `create_kmz_from_kml` (XML templating and ZIP packaging), `web_server.py` (HTTP plumbing) and `main.py` (wiring and console output) are outside the core.
- KmzGenerator.OptimizedKmzGenerator.UpdateAircraftData: the source runs its three loops in one method body. The model runs the ageing loop and the deletion loop as the helper methods `AgeEntries` and `RemoveExpired`, which keeps each proof small. The order of the steps and their effects are the same.
- The source stores aliases of its entry dictionaries and changes `age_seconds` in place. The model's entries are values, so aliasing of an entry a caller still holds from `get_current_aircraft` is not modelled.
