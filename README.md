# AP_AIS receive path, modelled in Dafny

This project models the receive side of ArduPilot's AIS driver, class `AP_AIS`. AIS is the Automatic Identification System that ships broadcast over VHF; the driver reads it as NMEA `!AIVDM` sentences from a serial receiver. The model covers these parts:

- **Sentence decoder (`NmeaDecoder`).** `decode(c)` reads the sentence one character at a time into a 65-byte term buffer. It folds the XOR checksum, and `decode_latest_term` parses each term by its position. `char_to_hex` reads the two checksum digits.
- **Fragment buffer (`Fragments`).** It keeps up to ten `AIVDM` records in `_AIVDM_buffer`. `buffer_shift(i)` removes slot `i` and moves the later slots down. A message split over several sentences is reassembled when its last part arrives.
- **Six-bit primitives (`PayloadBits`).**
  - `payload_char_decode` undoes the ASCII armoring.
  - `get_bits` and `get_bits_signed` read big-endian bit fields across the 6-bit characters.
  - `get_char` reads 6-bit text fields.
- **Message decoders (`Messages`).** `payload_decode` dispatches on the message type. It decodes the position report (types 1, 2, 3), the base station report (type 4) and static and voyage related data (type 5). Field layouts follow ITU-R M.1371, Annex 8, sections 3.1, 3.2 and 3.3.
- **Vessel list (`Vessels`).**
  - `get_vessel_index` finds a vessel by its MMSI (Maritime Mobile Service Identity) or gives it a slot.
  - `clear_list_item` frees a slot.
  - Vessels are dropped after `_time_out` seconds.
  - `_send_index` walks the list round robin to choose the next vessel to report.
  - `enabled()` is modelled in `AisTypes`.

The state the driver updates in place is modelled as classes:
- `SentenceDecoder` holds the term buffer (an `array<char>`) and the decoder fields.
- `FragmentBuffer` holds the ten-slot `array<Aivdm>`.
- `VesselList` holds the expanding list (a `seq`) and `_send_index`.

Each method is proved equal to a function on values: `Step`/`CloseTerm`, `Shifted`/`Accepted`, and `VesselIndex`/`Cleared`/`Evicted`/`SendChoice`/`Received`. The properties are lemmas about those functions.

Decoders are paired with encoders that lay a message out bit by bit and armor it. The round-trip lemmas prove that `payload_decode` gives every encoded message back.

Integer widths follow the header: `uint8_t` term number and counters, a `uint16_t` send index, and the 32-bit millisecond clock with wrap-around. Decoded values are the raw integers of the message.

The model is built from the declarations, types, constants and comments of `libraries/AP_AIS/AP_AIS.h` and from the AIS and NMEA standards named above. `AP_AIS.cpp` is not part of this model. Where the header leaves the behaviour open, or the usual description of AIVDM handling differs from the header's `AIVDM` record, the model makes these choices:
- **Fill bits.** The `AIVDM` record (lines 73-78) has no fill-bit field. The fill-bit term is read but not kept, and a complete message carries no fill-bit count.
- **Reassembly.** The buffer holds whole fragments (`num`, `total`, `ID`, `payload`), not partly concatenated messages, packed at the front of its ten slots.
  - A fragment with `num` 0, `total` 0 or `num > total` is dropped.
  - A single-part message is complete at once and is not buffered.
  - Part 1 starts its message afresh: any fragments held for the same ID are freed, and part 1 is stored.
  - A later part is accepted only when parts `1..num-1` of the same message are held, in order. Otherwise the partial message is freed and the part is dropped.
  - The last part completes the message: the payloads of parts `1..total` are concatenated in part order and the held parts are freed.
  - A part to be stored in a full buffer first evicts the oldest partial message (the one in slot 0) whole. When that message is the part's own, the part is dropped with it.
  - Parts are matched by ID, total and part number only (see "## Left out").
- **`get_bits` upper bound.** The model offers both readings of `high`: `Inclusive` (the last bit read) and `Exclusive` (one past it). `PayloadBits.GetBitsBounds` relates the two. The message decoders use the inclusive ranges of the ITU-R M.1371 tables.
- **Invalid armor characters.** `payload_char_decode` returns a `uint8_t` for every character. An invalid character is rejected when a whole payload is decoded (`Messages.PayloadDecodeRejects`), not per character.

## Model

| member | source | states |
|---|---|---|
| AisTypes.Enabled | libraries/AP_AIS/AP_AIS.h:40 | AIS is enabled exactly when the receiver type parameter is not NONE (0) |
| PayloadBits.PayloadCharDecode | libraries/AP_AIS/AP_AIS.h:114-115 | the decoded value always fits in a uint8_t, and every armored character ('0'..'W', '`'..'w') decodes to a 6-bit value 0..63 |
| PayloadBits.ArmorChar | libraries/AP_AIS/AP_AIS.h:114-115 | every 6-bit value has an armored character that payload_char_decode maps back to it |
| PayloadBits.ArmorCharOfDecode | libraries/AP_AIS/AP_AIS.h:114-115 | on armored characters, decoding then re-armoring gives the character back, so the armoring is a bijection onto 0..63 |
| PayloadBits.FieldValue | libraries/AP_AIS/AP_AIS.h:110-112 | an n-bit field read from the payload is below 2^n |
| PayloadBits.FieldValueBit | libraries/AP_AIS/AP_AIS.h:110-112 | bit i of the payload stream is bit lo+n-1-i of the field value: big-endian, most significant bit first across character boundaries |
| PayloadBits.CharField | libraries/AP_AIS/AP_AIS.h:110-115 | the six bits of character k are that character's payload_char_decode value, modulo 64 |
| PayloadBits.GetBits | libraries/AP_AIS/AP_AIS.h:112 | the result fits in the field's width and in a uint32_t (fields of at most 32 bits) |
| PayloadBits.GetBitsDigits | libraries/AP_AIS/AP_AIS.h:112 | every bit of get_bits' result is the payload bit at the matching position, most significant first |
| PayloadBits.GetBitsBounds | libraries/AP_AIS/AP_AIS.h:112 | the exclusive reading of high is the inclusive reading of high-1, and it is the high-low bits starting at low |
| PayloadBits.GetBitsSigned | libraries/AP_AIS/AP_AIS.h:113 | two's-complement reading: the result lies in [-2^(w-1), 2^(w-1)) and fits an int32_t; it is negative exactly when the field's first bit is set; and the unsigned reading equals it plus 2^w when negative |
| PayloadBits.SixBitAscii | libraries/AP_AIS/AP_AIS.h:110-111 | a 6-bit text code maps into the printable AIS alphabet '@'..'_', ' '..'?' (32..95) |
| PayloadBits.SixBitAsciiCode | libraries/AP_AIS/AP_AIS.h:110-111 | the text character gives its 6-bit code back modulo 64, so the text alphabet is one-to-one |
| PayloadBits.GetChar | libraries/AP_AIS/AP_AIS.h:111 | get_char writes the field's width/6 text characters, with every '@' and every space followed only by padding turned into NUL, then a NUL terminator, and leaves the rest of the array unchanged |
| PayloadBits.CString | libraries/AP_AIS/AP_AIS.h:111 | the C string in a char buffer is the prefix before its first NUL |
| PayloadBits.TrimTrailingSpaces | libraries/AP_AIS/AP_AIS.h:111 | a prefix of the text that ends in a non-space, with only spaces after it |
| PayloadBits.CStringOfBuffer | libraries/AP_AIS/AP_AIS.h:111 | a buffer whose first NUL is at k holds the string of its first k characters |
| PayloadBits.TextFieldTrimmed | libraries/AP_AIS/AP_AIS.h:111 | for text without '@' or NUL, the string get_char leaves is the text without its trailing spaces |
| PayloadBits.NatToBitsRoundTrip | libraries/AP_AIS/AP_AIS.h:112 | writing a value as n big-endian bits and reading them back gives the value |
| PayloadBits.ArmorBits | libraries/AP_AIS/AP_AIS.h:114-115 | packing bits into armored characters gives a payload of one character per six bits, all of them armored |
| PayloadBits.ArmorBitsBit | libraries/AP_AIS/AP_AIS.h:110-115 | the payload bit stream of an armored bit string is that bit string |
| PayloadBits.ArmoredField | libraries/AP_AIS/AP_AIS.h:110-112 | a field read from armored bits is the value of those bits |
| NmeaDecoder.XorChecksumAppend | libraries/AP_AIS/AP_AIS.h:133 | the checksum accumulator of a concatenation is the XOR of the parts' checksums |
| NmeaDecoder.ChecksumDetectsChange | libraries/AP_AIS/AP_AIS.h:133 | replacing any one character by one of a different byte changes the checksum |
| NmeaDecoder.CharToHex | libraries/AP_AIS/AP_AIS.h:126-127 | the result is -1 or a nibble 0..15, and it is a nibble exactly when the character is a hex digit of either case |
| NmeaDecoder.HexDigit | libraries/AP_AIS/AP_AIS.h:126-127 | every nibble has a hex digit that char_to_hex maps back to it |
| NmeaDecoder.ChecksumDigits | libraries/AP_AIS/AP_AIS.h:126-133 | a checksum term matches exactly when both characters are hex digits of the accumulator's high and low nibble, and the upper-case rendering always matches |
| NmeaDecoder.ParseUint8 | libraries/AP_AIS/AP_AIS.h:74-76 | a numeric term parses only when it is a non-empty string of decimal digits |
| NmeaDecoder.DecimalRoundTrip | libraries/AP_AIS/AP_AIS.h:74-76 | the decimal digits of a number read back to that number |
| NmeaDecoder.ParseUint8RoundTrip | libraries/AP_AIS/AP_AIS.h:74-76 | every uint8_t written in decimal parses back to itself |
| NmeaDecoder.SentenceDecoder.constructor | libraries/AP_AIS/AP_AIS.h:129-136 | a new decoder has an empty 65-character term buffer and every field cleared |
| NmeaDecoder.SentenceDecoder.Decode | libraries/AP_AIS/AP_AIS.h:120-121 | decode(c) updates the fields and the term buffer exactly as Step does, and keeps the term offset inside the buffer with room for a NUL |
| NmeaDecoder.SentenceDecoder.EndTerm | libraries/AP_AIS/AP_AIS.h:120-136 | on a delimiter, a ',' is folded into the checksum; unless the sentence is done, the term is closed and the next term begins, as EndTermStep states |
| NmeaDecoder.SentenceDecoder.CloseAndAdvance | libraries/AP_AIS/AP_AIS.h:123-136 | the closed term is acted on as CloseTerm states, then the term number advances (uint8_t wrap-around), the term empties and the checksum flag records whether '*' ended it |
| NmeaDecoder.SentenceDecoder.NextTerm | libraries/AP_AIS/AP_AIS.h:130-134 | starting a term increments the uint8_t term number, empties the term and records whether it is the checksum term; nothing else changes |
| NmeaDecoder.SentenceDecoder.StartSentence | libraries/AP_AIS/AP_AIS.h:129-136 | a start marker resets term, term number, checksum and the three sentence flags |
| NmeaDecoder.SentenceDecoder.AddTermChar | libraries/AP_AIS/AP_AIS.h:130-135 | a term character is stored while the term has room (else the sentence becomes invalid) and is folded into the checksum outside the checksum term |
| NmeaDecoder.SentenceDecoder.DecodeLatestTerm | libraries/AP_AIS/AP_AIS.h:123-124 | the checksum term ends the sentence and reports success exactly when the checksum matches and the sentence is valid; term 0 must be "AIVDM"; terms 1, 2, 3 and 5 set total, num, ID and payload; the term offset is unchanged |
| NmeaDecoder.RunTermChars | libraries/AP_AIS/AP_AIS.h:130-133 | term characters are appended to the term in order and, outside the checksum term, XORed into the checksum |
| NmeaDecoder.RunBody | libraries/AP_AIS/AP_AIS.h:133 | through a sentence body the accumulator becomes the XOR of exactly the body's characters |
| NmeaDecoder.RunStartBody | libraries/AP_AIS/AP_AIS.h:133-136 | after a start marker and a body, the checksum is the XOR of the body and the sentence is neither done nor in its checksum term |
| NmeaDecoder.ChecksumTail | libraries/AP_AIS/AP_AIS.h:126-133 | the tail `*hh` and a terminator report a fragment only if hh matches the checksum accumulated before '*' |
| NmeaDecoder.AcceptedOnlyWithChecksum | libraries/AP_AIS/AP_AIS.h:120-133 | soundness: a sentence is accepted at its terminator only if its two checksum characters match the XOR of its body |
| NmeaDecoder.ChangedBodyRejected | libraries/AP_AIS/AP_AIS.h:120-133 | a correctly checksummed sentence with any one body character changed to another term character or `,` of a different byte is rejected; a change into `*`, `!`, `$`, CR or LF alters the sentence's framing and is not covered |
| NmeaDecoder.IdentifierClosed | libraries/AP_AIS/AP_AIS.h:123-124 | the identifier term "AIVDM" makes the sentence valid and moves on to term 1 |
| NmeaDecoder.TotalClosed | libraries/AP_AIS/AP_AIS.h:75 | term 1 written in decimal sets the fragment's total |
| NmeaDecoder.NumClosed | libraries/AP_AIS/AP_AIS.h:74 | term 2 written in decimal sets the fragment's part number |
| NmeaDecoder.IdClosed | libraries/AP_AIS/AP_AIS.h:76 | term 3 written in decimal sets the fragment's message ID |
| NmeaDecoder.IdClosedEmpty | libraries/AP_AIS/AP_AIS.h:76 | an empty term 3 sets the message ID to 0 and keeps the sentence valid exactly when it is a single-part message (total and num both 1) |
| NmeaDecoder.ChannelClosed | libraries/AP_AIS/AP_AIS.h:123-124 | term 4 (the radio channel) changes no fragment field |
| NmeaDecoder.PayloadClosed | libraries/AP_AIS/AP_AIS.h:77 | a non-empty term 5 becomes the fragment's payload |
| NmeaDecoder.RunNumbers | libraries/AP_AIS/AP_AIS.h:73-79 | the identifier and the numeric terms set total, num and ID of `_incoming`; the ID term may be empty in a single-part sentence, leaving ID 0 |
| NmeaDecoder.RunHeader | libraries/AP_AIS/AP_AIS.h:73-79 | the terms up to the payload fill in total, num, ID and payload of `_incoming` and leave the sentence valid |
| NmeaDecoder.SentenceAccepted | libraries/AP_AIS/AP_AIS.h:120-133 | completeness: a well-formed AIVDM sentence with the right checksum, its ID term in decimal or, for a single-part message, empty (`,1,1,,`), is accepted from any decoder state, leaving its total, part number, ID (0 when empty) and payload in `_incoming` |
| NmeaDecoder.IdentifierOnlyAccepted | libraries/AP_AIS/AP_AIS.h:123-136 | a sentence of the identifier term alone with a matching checksum (`!AIVDM*57`) is reported, and `_incoming` is left as the decoder held it |
| Fragments.Shifted | libraries/AP_AIS/AP_AIS.h:95-96 | buffer_shift(i) keeps the ten slots: the slots before i are unchanged, the later slots move down by one, and the last slot is freed |
| Fragments.ShiftedMultiset | libraries/AP_AIS/AP_AIS.h:95-96 | buffer_shift(i) removes exactly the record in slot i and adds one free record |
| Fragments.FirstFree | libraries/AP_AIS/AP_AIS.h:80 | the search returns the first free slot from lo, with every slot before it taken, or none when every slot from lo is taken |
| Fragments.PartsAppend | libraries/AP_AIS/AP_AIS.h:73-80 | the fragments of a message held in two runs of slots are those of the first run followed by those of the second |
| Fragments.Removed | libraries/AP_AIS/AP_AIS.h:95-96 | freeing the slots of a message keeps the buffer's ten slots |
| Fragments.RemovedParts | libraries/AP_AIS/AP_AIS.h:95-96 | after a message's slots are freed no fragment of it is held, and every other message holds exactly the fragments it held, in the same order |
| Fragments.RemovedPacked | libraries/AP_AIS/AP_AIS.h:95-96 | freeing a message's slots keeps the held fragments packed at the front of the buffer |
| Fragments.RemovedRoom | libraries/AP_AIS/AP_AIS.h:95-96 | freeing a message that has a fragment in the buffer leaves a free slot |
| Fragments.PutFirstFree | libraries/AP_AIS/AP_AIS.h:80 | a fragment written into the first free slot of a packed buffer keeps it packed and comes after every held fragment of its message |
| Fragments.StoredParts | libraries/AP_AIS/AP_AIS.h:80-96 | storing a fragment keeps the buffer packed and appends the fragment to its message; with every slot taken, the oldest message (slot 0) is evicted whole first; every other message keeps its fragments |
| Fragments.AcceptedOutput | libraries/AP_AIS/AP_AIS.h:73-80 | a malformed fragment yields nothing; a single-part message is returned at once and the buffer is unchanged; a multi-part message comes out exactly when its last part arrives after parts 1..total-1 of the same message held in order; it is then the payloads of parts 1..total concatenated in part order, each part of that ID and held in the buffer |
| Fragments.AcceptedOwnParts | libraries/AP_AIS/AP_AIS.h:73-80 | afterwards the fragment's own message holds part 1 alone after a part 1; nothing after an out-of-sequence part or a completed message; the held parts followed by the new one after any other part, unless the buffer was full and that message was the oldest |
| Fragments.AcceptedOtherParts | libraries/AP_AIS/AP_AIS.h:80-96 | every other message keeps exactly its fragments, unless the buffer was full and it was the oldest message, which is then evicted whole |
| Fragments.AcceptedPacked | libraries/AP_AIS/AP_AIS.h:80 | accepting a fragment keeps the held fragments packed at the front of the buffer |
| Fragments.EmptyBufferChained | libraries/AP_AIS/AP_AIS.h:80 | the empty buffer is packed and holds no partial message |
| Fragments.AcceptedChained | libraries/AP_AIS/AP_AIS.h:73-80 | every message the buffer holds is a run of parts 1..m in order, all with the same total and m below it; accepting any fragment keeps this |
| Fragments.SameIdJoined | libraries/AP_AIS/AP_AIS.h:73-80 | parts are matched by ID, total and part number only: part 1 of one message followed by parts 2 and 3 of another with the same ID and total are assembled into one payload |
| Fragments.OutOfOrderNotAssembled | libraries/AP_AIS/AP_AIS.h:73-80 | a part 2 whose part 1 was lost is dropped; the next message that reuses its ID comes out from its own two parts only, and nothing is left held for that ID |
| Fragments.FragmentBuffer.constructor | libraries/AP_AIS/AP_AIS.h:80 | the buffer starts as ten free records, packed, with no partial message |
| Fragments.FragmentBuffer.BufferShift | libraries/AP_AIS/AP_AIS.h:95-96 | buffer_shift(i) changes the array to Shifted(old contents, i) |
| Fragments.FragmentBuffer.FindFree | libraries/AP_AIS/AP_AIS.h:80 | the scan returns the first free slot (FirstFree) and changes nothing |
| Fragments.FragmentBuffer.Store | libraries/AP_AIS/AP_AIS.h:80-96 | storing a fragment changes the array to Stored(old contents, fragment) |
| Fragments.FragmentBuffer.PartsOf | libraries/AP_AIS/AP_AIS.h:73-80 | the scan returns the fragments held for the message, in slot order (Parts) |
| Fragments.FragmentBuffer.Concatenate | libraries/AP_AIS/AP_AIS.h:77-80 | the payloads of the given fragments are concatenated in order |
| Fragments.FragmentBuffer.RemoveParts | libraries/AP_AIS/AP_AIS.h:95-96 | freeing a message's slots by buffer_shift, from the last slot down, changes the array to Removed(old contents, ID) |
| Fragments.FragmentBuffer.Accept | libraries/AP_AIS/AP_AIS.h:73-80 | accepting a fragment keeps the buffer packed with every held message a run of parts 1..m (Chained), and leaves the array and the result that Accepted gives |
| Messages.Field | libraries/AP_AIS/AP_AIS.h:112 | an unsigned field from bit lo to bit hi, both included, is below 2^(hi-lo+1) |
| Messages.SignedField | libraries/AP_AIS/AP_AIS.h:113 | a signed field from bit lo to bit hi lies in [-2^(hi-lo), 2^(hi-lo)) |
| Messages.SignedFieldOf | libraries/AP_AIS/AP_AIS.h:113 | a field holding the two's-complement code of v reads back as v |
| Messages.TextField | libraries/AP_AIS/AP_AIS.h:111 | a text field of w bits yields at most w/6 characters |
| Messages.TextFieldOfChars | libraries/AP_AIS/AP_AIS.h:111 | a text field holding a text padded with spaces reads back as the text |
| Messages.TextRead | libraries/AP_AIS/AP_AIS.h:111 | a text field encoded six bits per character reads back as the text |
| Messages.DecodePositionReport | libraries/AP_AIS/AP_AIS.h:106 | a position report decodes exactly when the payload is 28 armored characters (168 bits), and every decoded field fits its width, with the given message type |
| Messages.DecodeBaseStationReport | libraries/AP_AIS/AP_AIS.h:107 | a base station report decodes exactly when the payload is 28 armored characters, and every decoded field fits its width |
| Messages.DecodeStaticVoyageData | libraries/AP_AIS/AP_AIS.h:108 | static and voyage data decodes exactly when the payload is 71 armored characters (424 bits and 2 fill bits), and every decoded field fits its width |
| Messages.MessageType | libraries/AP_AIS/AP_AIS.h:102-103 | for an armored payload the message type is the first six bits |
| Messages.PayloadDecode | libraries/AP_AIS/AP_AIS.h:102-103 | a payload decodes only when it is armored, and only to the kind of message its type names: 1 to 3 a position report carrying that type, 4 a base station report, 5 static and voyage data |
| Messages.PayloadDecodeRejects | libraries/AP_AIS/AP_AIS.h:102-108 | a payload with a character outside the armoring, or of neither message length, is not decoded |
| Messages.PositionRoundTrip | libraries/AP_AIS/AP_AIS.h:106 | decoding the encoded position report gives every field back, longitude, latitude and rate of turn included with their signs |
| Messages.BaseStationRoundTrip | libraries/AP_AIS/AP_AIS.h:107 | decoding the encoded base station report gives every field back |
| Messages.StaticVoyageRoundTrip | libraries/AP_AIS/AP_AIS.h:108 | decoding the encoded static and voyage data gives every field back, the three text fields without their trailing spaces |
| Messages.PositionDispatch | libraries/AP_AIS/AP_AIS.h:102-106 | payload_decode reads type 1, 2 or 3 from an encoded position report and decodes it back |
| Messages.BaseStationDispatch | libraries/AP_AIS/AP_AIS.h:102-107 | payload_decode reads type 4 from an encoded base station report and decodes it back |
| Messages.StaticVoyageDispatch | libraries/AP_AIS/AP_AIS.h:102-108 | payload_decode reads type 5 from encoded static and voyage data and decodes it back |
| Messages.PayloadDecodeRoundTrip | libraries/AP_AIS/AP_AIS.h:102-108 | every message of the three kinds survives encoding and payload_decode unchanged |
| Vessels.FirstWith | libraries/AP_AIS/AP_AIS.h:98-99 | the search returns the first slot holding the MMSI, or none when no slot holds it |
| Vessels.VesselIndex | libraries/AP_AIS/AP_AIS.h:98-99 | a slot found holds the MMSI; with no slot the list is unchanged; the list grows by at most one slot and only below _max_list; no other slot changes |
| Vessels.VesselIndexTracked | libraries/AP_AIS/AP_AIS.h:98-99 | a vessel already tracked is found in its own slot and nothing changes |
| Vessels.VesselIndexFails | libraries/AP_AIS/AP_AIS.h:98-99 | there is no slot exactly when the MMSI is not tracked, every slot is live and the list is at _max_list |
| Vessels.VesselIndexReusesFree | libraries/AP_AIS/AP_AIS.h:98-99 | a new vessel takes the first free slot rather than growing the list |
| Vessels.VesselIndexKeepsValid | libraries/AP_AIS/AP_AIS.h:98-99 | get_vessel_index keeps at most one live slot per MMSI and the list within _max_list |
| Vessels.Cleared | libraries/AP_AIS/AP_AIS.h:100 | clear_list_item zeroes the indexed slot and changes no other slot; an index past the end changes nothing |
| Vessels.ClearedForgets | libraries/AP_AIS/AP_AIS.h:98-100 | once its slot is cleared, a vessel is no longer found by its MMSI |
| Vessels.ClearedKeepsValid | libraries/AP_AIS/AP_AIS.h:100 | clearing a slot keeps MMSIs unique and the list within _max_list |
| Vessels.Age | libraries/AP_AIS/AP_AIS.h:84 | the age of a timestamp on the wrapping 32-bit millisecond clock, correct across the wrap |
| Vessels.EvictedExactly | libraries/AP_AIS/AP_AIS.h:84 | after the time-out sweep no vessel is stale, every stale vessel's slot is cleared, and every other slot is unchanged |
| Vessels.EvictionBoundary | libraries/AP_AIS/AP_AIS.h:59 | a vessel refreshed exactly _time_out seconds ago is kept, and one refreshed a millisecond earlier is dropped |
| Vessels.EvictedKeepsValid | libraries/AP_AIS/AP_AIS.h:59 | the time-out sweep keeps MMSIs unique and the list within _max_list |
| Vessels.RoundRobin | libraries/AP_AIS/AP_AIS.h:93 | the k-th slot after the send cursor always lies inside the list |
| Vessels.RoundRobinCovers | libraries/AP_AIS/AP_AIS.h:93 | one round from the send cursor visits every slot of the list |
| Vessels.NextDueStep | libraries/AP_AIS/AP_AIS.h:93 | finds the first step from the cursor whose vessel is due, with no due vessel at an earlier step, or reports that none is due |
| Vessels.SendChoice | libraries/AP_AIS/AP_AIS.h:93 | the vessel chosen for sending is in the list and due, and it is the first due vessel after the cursor in round-robin order |
| Vessels.SendChoiceNone | libraries/AP_AIS/AP_AIS.h:93 | nothing is chosen exactly when no vessel in the list is due |
| Vessels.Sent | libraries/AP_AIS/AP_AIS.h:85 | sending stamps the vessel's last_send_ms with now and changes no other slot |
| Vessels.SentKeepsValid | libraries/AP_AIS/AP_AIS.h:85 | stamping a send keeps MMSIs unique and the list within _max_list |
| Vessels.SentNotDue | libraries/AP_AIS/AP_AIS.h:85 | a vessel just sent is not due again at the same time, so the link is not spammed |
| Vessels.Merged | libraries/AP_AIS/AP_AIS.h:83-84 | a decoded message becomes the vessel's latest report of its kind and refreshes last_update_ms; the other reports, the MMSI and last_send_ms are kept |
| Vessels.Received | libraries/AP_AIS/AP_AIS.h:98-99 | a message whose MMSI gets no slot changes nothing |
| Vessels.ReceivedHolds | libraries/AP_AIS/AP_AIS.h:84 | after a message is received, the vessel found by its MMSI holds it and was refreshed at now |
| Vessels.ReceivedKeepsOthers | libraries/AP_AIS/AP_AIS.h:98-99 | receiving a message leaves every other live vessel's slot unchanged |
| Vessels.ZeroMmsiInherited | libraries/AP_AIS/AP_AIS.h:98-99 | a message with MMSI 0 is written into a free slot, and the next new vessel given that slot inherits its report |
| Vessels.VesselList.constructor | libraries/AP_AIS/AP_AIS.h:88-93 | the list starts empty with the send index at 0 |
| Vessels.VesselList.GetVesselIndex | libraries/AP_AIS/AP_AIS.h:98-99 | the loop returns found and the uint16_t index exactly as VesselIndex states, updates the list to match, and keeps one slot per MMSI within _max_list |
| Vessels.VesselList.ClearListItem | libraries/AP_AIS/AP_AIS.h:100 | the list becomes Cleared(old list, index); the send index is unchanged |
| Vessels.VesselList.EvictStale | libraries/AP_AIS/AP_AIS.h:59 | the sweep leaves the list Evicted(old list, now, _time_out) |
| Vessels.VesselList.SelectNext | libraries/AP_AIS/AP_AIS.h:93 | the scan from _send_index returns SendChoice; on a hit, that vessel's last_send_ms is stamped and _send_index moves to it; otherwise nothing changes |
| Vessels.VesselList.Receive | libraries/AP_AIS/AP_AIS.h:84 | receiving a decoded message updates the list as Received states, and keeps one slot per MMSI within _max_list |

## Left out

- `init()`, `update()` and the UART (AP_AIS.h:43-46, 91): serial I/O and scheduling. The caller feeds characters to `SentenceDecoder.Decode`. Eviction, selection and reception are separate methods, and the order in which `update()` calls them is not part of this model.
- `send()` and MAVLink (AP_AIS.h:48-49, 83): only the choice of the next vessel and the `last_send_ms` stamp are modelled (`SelectNext`). Building and sending the `mavlink_ais_vessel_t` message is left out. The minimum resend interval is a parameter, because its value is not in the header.
- `log_raw()`, `_log_options` and the logging options (AP_AIS.h:60, 67-71, 117-118): an output sink only.
- `var_info` and `AP_Param` (AP_AIS.h:52, 57-60): the parameters are plain integers, `Int8` for the type and `Int16` for the maximum list length and the time-out. The maximum list length is a constant of `VesselList`.
- `AP_ExpandingArray` (AP_AIS.h:89): its chunked growth is modelled as a sequence that grows one slot at a time and never beyond `_max_list`.
- Vessels.VesselIndex: ignores the `lat`/`lon` hint of `get_vessel_index` (AP_AIS.h:99), because the rule for matching a vessel by position is not in the header. Its default of 0 gives lookup by MMSI only.
- Vessels.Received: does not set aside MMSI 0. MMSI 0 is also the free-slot marker of the list, so a message with MMSI 0 is written into the first free slot. Getting a slot sets only its MMSI, so the next new vessel given that slot inherits the reports stored there (`Vessels.ZeroMmsiInherited`). `ReceivedHolds` is stated for MMSIs above 0.
- Vessels.Merged: keeps the latest decoded report of each kind as raw integers. It does not fill in the `mavlink_ais_vessel_t` fields or scale positions to degrees, speeds to knots or courses to degrees, because that needs floating point.
- Fragments.Accepted: matches parts by ID, total and part number only, because the `AIVDM` record (AP_AIS.h:73-78) carries nothing else that tells two messages apart. When message A loses parts 2 and 3 and message B, with the same ID and total, loses part 1, A's part 1 and B's parts 2 and 3 are assembled into one payload (`Fragments.SameIdJoined`).
- NmeaDecoder.AcceptedOnlyWithChecksum: states that a reported sentence had a matching checksum, not that its fields were read from it. The model accepts the checksum term on the checksum and `_sentence_valid` (AP_AIS.h:130-136) alone, with no check of how many terms came before it. So a sentence that stops after its identifier is reported with the fields the previous sentence left in `_incoming` (`NmeaDecoder.IdentifierOnlyAccepted`). The reassembly drops the cleared record of a fresh decoder, whose numbering is malformed, but not a repeat of an earlier sentence.
- The fill-bit term and the radio channel term are read but not stored, because the `AIVDM` record has no field for them.
- Message types other than 1 to 5 are not decoded: `payload_decode` reports them as not handled.
- `HAL_AIS_ENABLED` (AP_AIS.h:21-25, 139): compile-time gating.
