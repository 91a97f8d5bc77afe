# tini2p protocol model

A Dafny 4.11 model of the parts of tini2p, an I2P NTCP2 library, that are algorithms, with proofs of what they
are for. `dafny verify dfyconfig.toml` checks all of it.

- **Cursors and codecs** (`Bytes`, `Bits`, `Floats`, `Codecs`): the bounds-checked buffer cursors; Base32 and
  Base64 as the two loops over a 32-bit accumulator that is never masked, including the decoder's buffer size in
  single-precision arithmetic.
- **The router data stack** (`Mapping`, `Address`, `Identity`, `RouterInfo`, `Canonical`): a sorted, length-prefixed
  mapping inside self-delimiting addresses inside a signed RouterInfo, each as a class that writes and reads a buffer
  in place, with a parse function on plain bytes as its specification.
- **Blocks and data-phase messages** (`Blocks`, `LeafBlocks`, `BlockOrder`, `BlockIO`, `DataMessage`): the six block
  types, the two order checkers, and the container that writes and reads them.
- **The data phase** (`DataPhase`, `Lockstep`, `FirstMessage`): masks from a SipHash chain and one cipher per
  direction, with everything that leaves the two sides' states apart: masks used by failed writes, lengths that
  wrap, frames dropped by a signed comparison. Two peers over two channels that keep order, in any interleaving.
- **The handshake** (`ConfirmedMessage`, `Handshake`, `Session`): the three messages, and two peers taking turns over
  two byte streams.
- **The formats in numbers** (`Formats`, and the `Places` and `Limits` lemmas elsewhere): where each byte is, and which
  values are accepted, said again without the functions that write and read them.
- **HKDF** (`Hkdf`): expansion over a reused scratch buffer, against section 2.3 of RFC 5869.

A method that changes state is proved against a function of the old state (`ParseInfo`, `Serialized`,
`WriteFrame`, `ReadFrame`, `ParseConfirmed`, the turn functions of `Session`); the theorems are lemmas about those
functions. An exception is a result that says so (`ok` false, `None`, or a constructor), and contracts say what
state it leaves behind where anything can be observed of it. SipHash, SHA-256, HMAC, the AEAD, AES, signatures and
the Noise library are function-valued parameters of which only lengths and inverse laws are assumed; the key
agreement is assumed to give both peers the same ciphers. Clocks and random bytes are parameters.

What is not true of the code, and when it is:

- Base32 does not always recover what it encoded: the decoder's buffer is sized in single precision
  (`RoundTrip` says exactly when, `RoundTrip32Fails` gives the failing size). Base64's buffer is twice as large as
  needed, and never too small.
- A message whose blocks take 32768 bytes or more is written but never read: the length is compared as a signed
  number (`FrameFate`, `Recovered`). The sender's nonce and the receiver's then differ for good (`EveryRunPositions`).
- A message that turns out not to be serializable has already used up a mask (`BurnedExactly`; `OutOfOrderBurns` has
  one).
- A SessionConfirmed payload with less than 16 bytes of padding is not recovered after decryption, unless it has
  none and default options (`RecoveredExactly`). The session draws the padding from 32 bytes up to 65015 less the
  RouterInfo's size, and subtracts in unsigned integers (`AdmitsExactly`). Up to 64982 bytes of RouterInfo every
  padding drawn will do (`SmallEnough`, `SmallRecovers`); from 64983 to 65015 drawing one never ends; above, any 16-bit
  length may be drawn, and with some of them Bob throws (65016 bytes and 15 of padding, `BobThrows`), Alice throws
  (65400 and 50, `AliceThrows`), or Bob keeps the padding or options he had. `RecoversExactly` says when the
  handshake recovers the blocks.
- Bob's first data-phase message is his RouterInfo, and with more than 32763 bytes it is dropped without an error:
  Alice becomes ready having read nothing (`InfoIsRead`).
- An address whose options repeat a key does not end where its size says (`SkipLands`; `SkipFallsShort` has one).
- A RouterInfo that was read is not always written as the bytes that were read (`OriginalBytes`), and what verification
  looks at is then not what signing the contents would sign (`SignedBytes`; `TrailingByte` has one). Read from bytes
  without options, it cannot be read again at all (`CanonicalForm`, `WithoutOptions`).
- HKDF's key is the standard's only for multiples of 32 bytes: the number of rounds is rounded down
  (`DerivesExactly`).

Where the code and its own documentation differ, the model follows the code:

- The handshake options are written one field after the other, from offset 0; the documented offsets
  (src/ntcp2/session_request/message.h:54-62, src/ntcp2/session_created/message.h:61-67) are not used.
- A mapping is read to the end of its buffer, not of its length, and a zero length keeps stale entries.
- A key certificate's length field must be 7, the size of the whole certificate.
- The clock check subtracts in 32 bits, so timestamps in the future are rejected.
- Mapping sizes, dates, expirations and certificate fields are copied in the order the machine stores them; the
  model takes that order to be little-endian.

## Model

| member | source | states |
|---|---|---|
| Bytes.Reader.ReadData | src/bytes.h:204-285 | Reads exactly the next n bytes, or throws and stays where it was. |
| Bytes.Reader.SkipBytes | src/bytes.h:182-186 | Moves past n bytes exactly when so many are left. |
| Bytes.Reader.SkipBack | src/bytes.h:228-244 | Moves back n bytes exactly when so many have been passed. |
| Bytes.Writer.WriteData | src/bytes.h:296-305 | Appends to what was written and leaves everything after it alone, or throws and writes nothing. |
| Bits.StreamIn | src/crypto/codecs.h:220-230 | Shifting input into the unmasked accumulator, whose 32 bits wrap, loses no bit that has not been read out yet. |
| Bits.StreamOut | src/crypto/codecs.h:224-230 | Reading a group out of the accumulator yields the oldest bits still in it, and leaves the rest. |
| Codecs.ToCharIsAlphabet | src/crypto/codecs.h:97-180 | The branch-free arithmetic that picks a character is a look-up in the codec's alphabet, for every index. |
| Codecs.CharByte | src/crypto/codecs.h:97-180 | Character to index and index to character are inverse, and every other character maps to the error value. |
| Codecs.Encode | src/crypto/codecs.h:208-245 | The encoding loop yields the input's bit string, most significant bit first, cut into groups of 5 or 6 bits, the last filled with zeros, then padded, as in sections 4 and 6 of RFC 4648 with this alphabet. |
| Codecs.TextLength | src/crypto/codecs.h:208-245 | ceil(8n / E) alphabet characters; Base64 is padded to a multiple of four, Base32 not at all. |
| Codecs.Decode | src/crypto/codecs.h:261-300 | The decoding loop yields the whole octets of the leading alphabet characters, or the error that comes first. |
| Codecs.TextLead | src/crypto/codecs.h:208-300 | The decoder reads an encoding's alphabet characters up to its padding, and finds the groups that were written. |
| Codecs.SextetsBack | src/crypto/codecs.h:208-300 | The whole octets of the regrouped and zero-filled bits are the input, for every input. |
| Codecs.RoundTrip | src/crypto/codecs.h:208-308 | For every non-empty input and both codecs, decoding the encoding gives the input back exactly when the decoder's buffer is large enough, and throws otherwise. |
| Codecs.RoundTrip64 | src/crypto/codecs.h:208-308 | Base64 recovers every non-empty input, of any length, in spite of the single-precision buffer size. |
| Codecs.RoundTrip32 | src/crypto/codecs.h:208-308 | Base32 recovers every non-empty input whose encoding has fewer than 2^24 bits. |
| Codecs.RoundTrip32Fails | src/crypto/codecs.h:291-308 | Base32 cannot decode its own encoding of any 10485763 octets. |
| Codecs.DecodedLenExact | src/crypto/codecs.h:303-308 | While size * E < 2^24 the single-precision size is floor(5n/8) for Base32 and floor(3n/2) for Base64. |
| Codecs.DecodedLen64 | src/crypto/codecs.h:303-308 | Base64's buffer is never too small, rounding included. |
| Codecs.DecodedLenRoundsDown | src/crypto/codecs.h:303-308 | At 16777221 characters rounding makes Base32's buffer one octet too small. |
| Floats.Nearest | src/crypto/codecs.h:303-308 | A significand is rounded to the nearest integer, and to the even one of two. |
| Codecs.DecodeFails | src/crypto/codecs.h:273-300 | Up to that size decoding fails exactly when a character before the first '=' is outside the alphabet; the length check never fires. |
| Codecs.DecodeLength | src/crypto/codecs.h:273-300 | What is decoded are the floor(E*k/8) whole octets of the k leading characters. |
| Mappings.SortedUnique | src/data/router/mapping.h:123-126 | Two valid mappings with the same look-ups are the same sorted list. |
| Mappings.LessIsBefore | src/data/router/mapping.h:123-126 | The order of keys is by the first octet in which they differ, whatever their lengths; a key comes before those it begins. |
| Mappings.AddLimits | src/data/router/mapping.h:190-200 | An entry is accepted exactly when key and value have 1 to 255 octets and the mapping with it takes at most 65535 bytes. |
| Mappings.Written | src/data/router/mapping.h:203-224 | Where each entry is in the bytes: behind a little-endian length and the entries before it; its key and value each behind a length of one byte, with '=' after the one and ';' after the other. |
| Mappings.LengthLimits | src/data/router/mapping.h:227-246 | The length field read is zero, or from 6 to what the buffer has behind it, or an error. |
| Mappings.AddKeepsValid | src/data/router/mapping.h:190-200 | Adding keeps the entries sorted, distinct and within 16 bits, whether it is accepted or not. |
| Mappings.Mapping.Find | src/data/router/mapping.h:163-173 | Finds the value of a key, empty if there is none. |
| Mappings.Mapping.Size | src/data/router/mapping.h:175-184 | Two bytes and the entries' sizes; the 16-bit result is never truncated. |
| Mappings.Mapping.Add | src/data/router/mapping.h:190-200 | The first value for a key stays; a key or value of an impossible size, or one entry too many, throws. |
| Mappings.Mapping.Serialize | src/data/router/mapping.h:203-224 | The buffer holds the entries behind their length, each key before the next by the first octet in which they differ, or as its beginning. |
| Mappings.Mapping.Deserialize | src/data/router/mapping.h:227-273 | Computes the parse of the buffer: a zero length keeps the old entries, anything else replaces them. |
| Mappings.RoundTrip | src/data/router/mapping.h:203-273 | Reading a serialized mapping restores exactly its entries, and the capacity check never fires on the way; only an empty mapping read into a non-empty one restores nothing. |
| Mappings.CanonicalForm | src/data/router/mapping.h:203-273 | For any accepted bytes with a non-zero length, writing the entries again gives a sorted, duplicate-free form that reading and writing no longer change. |
| Mappings.OriginalBytes | src/data/router/mapping.h:203-273 | Writing again what was read gives the bytes that were read exactly when the length field is theirs, keys rise strictly and the delimiters are the ones serialization writes; reading insists on none of the three. |
| Mappings.EncodingDetermined | src/data/router/mapping.h:203-224 | Equal look-ups give equal bytes, in whatever order entries were added. |
| Mappings.EveryRun | src/data/router/mapping.h:163-273 | In every run of additions and readings, failed ones included, entries stay sorted, distinct and within 16 bits, and a look-up finds the first value accepted for its key since the entries were last replaced. |
| Mappings.LoadedSize | src/data/router/mapping.h:247-273 | The loaded entries account for all the bytes read exactly when no key was repeated. |
| Addresses.Address.Size | src/data/router/address.h:98-104 | The length of the encoding. |
| Addresses.Address.Serialize | src/data/router/address.h:107-126 | Writes cost, expiration, transport and options, or throws on parameters it does not support. |
| Addresses.Address.Deserialize | src/data/router/address.h:129-159 | Computes the parse of an address off the front of a buffer that goes on after it. |
| Addresses.SelfDelimiting | src/data/router/address.h:98-159 | The encoding followed by anything reads back as the address and leaves exactly what followed. |
| Addresses.TwoTransports | src/data/router/address.h:162-174 | Bytes with any cost, expiration, transport and valid options are read back exactly when the expiration is zero and the transport is "ntcp" or "ntcp2". |
| Addresses.HeaderPlaces | src/data/router/address.h:107-126 | Cost at 0, little-endian expiration at 1, the transport's length at 9, the transport at 10. |
| Addresses.SkipLands | src/data/router/info.h:329-354 | For any bytes that parse as an address, skipping its size lands on what follows it exactly when no option key is repeated, and short of it otherwise. |
| Addresses.SkipFallsShort | src/data/router/info.h:329-354 | An NTCP2 address with the option "a"="b" twice parses, whatever follows it, to one whose size is six bytes short of its own. |
| Addresses.AddrOriginal | src/data/router/address.h:107-159 | For any bytes that parse as an address: it is valid, and its encoding is the bytes parsed exactly when its option entries are in order. |
| Identities.Certificate.Serialize | src/data/router/certificate.h:188-203 | Seven bytes, or an exception for a type or length it does not know; an unsupported algorithm marks it unreachable. |
| Identities.Certificate.Deserialize | src/data/router/certificate.h:206-228 | Reads the fields the length calls for and trims its buffer to what was read. |
| Identities.CertBack | src/data/router/certificate.h:188-228 | A written certificate reads back, except that an object once marked unreachable stays so. |
| Identities.Identity.Serialize | src/data/router/identity.h:253-273 | Fresh padding; keys, padding and certificate in their fixed places; the hash is of those bytes. |
| Identities.Identity.Deserialize | src/data/router/identity.h:276-309 | Reads the certificate first and then the keys it names, or leaves the keys alone if it cannot use it. |
| Identities.IdentBack | src/data/router/identity.h:253-309 | A written identity reads back whatever follows it, unless the object has met an unsupported certificate before. |
| Formats.CertRead | src/data/router/certificate.h:206-272 | Seven bytes read as a certificate: refused unless the type is 0, or 5 with length 7; reachable exactly when the length is not zero, the crypto type 4 or 5 and the signing type 7, 11 or 12; without a length the types stay as they were. |
| Formats.IdentPlaces | src/data/router/identity.h:253-273 | Key at 0, padding at 32, signing key at 352, and at 384 the seven bytes of the certificate. |
| Infos.AddrsBack | src/data/router/info.h:329-354 | A list of addresses of any length reads back, each one parsed from all the rest of the buffer and skipped by its own size, whatever follows the list. |
| Infos.InfoBack | src/data/router/info.h:141-199 | What a new object reads from a written RouterInfo followed by anything: all of it; or, with no options, its own key option; or an exception for options without a key or version; never the same list for more than 255 addresses. |
| Infos.RoundTrip | src/data/router/info.h:141-199 | Reading recovers identity, date, addresses, options and signature and uses up the buffer exactly when there are at most 255 addresses and the options hold "s" and a "v" that begins with '2'. |
| Infos.Verifies | src/data/router/info.h:165-199 | For any correct signature scheme, what was signed when writing verifies after reading. |
| Formats.InfoPlaces | src/data/router/info.h:141-170 | Identity at 0, little-endian date at 391, the number of addresses in one byte at 399, the addresses, a zero byte, the options, the signature. |
| Formats.NeededOptions | src/data/router/info.h:356-382 | The options are accepted exactly when there is an entry "s" that is not empty and an entry "v" that begins with '2'. |
| Infos.NewOptionsOk | src/data/router/info.h:117-138 | The options a new RouterInfo ends up with can be read back unless those given already claim another version; "s", "i" and "v" are the text of the key, the text of the IV and "2", except where those given have them. |
| Infos.RouterInfo.Size | src/data/router/info.h:306-314 | The length of the encoding. |
| Infos.RouterInfo.Serialize | src/data/router/info.h:141-170 | Renews padding and date, writes all parts, signs what was written, and throws exactly on an unsupported address or a signing scheme that is not implemented. |
| Infos.RouterInfo.Deserialize | src/data/router/info.h:172-192 | Computes the parse of the buffer. |
| Infos.RouterInfo.Verify | src/data/router/info.h:195-199 | The signature is checked over the buffer but its last 64 bytes, under the identity's own key and scheme; it throws exactly when there is nothing before those, the signature was made or read under another scheme, or the scheme is one of the two that are not implemented. An object whose buffer is the encoding of its contents, as serializing and a full read leave it, passes exactly when its signature verifies for those contents, so what the scheme signed always passes. |
| Infos.ReadAddresses | src/data/router/info.h:329-354 | The reading loop computes the list of addresses and where it ends, each address parsed from the rest of the buffer put in front of the 17 bytes a new address holds. |
| Addresses.Address.constructor | src/data/router/address.h:40-49 | A new address serializes itself: 17 bytes, with the default cost, NTCP2 and no options. |
| Infos.EverySize | src/data/router/info.h:75-87 | There are valid, readable RouterInfos of every size from 479 bytes up to what a block can hold. |
| Infos.RouterInfo.ReadOptions | src/data/router/info.h:356-382 | Reads the options, insisting on key and version unless there are none. |
| CanonicalInfos.AddrsOriginal | src/data/router/info.h:329-354 | For any bytes that parse as n addresses: all are valid, and their encodings are the bytes skipped exactly when the options of each are in order. |
| CanonicalInfos.CanonicalForm | src/data/router/info.h:141-199 | For any bytes read under a supported key certificate: the contents are valid, and their encoding reads back to them, whatever the object held before, exactly when the bytes had options of their own. |
| CanonicalInfos.OriginalBytes | src/data/router/info.h:141-199 | And that encoding is the bytes read exactly when every mapping in them is in order, the peer size is zero, there are options, and nothing follows the signature. |
| CanonicalInfos.SignedBytes | src/data/router/info.h:195-199 | Exactly then what verification looks at is what signing the contents that were read would sign. |
| CanonicalInfos.TrailingByte | src/data/router/info.h:172-199 | Any written RouterInfo that can be read, with one more byte behind it, is read as if it had none, and is not in order. |
| CanonicalInfos.WithoutOptions | src/data/router/info.h:356-391 | A written RouterInfo without options is read once, its key added; what was read, written again, is an exception. |
| Blocks.ByteRatio | src/data/blocks/options.h:118-177 | A ratio read from a byte is acceptable, and is written as the same byte. |
| Blocks.AcceptableSize | src/data/blocks/block.h:104-113 | No block that can be serialized is large enough for its 16-bit size to wrap. |
| Formats.Sizes | src/data/blocks/block.h:104-107 | The 16-bit size of every block, acceptable or not, by what is in it. |
| Blocks.RecentExactly | src/time.h:67-70 | A timestamp passes exactly from now back to 360 seconds ago, across the wrap of 32 bits too; one second ahead does not. |
| Blocks.Limits | src/data/blocks/i2np.h:190-233 | Which messages are accepted, by number: types 1, 2, 3, 10, 11 and 18 to 24, at most 65498 bytes, not yet expired; and likewise the contents of the five other kinds of block. |
| Blocks.RatioDown | src/data/blocks/options.h:118-139 | The byte of a ratio is the number of whole sixteenths in it. |
| Formats.BlockPlaces | src/data/blocks/block.h:45-113 | Type number at 0, the length of the rest at 1, most significant byte first, the payload at 3. |
| Formats.MessagePlaces | src/data/blocks/i2np.h:108-126 | Message type at 0, id at 1, expiration at 5, message at 9; and the places in date, termination and padding payloads. |
| Formats.OptionsPlaces | src/data/blocks/options.h:118-139 | Four ratios in whole sixteenths, then four 16-bit numbers. |
| Formats.EmptyBlock | src/data/blocks/blocks.h:172-197 | What a block with a zero size field is read as, for every type. |
| Blocks.BlockBack | src/data/blocks/blocks.h:172-218 | Every block that can be written and read at a time reads back whatever follows it, ratios rounded down to sixteenths and all else exact. |
| LeafBlocks.DateTimeBlock.Serialize | src/data/blocks/date_time.h:93-103 | Writes the block exactly when its timestamp is not ahead of the clock and at most 360 seconds old, its size field is the right one and its buffer, which keeps its size, has room. |
| LeafBlocks.DateTimeBlock.Deserialize | src/data/blocks/date_time.h:106-128 | From any buffer: reads the timestamp exactly when the type is 0, the size 4 and the timestamp not ahead of the clock and at most 360 seconds old. |
| LeafBlocks.I2NPBlock.Serialize | src/data/blocks/i2np.h:108-126 | Writes the block exactly when type, expiration and length are acceptable; a length that wraps 16 bits never slips through. |
| LeafBlocks.I2NPBlock.Deserialize | src/data/blocks/i2np.h:129-146 | From any buffer: reads header and message, which is all that is left, and insists on type, size and expiration; without a message the object keeps the one it had. |
| LeafBlocks.OptionsBlock.Serialize | src/data/blocks/options.h:118-139 | Writes ratios in sixteenths, and the delays, exactly when the ratios are in range, the size field is 12 and the buffer has room. |
| LeafBlocks.OptionsBlock.Deserialize | src/data/blocks/options.h:142-177 | From any buffer: reads them back, insisting on type and sizes. |
| LeafBlocks.PaddingBlock.Serialize | src/data/blocks/padding.h:93-109 | Draws the padding anew and writes it; of a length that wraps 16 bits only the multiples of 65536 pass, and write no padding. |
| LeafBlocks.PaddingBlock.Deserialize | src/data/blocks/padding.h:112-126 | From any buffer: reads the padding, insisting on type and size; with a zero size the object keeps what it had. |
| LeafBlocks.TerminationBlock.Serialize | src/data/blocks/termination.h:128-143 | Writes the block exactly when reason and length are acceptable. |
| LeafBlocks.TerminationBlock.Deserialize | src/data/blocks/termination.h:146-162 | From any buffer: reads reason, frame count and additional data, which is all that is left, insisting on type, size and reason. |
| LeafBlocks.FramedRead | src/data/blocks/blocks.h:172-197 | From a buffer that holds exactly one block, a new object reads what the parse of that block says. |
| LeafBlocks.InfoBlock.Serialize | src/data/blocks/info.h:149-164 | Serializes the RouterInfo anew, signature included, behind its flag; fails exactly without a RouterInfo, with one whose size is not the block's or out of bounds, or with one of unsupported addresses or of an unimplemented signing scheme. |
| LeafBlocks.InfoBlock.Deserialize | src/data/blocks/info.h:168-184 | From any buffer: reads a RouterInfo that accounts for all bytes of the block. |
| BlockIO.RefreshedAcceptable | src/data/blocks/blocks.h:207-218 | A block that passes serialization's checks is acceptable as renewed. |
| Formats.Renewal | src/data/blocks/blocks.h:125-140 | Writing draws padding anew, gives a RouterInfo new identity padding, a new date and a signature over its new bytes that verifies, and changes nothing else in any block. |
| BlockIO.SerializeBlock | src/data/blocks/blocks.h:125-140 | Serializes a block of any type exactly when it is acceptable, or fails and leaves it as it was. |
| BlockIO.WriteToBuffer | src/data/blocks/blocks.h:207-218 | Appends a block's bytes, renewed, to what has been written, exactly when it can be serialized and there is room. |
| BlockIO.ReadToBlock | src/data/blocks/blocks.h:172-197 | Computes the parse of one block off the front of the rest; a zero size leaves the block as constructed. |
| BlockOrder.CheckDataOrder | src/data/blocks/blocks.h:337-357 | The loop accepts exactly the lists where nothing follows padding and only padding follows termination. |
| BlockOrder.DataOrderLanguage | src/data/blocks/blocks.h:318-357 | Those are exactly (neither padding nor termination)* termination? padding?. |
| BlockOrder.DataOrderIncremental | src/data/blocks/blocks.h:369-376 | A list is in order exactly when all its prefixes are. |
| BlockOrder.CheckConfirmOrder | src/data/blocks/blocks.h:288-316 | The loop accepts the empty list and exactly Info, Info Options, Info Padding and Info Options Padding. |
| BlockOrder.ParserOrder | src/ntcp2/session_confirmed/message.h:156-199 | The message parser's own counting accepts the same non-empty sequences. |
| DataMessages.SerializedAll | src/ntcp2/data_phase/message.h:72-94 | Serialization succeeds exactly when every block can be written, and then every block is its original, renewed. |
| DataMessages.MessageBack | src/ntcp2/data_phase/message.h:72-116 | An order-valid list of readable blocks followed by any 16 bytes parses back to the same list. |
| DataMessages.DataPhaseMessage.Size | src/ntcp2/data_phase/message.h:66-69 | The sum of the blocks' sizes. |
| DataMessages.DataPhaseMessage.AddBlock | src/ntcp2/data_phase/message.h:126-140 | A block too large leaves the list alone; a block out of order fails but stays in it. |
| DataMessages.DataPhaseMessage.ClearBlocks | src/ntcp2/data_phase/message.h:178-182 | The list is empty afterwards. |
| DataMessages.DataPhaseMessage.Serialize | src/ntcp2/data_phase/message.h:72-94 | Checks size and order first, then writes and renews blocks up to the first that is rejected; the size field and all bytes after the blocks stay. |
| DataMessages.DataPhaseMessage.Deserialize | src/ntcp2/data_phase/message.h:97-116 | Computes the parse of the buffer; the list changes only if all of it succeeds. |
| DataMessages.StuckUntilCleared | src/ntcp2/data_phase/message.h:72-182 | Once a block was rejected for its order, every later addition and serialization fails, in any run without a clear. |
| DataMessages.AddsAccepted | src/data/blocks/blocks.h:369-376 | Adding blocks one at a time succeeds throughout exactly when one check of order and size of the whole list would. |
| Bits.XorTwice | src/ntcp2/data_phase/data_phase.h:96-101 | Masking twice with the same mask restores the length. |
| DataPhases.UnmaskLength | src/ntcp2/data_phase/data_phase.h:96-101 | The same for the 16-bit length field. |
| DataPhases.MaskedBits | src/ntcp2/data_phase/data_phase.h:96-101 | Each of the 16 bits is set exactly where length and mask differ. |
| DataPhases.KDF.constructor | src/ntcp2/data_phase/data_phase.h:67-90 | The keys and IVs of each direction, and its cipher: the first one split off is Alice's to Bob for the data phase's initiator, and Bob's to Alice for its responder. |
| DataPhases.KDF.DeriveMask | src/ntcp2/data_phase/data_phase.h:165-184 | The mask is 256 d[0] + d[1] for the digest d of the direction's own IV under its own key; that IV becomes d's first eight bytes, and the other direction's stays. |
| DataPhases.KDF.ProcessLength | src/ntcp2/data_phase/data_phase.h:96-101 | Masks a length and moves one direction's chain on by one. |
| DataPhases.DataPhase.Write | src/ntcp2/data_phase/data_phase.h:207-239 | The state left behind and the frame: refused without effect, failed after one mask was used, or sent; lengths wrap at 16 bits. |
| DataPhases.DataPhase.Read | src/ntcp2/data_phase/data_phase.h:243-275 | The state left behind and the blocks: refused unread, dropped without an error, failed, or read; the message changes only in the last case. |
| DataPhases.EveryFrameRead | src/ntcp2/data_phase/data_phase.h:243-275 | What becomes of any frame, by the number left when the digest's first two bytes are taken off its own: dropped up to 16 and from 32784 on, failed when it is cut short or not authentic, and otherwise read or failed by its blocks; the IV moves on in every case, the nonce only for an authentic frame. |
| DataPhases.FrameParts | src/ntcp2/data_phase/data_phase.h:217-238 | Encrypting the filled buffer in place gives the frame: masked length, then the encryption of all blocks, or of as many bytes as the buffer leaves when the length wrapped. |
| Lockstep.FrameFate | src/ntcp2/data_phase/data_phase.h:213-275 | For every total size that writing lets through: up to 32767 the frame is decoded, up to 65535 it is dropped without an error, above it is refused. |
| Lockstep.Recovered | src/ntcp2/data_phase/data_phase.h:207-275 | A receiver in the sender's state recovers the blocks and reaches the sender's next state exactly when the total is at most 32767. |
| Lockstep.BurnedExactly | src/ntcp2/data_phase/data_phase.h:213-230 | A failed write uses up a mask exactly when the message is not refused as empty and is then too large, out of order or not serializable. |
| Lockstep.OutOfOrderBurns | src/ntcp2/data_phase/data_phase.h:213-230 | Writing a date block after empty padding fails, and has used up a mask. |
| Lockstep.DirectionsIndependent | src/ntcp2/data_phase/data_phase.h:96-275 | In every run, one direction's state is what its own steps alone produce: no interleaving with the other direction makes a difference. |
| Lockstep.EveryRunPositions | src/ntcp2/data_phase/data_phase.h:207-275 | In every run with any messages, the sender's IV leads the receiver's by the frames in flight, the failed writes and the frames refused unread; its nonce leads by the frames in flight and those lost. |
| Lockstep.FrameOnWire | src/ntcp2/data_phase/data_phase.h:207-239 | Every frame is its 16-bit length xor the first two bytes of the digest of the IV, then the sealed bytes. |
| Lockstep.EveryFrame | src/ntcp2/data_phase/data_phase.h:207-239 | In every run, a message that is sent goes out under mask number (messages sent + failed writes) of the chain IV, sip(key, IV)[..8], ..., and under nonce number (messages sent). |
| Lockstep.StaysLocked | src/ntcp2/data_phase/data_phase.h:207-275 | In every run whose messages fit and are read in time, each frame read yields the blocks written in its place, and what is in flight is in step. |
| Lockstep.Trails | src/ntcp2/data_phase/data_phase.h:165-275 | In step, the receiver trails the sender by exactly as many masks and nonces as there are frames in flight. |
| Lockstep.EverySession | src/ntcp2/data_phase/data_phase.h:67-275 | Two peers that split one handshake, from the start, for each direction on its own: in every run the IVs are those of the chain after the masks used; and where the messages fit, the i-th frame, in flight or read, is under the i-th mask and the i-th nonce, and what was read is what was written. |
| FirstMessage.StreamIsRead | src/ntcp2/session/session.h:632-692 | Reading two bytes, unmasking outside the reader and reading as many as they announce takes exactly one frame off any stream, and does what the reader does with the masked frame. |
| FirstMessage.ReceiveFirst | src/ntcp2/session/session.h:627-692 | The session's first read computes just that, and the session becomes ready exactly when the length was not zero, the frame was read or dropped without an error, and no RouterInfo in it has another static key than the destination's (`ReadyByInfo`). |
| FirstMessage.ReadyByInfo | src/ntcp2/session/session.h:660-676 | Of a message that was read: she is ready exactly when its first RouterInfo's "s" option is the very one she has for him, or it has no RouterInfo. |
| FirstMessage.InfoIsRead | src/ntcp2/session/session.h:693-720 | Bob's first message is his RouterInfo: in step with him, Alice recovers it exactly when it has at most 32763 bytes; up to 65515 she drops it without an error; at 65516, the largest a block holds, the length wraps to zero and she never becomes ready. |
| FirstMessage.InfoMakesReady | src/ntcp2/session/session.h:660-720 | So with a RouterInfo of at most 32763 bytes she is ready exactly when its key option is the one she has; with one of up to 65515 always, and with one of 65516 never. |
| FirstMessage.MessageArrives | src/ntcp2/session/session.h:627-692 | The same for any message, by its total size, for every size whose length does not wrap past zero. |
| ConfirmedMessages.WithoutTail | src/ntcp2/session_confirmed/message.h:130-203 | What a receiver ends up with when no tag follows the payload, for every padding length: everything from 16 bytes on, an exception for 14 and 15, the old padding for 1 to 13, the old options too for none. |
| ConfirmedMessages.WithTail | src/ntcp2/session_confirmed/message.h:130-203 | With 16 more bytes behind them all blocks are read, whatever the padding. |
| ConfirmedMessages.RecoveredExactly | src/ntcp2/session_confirmed/message.h:95-203 | A new receiver recovers the payload exactly with at least 16 bytes of padding, or with none and default options. |
| ConfirmedMessages.PartsMisread | src/ntcp2/session_confirmed/message.h:130-203 | A payload whose RouterInfo cannot be read back is an exception, or gives another RouterInfo than the one written. |
| ConfirmedMessages.ReadInOrder | src/ntcp2/session_confirmed/message.h:130-203 | Every payload read without an error has its blocks in one of the four orders. |
| ConfirmedMessages.SessionConfirmedMessage.PayloadSize | src/ntcp2/session_confirmed/message.h:95-102 | The blocks and the tag, in 16 bits; an empty padding block is not counted. |
| ConfirmedMessages.SessionConfirmedMessage.Serialize | src/ntcp2/session_confirmed/message.h:105-127 | Writes the renewed blocks in order and room for the tag; fails exactly on a block that cannot be written or a total that wraps. |
| ConfirmedMessages.SessionConfirmedMessage.Deserialize | src/ntcp2/session_confirmed/message.h:130-203 | Computes the parse of the payload over the blocks the message had. |
| Handshake.HandshakeState.Derive | src/ntcp2/session_created/kdf.h:69-82 | Mixes ciphertext, then padding, unless one is empty. |
| Handshake.HeaderBack | src/ntcp2/session_request/session_request.h:105-171 | The reader of a fixed part recovers the payload, and its transcript afterwards is the writer's. |
| Handshake.OptionsBack | src/ntcp2/session_request/message.h:128-149 | Request and created options read back, over any previous contents of their buffers. |
| Handshake.RequestPlaces | src/ntcp2/session_request/message.h:128-137 | Version at 0, padding length at 1, part two's length at 3, timestamp at 5, most significant byte first; the rest of the buffer stays. |
| Handshake.CreatedPlaces | src/ntcp2/session_created/message.h:105-112 | Padding length at 0, timestamp at 2; the rest of the buffer stays. |
| Handshake.OkExactly | src/ntcp2/session_request/message.h:152-165 | Version 2, padding of at most 65471 bytes, part two of 456 to 65471, a timestamp not ahead of the clock and at most 360 seconds old; for message two the padding and the timestamp. |
| Handshake.SessionRequestMessage.Write | src/ntcp2/session_request/session_request.h:105-139 | Fixed part and padding; the saved ciphertext is what was sent; fails exactly on bad options or too little padding. |
| Handshake.SessionRequestMessage.Read | src/ntcp2/session_request/session_request.h:141-182 | Recovers the options, saves the ciphertext, and takes padding only if the buffer holds exactly that. |
| Handshake.SessionCreatedMessage.Write | src/ntcp2/session_created/session_created.h:84-115 | The same for message two, without a least padding. |
| Handshake.SessionCreatedMessage.Read | src/ntcp2/session_created/session_created.h:117-159 | The same for message two. |
| Rand.RandInRange | src/crypto/rand.h:59-71 | Draws until a number is in range, and returns the first that is. |
| Rand.DrawnExactly | src/crypto/rand.h:59-71 | With a positive minimum, the numbers that may come out are those from the minimum up to, but not including, the maximum; when there are none, the loop never ends. |
| Sessions.AdmitsExactly | src/ntcp2/session/session.h:142-146 | The padding lengths the constructor may draw, its unsigned subtraction and the cut to 16 bits included: 32 up to below 65015 - size for RouterInfos of at most 65015 bytes, none at all between 64983 and 65015, any 16-bit length above. |
| Sessions.PayloadTotal | src/ntcp2/session_confirmed/message.h:95-102 | The payload takes size + 35 bytes, and 3 + padding if there is padding, without wrapping. |
| Sessions.EveryPair | src/ntcp2/session_confirmed/message.h:78-86 | Every RouterInfo size from 479 bytes and every padding that keep the payload within 16 bits belong to some message three that can be constructed. |
| Sessions.EveryBeginning | src/ntcp2/session/session.h:139-180 | A handshake as the theorems below suppose it can begin with every such RouterInfo and padding, with any first two paddings of 32 to 65471 bytes, and lasts in time for 360 seconds. |
| Sessions.SmallEnough | src/ntcp2/session/session.h:142-146 | A RouterInfo is recoverable with every padding that may be drawn for it exactly when it has at most 65015 bytes. |
| Sessions.LastBack | src/ntcp2/session_confirmed/session_confirmed.h:86-135 | Message three is as long as announced, and for every padding it reads back as a payload without a tag does: static key, the blocks received, and the sender's transcript, or an exception. |
| Sessions.OwnKeyMatches | src/ntcp2/session/session.h:584-597 | A RouterInfo whose "s" option is the Base64 text of the handshake's static key passes the comparison of the two. |
| Sessions.OtherKeyFails | src/ntcp2/session/session.h:584-597 | One whose "s" option is the text of any key passes exactly when that key, of the same length, is the handshake's. |
| Sessions.StepExpected | src/ntcp2/session/session.h:361-607 | In each of the nine states of a handshake one peer's turn leads to the next state, or to the exception its payload calls for there, and the other's, for want of input, changes nothing. |
| Sessions.EveryHandshake | src/ntcp2/session/session.h:361-607 | In every run, whatever the order of turns, for every RouterInfo and padding message three can be constructed with: every byte in flight is accounted for, and there is an exception exactly when the run gets to Alice's first turn with a payload above 65471 bytes, or to Bob's last with 14 or 15 bytes of padding or another static key in the RouterInfo; a RouterInfo that cannot be read back is an exception there, or read as another one. |
| Sessions.RecoversExactly | src/ntcp2/session/session.h:361-607 | In every run with turns enough, message three is sent and Bob recovers all of its blocks exactly when the RouterInfo can be read back (at most 255 addresses, key and version among its options) and names the handshake's static key, the payload takes at most 65471 bytes, and there are at least 16 bytes of padding, or none and no options but those Bob has. |
| Sessions.WrongKeyThrows | src/ntcp2/session/session.h:572-600 | In every run with turns enough, with a RouterInfo that can be read back and announced and that names a key of 32 bytes, Bob throws exactly when that key is not the one sent, or with 14 or 15 bytes of padding. |
| Sessions.SmallRecovers | src/ntcp2/session/session.h:142-146 | With at most 65015 bytes of such a RouterInfo that is so in every run, whatever padding the constructor draws. |
| Sessions.BobThrows | src/ntcp2/session/session.h:142-146 | A RouterInfo of 65016 bytes with 15 bytes of padding, which may be drawn, is sent, and Bob throws. |
| Sessions.AliceThrows | src/ntcp2/session/session.h:142-146 | A RouterInfo of 65400 bytes with 50 bytes of padding, which may be drawn, fails at Alice's first turn. |
| Sessions.Finished | src/ntcp2/session/session.h:361-607 | At the end both transcripts are the same explicit list of items, nothing is left unread, and Bob holds Alice's options, static key and what is received of her blocks. |
| Sessions.SealedInOrder | src/ntcp2/session/session.h:361-607 | Each part of each message is sealed under the explicit list of all that was mixed before it, and the ephemeral keys go out encrypted. |
| Sessions.Session.AliceRequest | src/ntcp2/session/session.h:370-400 | Alice's first message and her state after it. |
| Sessions.Session.BobRequest | src/ntcp2/session/session.h:402-419 | Bob's state once the 64 bytes of the fixed part have arrived. |
| Sessions.Session.BobRequestPadding | src/ntcp2/session/session.h:418-437 | And once the announced padding has. |
| Sessions.Session.BobCreated | src/ntcp2/session/session.h:511-529 | Bob mixes in the request, and answers. |
| Sessions.Session.AliceCreated | src/ntcp2/session/session.h:469-485 | Alice mixes in the request, and reads the answer's fixed part. |
| Sessions.Session.AliceCreatedPadding | src/ntcp2/session/session.h:485-500 | And its padding. |
| Sessions.Session.AliceConfirmed | src/ntcp2/session/session.h:553-569 | Alice mixes in the answer, and sends message three if it has the size she announced. |
| Sessions.Session.BobConfirmed | src/ntcp2/session/session.h:572-600 | Bob mixes in his answer, reads message three, and fails when its RouterInfo is missing or names another key of that length than the handshake's. |
| Hkdfs.KDFContext.Set | src/crypto/kdf_context.h:69-84 | The context is the first 16 bytes of the info, or all of it. |
| Hkdfs.Digests | src/crypto/hkdf.h:118-140 | The reused scratch buffer yields T(1), T(2), ... of section 2.3 of RFC 5869. |
| Hkdfs.ExpandKeyMaterial | src/crypto/hkdf.h:100-157 | Writes the blocks one after the other, cut to the buffer, and leaves what is behind them alone; with enough rounds this would be the standard's key for any length. |
| Hkdfs.Derive | src/crypto/hkdf.h:67-97 | Checks both lengths, and expands by the length divided by 32 in integers. |
| Hkdfs.DerivesExactly | src/crypto/hkdf.h:67-157 | Whatever the output buffer held before, the derived key is the standard's exactly when its length is a multiple of 32. |
| Hkdfs.DerivesPrefix | src/crypto/hkdf.h:67-157 | For every length the whole digests that fit are the standard's, and the tail, shorter than a digest, is untouched. |

## Left out

- Sockets, strands, threads, timers and mutexes: only the order of handlers and the bytes they read and write are
  kept. A handler is called once all its bytes have arrived; end of file, on which the session goes on with what
  it has, is not modelled.
- Which static keys are loaded into the handshake, and the derivation of the SipHash keys: runs begin with equal
  keys on both sides.
- Sessions.Session.BobConfirmed: a key in the RouterInfo that decodes to more than the handshake's 32 bytes counts as
  another key, and so does a RouterInfo block without a RouterInfo; what the original does then is undefined.
- FirstMessage.ReceiveFirst: likewise a RouterInfo block without a RouterInfo counts as one with another key.
- Lockstep.FrameFate: the library encrypts messages of any length. The Noise framework limits one to 65535 bytes, so a
  total of 65537 bytes, sent here and then refused unread, may already fail when it is encrypted, after its mask was
  used.
- Nonces do not run out, and a buffer shorter than the frame it should hold is a failed read rather than an access
  past its end.
- BlockIO.SerializeBlock: a message holds its blocks by contents, so the block objects' own buffers, and sizes a
  caller has changed through a mutable getter, are not kept between calls; a RouterInfo has a certificate that names
  the kinds of its keys, and padding is shorter than 65536 bytes (`PaddingBlock.Serialize` covers the rest).
- BlockIO.WriteToBuffer: as `SerializeBlock`.
- DataMessages.DataPhaseMessage.Serialize: as `SerializeBlock`.
- DataPhases.DataPhase.Write: as `SerializeBlock`.
- ConfirmedMessages.SessionConfirmedMessage.Serialize: as `SerializeBlock`.
- Sessions.Session.AliceConfirmed: as `SerializeBlock`.
- LeafBlocks.InfoBlock.Serialize: a RouterInfo has a certificate that names the kinds of its keys.
- BlockIO.ReadToBlock: every RouterInfo object made in one parse starts out with the same, arbitrary, keys.
- Addresses.Address.Deserialize: the length of the options is looked at without a bounds check; a buffer that ends
  there is rejected, as the next read would.
- Infos.RouterInfo.Verify: the buffer is no shorter than a signature, without which what the original does is undefined.
- Infos.RouterInfo.Serialize: the identity is one this program can sign with; a RouterInfo read with an unsupported
  certificate is not written again.
- Mappings.Mapping.Find: an absent key gives an empty value, where the original returns a reference to a temporary.
- The RouterInfo's IV field, transport field, and host look-up for connecting.
- `SessionCreatedMessage` and `SessionRequestMessage` constructors check their options when they are made; here the
  same check is made when the message is written.
- The X25519 ratchet, X3DH, the listener and the session manager, and the unimplemented signature and MAC classes.
