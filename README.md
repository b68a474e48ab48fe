# betanet-tools ClientHello tooling, modelled in Dafny

This project models the byte-level core of the betanet-tools utilities in Dafny:

- the ClientHello template encoder, with its optional pcap wrapper;
- the GREASE helpers;
- the uTLS export (a JSON mirror and a Go snippet);
- the JA3 parser and the JA4 HTTP/2 and HTTP/3 SETTINGS extractors;
- the QUIC Initial heuristics;
- the two pcap importers and their ClientHello search;
- the QUIC Initial decryption glue;
- the bo-aead nonce builder;
- the tunnel frame codec;
- the mixnet path simulator.

There is one module per source file. Two shared modules sit beside them:

- `Bytes`: bytes, fixed-width integers, big- and little-endian codecs, XOR;
- `Text`: UTF-8 of strings, decimal and hex digits, joining, concatenation maps.

Each imperative Rust function is a Dafny `method` with the same loops and early returns. Its `ensures` ties the result to a specification function. Lemmas then prove what that function means: layouts, round trips, first-match properties, injectivity, bounds and error cases.

Several things are modelled as parameters:

- the cryptographic primitives (HKDF, AES-GCM, ChaCha20-Poly1305) and MD5 are values of function type;
- the wall clock of the pcap writer is a `Result<Timestamp, string>`;
- the capture-file reader is a sequence of read results;
- the packet-view library of `pcap_importer.rs` is a `decode` function.

Rust integer truncations (`as u8`, `as u16`, `as u32`) are written out as modular reductions (`ByteOf`, `Trunc16`, `Trunc32`, `Wrap64`). They are not turned into preconditions. An out-of-bounds index in the JA3 parser, which aborts the Rust thread, is a `Panic` outcome. `Ja3.ParsePanics` states exactly when it happens: an odd cipher-suite length whose block ends the buffer.

## Model

| member | source | states |
|---|---|---|
| `TemplateEncoder.EncodeClientHello` | crates/utls-template/hello-template/src/lib.rs:59-257 | fails only when a pcap is asked for and the clock fails, with the "ts failed: " message; otherwise the raw bytes are the record, and the pcap is present exactly when asked for and is the file as written (magic bytes a1 b2 c3 d4) wrapping that record with the clock's time |
| `TemplateEncoder.EncodeBody` | crates/utls-template/hello-template/src/lib.rs:60-212 | the loop-built body is the ClientHello body: 0x03 0x03, the random, the session id, the suite block, the compression methods and the extension block, laid out field by field in `BodyHeadLayout`, `BodySuitesLayout` and `BodyTailLayout` |
| `TemplateEncoder.EncodeExtensions` | crates/utls-template/hello-template/src/lib.rs:93-208 | the extension loop emits the concatenation of each extension's encoding, in template order |
| `TemplateEncoder.EncodeExtension` | crates/utls-template/hello-template/src/lib.rs:95-207 | one extension's bytes are its type, its 2-byte data length and its data |
| `TemplateEncoder.EncodeExtensionData` | crates/utls-template/hello-template/src/lib.rs:96-206 | the data block built for each variant is the one `ExtensionDataLayout` lays out: prefixed lists for SNI, versions, groups, signature algorithms, key shares, ALPN and PSK modes, zero bytes for padding, ECH and Unknown data verbatim |
| `TemplateEncoder.EncodeServerName` | crates/utls-template/hello-template/src/lib.rs:100-109 | SNI data is the list length, name type 0, host length and host bytes |
| `TemplateEncoder.AppendU16s` | crates/utls-template/hello-template/src/lib.rs:84-86 | the suite loop appends each value big-endian, in order |
| `TemplateEncoder.AppendKeyShares` | crates/utls-template/hello-template/src/lib.rs:143-147 | each share is its group, its key length and its key, in order |
| `TemplateEncoder.AppendProtocols` | crates/utls-template/hello-template/src/lib.rs:158-162 | each protocol is a 1-byte length and its UTF-8 bytes, in order |
| `TemplateEncoder.LengthPrefixed` | crates/utls-template/hello-template/src/lib.rs:41-44 | a block is prefixed by its length truncated to 16 bits, big-endian |
| `TemplateEncoder.EncodePcap` | crates/utls-template/hello-template/src/lib.rs:233-253 | the pcap bytes are the global header as written (magic 0xd4c3b2a1 stored little-endian), the record header and the record |
| `TemplateEncoder.RecordLayout` | crates/utls-template/hello-template/src/lib.rs:223-227 | the record is 0x16 0x03 0x03, the handshake length mod 2^16 big-endian, then exactly the handshake |
| `TemplateEncoder.HandshakeLayout` | crates/utls-template/hello-template/src/lib.rs:215-220 | the handshake is 0x01, the body length mod 2^24 in three big-endian bytes, then the body |
| `TemplateEncoder.BodyHeadLayout` | crates/utls-template/hello-template/src/lib.rs:63-79 | the body starts 0x03 0x03 whatever `tls_version` is; then the client random verbatim or 32 zeros; then the session id with its length mod 256, or a single 0 |
| `TemplateEncoder.BodySuitesLayout` | crates/utls-template/hello-template/src/lib.rs:81-86 | the suite block length is twice the suite count (mod 2^16) and the suites follow big-endian in template order |
| `TemplateEncoder.U16ListAt` | crates/utls-template/hello-template/src/lib.rs:84-86 | word `i` of an encoded list reads back as the `i`-th value |
| `TemplateEncoder.BodyTailLayout` | crates/utls-template/hello-template/src/lib.rs:88-90 | the compression methods come with their count mod 256, then the extension block with its length mod 2^16, ending the body |
| `TemplateEncoder.ExtensionLayout` | crates/utls-template/hello-template/src/lib.rs:95-206 | every extension is its type code big-endian, its data length mod 2^16, then its data |
| `TemplateEncoder.ExtensionDataLayout` | crates/utls-template/hello-template/src/lib.rs:96-206 | per variant: SNI list, 1-byte-prefixed versions, 2-byte-prefixed groups, signature algorithms, key shares and ALPN, `len` zero bytes of padding, ECH config verbatim, ALPS protocols then data, 1-byte-prefixed PSK modes, Unknown verbatim |
| `TemplateEncoder.SplitExtensionsBlock` | crates/utls-template/hello-template/src/lib.rs:93-208 | when every data block fits 16 bits, splitting the extension block recovers each extension's type and data, in template order |
| `TemplateEncoder.ExtensionsBlockIgnoresSlots` | crates/utls-template/hello-template/src/lib.rs:122-129 | `grease_slots` of supported_groups never reaches the wire |
| `TemplateEncoder.RecordIgnoresUnreadFields` | crates/utls-template/hello-template/src/lib.rs:59-229 | the record depends only on the random, session id, suites, compression methods and extensions; `tls_version`, `grease_mode`, `psk_key_exchange_modes` and `grease_slots` are never read |
| `TemplateEncoder.PcapGlobalHeaderWith` | crates/utls-template/hello-template/src/lib.rs:236-242 | the global header is the magic, version 2.4, two zero words, snaplen 65535 and linktype 1, each little-endian |
| `TemplateEncoder.PcapRecordHeader` | crates/utls-template/hello-template/src/lib.rs:245-250 | the record header is seconds mod 2^32, microseconds, and twice the record length mod 2^32, little-endian |
| `TemplateEncoder.PcapMagicAsWrittenMisread` | crates/utls-template/hello-template/src/lib.rs:235-242 | the header as written is read as a big-endian file with version 0x0200.0x0400, snaplen 0xffff0000 and linktype 0x01000000 |
| `TemplateEncoder.PcapHeaderRead` | crates/utls-template/hello-template/src/lib.rs:235-242 | with the magic the comment at line 235 announces (bytes d4 c3 b2 a1) the header would read back as version 2.4, snaplen 65535, Ethernet |
| `TemplateEncoder.PcapFileLayout` | crates/utls-template/hello-template/src/lib.rs:233-253 | the corrected file is 40 bytes longer than the record, reads back as version 2.4, snaplen 65535 and Ethernet, carries the time and lengths, and ends with exactly the record |
| `TemplateEncoder.PcapFileAsWrittenLayout` | crates/utls-template/hello-template/src/lib.rs:233-253 | the file the encoder writes is 40 bytes longer than the record, starts a1 b2 c3 d4, reads back big-endian with version 0x0200.0x0400, snaplen 0xffff0000 and linktype 0x01000000, carries the time (seconds mod 2^32) and both lengths (mod 2^32) little-endian, and ends with exactly the record |
| `TemplateEncoder.PcapFilesDifferInMagicOnly` | crates/utls-template/hello-template/src/lib.rs:236 | the file as written and the corrected file have the same length and differ in their first four bytes only |
| `TemplateEncoder.HeaderTail` | crates/utls-template/hello-template/src/lib.rs:237-242 | past the magic the global header is version 2.4, two zero words, snaplen 65535 and linktype 1, whatever the magic |
| `Grease.GetGreasePairs` | crates/utls-template/hello-template/src/grease.rs:6-12 | Fixed returns its pair unchanged, None the sentinel (0,0) that is not GREASE, Random two distinct GREASE values |
| `Grease.RandomPairIsGrease` | crates/utls-template/hello-template/src/grease.rs:15-18 | the placeholder pair 0x0a0a, 0x1a1a is two distinct GREASE values, distinct from the None sentinel |
| `ExportUtls.ExportUtlsJson` | crates/utls-template/hello-template/src/export_utls.rs:37-65 | versions are 0x0303 and 0x0304 whatever the template; suites are copied verbatim; one mirror entry per extension, in order |
| `ExportUtls.ToKeySharesInjective` | crates/utls-template/hello-template/src/export_utls.rs:47-49 | the key-share mirror keeps every group and key, in order |
| `ExportUtls.PaddingFuncInjective` | crates/utls-template/hello-template/src/export_utls.rs:51 | the padding function text determines the padding length |
| `ExportUtls.ExportKeepsWire` | crates/utls-template/hello-template/src/export_utls.rs:41-57 | two extensions with the same mirror have the same wire encoding, so the mirror loses nothing the encoder emits |
| `ExportUtls.ExportDeterminesExtensionsBlock` | crates/utls-template/hello-template/src/export_utls.rs:41-57 | templates whose mirrors agree entry by entry encode the same extension block |
| `ExportUtls.ExportIgnoresUnreadFields` | crates/utls-template/hello-template/src/export_utls.rs:45 | `grease_slots` is dropped by the mirror |
| `ExportUtls.ExportUtlsGo` | crates/utls-template/hello-template/src/export_utls.rs:67-113 | the built string is the preamble, one `SuiteLineAt` line per suite, then the Go text of the ServerName, Alpn and Unknown extensions only, in template order (`OnlyShownKinds`) |
| `ExportUtls.AppendGoExtensions` | crates/utls-template/hello-template/src/export_utls.rs:85-109 | the extension loop appends each extension's Go text, in order |
| `ExportUtls.SuiteLineAt` | crates/utls-template/hello-template/src/export_utls.rs:77-81 | line `k` of the suite list is "    0x", four lowercase hex digits reading back as suite `k`, and ",\n" |
| `ExportUtls.UnknownDataAt` | crates/utls-template/hello-template/src/export_utls.rs:95-99 | an Unknown extension lists each byte as "0x" and two hex digits reading back as that byte, followed by an extra "0x00" |
| `ExportUtls.OnlyShownKinds` | crates/utls-template/hello-template/src/export_utls.rs:85-109 | only ServerName, Alpn and Unknown produce Go text; the snippet is that of the template with all other extensions removed |
| `Ja3.GreaseShape` | crates/utls-template/hello-snapshot/src/ja3.rs:3-7 | a value is GREASE exactly when its two bytes are equal and end in the nibble 0xa |
| `Ja3.FilterGrease` | crates/utls-template/hello-snapshot/src/ja3.rs:40 | the filtered list holds no GREASE value and exactly the non-GREASE values of the input |
| `Ja3.ScanSuites` | crates/utls-template/hello-snapshot/src/ja3.rs:36-42 | the suite loop yields the non-GREASE big-endian words of the block in order (`SuiteScanWords`), or a panic exactly when the block has an odd length and ends the input (`SuiteScanPanics`) |
| `Ja3.CollectGroups` | crates/utls-template/hello-snapshot/src/ja3.rs:66-73 | the supported-groups loop yields the bounded group list |
| `Ja3.CollectFormats` | crates/utls-template/hello-snapshot/src/ja3.rs:77-84 | the point-format loop copies at most the declared count, stopping at the end of the data |
| `Ja3.ScanEntry` | crates/utls-template/hello-snapshot/src/ja3.rs:64-87 | only 0x000a adds groups and only 0x000b adds formats |
| `Ja3.ScanExtensions` | crates/utls-template/hello-snapshot/src/ja3.rs:52-89 | the extension loop yields the walk over type/length/data entries, stopping at the first entry that does not fit; it keeps no GREASE type or group (`ExtScanNoGrease`) and at most one type per four bytes (`ExtScanShort`) |
| `Ja3.ParseClientHello` | crates/utls-template/hello-snapshot/src/ja3.rs:17-47 | the parser's result: each early check failure is an Err with its own message (`ParseStages`), the suite loop panics exactly as `ParsePanics` states, and an Ok holds what `ParseOk` describes |
| `Ja3.ParseRest` | crates/utls-template/hello-snapshot/src/ja3.rs:43-90 | no byte left gives Err("no compression methods"), an overlong count Err("compression methods truncated"); then the extension block as `Ja3.ParseExts` states |
| `Ja3.ParseExts` | crates/utls-template/hello-snapshot/src/ja3.rs:49-51 | fewer than two bytes give Ok with empty extension, group and format lists; a block past the end gives Err("extensions truncated"); otherwise the lists of the extension walk |
| `Ja3.SuiteScanWords` | crates/utls-template/hello-snapshot/src/ja3.rs:36-42 | a suite scan that stays in the buffer is the non-GREASE big-endian words, in order |
| `Ja3.SuiteScanPanics` | crates/utls-template/hello-snapshot/src/ja3.rs:38-41 | the suite loop panics exactly when the block length is odd and the block ends the buffer |
| `Ja3.GroupListWords` | crates/utls-template/hello-snapshot/src/ja3.rs:69-73 | the group list is the non-GREASE words inside the declared and the data bounds |
| `Ja3.ExtScanNoGrease` | crates/utls-template/hello-snapshot/src/ja3.rs:57-89 | the extension walk keeps no GREASE type or group |
| `Ja3.ExtScanShort` | crates/utls-template/hello-snapshot/src/ja3.rs:57-62 | the extension walk keeps at most one type per four bytes of the block, since each entry has a four-byte header |
| `Ja3.ParseStages` | crates/utls-template/hello-snapshot/src/ja3.rs:19-42 | every early check failure is an Err; past them the parser panics in the suite loop or goes on to the tail |
| `Ja3.ParsePanics` | crates/utls-template/hello-snapshot/src/ja3.rs:36-42 | parsing panics exactly when the suite block is reached, has an odd length and ends the buffer |
| `Ja3.TailNeverPanics` | crates/utls-template/hello-snapshot/src/ja3.rs:45-90 | the part after the suites only returns, and keeps the version and suites it is given |
| `Ja3.ParseOk` | crates/utls-template/hello-snapshot/src/ja3.rs:17-91 | a successful parse has `version` = bytes 9-10 big-endian; the suites are the non-GREASE words of the suite block, whose last word takes the next byte when the block length is odd; no list holds GREASE |
| `Ja3.NoExtensionBlock` | crates/utls-template/hello-snapshot/src/ja3.rs:49 | fewer than two bytes after the compression methods give Ok with empty extension, group and format lists |
| `Ja3.Ja3StringFields` | crates/utls-template/hello-snapshot/src/ja3.rs:96-110 | the JA3 string is the five fields joined by commas |
| `Ja3.Ja3Commas` | crates/utls-template/hello-snapshot/src/ja3.rs:96-110 | the JA3 string holds exactly four commas |
| `Ja3.Ja3Ascii` | crates/utls-template/hello-snapshot/src/ja3.rs:96-110 | the JA3 string is ASCII |
| `Ja3.Ja3StringInjective` | crates/utls-template/hello-snapshot/src/ja3.rs:96-110 | different parses give different JA3 strings |
| `Ja3.Ja3InputDeterminesParse` | crates/utls-template/hello-snapshot/src/ja3.rs:93-116 | the hashed bytes are equal exactly when the two parses are equal |
| `Ja3.Ja3DigestShape` | crates/utls-template/hello-snapshot/src/ja3.rs:112-116 | the digest is the lowercase hex of MD5 over the UTF-8 JA3 string |
| `Ja3.Ja3FromRaw` | crates/utls-template/hello-snapshot/src/ja3.rs:93-117 | parse errors and panics propagate; otherwise the result is the hex digest of the JA3 string |
| `Ja4.FindPreface` | crates/utls-template/hello-snapshot/src/ja4.rs:18-19 | the first occurrence of the 24-byte HTTP/2 preface, or None when there is none |
| `Ja4.PrefacePosition` | crates/utls-template/hello-snapshot/src/ja4.rs:19 | the window search returns the first preface position |
| `Ja4.ReadSettings` | crates/utls-template/hello-snapshot/src/ja4.rs:31-38 | the SETTINGS loop reads six-byte id/value entries while a whole entry fits the payload |
| `Ja4.WalkFrames` | crates/utls-template/hello-snapshot/src/ja4.rs:20-43 | the frame walk returns the entry list of the first type-4 frame whose payload fits, skipping every other frame by its 9-byte header and its 24-bit length (`H2WalkFindsSettingsFrame`, `H2WalkReadsFrame`) |
| `Ja4.ExtractH2Settings` | crates/utls-template/hello-snapshot/src/ja4.rs:17-46 | the extractor returns None without a preface; after one, the settings of the first SETTINGS frame the walk reaches (`H2ReadsSettingsFrame`), with no pseudo-headers |
| `Ja4.H2Spec` | crates/utls-template/hello-snapshot/src/ja4.rs:17-46 | without a preface the result is None; a result has no pseudo-headers |
| `Ja4.SettingsListEntries` | crates/utls-template/hello-snapshot/src/ja4.rs:33-38 | there are (payload length)/6 entries; entry `k` is bytes 6k..6k+2 and 6k+2..6k+6 big-endian |
| `Ja4.H2WalkFindsSettingsFrame` | crates/utls-template/hello-snapshot/src/ja4.rs:22-43 | a walk result is the entry list of some type-4 frame whose payload fits the buffer |
| `Ja4.SettingsRoundTrip` | crates/utls-template/hello-snapshot/src/ja4.rs:33-38 | encoded settings read back as the same list |
| `Ja4.H2WalkReadsFrame` | crates/utls-template/hello-snapshot/src/ja4.rs:22-40 | a SETTINGS frame at the walk position yields its settings |
| `Ja4.H2ReadsSettingsFrame` | crates/utls-template/hello-snapshot/src/ja4.rs:17-40 | the preface followed by a SETTINGS frame gives exactly its settings |
| `Ja4.ReadH3Pairs` | crates/utls-template/hello-snapshot/src/ja4.rs:71-81 | the pair loop reads id/value varint pairs in order, stopping at the end or when a varint read fails; written pairs read back unchanged (`H3PairsRoundTrip`) |
| `Ja4.FrameAt` | crates/utls-template/hello-snapshot/src/ja4.rs:65-69 | a candidate is a 0x04 byte with a readable varint length whose payload fits |
| `Ja4.H3Start` | crates/utls-template/hello-snapshot/src/ja4.rs:63-87 | the first candidate position, or None when there is none |
| `Ja4.ExtractH3Settings` | crates/utls-template/hello-snapshot/src/ja4.rs:62-89 | the extractor returns the pairs of the first 0x04 byte with a readable varint length whose payload fits (`H3Start`), or None; a 0x04 frame of written pairs gives exactly those pairs (`H3ReadsSettingsFrame`) |
| `Ja4.H3Spec` | crates/utls-template/hello-snapshot/src/ja4.rs:82 | a result has empty transport parameters and no QPACK pair |
| `Ja4.H3PairsStep` | crates/utls-template/hello-snapshot/src/ja4.rs:73-78 | two readable varints give one pair and move the cursor past both |
| `Ja4.H3PairsRoundTrip` | crates/utls-template/hello-snapshot/src/ja4.rs:71-81 | varint-encoded id/value pairs read back as the same values, in order |
| `Ja4.H3ReadsSettingsFrame` | crates/utls-template/hello-snapshot/src/ja4.rs:62-82 | a 0x04 byte, a varint length and encoded pairs give exactly those pairs |
| `Ja4.CanonicalInjective` | crates/utls-template/hello-snapshot/src/ja4.rs:93 | the "id:value" list joined by "-" determines the settings, in order |
| `Ja4.CanonicalAscii` | crates/utls-template/hello-snapshot/src/ja4.rs:93 | the canonical string is ASCII |
| `Ja4.Ja4H2InputDeterminesSettings` | crates/utls-template/hello-snapshot/src/ja4.rs:91-98 | the hashed bytes are equal exactly when the H2 settings are equal |
| `Ja4.Ja4H3InputDeterminesSettings` | crates/utls-template/hello-snapshot/src/ja4.rs:100-105 | the hashed bytes are equal exactly when the H3 settings are equal |
| `Ja4.Ja4DigestShape` | crates/utls-template/hello-snapshot/src/ja4.rs:91-105 | both fingerprints are the lowercase hex of MD5 over the canonical string |
| `Quic.ReadVarint` | crates/utls-template/hello-snapshot/src/quic.rs:3-14 | None at or past the end or when the width overruns; otherwise the width from the top two bits and the big-endian value of the masked first byte and the other bytes (`VarintValueBe`), which an encoded varint reads back as (`ReadEncodedVarint`) |
| `Quic.ReadVarintSpec` | crates/utls-template/hello-snapshot/src/quic.rs:3-14 | a value read has length equal to the width taken from the top two bits, and fits the buffer |
| `Quic.VarintWidth` | crates/utls-template/hello-snapshot/src/quic.rs:6-7 | the width is 1, 2, 4 or 8 |
| `Quic.VarintBound` | crates/utls-template/hello-snapshot/src/quic.rs:9-13 | a value of width `w` is below 2^(8w-2) |
| `Quic.ReadEncodedVarint` | crates/utls-template/hello-snapshot/src/quic.rs:3-14 | reading an encoded varint gives back its value and width |
| `Quic.ReadEncodedVarintAt` | crates/utls-template/hello-snapshot/src/quic.rs:3-14 | the same at any offset, whatever surrounds it |
| `Quic.VarintValueBe` | crates/utls-template/hello-snapshot/src/quic.rs:9-12 | the shifting loop computes the big-endian value of the first byte's low six bits followed by the other bytes |
| `Quic.ReadVarintShift` | crates/utls-template/hello-snapshot/src/quic.rs:3-14 | a read depends only on the bytes from its position on |
| `Quic.ReadVarintWithin` | crates/utls-template/hello-snapshot/src/quic.rs:3-14 | a complete varint read from a slice reads the same from the whole buffer |
| `Quic.EncodedIsVarint` | crates/utls-template/hello-snapshot/src/quic.rs:3-14 | every encoding of a value below the width's limit is a complete varint of that value |
| `Quic.FramesStart` | crates/utls-template/hello-snapshot/src/quic.rs:23-54 | the frame area starts after the header and inside the packet |
| `Quic.SkipLongHeader` | crates/utls-template/hello-snapshot/src/quic.rs:23-54 | the header walk gives no frame area for a short or version-0 packet, an unreadable DCID, SCID, token or length field, or no byte left; otherwise the frame area starts right behind a well-formed header (`FramesStartAfterHeader`) |
| `Quic.SkipStreamFrame` | crates/utls-template/hello-snapshot/src/quic.rs:74-85 | a STREAM-like frame is skipped by three varints plus the data |
| `Quic.FrameStep` | crates/utls-template/hello-snapshot/src/quic.rs:56-91 | a step moves forward and its CRYPTO payload lies inside the packet |
| `Quic.ReadFrame` | crates/utls-template/hello-snapshot/src/quic.rs:58-90 | one frame: a CRYPTO frame gives its data and the next position, a STREAM-like frame (0x10, 0x1d, 0x1e) is skipped by three varints plus its data, anything else stops the walk; a well-formed frame is read whole wherever it sits (`FrameStepWithin`) |
| `Quic.ScanFrames` | crates/utls-template/hello-snapshot/src/quic.rs:56-91 | the frame loop yields the in-order CRYPTO payloads |
| `Quic.FrameStepWithin` | crates/utls-template/hello-snapshot/src/quic.rs:58-85 | a well-formed CRYPTO or STREAM-like frame is read whole wherever it sits: its CRYPTO data, and the next frame right after it |
| `Quic.PaddingStops` | crates/utls-template/hello-snapshot/src/quic.rs:58-88 | a 0x00 byte (PADDING) ends the walk with nothing more |
| `Quic.FramesScanAfter` | crates/utls-template/hello-snapshot/src/quic.rs:56-91 | a walk over well-formed frames that stops behind them yields exactly their CRYPTO data, in order |
| `Quic.FramesStartAfterHeader` | crates/utls-template/hello-snapshot/src/quic.rs:23-54 | the frames of a well-formed long header start right behind it, or there are none when nothing follows |
| `Quic.CryptoFrom` | crates/utls-template/hello-snapshot/src/quic.rs:21-93 | a packet whose frames start at `n` and are well-formed frames up to its end or a 0x00 byte yields exactly their CRYPTO data |
| `Quic.PacketCryptoOfFrames` | crates/utls-template/hello-snapshot/src/quic.rs:21-93 | a long header with nonzero version and complete fields, then well-formed CRYPTO and STREAM-like frames, then nothing or PADDING, yields exactly the CRYPTO data concatenated in order |
| `Quic.ExtractCryptoFromQuicPacket` | crates/utls-template/hello-snapshot/src/quic.rs:21-93 | the extraction is the CRYPTO data of the frames behind the header; a well-formed long header followed by well-formed CRYPTO and STREAM-like frames gives exactly their CRYPTO data concatenated in order (`PacketCryptoOfFrames`) |
| `Quic.FrameScanBound` | crates/utls-template/hello-snapshot/src/quic.rs:56-91 | the scan ends and its output is never longer than what is left of the input |
| `Quic.PacketCryptoBound` | crates/utls-template/hello-snapshot/src/quic.rs:23-29 | the output is never longer than the packet, and is empty under 6 bytes, for a short header or for version 0 |
| `Quic.FlowStep` | crates/utls-template/hello-snapshot/src/quic.rs:101-108 | a position contributes only with the high bit set and six bytes left |
| `Quic.ExtractCryptoFromFlow` | crates/utls-template/hello-snapshot/src/quic.rs:96-112 | the flow loop yields the flow specification |
| `Quic.FlowCryptoShape` | crates/utls-template/hello-snapshot/src/quic.rs:96-112 | a flow under 6 bytes gives nothing; otherwise a long header at position 0 contributes its packet extraction before the rest |
| `ImportPcap.RecordLength` | crates/utls-template/hello-snapshot/src/import_pcap.rs:19 | the record length is bytes i+3..i+5 big-endian |
| `ImportPcap.HelloIndex` | crates/utls-template/hello-snapshot/src/import_pcap.rs:15-26 | the first qualifying index, or None when there is none |
| `ImportPcap.RecordAt` | crates/utls-template/hello-snapshot/src/import_pcap.rs:19-22 | the slice has length 5+L and is the contiguous bytes from i |
| `ImportPcap.FindHello` | crates/utls-template/hello-snapshot/src/import_pcap.rs:12-28 | Some exactly when a qualifying index exists; buffers of 9 bytes or fewer give None; a result starts 0x16 and has 0x01 at offset 5 |
| `ImportPcap.FindHelloFirstMatch` | crates/utls-template/hello-snapshot/src/import_pcap.rs:15-23 | the result is the record at the smallest qualifying index |
| `ImportPcap.FindClientHelloInBuf` | crates/utls-template/hello-snapshot/src/import_pcap.rs:12-28 | the loop returns the record at the first index with 0x16 and 0x01 at offset 5 whose declared length fits, or None (`FindHelloFirstMatch`, `FindHello`) |
| `ImportPcap.FindsRecord` | crates/utls-template/hello-snapshot/src/import_pcap.rs:15-23 | a well-formed record at the start of a buffer is found exactly |
| `ImportPcap.FindsEncodedRecord` | crates/utls-template/hello-snapshot/src/import_pcap.rs:12-28 | the encoder's record, when its length fits, is found in front of any bytes |
| `ImportPcap.ParseFrame` | crates/utls-template/hello-snapshot/src/import_pcap.rs:41-80 | short or non-IPv4 frames are skipped; a payload is a non-empty suffix of the frame; a UDP payload has port 443 on one side |
| `ImportPcap.ParseUdpFrame` | crates/utls-template/hello-snapshot/src/import_pcap.rs:68-79 | an Ethernet/IPv4/UDP frame on port 443 yields its payload under its (src ip, dst ip, src port, dst port) key |
| `ImportPcap.ParseTcpFrame` | crates/utls-template/hello-snapshot/src/import_pcap.rs:55-67 | an Ethernet/IPv4/TCP frame on port 443 yields the bytes after the data offset |
| `ImportPcap.FlowStreamNonEmpty` | crates/utls-template/hello-snapshot/src/import_pcap.rs:76-79 | every flow key in the map has a non-empty buffer |
| `ImportPcap.FlowStreamEmpty` | crates/utls-template/hello-snapshot/src/import_pcap.rs:76-79 | a key never seen collects nothing |
| `ImportPcap.FirstFailureStays` | crates/utls-template/hello-snapshot/src/import_pcap.rs:82-83 | the first read error is the one reported, whatever follows |
| `ImportPcap.CaptureStep` | crates/utls-template/hello-snapshot/src/import_pcap.rs:38-84 | after items without error, a frame extends the frames read and a read error is the first one of the whole capture |
| `ImportPcap.CollectedFlows` | crates/utls-template/hello-snapshot/src/import_pcap.rs:35-80 | the collected flow map is the per-key concatenation of the frames' UDP payloads |
| `ImportPcap.AddFrame` | crates/utls-template/hello-snapshot/src/import_pcap.rs:55-79 | one frame appends its TCP payload to the stream or its UDP payload to its flow, creating the flow on first use, so the buffers stay those of the frames read so far |
| `ImportPcap.FlowAppended` | crates/utls-template/hello-snapshot/src/import_pcap.rs:76-79 | a UDP frame on port 443 appends its payload to its own flow, which starts empty, and leaves the other flows and the TCP stream alone |
| `ImportPcap.OneMoreFrame` | crates/utls-template/hello-snapshot/src/import_pcap.rs:38-80 | one more frame adds its TCP payload to the stream, its key to the flow keys and its UDP payload to its own flow only |
| `ImportPcap.CollectExactly` | crates/utls-template/hello-snapshot/src/import_pcap.rs:35-80 | buffers hold the TCP stream and every flow of the frames exactly when they are the ones the frames determine |
| `ImportPcap.ReadCapture` | crates/utls-template/hello-snapshot/src/import_pcap.rs:38-85 | a read error gives "pcap read error: " and its text; otherwise the TCP stream and flows are those of the frames, in capture order |
| `ImportPcap.SearchFlow` | crates/utls-template/hello-snapshot/src/import_pcap.rs:94-103 | a flow is searched in its non-empty CRYPTO bytes, then raw |
| `ImportPcap.SearchCapture` | crates/utls-template/hello-snapshot/src/import_pcap.rs:87-106 | for any flow order: the TCP match wins; Ok exactly when TCP or some flow matches; an Ok from the flows is some flow's match; `ja3` is None; the error is the fixed not-found message |
| `ImportPcap.ImportPcap` | crates/utls-template/hello-snapshot/src/import_pcap.rs:30-107 | read errors are reported; otherwise the search outcome over the collected TCP stream and flows |
| `PcapImporter.ZeroNonce` | crates/utls-template/hello-snapshot/src/pcap_importer.rs:109 | the fallback nonce is twelve zero bytes |
| `PcapImporter.SearchFlow` | crates/utls-template/hello-snapshot/src/pcap_importer.rs:101-118 | CRYPTO bytes first, then their fallback decryption on Ok, then the raw flow |
| `PcapImporter.FallbackOnlyAdds` | crates/utls-template/hello-snapshot/src/pcap_importer.rs:102-113 | the decryption fallback runs only when the CRYPTO bytes are non-empty and hold no ClientHello; it changes the outcome only by a match in a successful decryption |
| `PcapImporter.FallbackUsesIv` | crates/utls-template/hello-snapshot/src/pcap_importer.rs:109 | the fallback's key is always derivable; it succeeds exactly when AES-128-GCM under the derived IV accepts the bytes, with that plaintext |
| `PcapImporter.SearchCapture` | crates/utls-template/hello-snapshot/src/pcap_importer.rs:94-121 | for any flow order: the TCP match wins; Ok exactly when TCP or some flow matches; an Ok from the flows is some flow's match; `ja3` is None; the error is the fixed not-found message |
| `PcapImporter.FindsWhatImportPcapFinds` | crates/utls-template/hello-snapshot/src/pcap_importer.rs:94-121 | a capture the first importer finds a ClientHello in is one this importer finds one in too |
| `PcapImporter.ImportFromPcap` | crates/utls-template/hello-snapshot/src/pcap_importer.rs:48-121 | read errors are reported; otherwise the search outcome over the collected TCP stream and flows |
| `QuicDecrypt.HkdfExtractExpand` | crates/utls-template/hello-snapshot/src/quic_decrypt.rs:18-23 | Ok exactly when the output length is allowed, with that many bytes |
| `QuicDecrypt.InitialSecret` | crates/utls-template/hello-snapshot/src/quic_decrypt.rs:26-33 | the secret is 32 bytes expanded with empty info from the extract of the v1 salt and the DCID |
| `QuicDecrypt.BuildLabelInfo` | crates/utls-template/hello-snapshot/src/quic_decrypt.rs:38-44 | the built info is the output length in two bytes, the length of "tls13 "+label, those bytes and a 0 (`LabelInfoLayout`), and determines the label (`LabelInfoInjective`) |
| `QuicDecrypt.LabelInfoLayout` | crates/utls-template/hello-snapshot/src/quic_decrypt.rs:36-44 | the info is the output length in two bytes, the length of "tls13 "+label, those bytes, and a 0; 10 + |label| bytes in all |
| `QuicDecrypt.LabelInfoInjective` | crates/utls-template/hello-snapshot/src/quic_decrypt.rs:36-44 | the info determines the label and the output length mod 2^16 |
| `QuicDecrypt.KeyAndIvInfoDiffer` | crates/utls-template/hello-snapshot/src/quic_decrypt.rs:55-56 | the key and IV expansions never use the same info |
| `QuicDecrypt.HkdfExpandLabel` | crates/utls-template/hello-snapshot/src/quic_decrypt.rs:36-46 | Ok exactly when the length is allowed; the output is an expansion of a re-extract under an empty salt |
| `QuicDecrypt.ExpandLabel` | crates/utls-template/hello-snapshot/src/quic_decrypt.rs:36-46 | Ok exactly when the output length is allowed, with an expansion of the re-extract under an empty salt of the label info (`HkdfExpandLabel`) |
| `QuicDecrypt.XorBytes` | crates/utls-template/hello-snapshot/src/quic_decrypt.rs:60-61 | byte `i` of the nonce is the IV byte XOR the packet nonce byte |
| `QuicDecrypt.RealNonce` | crates/utls-template/hello-snapshot/src/quic_decrypt.rs:60-61 | the loop writes the bytewise XOR of IV and nonce |
| `QuicDecrypt.XorBytesCancel` | crates/utls-template/hello-snapshot/src/quic_decrypt.rs:60-61 | XOR with the IV is its own inverse, so the nonce is recoverable |
| `QuicDecrypt.DerivedIv` | crates/utls-template/hello-snapshot/src/quic_decrypt.rs:56 | the IV has 12 bytes |
| `QuicDecrypt.DecryptSpec` | crates/utls-template/hello-snapshot/src/quic_decrypt.rs:51-78 | a key-length expansion failure comes first, then the nonce-length error, then Err for key lengths other than 16 and 32; an Ok is exactly the AEAD's plaintext under the derived key and XORed nonce |
| `QuicDecrypt.DecryptInitialCrypto` | crates/utls-template/hello-snapshot/src/quic_decrypt.rs:51-78 | a key-length expansion failure first, then the nonce-length error, then Err for key lengths other than 16 and 32; an Ok is the AEAD's plaintext under the derived key and XORed nonce (`DecryptSpec`) |
| `BoAead.Le64ToBytes` | crates/bo-aead/src/lib.rs:6-8 | eight bytes whose little-endian value is the counter |
| `BoAead.Nonce` | crates/bo-aead/src/lib.rs:10-17 | defined exactly for a 12-byte salt; bytes 0-7 are salt XOR counter bytes, bytes 8-11 are the salt's |
| `BoAead.NsAndCounterToNonce` | crates/bo-aead/src/lib.rs:10-17 | the array loops build the nonce, or panic on a salt that is not 12 bytes |
| `BoAead.NonceAtZero` | crates/bo-aead/src/lib.rs:12-16 | counter 0 gives the salt itself |
| `BoAead.NonceInjective` | crates/bo-aead/src/lib.rs:10-17 | for a fixed salt, distinct counters give distinct nonces |
| `BoAead.Seal` | crates/bo-aead/src/lib.rs:19-27 | a wrong key length is Err before any nonce; a wrong salt length panics; an Ok is the cipher's output under the nonce |
| `BoAead.Open` | crates/bo-aead/src/lib.rs:29-37 | the same checks in the same order; an Ok is the cipher's plaintext under the nonce |
| `BoAead.SealThenOpen` | crates/bo-aead/src/lib.rs:19-37 | opening what was sealed with the same salt and counter gives back the plaintext |
| `TunnelMock.Frame` | crates/htx-lab/src/tunnel_mock.rs:3-10 | the frame is the payload length mod 2^16 big-endian, then exactly the payload |
| `TunnelMock.EncodeFrame` | crates/htx-lab/src/tunnel_mock.rs:3-10 | the frame is the payload length mod 2^16 big-endian then the payload, which decodes back to the payload when it has at most 65535 bytes (`DecodeEncodedFrame`) |
| `TunnelMock.DeclaredLength` | crates/htx-lab/src/tunnel_mock.rs:14 | the declared length is the first two bytes big-endian |
| `TunnelMock.DecodeFrame` | crates/htx-lab/src/tunnel_mock.rs:12-17 | None under two bytes or when the declared length overruns; otherwise exactly the declared bytes after the prefix |
| `TunnelMock.DecodeEncodedFrame` | crates/htx-lab/src/tunnel_mock.rs:24-29 | decoding an encoded payload of at most 65535 bytes gives it back, whatever follows |
| `TunnelMock.DecodeWrappedFrame` | crates/htx-lab/src/tunnel_mock.rs:5 | a longer payload decodes to its prefix of length mod 2^16 |
| `TunnelMock.DecodedIsFramePrefix` | crates/htx-lab/src/tunnel_mock.rs:12-17 | a decoded payload is at most 65535 bytes and the buffer starts with its encoding |
| `MixnetSim.Wrap64` | crates/htx-lab/src/mixnet_sim.rs:14 | u64 arithmetic wraps modulo 2^64 |
| `MixnetSim.Jitter` | crates/htx-lab/src/mixnet_sim.rs:14 | the jitter term is below 100 |
| `MixnetSim.JitterSmall` | crates/htx-lab/src/mixnet_sim.rs:14 | while `13 * i` fits in 64 bits the jitter term is `13 * i` modulo 100, with no wrap-around |
| `MixnetSim.Sample` | crates/htx-lab/src/mixnet_sim.rs:13-15 | sample `i` has path id `i` and between 2 and 6 hops |
| `MixnetSim.SimulatePaths` | crates/htx-lab/src/mixnet_sim.rs:10-18 | exactly `n` samples, sample `i` at index `i` |
| `MixnetSim.SampleBounds` | crates/htx-lab/src/mixnet_sim.rs:13-14 | hops = 2 + i mod 5; without wrap-around the latency is base + jitter + 5·hops, between base+10 and base+129 |

## Left out

- Cryptographic primitives are parameters of function type and are not defined: HKDF-SHA256 extract and expand, AES-128/256-GCM, ChaCha20-Poly1305 and MD5. Only their inputs, the order of checks and the handling of their failures are modelled.
- The failure of `Aes128Gcm::new_from_slice`/`Aes256Gcm::new_from_slice` cannot happen, because the key length always matches, so it has no branch.
- Opening a capture file is left out, in both `import_pcap` and `import_from_pcap`. The capture reader is a sequence of read results, so a read error and the end of file are what it yields.
- `pcap_importer.rs` takes frames apart with the pnet and pcap-parser libraries. These are the `decode` parameter of `PcapImporter.ImportFromPcap`, because the libraries are not part of this model.
- The order in which `HashMap` hands out UDP flows is unspecified. Each search loop picks any pending key, and the contracts hold for every order. The model does not say which match is returned when several flows match.
- The encoder's `SystemTime::now()` is the `clock` parameter: an error or a timestamp.
- `snapshot_to_ja3` in crates/utls-template/hello-snapshot/src/lib.rs is not part of this model; it only sets `ja3` to an MD5 of the raw bytes.
- `rand_grease_pair` is modelled as the fixed placeholder pair it returns today.
- MixnetSim.SampleBounds: states the latency bounds only when the base latency leaves room for the largest term. Otherwise the u64 sum wraps, which is what a release build does; a debug build panics instead, and that panic is not modelled.
- Ja3.ParseOk: states the suites and the absence of GREASE. The extension, group and format lists are stated through the extension walk specification and `Ja3.ExtScanNoGrease`, not element by element.
- The network clients, the capture tools, process spawning, the command-line front ends and the async stubs of the other crates are not part of this model.

## Findings

| source | as written | input that shows it | evidently intended | confidence | as-written member | corrected member |
|---|---|---|---|---|---|---|
| crates/utls-template/hello-template/src/lib.rs:236 | the pcap magic 0xd4c3b2a1 is written with `to_le_bytes`, giving the bytes a1 b2 c3 d4, the big-endian signature, while every other header field is written little-endian | any template with `emit_pcap` true: a reader takes the file as big-endian and sees version 0x0200.0x0400, snaplen 0xffff0000 and linktype 0x01000000 | a little-endian file: magic 0xa1b2c3d4 written little-endian (bytes d4 c3 b2 a1), read back as version 2.4, snaplen 65535, Ethernet | high (not executed) | `TemplateEncoder.PcapFileAsWrittenLayout` | `TemplateEncoder.PcapFileLayout` |
