# SMARTfloor ConnectBox app — core model

A Dafny model of the app side of the SMARTfloor ConnectBox link. The app talks to the
box over Bluetooth Low Energy and to the box's web server over HTTP. The model covers:

- the BLE hook (`hooks/useBLE.ts`): the pending-callback list and `tryCallbacks`;
  the packet reassembly state machine of `onDataUpdate`; the two encoders
  `askForSDCard` and `sendCommand`. The hook's state becomes the class
  `BleLink.Link`, proved against the pure specifications in `Callbacks` and
  `Reassembly`;
- the command codes of `constants/bleTypes.ts` (`BleTypes`);
- the SD-card browser (`components/SDCard.tsx`): path arithmetic, the directory
  prefix, the truncated file view, the `/list` response classification and the
  chunked upload loop (`SdCard`);
- the plate overview of `app/modal.tsx`. The answer handler mutates an array of
  six plates in place (`Plates.PlateBoard`);
- `rgbaToHex` (`Color`) and the `ApiManager` singleton (`Api`).

JavaScript strings are sequences of UTF-16 code units, and `length`, `substring`,
`s[k]` and `Object.keys` count those. The file view of `SdCard` therefore works on
`Text.CodeUnit` sequences, and `Text.Utf16` gives the code units of a Dafny string
(whose characters are Unicode scalar values). `JsValue.At` and `JsValue.Entries` index
a decoded string by code unit in the same way.

The libraries the hook calls are given definitions:

- `Base64` is RFC 4648 section 4 encoding. Its decoder skips every character
  outside the alphabet, '=' included, and drops trailing bits that do not fill a
  byte. Node's `Buffer.from(s, 'base64')` stops at the first '=' instead. The two
  agree on every padded encoding, where '=' only ever ends the text.
- `Crc32` is the reflected IEEE 802.3 CRC-32 (polynomial 0xEDB88320).
- MessagePack stays abstract. `Link` holds a `pack` function and an `unpack`
  function, and `unpack` returns `None` where msgpack-lite throws.
- Decoded values are JavaScript values (`JsValue.Value`). Header fields keep the
  JavaScript comparisons the code uses: strict `!== 0` for "a packet is in
  progress", coercing `>=` for the length, loose `!=` for the checksum.

Module layout: `Outcomes` (Option/Result), `Text` (bytes, decimal text, Latin-1
strings, `Buffer.concat`), `JsValue`, `Base64`, `Crc32`, `BleTypes`, `Callbacks`,
`Reassembly`, `BleLink`, `SdCard`, `Plates`, `Color`, `Api`.

## Model

| member | source | states |
|---|---|---|
| BleTypes.Code | constants/bleTypes.ts:4-18 | every code fits in a byte; 255 is ERROR_MESSAGE and nothing else; all other codes are at most 11 |
| BleTypes.FromCodeOfCode | constants/bleTypes.ts:5-17 | each command is recovered from its code |
| BleTypes.CodeInjective | constants/bleTypes.ts:5-17 | no two commands share a code |
| BleTypes.CodesInUse | constants/bleTypes.ts:5-17 | the codes in use are exactly 0..11 and 255 |
| BleTypes.RouterTypes | hooks/useBLE.ts:187-197 | the receiver's literal types 0 and 4 are GET_SD_FILESYSTEM and SEND_SMARTFLOOR_DATA |
| Callbacks.Invoked | hooks/useBLE.ts:51-54 | at most one call per entry, each with the message; no call at all when no entry has the key as id |
| Callbacks.Remaining | hooks/useBLE.ts:55-60 | the list only shrinks; every entry whose id is not the key stays |
| Callbacks.WithoutIds | hooks/useBLE.ts:60 | an entry is kept exactly when it was registered and its id is not among the deleted ids |
| Callbacks.InvokedAreMatching | hooks/useBLE.ts:51-54 | every entry whose id is the key is invoked once, in list order, with the message |
| Callbacks.DeletedIdsShape | hooks/useBLE.ts:55-57 | `delCallback` holds only the dispatched id; it is non-empty exactly when a one-time entry matched |
| Callbacks.RemainingAfterOneTime | hooks/useBLE.ts:60 | after a one-time match, every entry with that id is gone (persistent ones too) and the rest stay in order |
| Callbacks.RemainingWithoutOneTime | hooks/useBLE.ts:60 | without a one-time match the list is unchanged |
| Callbacks.OthersSurvive | hooks/useBLE.ts:53-60 | entries with other ids survive a dispatch, in their original order |
| Callbacks.OtherIdSurvives | hooks/useBLE.ts:53-60 | any one entry whose id differs from the key is still registered afterwards |
| Callbacks.OneTimeFiresOnce | hooks/useBLE.ts:55-60 | after a dispatch that hit a one-time entry, a second message with that id invokes nothing |
| Callbacks.SharedIdRemovesPersistent | hooks/useBLE.ts:55-60 | a persistent and a one-time entry sharing an id both fire once, and both are removed |
| Callbacks.OthersOfOthers | hooks/useBLE.ts:60 | no entry left by a one-time dispatch matches that key again |
| Text.ParseNatToString | hooks/useBLE.ts:377 | the decimal id text reads back as the drawn number |
| Text.SmallNatLength | hooks/useBLE.ts:377 | an id drawn below 100 is one or two digits |
| Text.CharCodesFromCharCodes | hooks/useBLE.ts:402-403 | `String.fromCharCode` of the packed bytes followed by base64's byte view gives the bytes back |
| Text.FromCharCodesOfCharCodes | hooks/useBLE.ts:380 | a Latin-1 request text is recovered from its bytes |
| Base64.Encode | hooks/useBLE.ts:380 | the encoding of n bytes is 4·ceil(n/3) characters |
| Base64.DecodeEncode | hooks/useBLE.ts:403 | decoding what was encoded gives the bytes back |
| Base64.EncodeNonEmpty | hooks/useBLE.ts:168 | only the empty byte string encodes to the falsy empty string |
| Base64.Decode | hooks/useBLE.ts:176 | the decoded bytes number three quarters of the alphabet characters, rounded down, so never more than three quarters of the text's length |
| Base64.SymbolValueOfSymbol | hooks/useBLE.ts:176 | every alphabet character decodes to the 6-bit value it encodes |
| Crc32.Checksum | hooks/useBLE.ts:180 | the checksum is an unsigned 32-bit number |
| Crc32.ChecksumOfEmpty | hooks/useBLE.ts:175-180 | the CRC of no data is 0, the value that means "no packet in progress" |
| JsValue.ToNumber | hooks/useBLE.ts:177 | a number converts to itself, null to 0, a boolean to 0 or 1, and `undefined` to NaN; nothing else converts to a number |
| JsValue.At | hooks/useBLE.ts:211-215 | indexing an array gives its element or `undefined` past the end; indexing a string gives a value exactly below its number of UTF-16 code units |
| JsValue.Entries | components/SDCard.tsx:90-91 | `Object.keys` of an object gives its entries, of an array one key per element, of a string one key per UTF-16 code unit, and of anything else none |
| JsValue.UnitString | components/SDCard.tsx:100-101 | a one-code-unit string is one character long, and is that code unit when it is not half of a surrogate pair |
| JsValue.LooseEqualsNumberOnNumbers | hooks/useBLE.ts:181 | a numeric header checksum loosely equals a CRC exactly when they are the same number |
| Reassembly.Route | hooks/useBLE.ts:187-198 | type 0 dispatches to the callbacks under `Call_ID` exactly when the body decodes to a non-null value with a defined `Call_ID`; type 4 replaces the received data exactly when the body decodes; other types, and a body that fails to decode, dispatch nothing |
| Reassembly.Receive | hooks/useBLE.ts:175-225 | an idle state only reads a header or resets and dispatches nothing; a packet in progress either appends the chunk and changes nothing else, or resets; anything dispatched comes with a reset |
| Reassembly.Resolve | hooks/useBLE.ts:179-203 | a completed packet dispatches only when its checksum loosely equals the CRC-32 of the joined chunks, and then dispatches the routing of the decoded body |
| Reassembly.ReceiveKeepsValid | hooks/useBLE.ts:175-225 | every chunk keeps the invariant: idle means no stored chunks, and stored chunks in progress are short of the declared length |
| Reassembly.IdleReadsHeader | hooks/useBLE.ts:210-216 | while idle, a chunk is decoded as `[type, len, checksum]`, stored with the device id, and nothing is dispatched |
| Reassembly.ZeroChecksumHeaderStaysIdle | hooks/useBLE.ts:175-212 | a header declaring checksum 0 leaves the machine idle |
| Reassembly.BadHeaderResets | hooks/useBLE.ts:211-223 | a header that fails to decode, or decodes to null, resets the state |
| Reassembly.ShortBodyAccumulates | hooks/useBLE.ts:176-177 | below the declared length a chunk is only appended |
| Reassembly.CompleteBodyResolves | hooks/useBLE.ts:177-203 | at the declared length the state always resets; the body is routed exactly when the CRC-32 of all stored bytes matches the declared checksum |
| Reassembly.DispatchNeedsChecksum | hooks/useBLE.ts:177-198 | anything dispatched was verified by its checksum on the completing chunk |
| Reassembly.RunBody | hooks/useBLE.ts:175-204 | body chunks fed to a packet in progress dispatch nothing until the one that reaches the length, which resolves the whole accumulation |
| Reassembly.DeliverPacket | hooks/useBLE.ts:175-216 | a header `[t, n, c]` followed by body chunks that first reach n on the last one: the machine ends idle, only the last chunk dispatches, and it routes the body exactly when c is its CRC-32 |
| Reassembly.NonNumericLengthNeverCompletes | hooks/useBLE.ts:175-213 | a packet in progress whose declared length converts to NaN never completes: every later chunk is only appended and nothing is dispatched |
| Reassembly.MalformedHeaderWedges | hooks/useBLE.ts:210-216 | a header with no numeric length and a checksum slot other than 0 (for instance `[]` or `[type]`, whose fields read as `undefined`) leaves the receiver in progress for ever: after it, no chunk dispatches anything |
| Reassembly.EmptyHeaderWedges | hooks/useBLE.ts:210-216 | the header `0x90` (an empty array) is such a header |
| Reassembly.ReceiveChecked | hooks/useBLE.ts:175-216 | with the header checked, the state can always get back to idle; the check never changes what is dispatched and keeps the invariant |
| Reassembly.CheckedAgrees | hooks/useBLE.ts:175-216 | the checked step does what the written one does on body chunks and on well-formed headers |
| Reassembly.CheckedPacketEnds | hooks/useBLE.ts:175-203 | with the check, a chunk as long as the declared length always ends the packet in progress |
| Reassembly.CheckedEmptyHeaderResets | hooks/useBLE.ts:210-216 | with the check, the header `0x90` leaves the receiver idle, ready for the next header |
| BleLink.Link.constructor | hooks/useBLE.ts:34-44 | empty callback list, sentinel packet state, received data `{type: -1, data: null}`, counter 0 |
| BleLink.Link.Reset | hooks/useBLE.ts:203 | the packet state becomes the idle sentinel `{type: -1, checksum: 0, len: 0, id: "", memory: []}` |
| BleLink.Link.RegisterCallback | contexts/BLEContext.tsx:13 | the declared `registerCallback` appends exactly the given entry |
| BleLink.Link.TryCallbacks | hooks/useBLE.ts:48-61 | the loop makes the calls of `Callbacks.Invoked` and leaves `Callbacks.Remaining` |
| BleLink.Link.OnDataUpdate | hooks/useBLE.ts:161-226 | dropped notifications change nothing; otherwise the counter rises by one, the packet state becomes `Reassembly.Receive` of the decoded chunk, its dispatch is carried out, and the invariant is kept |
| BleLink.Link.ReceiveBody | hooks/useBLE.ts:175-204 | a body chunk in progress leaves exactly the packet state and dispatch that `Reassembly.Receive` gives |
| BleLink.Link.Finish | hooks/useBLE.ts:179-203 | the completed packet is dispatched as `Reassembly.Resolve` of its type, checksum and chunks, and the packet state is reset |
| BleLink.Link.ReadHeader | hooks/useBLE.ts:210-223 | an idle state takes the header fields and device id that `Reassembly.Receive` gives, or resets when the header does not decode |
| BleLink.Link.AskForSdCard | hooks/useBLE.ts:376-393 | appends exactly one entry under the drawn id; the written value is base64 of `id + "\|" + type` |
| BleLink.Link.SendCommand | hooks/useBLE.ts:395-416 | appends one entry typed with the command only when a callback is given; the written value is base64 of the packed `{id, command, message}` |
| BleLink.CommandMessage | hooks/useBLE.ts:402 | the packed object carries the id, the command as decimal text, and the message |
| BleLink.SdRequestText | hooks/useBLE.ts:377-380 | the request text is Latin-1 and is the id followed by a bar |
| BleLink.NotificationCarriesChunk | hooks/useBLE.ts:168-176 | a non-empty chunk sent as base64 is not dropped and reaches the state machine unchanged |
| BleLink.SdRequestRoundTrip | hooks/useBLE.ts:377-380 | the box decodes the request text; its leading one or two digits before the bar are the drawn id, and the rest reads back as the request type (its digits, after a '-' when negative) |
| BleLink.SdRequestType | hooks/useBLE.ts:377-380 | everything after the bar of the request text is the request type in decimal |
| BleLink.CommandRoundTrip | hooks/useBLE.ts:397-403 | with a codec that reads back what it writes, the box recovers id, command and message |
| BleLink.OneTimeReply | hooks/useBLE.ts:187-191 | a type-0 reply carrying the request id runs the one-time handler once; a second reply runs nothing |
| SdCard.NavigateToFolder | components/SDCard.tsx:227-230 | the new path ends in '/' followed by the folder name |
| SdCard.LastIndexOf | components/SDCard.tsx:234 | -1 exactly when there is no slash; otherwise the position of the last slash |
| SdCard.DirPrefix | components/SDCard.tsx:295 | the directory prefix always ends in '/' |
| SdCard.PrefixThenName | components/SDCard.tsx:228 | a sub-folder's path is the directory prefix followed by its name |
| SdCard.UpAfterDown | components/SDCard.tsx:227-235 | going up from a sub-folder whose name has no '/' returns to the starting path |
| SdCard.MovesStayRooted | components/SDCard.tsx:227-237 | both moves keep the path starting with '/' |
| SdCard.NavigateUp | components/SDCard.tsx:232-237 | the root stays the root; a path without '/' becomes empty; a path with a '/' after its first character becomes the proper prefix that ends just before its last '/'; a path whose only '/' is the leading one goes to the root |
| SdCard.UpShortens | components/SDCard.tsx:232-237 | away from the root, going up strictly shortens the path |
| SdCard.DisplayContent | components/SDCard.tsx:244 | the shown text is a prefix of the content's UTF-16 code units: all of them in full view, otherwise the first min(500, length) code units |
| SdCard.ToggleWhenTruncated | components/SDCard.tsx:424 | the toggle exists exactly when the truncated view hides some code units |
| SdCard.SupplementaryTextIsTruncated | components/SDCard.tsx:244 | 300 characters outside the basic plane are 600 code units: the toggle shows and the view keeps 500 code units, cutting a surrogate pair |
| Text.Utf16OfSupplementary | components/SDCard.tsx:244 | a text of characters outside the basic plane has twice as many UTF-16 code units as characters |
| SdCard.ListFiles | components/SDCard.tsx:81-109 | the path stays or returns to '/'; the file list stays, is cleared, or becomes a truthy value of the response |
| SdCard.SupplementaryStringClearsFiles | components/SDCard.tsx:90-98 | a response that is one character above U+FFFF has two keys (two code units), so the file list is cleared |
| SdCard.BasicPlaneStringBecomesFiles | components/SDCard.tsx:90-102 | a response that is one character of the basic plane has one truthy key, and the file list becomes that string |
| SdCard.ListFilesCases | components/SDCard.tsx:90-102 | an `error` clears the files and resets the path; more than one key clears the files; a single truthy key sets them; only an error moves the path |
| SdCard.ChunkCount | components/SDCard.tsx:296-323 | `ceil(size / 1048576)` chunks cover the file and one fewer do not |
| SdCard.UploadChunks | components/SDCard.tsx:304-346 | chunk k is read from `[k·1048576, min((k+1)·1048576, size))`; without a failure exactly `ceil(size/1048576)` requests go out; the loop stops at the first status outside [200, 300) |
| SdCard.UploadSelectedFile | components/SDCard.tsx:288-361 | no selection sends nothing; a missing or empty file is refused before the loop; otherwise the requests are numbered 0.. with `totalChunks` set, and the first failure stops them |
| SdCard.ChunksCoverPrefix | components/SDCard.tsx:309-314 | the first n chunks read, joined, are exactly the file's first min(n·1048576, size) bytes |
| SdCard.ReadChunksRebuildFile | components/SDCard.tsx:310-314 | decoding every base64 chunk read and joining them gives the file |
| SdCard.SentBodiesRepeatFile | components/SDCard.tsx:329-333 | as written, every request carries the whole file, so for a file over 1 MiB the joined bodies are not the file |
| SdCard.IntendedBodiesRebuildFile | components/SDCard.tsx:310-333 | with each request carrying its own chunk, the joined bodies are exactly the file |
| Plates.PlateBoard.constructor | app/modal.tsx:25-30 | six plates, each hidden with fields `[200,255,190,127,128,128,128,128]` |
| Plates.PlateBoard.OnVoltagePort | app/modal.tsx:45-61 | the in-place handler leaves the array equal to `VoltagePortUpdate` of the old contents and reports whether it ran to the end |
| Plates.PlateBoard.WriteEach | app/modal.tsx:50-61 | the key loop succeeds exactly with at most seven keys and leaves `BulkWrites` of the keys it reached |
| Plates.SinglePlate | app/modal.tsx:45-49 | with `platenumber` p, the update succeeds exactly for p in 1..6, sets plate p-1 to `connected`, and leaves every other plate alone |
| Plates.BulkSetsSlots | app/modal.tsx:50-61 | with up to six keys, the key at position k sets plate `Slot(k)` and unreached plates keep their flag |
| Plates.SeventhKeyOverwritesLastPlate | app/modal.tsx:53-57 | a seventh key writes plate 6 a second time |
| Plates.TooManyKeys | app/modal.tsx:57 | eight keys or more throw at the eighth, after the first seven writes took effect |
| Plates.VoltagePortUpdate | app/modal.tsx:45-61 | a null answer throws and changes nothing; with `platenumber` it succeeds exactly when that number is 1..6, and a failure changes nothing; without it, it succeeds exactly with at most seven keys |
| Plates.MountPlateScreen | app/modal.tsx:38-93 | without `registerCallback` the effect registers and writes nothing; with it, the subscription and then the one-shot request are appended, and the written value is the packed SET_VOLTAGE_PORT command with an empty message |
| Plates.MountAsWrittenRegistersNothing | app/modal.tsx:38-66 | as written the mount registers nothing, so no message under any key ever invokes either plate handler |
| Plates.MountThenReply | app/modal.tsx:38-93 | with `registerCallback` provided, the reply to the request invokes its handler once, removes the request, and keeps the subscription |
| Plates.UpdateKeepsFields | app/modal.tsx:45-61 | no answer changes any plate's fields |
| Plates.SubscriptionSurvivesRequestReply | app/modal.tsx:38-68 | once registered (which needs the corrected hook), the persistent `plateinfopage` subscription is never removed by the reply to a one-shot request, whose id is decimal |
| Color.RgbaToHex | app/utils/rgbaToHex.ts:11-36 | an error exactly when a channel is outside 0..255; otherwise '#' then 7 characters in all exactly when the clamped alpha is 1, else 9 |
| Color.Hex2 | app/utils/rgbaToHex.ts:24-29 | a byte renders as exactly two lowercase hex digits that parse back to it |
| Color.ClampAlpha | app/utils/rgbaToHex.ts:16-21 | alpha below 0 becomes 0, above 1 becomes 1, and is kept otherwise |
| Color.AlphaByte | app/utils/rgbaToHex.ts:29 | the rounded alpha is a byte |
| Color.HexPairsParseBack | app/utils/rgbaToHex.ts:24-35 | the hex pairs of the result parse back to r, g, b and to the alpha byte when present |
| Color.DefaultAlphaIsOpaque | app/utils/rgbaToHex.ts:11-33 | without an alpha the result is `#rrggbb` |
| Color.OutputIsLowercaseHex | app/utils/rgbaToHex.ts:24-35 | every character after '#' is a lowercase hex digit |
| Api.BaseUrl | components/ApiManager.ts:17 | the base URL is `http://`, the IP, then `:80` |
| Api.BaseUrlInjective | components/ApiManager.ts:17 | different IPs give different base URLs |
| Api.ApiManager.constructor | components/ApiManager.ts:13-17 | stores the IP and a base URL built from it |
| Api.ApiManager.IpAddress | components/ApiManager.ts:63-65 | the IP returned is the one the base URL was built from |
| Api.Registry.GetInstance | components/ApiManager.ts:38-50 | a first call without an IP fails and creates nothing; a first call with one creates the instance; a later different IP fails; otherwise the same instance is returned; once set, the instance never changes |

## Left out

- Radio plumbing (scanning, connecting, permissions, MTU, monitoring) is device I/O and not modelled. The characteristic write of `askForSDCard` and `sendCommand` is the value the method returns.
- The registry is a module-level variable shared by every use of the hook. It is modelled as one field of the single `Link` object.
- `registerCallback` is declared by `contexts/BLEContext.tsx` and called by `app/modal.tsx`, but the object the hook returns has no such member. Calling it on mount throws a TypeError before `sendCommand` runs, so nothing is registered and no request is sent (see Findings). `BleLink.Link.RegisterCallback` is the member the screen expects, and `Plates.MountPlateScreen` takes a flag saying whether it is provided.
- MessagePack is the pair of functions `pack`/`unpack`, held by `Link`. Its byte format is not modelled.
- `Math.random` is the `draw` parameter, required to be below 100.
- Handler functions are numbers recorded in `Link.invocations`. A handler that throws, or that registers callbacks while `tryCallbacks` runs, is not modelled.
- The handler installed by `app/modal.tsx` runs inside a React state updater. The model applies it directly to the plate array. The same handler text appears twice (lines 45-61 and 72-88) and is modelled once.
- JsValue.ToNumber: reads every string, array and object as NaN. In JavaScript, `""`, whitespace-only strings and `[]` are 0, numeric strings such as `"12"` are parsed, and a single-element array converts as its element. Header fields and `platenumber` values of those kinds are not modelled.
- JsValue.UnitString: half of a surrogate pair is no Dafny character, so `s[k]` on it gives U+FFFD instead of the lone code unit. Both are one-unit, truthy and non-numeric strings; their exact text is not modelled.
- JsValue.Entries: takes a decoded object's keys in the order they were decoded. JavaScript enumerates integer-like keys first, in ascending order.
- Numbers are integers, except the alpha of `rgbaToHex`, which is a `real`. Fractional or NaN channels, and a NaN alpha, are not modelled. `Math.round` is `floor(x + 0.5)`.
- Base64.Decode: skips a '=' in the middle of the text and decodes what follows it, where Node stops at the first '='. Node also accepts the URL-safe alphabet; that is not modelled.
- The check value of the CRC (0xCBF43926 for "123456789") is not proved. Only its structure and the empty-data value are.
- HTTP and file-system calls (`apiManager.get`, `uploadAsync`, `getInfoAsync`, `readAsStringAsync`) are parameters. The listing response is an `Option<Value>`, the file is a byte sequence, and the server's answer is a status function. Alerts, progress bars and logging are not modelled.
- The axios instance and its error interceptor in `components/ApiManager.ts` are network plumbing and not modelled.
- `rgbaToHex`'s callers, colour pickers, puzzle geometry and the remaining screens are UI code outside this model.

## Findings

| source | as written | input that shows it | evidently intended | confidence | as-written member | corrected member |
|---|---|---|---|---|---|---|
| app/modal.tsx:38-66 | the mount effect calls `registerCallback`, which the object returned by the hook (hooks/useBLE.ts:417-430) does not have | opening the modal screen: `registerCallback` is `undefined`, the call throws, and `sendCommand` on line 66 is never reached | the hook returns `registerCallback`, which appends the subscription; the request is then sent and its reply reaches the plate handler | not executed | Plates.MountAsWrittenRegistersNothing | Plates.MountThenReply |
| hooks/useBLE.ts:210-216 | a decoded header is stored field by field without checking that it is an array of three numbers | a header chunk that decodes to an empty array (MessagePack `0x90`): checksum and length become `undefined`, `undefined !== 0` keeps the packet in progress, and `total >= undefined` never holds | a header without a numeric length is rejected and the state resets, as for a header that fails to decode | not executed | Reassembly.EmptyHeaderWedges | Reassembly.CheckedEmptyHeaderResets |
| components/SDCard.tsx:329-333 | each chunk request uploads `selectedFileUri`, the whole file; the base64 chunk read at lines 310-314 is never used | any file larger than 1048576 bytes, e.g. 1048577 bytes: two requests each carry all 1048577 bytes | each request carries its own chunk, so the server can join the chunks back into the file | not executed | SdCard.SentBodiesRepeatFile | SdCard.IntendedBodiesRebuildFile |
