# Fellowship peer discovery — a Dafny model

Fellowship is a React Native app. It finds nearby phones that run the same app over
Bluetooth Low Energy and proves each one is genuine by reading a fixed app tag from a
GATT characteristic. It then exchanges install identities with that phone, looks up the
peer's profile and keeps a list of verified peers, sorted by signal strength. Peers not
seen for 15 seconds are purged. Each user also has a card that levels up as it gains
experience points.

This project models the core of that behaviour and proves properties of it:

- `src/ble/constants.js`: the service and characteristic UUIDs, the app tag
  `FELLOWSHIP_V1` and the wire codec `toBase64Utf8` / `fromBase64Utf8`.
  - `common.dfy`: the shared `Option` and byte types.
  - `utf8.dfy`: UTF-8 as in RFC 3629.
  - `base64.dfy`: base64 as in section 4 of RFC 4648.
  - `ble_constants.dfy`: the constants and the codec.
  - Both codecs are proved to be inverse bijections on canonical input.
- `app/index.js`, the discovery state of the `Home` screen:
  - `peers.dfy`:
    - the peer record;
    - the insertion-ordered `Map` `peersRef`, as class `PeerMap`;
    - the stable sort of the displayed list by `rssi`, with a missing value counting as -999;
    - the purge loop.
  - `home.dfy`:
    - the admission set `connecting`;
    - the verification session `verifyAndLoadPeer`, with every awaited BLE and profile
      call given as a resolve-or-throw outcome (`Radio`);
    - the registry upsert and sorted refresh;
    - the purge interval's body;
    - the install identity (get or create);
    - the iOS peripheral's characteristic values and its `onWriteRequest` handler.
- `context/CardContext.js` (`card_context.dfy`):
  - the default card;
  - the `loadCard` merge of a saved card;
  - the `addXp` level-up loop. Level L costs 100·L XP, and each level gained adds one to
    attack and to defense.

State the source keeps is modelled as state:
- `Home` is a class with the fields `myUuid`, `connecting`, `peersRef`, `peers`, the
  secure store and the characteristic table.
- `PeerMap` is a class whose methods `Set`, `Delete` and `DeleteStale` update its key
  order and entries in place.
- `CardProvider` holds the card that `LoadCard` and `AddXp` replace.

Loops are methods with invariants:
- the XP loop in `ApplyXp`;
- the purge loop in `DeleteStale`.

## Model

| member | source | states |
|---|---|---|
| Utf8.EncodeChar | src/ble/constants.js:8 | one character becomes 1 to 4 bytes; the lead byte is ASCII exactly when it is the only byte, and every other byte is a continuation byte |
| Utf8.Encode | src/ble/constants.js:8 | the UTF-8 encoding of a string has between n and 4n bytes for n characters |
| Utf8.DecodeFirst | src/ble/constants.js:9 | the strict decoder consumes between 1 and 4 bytes, and never more than it is given |
| Utf8.DecodeEncode | src/ble/constants.js:8-9 | decoding the UTF-8 encoding of any string gives the string back |
| Utf8.EncodeDecode | src/ble/constants.js:8-9 | any byte sequence the strict decoder accepts is the encoding of the string it yields |
| Utf8.DecodeEmpty | src/ble/constants.js:9 | only the empty buffer decodes to the empty string |
| Base64.CharOf | src/ble/constants.js:8 | each sextet maps to a character of the 64-character alphabet |
| Base64.IndexOf | src/ble/constants.js:9 | a character has an index exactly when it is in the alphabet, and that index maps back to the character |
| Base64.IndexOfCharOf | src/ble/constants.js:8-9 | the alphabet table is invertible |
| Base64.Join | src/ble/constants.js:9 | four sextets join to three bytes |
| Base64.DecodeQuad | src/ble/constants.js:9 | a group of four characters decodes to 1 to 3 bytes; fewer than 3 only with `=` padding at the end |
| Base64.DecodeEncode | src/ble/constants.js:8-9 | decoding the base64 encoding of any byte sequence gives it back |
| Base64.EncodeDecode | src/ble/constants.js:8-9 | any text the strict decoder accepts is the encoding of the bytes it yields |
| Base64.EncodeLength | src/ble/constants.js:8 | the encoding of n bytes has 4·⌈n/3⌉ characters |
| Base64.EncodeAlphabet | src/ble/constants.js:8 | the encoding uses only the alphabet, plus `=` in its last two positions |
| BleConstants.ToBase64Utf8 | src/ble/constants.js:8 | `toBase64Utf8` gives 4·⌈n/3⌉ characters for n UTF-8 bytes, uses only the alphabet with trailing `=`, and is empty exactly when its input is |
| BleConstants.FromBase64Utf8 | src/ble/constants.js:9 | `fromBase64Utf8` yields the empty string exactly for the empty text |
| BleConstants.RoundTrip | src/ble/constants.js:8-9 | `fromBase64Utf8(toBase64Utf8(s)) === s` for every string |
| BleConstants.DecodesTo | src/ble/constants.js:8-9 | a payload decodes to `s` if and only if it is the encoding of `s` |
| BleConstants.UuidsDistinct | src/ble/constants.js:1-3 | the service UUID and the two characteristic UUIDs are pairwise distinct and share their first 35 characters |
| BleConstants.AppTagNotEmpty | src/ble/constants.js:6 | the app tag is the 13-character `FELLOWSHIP_V1`, so the empty tag never matches |
| CardContext.ApplyXp | context/CardContext.js:50-74 | the updated card has climbed from the old level, paying 100·L for each level L in turn, and all XP is accounted for; the remainder is below the cost of the new level; attack and defense rise by the number of levels gained; every other field is copied |
| CardContext.SettlesUnique | context/CardContext.js:59-65 | the level and XP an update ends with are determined by the total XP and the starting level |
| CardContext.LevelCostClosedForm | context/CardContext.js:58-61 | climbing from level a to level b costs 50·(b−a)·(a+b−1) XP, so reaching level L from 1 costs 50·L·(L−1) |
| CardContext.MergeSaved | context/CardContext.js:25-33 | each field present in the save wins, otherwise the current field is kept; xp and level fall back to 0 and 1; no other field survives |
| CardContext.MergeIdempotent | context/CardContext.js:25-33 | merging the same save twice is the same as merging it once |
| CardContext.OldSaveLoads | context/CardContext.js:24-33 | a save without xp and level loads with xp 0 and level 1 |
| CardContext.CardProvider.constructor | context/CardContext.js:7-15 | the provider starts with the default card |
| CardContext.CardProvider.LoadCard | context/CardContext.js:18-41 | with nothing stored the card is unchanged; otherwise it is the merge of the save into the current card |
| CardContext.CardProvider.AddXp | context/CardContext.js:48-75 | a missing, zero or negative amount changes nothing; a positive amount levels the card up as `ApplyXp` states |
| Peers.SortPermutes | app/index.js:187 | the sorted list holds exactly the registry's peers, with the same multiplicity |
| Peers.SortOrdered | app/index.js:187 | the sorted list is ordered by non-increasing `rssi ?? -999` and has the registry's length |
| Peers.SortStable | app/index.js:187 | the sort is stable: peers with equal keys keep their registry order |
| Peers.RemoveSpec | app/index.js:219 | removing a key from a duplicate-free key list removes exactly that key and keeps the list duplicate-free |
| Peers.PeerMap.ValuesOnePerEntry | app/index.js:187 | `[...map.values()]` lists exactly one value per entry, and every entry's peer is among them |
| Peers.PeerMap.constructor | app/index.js:51 | the map starts empty |
| Peers.PeerMap.Set | app/index.js:179-186 | `set` updates the entry; a new key goes to the end and an existing key keeps its place |
| Peers.PeerMap.Delete | app/index.js:219 | `delete` removes the entry and its key, the other keys keeping their order |
| Peers.PeerMap.PurgeKey | app/index.js:218-219 | one turn of the loop deletes the key exactly when its peer is stale and records whether it did |
| Peers.PeerMap.DeleteStale | app/index.js:217-220 | after the loop the keys are the non-stale ones in their old order; exactly the stale entries are gone and the rest are unchanged; `changed` is set exactly when some peer was stale |
| Peers.Survivors | app/index.js:218-220 | the keys kept by the purge are never more than the keys before it |
| Peers.SurvivorsExactly | app/index.js:218-220 | a key survives the purge exactly when it was present and not stale |
| Peers.SurvivorsShrink | app/index.js:217-220 | the purge shortens the key list exactly when some key was stale |
| Home.TagAcceptedIff | app/index.js:158-160 | the tag check passes exactly when the characteristic holds the encoding of `FELLOWSHIP_V1` |
| Home.PeerIdentityIff | app/index.js:163-165 | the peer's identity is `u` exactly when `u` is non-empty and the characteristic holds its encoding |
| Home.NewPeer | app/index.js:173-186 | the stored record carries the device id, identity, rssi and time; a non-empty profile name and avatar are used; with no profile row, or a row whose name or avatar is null or empty, the name becomes `Fellowship user` and the avatar null |
| Home.HandshakeFollowsProtocol | app/index.js:153-191 | a session makes the protocol's calls in order without skipping any; it stops at a throw, or after an early return's `cancelConnection` |
| Home.StoreIffCompletes | app/index.js:153-189 | the registry is written exactly when every call up to the profile fetch resolves, the tag matches and the peer has an identity |
| Home.ThrowSkipsCancel | app/index.js:153-191 | a session that throws before the final cancel neither stores the peer nor cancels the connection |
| Home.VerifiedRunsProtocol | app/index.js:153-191 | a session ends verified exactly when it completes and its cancel resolves, and then it made every call of the protocol |
| Home.TagMismatchIff | app/index.js:158-160 | a session is turned away for the tag exactly when connecting, discovering and reading the tag resolve, the tag is refused and the cancel resolves |
| Home.WrittenIdentityDecodes | app/index.js:168-170 | a completed session writes our own identity in a form the peer decodes back to it |
| Home.InstallSeed | app/index.js:63 | the seed is the model id, or `unknown` when there is none, then `-`, then the application id |
| Home.Home.OneSessionPerDevice | app/index.js:150-151 | at most one session per device id is in flight, and one is exactly when the id is in `connecting` |
| Home.Home.constructor | app/index.js:47-55 | the screen starts with no identity, no sessions, an empty registry and an empty list |
| Home.Home.InitInstallUuid | app/index.js:58-67 | a stored non-empty `install_uuid` is used unchanged; otherwise the SHA-256 of the seed is stored under that key and used; if reading the store, the digest or the write throws, the identity and the store stay as they were; an identity that changes is always the stored one |
| Home.Home.Admit | app/index.js:150-151 | an id already connecting is turned away; otherwise it joins `connecting` and a session opens |
| Home.Home.Release | app/index.js:192-193 | the `finally` removes the id from `connecting` and closes its session |
| Home.Home.StorePeer | app/index.js:178-187 | the registry entry is upserted and the displayed list becomes the sorted registry values |
| Home.Home.Attempt | app/index.js:153-191 | the `try` block produces exactly the handshake's events and exit; it upserts the recorded peer when the session completes and otherwise leaves the registry and the list alone |
| Home.Home.VerifyAndLoadPeer | app/index.js:148-195 | a busy id returns at once and nothing changes; otherwise the session runs between entering and leaving `connecting` and upserts the peer exactly when it completes; `connecting` ends as it began |
| Home.Home.PurgeStale | app/index.js:214-221 | the interval deletes exactly the peers unseen for more than 15000 ms, keeping the others and their order; only when something was deleted does it set the list to the registry values, unsorted |
| Home.Home.PublishCharacteristics | app/index.js:101-105 | the peripheral serves the encoded app tag and the encoded own identity |
| Home.Home.OnWriteRequest | app/index.js:110-114 | a write to the identity characteristic replaces its value; any other write changes nothing |

Proof helpers, which carry no promise of the source themselves:
`Utf8.DecodeFirstOfEncodeChar`, `Utf8.EncodeTwo`, `Utf8.EncodeThree`, `Utf8.EncodeFour`,
`Utf8.EncodeCharOfDecodeFirst`, `Utf8.EncodeCons`, the `Base64` group lemmas
(`JoinOfEncodeTriple`, `DecodeQuadOfEncodeTriple`, `DecodeQuadOfEncodeOne`,
`DecodeQuadOfEncodeTwo`, `DecodeOfOneQuad`, `DecodeEncodeShort`, `SplitThree`,
`DecodeCons`, `EncodeTripleOfJoin`, `EncodeOfJoinOne`, `EncodeOfJoinTwo`,
`EncodeOfDecodeQuad`), and in `Peers`: `InsertPermutes`, `InsertOrdered`,
`InsertStable`, `WithRssiKeyAppend`, `RemoveAbsent`, `RemoveAppend`, `InOrder`,
`InOrderCovers`, `DistinctKeysCount`, `SurvivorsAppend`, `PurgeEnds`, `PurgeStep`,
`PurgeDrop`, `DistinctApart`, `RemoveMiddle`, `RemoveOnly`, and `PeerMap.Values`, which
defines the registry's list of values.

## Left out

- The BLE transport (`react-native-ble-plx`, the peripheral module, advertising) is not
  modelled. Each awaited call of a session is one resolve-or-throw outcome in `Radio`.
  Timeouts are part of those outcomes.
- The scanning loop (`startScan`, app/index.js:198-211) is not modelled. It only calls
  `verifyAndLoadPeer` for each device it sees, and `VerifyAndLoadPeer` models that call.
- Android runtime permissions (app/index.js:81-92) are not modelled: they are platform I/O.
- `registerSelf` (app/index.js:129-144) is not modelled: it is a write to the remote
  profile store.
- `fetchProfile` (app/index.js:118-127) is not modelled as a function. Its result,
  including `null` on a store error, is an input of the session.
- Concurrency between sessions is not modelled. Each `VerifyAndLoadPeer` call runs to
  completion, so interleavings at `await` points are not explored. `connecting` and
  `OneSessionPerDevice` state the exclusion these sessions rely on.
- `Date.now()`, the SHA-256 digest and the platform ids (`Device.modelId`,
  `Application.applicationId`) are parameters.
- The web-preview random identity (app/index.js:69-71) is not modelled: it uses
  `Math.random`.
- The interval timer (every 5000 ms) and its cleanup are not modelled. `PurgeStale` is
  the body of one tick.
- React's asynchronous `setState` is modelled as direct assignment.
- `Home.TagAcceptedIff`, `Home.PeerIdentityIff`: Node's `Buffer` decodes base64 and
  UTF-8 leniently. It skips characters outside the alphabet, ignores misplaced padding
  and replaces malformed UTF-8 with U+FFFD. The model's decoders are strict and refuse
  such input. A non-canonical payload that Node would decode to `FELLOWSHIP_V1` is
  therefore refused by the model.
- `BleConstants.FromBase64Utf8`: this is the same strictness. The model returns `None`
  where Node would return a best-effort string.
- Strings are sequences of Unicode scalar values. JavaScript's UTF-16 strings may hold
  lone surrogates, which Node encodes as U+FFFD. This is not modelled.
- `CardContext.CardProvider.LoadCard`: the fallback `setCard(JSON.parse(saved))`
  (context/CardContext.js:34-37) is not modelled, and neither is JSON parsing. The saved
  card is given already parsed, and the merge path is the one modelled.
- Saving the card to `AsyncStorage` (context/CardContext.js:44-46) is not modelled: it is
  I/O.
- `CardContext.ApplyXp`: numbers are unbounded integers. JavaScript's floating-point
  arithmetic is not modelled: non-integer amounts, `NaN` and precision loss above 2^53.
- `Home.NewPeer`: `typeof rssi === 'number' ? rssi : null` is modelled by taking `rssi`
  as an optional integer.
- The UI (modals, the battle screen, list rendering) is not modelled.

Behaviour of the code that differs from what a reader might expect. The model follows
the code:
- A peer without an `rssi` sorts as if its signal were -999. It is not placed last after
  peers with weaker signals.
- The purge refreshes the displayed list in registry (insertion) order, without sorting.
  The list is re-sorted at the next verified peer.
- `onWriteRequest` stores whatever a peer writes into this device's own identity
  characteristic. After that write, the iOS peripheral serves the writer's identity
  instead of its own.
