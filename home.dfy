/// app/index.js: the discovery state of the `Home` screen. It covers the admission
/// set `connecting`, the verification session `verifyAndLoadPeer`, the registry
/// `peersRef` with its displayed copy `peers`, the periodic purge, the install
/// identity, and the iOS peripheral's characteristic values.
module Home {
  import opened Common
  import opened Peers
  import opened BleConstants

  /** A `profiles` row as `fetchProfile` returns it. */
  datatype Profile = Profile(displayName: Option<string>, avatarUrl: Option<string>)

  /** How one awaited call ends: it resolves with a value or it throws. */
  datatype Step<+T> = Resolves(value: T) | Throws

  /** How each awaited call of one session ends. The radio, the BLE library and the
      profile store are not modelled beyond this. `readTag` and `readUuid` resolve
      with the characteristic's base64 value, `None` when the characteristic or its
      value is null. `fetchProfile` resolves with `None` when there is no row or the
      store reports an error. `cancel` is the one `cancelConnection` call a session
      makes, if it makes one. */
  datatype Radio = Radio(
    connect: Step<()>,
    discover: Step<()>,
    readTag: Step<Option<string>>,
    readUuid: Step<Option<string>>,
    writeUuid: Step<()>,
    fetchProfile: Step<Option<Profile>>,
    cancel: Step<()>)

  /** What a session does, in order: entering and leaving the admission set, the
      awaited calls, and the registry write. */
  datatype Event =
    | Enter | Connect | Discover | ReadTag | ReadUuid | WriteUuid(payload: string)
    | FetchProfile | Store | Cancel | Leave

  /** How each awaited call of the install-identity effect ends: reading
      `install_uuid`, the SHA-256 digest, and storing the new identity. */
  datatype InstallCalls = InstallCalls(getItem: Step<()>, digest: Step<()>, setItem: Step<()>)

  /** How `verifyAndLoadPeer` ends. */
  datatype Exit = Busy | TagMismatch | NoIdentity | Verified | Threw(at: Event)

  const PlaceholderName: string := "Fellowship user"
  const InstallUuidKey: string := "install_uuid"

  // ---------------------------------------------------------------------------
  // The checks of the session

  /** `tag = value ? fromBase64Utf8(value) : ''`, then `tag === APP_TAG`. */
  predicate TagAccepted(value: Option<string>) {
    var tag := if value.None? || value.value == "" then Some("") else FromBase64Utf8(value.value);
    tag == Some(AppTag)
  }

  /** `theirUuid`: the decoded identity, `None` where the source has null or `''`. */
  function PeerIdentity(value: Option<string>): Option<string> {
    if value.None? || value.value == "" then None
    else
      match FromBase64Utf8(value.value)
      case None => None
      case Some(u) => if u == "" then None else Some(u)
  }

  /** The tag check passes exactly when the characteristic holds the encoding of
      `FELLOWSHIP_V1`. */
  lemma TagAcceptedIff(value: Option<string>)
    ensures TagAccepted(value) <==> value == Some(ToBase64Utf8(AppTag))
  {
    if value.Some? && value.value != "" {
      DecodesTo(value.value, AppTag);
    }
  }

  /** The identity check yields `u` exactly when the characteristic holds the encoding
      of a non-empty `u`. An empty identity encodes to `''` and is refused like a
      missing one. */
  lemma PeerIdentityIff(value: Option<string>, u: string)
    ensures PeerIdentity(value) == Some(u) <==> u != "" && value == Some(ToBase64Utf8(u))
  {
    if value.Some? && value.value != "" {
      DecodesTo(value.value, u);
    }
  }

  /** The record kept for a verified peer. A name or avatar that is missing or `''`
      falls back to `'Fellowship user'` and `null`. */
  function NewPeer(id: string, userUuid: string, profile: Option<Profile>, rssi: Option<int>, now: int): (p: Peer)
    ensures p.id == id && p.userUuid == userUuid && p.rssi == rssi && p.lastSeen == now
    ensures p.displayName != "" && p.avatarUrl != Some("")
    ensures profile.None? ==> p.displayName == PlaceholderName && p.avatarUrl == None
    ensures profile.Some? && profile.value.displayName.Some? && profile.value.displayName.value != ""
      ==> p.displayName == profile.value.displayName.value
    ensures profile.Some? && profile.value.avatarUrl.Some? && profile.value.avatarUrl.value != ""
      ==> p.avatarUrl == profile.value.avatarUrl
    ensures profile.Some? && (profile.value.displayName.None? || profile.value.displayName.value == "")
      ==> p.displayName == PlaceholderName
    ensures profile.Some? && (profile.value.avatarUrl.None? || profile.value.avatarUrl.value == "")
      ==> p.avatarUrl == None
  {
    var name := if profile.Some? && profile.value.displayName.Some? && profile.value.displayName.value != ""
      then profile.value.displayName.value else PlaceholderName;
    var avatar := if profile.Some? && profile.value.avatarUrl.Some? && profile.value.avatarUrl.value != ""
      then profile.value.avatarUrl else None;
    Peer(id, userUuid, name, avatar, rssi, now)
  }

  /** The session reaches the registry write: every call up to the profile fetch
      resolves, the tag matches and the peer has an identity. */
  predicate Completes(r: Radio) {
    && r.connect.Resolves? && r.discover.Resolves?
    && r.readTag.Resolves? && TagAccepted(r.readTag.value)
    && r.readUuid.Resolves? && PeerIdentity(r.readUuid.value).Some?
    && r.writeUuid.Resolves? && r.fetchProfile.Resolves?
  }

  /** The record a completed session stores. */
  function Recorded(id: string, r: Radio, rssi: Option<int>, now: int): Peer
    requires Completes(r)
  {
    NewPeer(id, PeerIdentity(r.readUuid.value).value, r.fetchProfile.value, rssi, now)
  }

  /** An early `return` after `await dev.cancelConnection()`: a throw there ends the
      session in the `catch` instead. */
  function AfterCancel(cancel: Step<()>, exit: Exit): Exit {
    if cancel.Throws? then Threw(Cancel) else exit
  }

  /** The `try` block of `verifyAndLoadPeer`: the events it produces and how it ends.
      `payload` is what it writes to the peer's identity characteristic. */
  function Handshake(r: Radio, payload: string): (seq<Event>, Exit) {
    var write := WriteUuid(payload);
    var connected := [Connect];
    var discovered := connected + [Discover];
    var tagRead := discovered + [ReadTag];
    var uuidRead := tagRead + [ReadUuid];
    var written := uuidRead + [write];
    var fetched := written + [FetchProfile];
    if r.connect.Throws? then (connected, Threw(Connect))
    else if r.discover.Throws? then (discovered, Threw(Discover))
    else if r.readTag.Throws? then (tagRead, Threw(ReadTag))
    else if !TagAccepted(r.readTag.value) then (tagRead + [Cancel], AfterCancel(r.cancel, TagMismatch))
    else if r.readUuid.Throws? then (uuidRead, Threw(ReadUuid))
    else if PeerIdentity(r.readUuid.value).None? then (uuidRead + [Cancel], AfterCancel(r.cancel, NoIdentity))
    else if r.writeUuid.Throws? then (written, Threw(write))
    else if r.fetchProfile.Throws? then (fetched, Threw(FetchProfile))
    else (fetched + [Store, Cancel], AfterCancel(r.cancel, Verified))
  }

  /** Every call of the protocol, in order, as a session that completes makes them. */
  function Protocol(payload: string): seq<Event> {
    [Connect, Discover, ReadTag, ReadUuid, WriteUuid(payload), FetchProfile, Store, Cancel]
  }

  /** The calls run in protocol order without skipping any: a session's events are a
      prefix of the protocol, or a prefix followed by the `cancelConnection` of an
      early return. */
  lemma HandshakeFollowsProtocol(r: Radio, payload: string)
    ensures var events := Handshake(r, payload).0;
      || events <= Protocol(payload)
      || (events[..|events| - 1] <= Protocol(payload) && events[|events| - 1] == Cancel)
  {
    var events, p := Handshake(r, payload).0, Protocol(payload);
    if r.connect.Throws? || r.discover.Throws? || r.readTag.Throws? {
      assert events <= p;
    } else if !TagAccepted(r.readTag.value) {
      assert events[..|events| - 1] == [Connect, Discover, ReadTag];
    } else if r.readUuid.Throws? {
      assert events <= p;
    } else if PeerIdentity(r.readUuid.value).None? {
      assert events[..|events| - 1] == [Connect, Discover, ReadTag, ReadUuid];
    } else if r.writeUuid.Throws? {
      assert events == p[..5];
    } else if r.fetchProfile.Throws? {
      assert events == p[..6];
    } else {
      assert events == p;
    }
  }

  /** The registry is written exactly when the session completes. */
  lemma StoreIffCompletes(r: Radio, payload: string)
    ensures Store in Handshake(r, payload).0 <==> Completes(r)
  {
    if Completes(r) {
      assert Handshake(r, payload).0[6] == Store;
    }
  }

  /** A session that ends in an exception other than a failed cancel never reaches the
      registry write or `cancelConnection`: the connection is left to the library. */
  lemma ThrowSkipsCancel(r: Radio, payload: string)
    ensures var (events, exit) := Handshake(r, payload);
      exit.Threw? && exit.at != Cancel ==> Cancel !in events && Store !in events
  {
  }

  /** A session ends `Verified` only after every call of the protocol. */
  lemma VerifiedRunsProtocol(r: Radio, payload: string)
    ensures Handshake(r, payload).1 == Verified <==> Completes(r) && r.cancel.Resolves?
    ensures Handshake(r, payload).1 == Verified ==> Handshake(r, payload).0 == Protocol(payload)
  {
  }

  /** A session is turned away for the tag exactly when the tag read resolves to a
      value the tag check refuses (by `TagAcceptedIff`, anything but the encoded
      `FELLOWSHIP_V1`) and the cancel resolves. */
  lemma TagMismatchIff(r: Radio, payload: string)
    ensures Handshake(r, payload).1 == TagMismatch <==>
      (&& r.connect.Resolves? && r.discover.Resolves? && r.readTag.Resolves?
       && !TagAccepted(r.readTag.value) && r.cancel.Resolves?)
  {
  }

  /** A completed session writes our own identity so that the peer decodes it back. */
  lemma WrittenIdentityDecodes(r: Radio, myUuid: string)
    requires Completes(r)
    ensures WriteUuid(ToBase64Utf8(myUuid)) in Handshake(r, ToBase64Utf8(myUuid)).0
    ensures FromBase64Utf8(ToBase64Utf8(myUuid)) == Some(myUuid)
  {
    RoundTrip(myUuid);
  }

  // ---------------------------------------------------------------------------
  // The screen's state

  /** The install identity's seed: `"<modelId or 'unknown'>-<applicationId>"`. */
  function InstallSeed(modelId: Option<string>, applicationId: string): (seed: string)
    ensures var model := modelId.GetOr("unknown");
      && |seed| == |model| + 1 + |applicationId|
      && seed[..|model|] == model
      && seed[|model|] == '-'
      && seed[|model| + 1..] == applicationId
    ensures modelId.None? ==> seed[..7] == "unknown"
  {
    modelId.GetOr("unknown") + "-" + applicationId
  }

  class Home {
    /** `myUuid`: this install's identity. */
    var myUuid: string
    /** `connecting`: device ids with a session in flight. */
    var connecting: set<string>
    /** The sessions admitted and not yet released, one entry per session. */
    ghost var sessions: multiset<string>
    /** `peersRef.current`. */
    const peersRef: PeerMap
    /** The `peers` state the list renders. */
    var peers: seq<Peer>
    /** The device's secure store (`SecureStore`). */
    var secureStore: map<string, string>
    /** The values this device's peripheral serves, by characteristic UUID. */
    var characteristics: map<string, string>

    ghost predicate Valid()
      reads this`peers, this`connecting, this`sessions, peersRef
    {
      && peersRef.Valid()
      && (forall k :: k in peersRef.entries ==> peersRef.entries[k].id == k)
      && multiset(peers) == multiset(peersRef.Values())
      && sessions == multiset(connecting)
    }

    /** Mutual exclusion: at most one session per device id at any time. */
    lemma OneSessionPerDevice(id: string)
      requires Valid()
      ensures sessions[id] <= 1
      ensures sessions[id] == 1 <==> id in connecting
    {
    }

    constructor (store: map<string, string>)
      ensures Valid() && fresh(peersRef)
      ensures myUuid == "" && connecting == {} && sessions == multiset{}
      ensures peersRef.keys == [] && peers == [] && secureStore == store && characteristics == map[]
    {
      myUuid := "";
      connecting := {};
      sessions := multiset{};
      peersRef := new PeerMap();
      peers := [];
      secureStore := store;
      characteristics := map[];
    }

    /** The install-identity effect. `calls` says how its three awaited calls end. A
        stored non-empty `install_uuid` is used as it is. Otherwise the digest of the
        seed is stored and then used. A call that throws ends the effect early, with
        the identity and the store as they were. */
    method InitInstallUuid(modelId: Option<string>, applicationId: string, sha256: string -> string, calls: InstallCalls)
      requires Valid()
      modifies this`myUuid, this`secureStore
      ensures Valid()
      ensures calls.getItem.Throws? ==> myUuid == old(myUuid) && secureStore == old(secureStore)
      ensures calls.getItem.Resolves? && InstallUuidKey in old(secureStore) && old(secureStore)[InstallUuidKey] != "" ==>
        myUuid == old(secureStore)[InstallUuidKey] && secureStore == old(secureStore)
      ensures calls.getItem.Resolves? && (InstallUuidKey !in old(secureStore) || old(secureStore)[InstallUuidKey] == "") ==>
        if calls.digest.Resolves? && calls.setItem.Resolves? then
          myUuid == sha256(InstallSeed(modelId, applicationId))
          && secureStore == old(secureStore)[InstallUuidKey := myUuid]
        else
          myUuid == old(myUuid) && secureStore == old(secureStore)
      ensures myUuid == old(myUuid) || (InstallUuidKey in secureStore && secureStore[InstallUuidKey] == myUuid)
    {
      if calls.getItem.Throws? {
        return;
      }
      var uuid := if InstallUuidKey in secureStore then secureStore[InstallUuidKey] else "";
      if uuid == "" {
        var seed := InstallSeed(modelId, applicationId);
        if calls.digest.Throws? {
          return;
        }
        uuid := sha256(seed);
        if calls.setItem.Throws? {
          return;
        }
        secureStore := secureStore[InstallUuidKey := uuid];
      }
      myUuid := uuid;
    }

    /** Lines 150-151: an id already connecting is turned away; otherwise it is added. */
    method Admit(id: string) returns (admitted: bool)
      requires Valid()
      modifies this`connecting, this`sessions
      ensures Valid()
      ensures admitted <==> id !in old(connecting)
      ensures connecting == old(connecting) + {id}
      ensures sessions == if admitted then old(sessions) + multiset{id} else old(sessions)
    {
      if id in connecting {
        return false;
      }
      connecting := connecting + {id};
      sessions := sessions + multiset{id};
      admitted := true;
    }

    /** Line 193, the `finally` of an admitted session. */
    method Release(id: string)
      requires Valid() && id in sessions
      modifies this`connecting, this`sessions
      ensures Valid()
      ensures connecting == old(connecting) - {id}
      ensures sessions == old(sessions) - multiset{id}
    {
      connecting := connecting - {id};
      sessions := sessions - multiset{id};
    }

    /** `peersRef.set(id, p)` and the sorted refresh of `peers`. */
    twostate predicate Upserted(id: string, p: Peer)
      reads this, peersRef
    {
      && peersRef.Valid()
      && peersRef.entries == old(peersRef.entries)[id := p]
      && peersRef.keys == (if id in old(peersRef.entries) then old(peersRef.keys) else old(peersRef.keys) + [id])
      && peers == SortByRssi(peersRef.Values())
    }

    /** Lines 178-187: records the peer and refreshes the displayed list. */
    method StorePeer(id: string, p: Peer)
      requires Valid() && p.id == id
      modifies peersRef, this`peers
      ensures Valid()
      ensures Upserted(id, p)
    {
      peersRef.Set(id, p);
      peers := SortByRssi(peersRef.Values());
      SortPermutes(peersRef.Values());
    }

    /** The `try` block of `verifyAndLoadPeer` (lines 154-189), run by an admitted session. */
    method Attempt(id: string, rssi: Option<int>, radio: Radio, now: int) returns (events: seq<Event>, exit: Exit)
      requires Valid() && id in connecting
      modifies peersRef, this`peers
      ensures Valid()
      ensures events == Handshake(radio, ToBase64Utf8(myUuid)).0 && exit == Handshake(radio, ToBase64Utf8(myUuid)).1
      ensures Completes(radio) ==> Upserted(id, Recorded(id, radio, rssi, now))
      ensures !Completes(radio) ==> unchanged(peersRef) && peers == old(peers)
    {
      events := [Connect];
      if radio.connect.Throws? {
        return events, Threw(Connect);
      }
      events := events + [Discover];
      if radio.discover.Throws? {
        return events, Threw(Discover);
      }
      events := events + [ReadTag];
      if radio.readTag.Throws? {
        return events, Threw(ReadTag);
      }
      if !TagAccepted(radio.readTag.value) {
        events := events + [Cancel];
        return events, AfterCancel(radio.cancel, TagMismatch);
      }
      events := events + [ReadUuid];
      if radio.readUuid.Throws? {
        return events, Threw(ReadUuid);
      }
      var theirUuid := PeerIdentity(radio.readUuid.value);
      if theirUuid.None? {
        events := events + [Cancel];
        return events, AfterCancel(radio.cancel, NoIdentity);
      }
      var write := WriteUuid(ToBase64Utf8(myUuid));
      events := events + [write];
      if radio.writeUuid.Throws? {
        return events, Threw(write);
      }
      events := events + [FetchProfile];
      if radio.fetchProfile.Throws? {
        return events, Threw(FetchProfile);
      }
      assert Completes(radio);
      StorePeer(id, NewPeer(id, theirUuid.value, radio.fetchProfile.value, rssi, now));
      events := events + [Store, Cancel];
      exit := AfterCancel(radio.cancel, Verified);
    }

    /** `verifyAndLoadPeer(device, rssi)` for device id `id`, with `now` the clock
        reading taken before the write. The admission set ends as it began. */
    method VerifyAndLoadPeer(id: string, rssi: Option<int>, radio: Radio, now: int) returns (events: seq<Event>, exit: Exit)
      requires Valid()
      modifies this`connecting, this`sessions, this`peers, peersRef
      ensures Valid()
      ensures connecting == old(connecting) && sessions == old(sessions)
      ensures id in old(connecting) ==> exit == Busy && events == [] && unchanged(peersRef) && peers == old(peers)
      ensures id !in old(connecting) ==>
        events == [Enter] + Handshake(radio, ToBase64Utf8(myUuid)).0 + [Leave] && exit == Handshake(radio, ToBase64Utf8(myUuid)).1
      ensures id !in old(connecting) && Completes(radio) ==> Upserted(id, Recorded(id, radio, rssi, now))
      ensures id in old(connecting) || !Completes(radio) ==> unchanged(peersRef) && peers == old(peers)
    {
      var admitted := Admit(id);
      if !admitted {
        return [], Busy;
      }
      var tried, ended := Attempt(id, rssi, radio, now);
      Release(id);
      events := [Enter] + tried + [Leave];
      exit := ended;
    }

    /** The body of the purge interval (lines 216-221) at clock reading `now`: the
        stale entries are deleted and, only when something was deleted, the displayed
        list is refreshed in registry order, without sorting. */
    method PurgeStale(now: int) returns (changed: bool)
      requires Valid()
      modifies peersRef, this`peers
      ensures Valid()
      ensures peersRef.keys == Survivors(old(peersRef.keys), old(peersRef.entries), now)
      ensures forall k :: k in peersRef.entries <==> k in old(peersRef.entries) && !Stale(old(peersRef.entries)[k], now)
      ensures forall k :: k in peersRef.entries ==> peersRef.entries[k] == old(peersRef.entries)[k]
      ensures changed <==> exists k :: k in old(peersRef.keys) && Stale(old(peersRef.entries)[k], now)
      ensures peers == if changed then peersRef.Values() else old(peers)
    {
      changed := peersRef.DeleteStale(now);
      if changed {
        peers := peersRef.Values();
      }
    }

    /** Lines 102 and 105: the values the iOS peripheral serves. */
    method PublishCharacteristics()
      modifies this`characteristics
      ensures characteristics == old(characteristics)[CharUuidAppTag := ToBase64Utf8(AppTag)][CharUuidUserUuid := ToBase64Utf8(myUuid)]
    {
      characteristics := characteristics[CharUuidAppTag := ToBase64Utf8(AppTag)];
      characteristics := characteristics[CharUuidUserUuid := ToBase64Utf8(myUuid)];
    }

    /** `onWriteRequest`: a write to the identity characteristic replaces its value;
        any other write is ignored. The registry is not touched. */
    method OnWriteRequest(characteristicUuid: string, value: string)
      modifies this`characteristics
      ensures characteristicUuid == CharUuidUserUuid ==>
        characteristics == old(characteristics)[CharUuidUserUuid := value]
      ensures characteristicUuid != CharUuidUserUuid ==> characteristics == old(characteristics)
    {
      if characteristicUuid == CharUuidUserUuid {
        characteristics := characteristics[CharUuidUserUuid := value];
      }
    }
  }
}
