/** The FVM key store: named keys in memory, saved as clear text or encrypted.

    Base64, CBOR, the password hash and the cipher are parameters; what is assumed of them is that
    decoding undoes encoding (`Codecs.Faithful`). */
module FvmKeyStore {
  import opened Bytes
  import opened Wrappers

  const SALT_LEN := 16
  const NONCE_LEN := 24

  type Nonce = b: seq<Byte> | |b| == NONCE_LEN witness seq(NONCE_LEN, i => 0)

  datatype SignatureType = Secp256k1 | BLS

  datatype KeyInfo = KeyInfo(keyType: SignatureType, privateKey: seq<Byte>)

  type Keys = map<string, KeyInfo>

  datatype PersistentKeyInfo = PersistentKeyInfo(keyType: SignatureType, privateKey: string)

  datatype Codecs = Codecs(
    base64: seq<Byte> -> string,
    unbase64: string -> Option<seq<Byte>>,
    cbor: seq<(string, KeyInfo)> -> seq<Byte>,
    uncbor: seq<Byte> -> Option<Keys>,
    hash: (string, seq<Byte>) -> seq<Byte>,
    encipher: (seq<Byte>, seq<Byte>, seq<Byte>) -> seq<Byte>,
    decipher: (seq<Byte>, seq<Byte>, seq<Byte>) -> Option<seq<Byte>>
  ) {
    ghost predicate Faithful() {
      && (forall bytes :: unbase64(base64(bytes)) == Some(bytes))
      && (forall entries :: Distinct(entries) ==> uncbor(cbor(entries)) == Some(ToMap(entries)))
      && (forall key, nonce, msg :: decipher(key, nonce, encipher(key, nonce, msg)) == Some(msg))
    }
  }

  // ---------------------------------------------------------------- listings of a map

  predicate Distinct<V>(entries: seq<(string, V)>) {
    forall i, j :: 0 <= i < j < |entries| ==> entries[i].0 != entries[j].0
  }

  function ToMap<V>(entries: seq<(string, V)>): map<string, V> {
    if entries == [] then map[]
    else ToMap(entries[..|entries| - 1])[entries[|entries| - 1].0 := entries[|entries| - 1].1]
  }

  /** `entries` lists `m`, each key once, in some order. */
  ghost predicate Lists<V>(entries: seq<(string, V)>, m: map<string, V>) {
    && Distinct(entries)
    && (forall i :: 0 <= i < |entries| ==> entries[i].0 in m && m[entries[i].0] == entries[i].1)
    && (forall k :: k in m ==> exists i :: 0 <= i < |entries| && entries[i].0 == k)
  }

  lemma {:induction false} ToMapEntries<V>(entries: seq<(string, V)>, m: map<string, V>)
    requires forall i :: 0 <= i < |entries| ==> entries[i].0 in m && m[entries[i].0] == entries[i].1
    ensures forall k :: k in ToMap(entries) <==> exists i :: 0 <= i < |entries| && entries[i].0 == k
    ensures forall k :: k in ToMap(entries) ==> k in m && ToMap(entries)[k] == m[k]
    decreases |entries|
  {
    if entries != [] {
      var init := entries[..|entries| - 1];
      ToMapEntries(init, m);
      forall k ensures k in ToMap(entries) <==> exists i :: 0 <= i < |entries| && entries[i].0 == k {
        if k in ToMap(init) {
          var i :| 0 <= i < |init| && init[i].0 == k;
          assert entries[i].0 == k;
        }
        if i :| 0 <= i < |entries| && entries[i].0 == k {
          assert i < |init| ==> init[i].0 == k;
        }
      }
    }
  }

  lemma ListingDeterminesMap<V>(entries: seq<(string, V)>, m: map<string, V>)
    requires Lists(entries, m)
    ensures ToMap(entries) == m
  {
    ToMapEntries(entries, m);
  }

  // ---------------------------------------------------------------- files

  /** A JSON object with the entries in file order, the bytes of an encrypted store, or something else. */
  datatype File = Absent | Clear(entries: seq<(string, PersistentKeyInfo)>) | Sealed(bytes: seq<Byte>) | Garbled

  datatype Opened = Opened(keys: Keys) | CannotOpen

  function Persist(cs: Codecs, entries: seq<(string, KeyInfo)>): (r: seq<(string, PersistentKeyInfo)>)
    ensures |r| == |entries|
    ensures forall i :: 0 <= i < |r| ==>
                          r[i] == (entries[i].0, PersistentKeyInfo(entries[i].1.keyType, cs.base64(entries[i].1.privateKey)))
  {
    seq(|entries|, i requires 0 <= i < |entries| =>
          (entries[i].0, PersistentKeyInfo(entries[i].1.keyType, cs.base64(entries[i].1.privateKey))))
  }

  function Restore(cs: Codecs, persisted: seq<(string, PersistentKeyInfo)>): Option<Keys> {
    if persisted == [] then Some(map[])
    else
      var (name, p) := persisted[|persisted| - 1];
      match (Restore(cs, persisted[..|persisted| - 1]), cs.unbase64(p.privateKey))
      case (Some(keys), Some(bytes)) => Some(keys[name := KeyInfo(p.keyType, bytes)])
      case _ => None
  }

  /** Fills a map entry by entry; private key text that does not decode ends it. */
  method ReadClear(cs: Codecs, persisted: seq<(string, PersistentKeyInfo)>) returns (r: Option<Keys>)
    ensures r == Restore(cs, persisted)
  {
    var keys: Keys := map[];
    var i := 0;
    while i < |persisted|
      invariant 0 <= i <= |persisted| && Restore(cs, persisted[..i]) == Some(keys)
    {
      assert persisted[..i + 1][..i] == persisted[..i];
      var (name, p) := persisted[i];
      var bytes := cs.unbase64(p.privateKey);
      if bytes.None? {
        BadEntryFails(cs, persisted, i);
        return None;
      }
      keys := keys[name := KeyInfo(p.keyType, bytes.value)];
      i := i + 1;
    }
    assert persisted[..i] == persisted;
    r := Some(keys);
  }

  lemma {:induction false} BadEntryFails(cs: Codecs, persisted: seq<(string, PersistentKeyInfo)>, i: nat)
    requires i < |persisted| && cs.unbase64(persisted[i].1.privateKey).None?
    ensures Restore(cs, persisted).None?
    decreases |persisted|
  {
    if i < |persisted| - 1 {
      BadEntryFails(cs, persisted[..|persisted| - 1], i);
    }
  }

  /** Clear text is restored exactly if every private key decodes. */
  lemma {:induction false} RestoresExactly(cs: Codecs, persisted: seq<(string, PersistentKeyInfo)>)
    ensures Restore(cs, persisted).Some? <==>
            forall i :: 0 <= i < |persisted| ==> cs.unbase64(persisted[i].1.privateKey).Some?
    decreases |persisted|
  {
    if persisted != [] {
      var n := |persisted| - 1;
      RestoresExactly(cs, persisted[..n]);
      assert forall i :: 0 <= i < n ==> persisted[..n][i] == persisted[i];
    }
  }

  /** The key under a name is that of its last entry. */
  lemma {:induction false} LastEntryWins(cs: Codecs, persisted: seq<(string, PersistentKeyInfo)>, i: nat)
    requires Restore(cs, persisted).Some? && i < |persisted|
    requires forall j :: i < j < |persisted| ==> persisted[j].0 != persisted[i].0
    ensures var keys, p := Restore(cs, persisted).value, persisted[i].1;
            && persisted[i].0 in keys && keys[persisted[i].0].keyType == p.keyType
            && cs.unbase64(p.privateKey) == Some(keys[persisted[i].0].privateKey)
    decreases |persisted|
  {
    var n := |persisted| - 1;
    if i < n {
      LastEntryWins(cs, persisted[..n], i);
    }
  }

  /** Clear text. A file that is not such an object is taken for an empty store. */
  function OpenClear(cs: Codecs, file: File): Opened {
    match file
    case Clear(entries) =>
      (match Restore(cs, entries)
       case Some(keys) => Opened(keys)
       case None => CannotOpen)
    case _ => Opened(map[])
  }

  lemma {:induction false} RestoreUndoesPersist(cs: Codecs, entries: seq<(string, KeyInfo)>)
    requires cs.Faithful()
    ensures Restore(cs, Persist(cs, entries)) == Some(ToMap(entries))
    decreases |entries|
  {
    if entries != [] {
      RestoreUndoesPersist(cs, entries[..|entries| - 1]);
      var p := Persist(cs, entries);
      assert p[..|p| - 1] == Persist(cs, entries[..|entries| - 1]);
    }
  }

  /** Reopening clear text gives back the same keys, whatever order they were written in. */
  lemma ClearReopens(cs: Codecs, keys: Keys, entries: seq<(string, KeyInfo)>)
    requires cs.Faithful() && Lists(entries, keys)
    ensures OpenClear(cs, Clear(Persist(cs, entries))) == Opened(keys)
  {
    RestoreUndoesPersist(cs, entries);
    ListingDeterminesMap(entries, keys);
  }

  /** Salt, then ciphertext, then nonce. */
  function Encrypt(cs: Codecs, key: seq<Byte>, nonce: seq<Byte>, msg: seq<Byte>): seq<Byte> {
    cs.encipher(key, nonce, msg) + nonce
  }

  function Seal(cs: Codecs, passphrase: string, salt: seq<Byte>, nonce: seq<Byte>, entries: seq<(string, KeyInfo)>): seq<Byte> {
    salt + Encrypt(cs, cs.hash(passphrase, salt), nonce, cs.cbor(entries))
  }

  datatype Decrypted = Plain(msg: seq<Byte>) | Refused | TooShort

  function Decrypt(cs: Codecs, key: seq<Byte>, data: seq<Byte>): Decrypted {
    if |data| < NONCE_LEN then TooShort
    else
      match cs.decipher(key, data[|data| - NONCE_LEN..], data[..|data| - NONCE_LEN])
      case Some(msg) => Plain(msg)
      case None => Refused
  }

  datatype Unsealed = Unsealed(keys: Keys, salt: seq<Byte>, key: seq<Byte>) | WrongKey | UnsealPanics

  /** An empty file starts a new store with a fresh salt. A file shorter than salt and nonce panics. A file
      that decrypts to something other than a key map is taken for an empty store. */
  function Unseal(cs: Codecs, passphrase: string, freshSalt: seq<Byte>, bytes: seq<Byte>): Unsealed {
    if bytes == [] then Unsealed(map[], freshSalt, cs.hash(passphrase, freshSalt))
    else if |bytes| < SALT_LEN then UnsealPanics
    else
      var salt := bytes[..SALT_LEN];
      var key := cs.hash(passphrase, salt);
      match Decrypt(cs, key, bytes[SALT_LEN..])
      case TooShort => UnsealPanics
      case Refused => WrongKey
      case Plain(msg) =>
        match cs.uncbor(msg)
        case Some(keys) => Unsealed(keys, salt, key)
        case None => Unsealed(map[], salt, key)
  }

  lemma DecryptUndoesEncrypt(cs: Codecs, key: seq<Byte>, nonce: seq<Byte>, msg: seq<Byte>)
    requires cs.Faithful() && |nonce| == NONCE_LEN
    ensures Decrypt(cs, key, Encrypt(cs, key, nonce, msg)) == Plain(msg)
  {
    var data := Encrypt(cs, key, nonce, msg);
    assert data[|data| - NONCE_LEN..] == nonce;
    assert data[..|data| - NONCE_LEN] == cs.encipher(key, nonce, msg);
  }

  /** The layout splits back exactly: reopening with the same passphrase gives the same keys, salt and
      encryption key, for every salt, nonce and order of writing. */
  lemma SealedReopens(cs: Codecs, passphrase: string, salt: seq<Byte>, nonce: seq<Byte>, freshSalt: seq<Byte>,
                      keys: Keys, entries: seq<(string, KeyInfo)>)
    requires cs.Faithful() && Lists(entries, keys) && |salt| == SALT_LEN && |nonce| == NONCE_LEN
    ensures Unseal(cs, passphrase, freshSalt, Seal(cs, passphrase, salt, nonce, entries))
            == Unsealed(keys, salt, cs.hash(passphrase, salt))
  {
    var bytes := Seal(cs, passphrase, salt, nonce, entries);
    var key := cs.hash(passphrase, salt);
    assert bytes[..SALT_LEN] == salt;
    assert bytes[SALT_LEN..] == Encrypt(cs, key, nonce, cs.cbor(entries));
    DecryptUndoesEncrypt(cs, key, nonce, cs.cbor(entries));
    ListingDeterminesMap(entries, keys);
  }

  /** The layout itself: salt, ciphertext, nonce. */
  lemma SealLayout(cs: Codecs, passphrase: string, salt: seq<Byte>, nonce: Nonce, entries: seq<(string, KeyInfo)>)
    requires cs.Faithful() && |salt| == SALT_LEN
    ensures var bytes := Seal(cs, passphrase, salt, nonce, entries);
            && SALT_LEN + NONCE_LEN <= |bytes| && bytes[..SALT_LEN] == salt && bytes[|bytes| - NONCE_LEN..] == nonce
            && bytes[SALT_LEN..|bytes| - NONCE_LEN] == cs.encipher(cs.hash(passphrase, salt), nonce, cs.cbor(entries))
            && Plaintext(cs, passphrase, bytes) == Some(cs.cbor(entries))
  {
    var sealed := cs.encipher(cs.hash(passphrase, salt), nonce, cs.cbor(entries));
    assert Seal(cs, passphrase, salt, nonce, entries) == salt + sealed + nonce;
  }

  /** Opening panics exactly on non-empty files that are too short to hold a salt and a nonce. */
  lemma UnsealPanicsExactly(cs: Codecs, passphrase: string, freshSalt: seq<Byte>, bytes: seq<Byte>)
    ensures Unseal(cs, passphrase, freshSalt, bytes).UnsealPanics? <==> 0 < |bytes| < SALT_LEN + NONCE_LEN
  {
  }

  // ---------------------------------------------------------------- the object

  datatype Mode = Memory | Persistent | Encrypted(passphrase: string, salt: seq<Byte>)

  datatype Error = KeyInfoMissing | KeyExists | Other

  /** What becomes of a write to disk: it completes, having drawn `nonce`, or it fails and leaves anything. */
  datatype Write = Completes(nonce: Nonce) | Fails(left: File)

  class KeyStore {
    const cs: Codecs
    const mode: Mode
    var keyInfo: Keys
    var file: File

    ghost predicate Valid() {
      cs.Faithful() && (mode.Encrypted? ==> |mode.salt| == SALT_LEN)
    }

    /** Saving succeeds: there is nothing to write, or the write completes. */
    ghost predicate Saves(w: Write) {
      mode.Memory? || w.Completes?
    }

    /** Opening the file again gives the keys in memory. */
    ghost predicate Saved()
      reads this
    {
      match mode
      case Memory => true
      case Persistent => OpenClear(cs, file) == Opened(keyInfo)
      case Encrypted(passphrase, salt) =>
        && file.Sealed?
        && (forall other :: Unseal(cs, passphrase, other, file.bytes) == Unsealed(keyInfo, salt, cs.hash(passphrase, salt)))
    }

    constructor (cs: Codecs, mode: Mode, keys: Keys, file: File)
      ensures this.cs == cs && this.mode == mode && keyInfo == keys && this.file == file
    {
      this.cs, this.mode, this.keyInfo, this.file := cs, mode, keys, file;
    }

    /** Visits the map in whatever order it comes. */
    method Listing() returns (entries: seq<(string, KeyInfo)>)
      ensures Lists(entries, keyInfo)
    {
      entries := [];
      var left := keyInfo.Keys;
      while left != {}
        invariant left <= keyInfo.Keys
        invariant Distinct(entries)
        invariant forall i :: 0 <= i < |entries| ==>
                                && entries[i].0 in keyInfo && keyInfo[entries[i].0] == entries[i].1
                                && entries[i].0 !in left
        invariant forall k :: k in keyInfo && k !in left ==> exists i :: 0 <= i < |entries| && entries[i].0 == k
        decreases left
      {
        var k :| k in left;
        ghost var before := entries;
        entries := entries + [(k, keyInfo[k])];
        left := left - {k};
        forall q | q in keyInfo && q !in left ensures exists i :: 0 <= i < |entries| && entries[i].0 == q {
          if q == k {
            assert entries[|before|].0 == q;
          } else {
            var i :| 0 <= i < |before| && before[i].0 == q;
            assert entries[i].0 == q;
          }
        }
      }
    }

    method Flush(w: Write) returns (ok: bool)
      requires Valid()
      modifies this`file
      ensures ok <==> Saves(w)
      ensures mode.Memory? ==> file == old(file)
      ensures !ok ==> file == w.left
      ensures ok ==> Saved()
    {
      if mode.Memory? {
        return true;
      }
      if w.Fails? {
        file := w.left;
        return false;
      }
      ok := true;
      var entries := Listing();
      match mode
      case Persistent =>
        ClearReopens(cs, keyInfo, entries);
        file := Clear(Persist(cs, entries));
      case Encrypted(passphrase, salt) =>
        forall other ensures Unseal(cs, passphrase, other, Seal(cs, passphrase, salt, w.nonce, entries))
                             == Unsealed(keyInfo, salt, cs.hash(passphrase, salt)) {
          SealedReopens(cs, passphrase, salt, w.nonce, other, keyInfo, entries);
        }
        file := Sealed(Seal(cs, passphrase, salt, w.nonce, entries));
    }

    method Get(key: string) returns (r: Result<KeyInfo, Error>)
      ensures r == if key in keyInfo then Ok(keyInfo[key]) else Err(KeyInfoMissing)
    {
      r := if key in keyInfo then Ok(keyInfo[key]) else Err(KeyInfoMissing);
    }

    /** Never overwrites. The map changes even when saving it then fails. */
    method Put(key: string, info: KeyInfo, w: Write) returns (r: Result<(), Error>)
      requires Valid()
      modifies this`keyInfo, this`file
      ensures keyInfo == if key in old(keyInfo) then old(keyInfo) else old(keyInfo)[key := info]
      ensures key in old(keyInfo) ==> r == Err(KeyExists) && file == old(file)
      ensures key !in old(keyInfo) ==> r == if Saves(w) then Ok(()) else Err(Other)
      ensures r.Ok? ==> Saved()
    {
      if key in keyInfo {
        return Err(KeyExists);
      }
      keyInfo := keyInfo[key := info];
      var ok := Flush(w);
      r := if ok then Ok(()) else Err(Other);
    }

    method Remove(key: string, w: Write) returns (r: Result<KeyInfo, Error>)
      requires Valid()
      modifies this`keyInfo, this`file
      ensures keyInfo == old(keyInfo) - {key}
      ensures key !in old(keyInfo) ==> r == Err(KeyInfoMissing) && file == old(file)
      ensures key in old(keyInfo) ==> r == if Saves(w) then Ok(old(keyInfo)[key]) else Err(Other)
      ensures r.Ok? ==> Saved()
    {
      if key !in keyInfo {
        return Err(KeyInfoMissing);
      }
      var info := keyInfo[key];
      keyInfo := keyInfo - {key};
      var ok := Flush(w);
      r := if ok then Ok(info) else Err(Other);
    }

    /** Opens a store. */
    static method New(cs: Codecs, config: StoreConfig, freshSalt: seq<Byte>) returns (r: Opening)
      requires cs.Faithful() && |freshSalt| == SALT_LEN
      ensures var loaded := Load(cs, config, freshSalt);
              && (r.OpenStore? <==> loaded.Loaded?) && (r.OpenPanics? <==> loaded.LoadPanics?)
              && (r.OpenStore? ==>
                    && fresh(r.store) && r.store.Valid() && r.store.cs == cs
                    && r.store.keyInfo == loaded.keys && r.store.mode == loaded.mode)
    {
      match config
      case InMemory =>
        var store := new KeyStore(cs, Memory, map[], Absent);
        r := OpenStore(store);
      case InClear(file) =>
        var keys := Some(map[]);
        if file.Clear? {
          keys := ReadClear(cs, file.entries);
        }
        if keys.None? {
          return OpenError;
        }
        var store := new KeyStore(cs, Persistent, keys.value, file);
        r := OpenStore(store);
      case InCipher(bytes, passphrase) =>
        var unsealed := Unseal(cs, passphrase, freshSalt, bytes);
        if !unsealed.Unsealed? {
          return if unsealed.UnsealPanics? then OpenPanics else OpenError;
        }
        var store := new KeyStore(cs, Encrypted(passphrase, unsealed.salt), unsealed.keys, Sealed(bytes));
        r := OpenStore(store);
    }

    /** Opening what the last successful write left gives a store with the same keys, in the same mode. */
    method Reopen(freshSalt: seq<Byte>) returns (r: Opening)
      requires Valid() && Saved() && !mode.Memory? && |freshSalt| == SALT_LEN
      ensures r.OpenStore? && fresh(r.store) && r.store.keyInfo == keyInfo && r.store.mode == mode
    {
      match mode
      case Persistent =>
        r := New(cs, InClear(file), freshSalt);
      case Encrypted(passphrase, salt) =>
        assert Unseal(cs, passphrase, freshSalt, file.bytes) == Unsealed(keyInfo, salt, cs.hash(passphrase, salt));
        r := New(cs, InCipher(file.bytes, passphrase), freshSalt);
    }
  }

  /** Where to open a store from. An encrypted file that does not exist is created empty first. */
  datatype StoreConfig = InMemory | InClear(file: File) | InCipher(bytes: seq<Byte>, passphrase: string)

  datatype Opening = OpenStore(store: KeyStore) | OpenError | OpenPanics

  datatype Loaded = Loaded(keys: Keys, mode: Mode) | LoadError | LoadPanics

  /** What opening makes of a file: the keys, and the mode the store then saves in. */
  function Load(cs: Codecs, config: StoreConfig, freshSalt: seq<Byte>): Loaded {
    match config
    case InMemory => Loaded(map[], Memory)
    case InClear(file) =>
      (match OpenClear(cs, file)
       case Opened(keys) => Loaded(keys, Persistent)
       case CannotOpen => LoadError)
    case InCipher(bytes, passphrase) =>
      match Unseal(cs, passphrase, freshSalt, bytes)
      case Unsealed(keys, salt, _) => Loaded(keys, Encrypted(passphrase, salt))
      case WrongKey => LoadError
      case UnsealPanics => LoadPanics
  }

  /** Opening fails exactly on a clear key object with a private key that does not decode, and on an encrypted
      file, long enough to be one, that the passphrase does not decipher; it panics on one that is not. A store
      that does not exist yet opens empty, in its own mode. */
  lemma OpensExactly(cs: Codecs, config: StoreConfig, freshSalt: seq<Byte>)
    ensures Load(cs, config, freshSalt).LoadError? <==>
            match config
            case InMemory => false
            case InClear(file) =>
              file.Clear? && exists i :: 0 <= i < |file.entries| && cs.unbase64(file.entries[i].1.privateKey).None?
            case InCipher(bytes, passphrase) =>
              SALT_LEN + NONCE_LEN <= |bytes| && Plaintext(cs, passphrase, bytes).None?
    ensures Load(cs, config, freshSalt).LoadPanics? <==>
            config.InCipher? && 0 < |config.bytes| < SALT_LEN + NONCE_LEN
    ensures config.InMemory? ==> Load(cs, config, freshSalt) == Loaded(map[], Memory)
    ensures config.InClear? && config.file.Absent? ==> Load(cs, config, freshSalt) == Loaded(map[], Persistent)
    ensures config.InCipher? && config.bytes == [] ==>
              Load(cs, config, freshSalt) == Loaded(map[], Encrypted(config.passphrase, freshSalt))
  {
    match config
    case InMemory =>
    case InClear(file) =>
      if file.Clear? {
        RestoresExactly(cs, file.entries);
      }
    case InCipher(bytes, passphrase) =>
      SplitsAlike(bytes);
  }

  /** Cutting off the salt and then the nonce, or both at once. */
  lemma SplitsAlike(bytes: seq<Byte>)
    ensures SALT_LEN + NONCE_LEN <= |bytes| ==>
              var data := bytes[SALT_LEN..];
              && data[|data| - NONCE_LEN..] == bytes[|bytes| - NONCE_LEN..]
              && data[..|data| - NONCE_LEN] == bytes[SALT_LEN..|bytes| - NONCE_LEN]
  {
  }

  // ---------------------------------------------------------------- contents that are dropped

  /** What an encrypted file says, if it is long enough and the passphrase fits. */
  function Plaintext(cs: Codecs, passphrase: string, bytes: seq<Byte>): Option<seq<Byte>> {
    if |bytes| < SALT_LEN + NONCE_LEN then None
    else
      var nonceAt := |bytes| - NONCE_LEN;
      cs.decipher(cs.hash(passphrase, bytes[..SALT_LEN]), bytes[nonceAt..], bytes[SALT_LEN..nonceAt])
  }

  /** There is nothing in the file that a store could hold. */
  predicate TrulyEmpty(cs: Codecs, config: StoreConfig) {
    match config
    case InMemory => true
    case InClear(file) => file.Absent? || file == Clear([])
    case InCipher(bytes, passphrase) =>
      || bytes == []
      || (Plaintext(cs, passphrase, bytes).Some? && cs.uncbor(Plaintext(cs, passphrase, bytes).value) == Some(map[]))
  }

  /** The store opens, without an error, as if there were no keys, although the file is not empty. */
  predicate DropsContents(cs: Codecs, config: StoreConfig, freshSalt: seq<Byte>) {
    var loaded := Load(cs, config, freshSalt);
    loaded.Loaded? && loaded.keys == map[] && !TrulyEmpty(cs, config)
  }

  /** Opening drops contents exactly when a clear file is there but is no key object, and when an encrypted
      one deciphers, with the right passphrase, to something that is no key map. */
  lemma DropsContentsExactly(cs: Codecs, config: StoreConfig, freshSalt: seq<Byte>)
    ensures DropsContents(cs, config, freshSalt) <==>
            match config
            case InMemory => false
            case InClear(file) => !file.Absent? && !file.Clear?
            case InCipher(bytes, passphrase) =>
              var msg := Plaintext(cs, passphrase, bytes);
              msg.Some? && cs.uncbor(msg.value).None?
  {
    match config
    case InMemory =>
    case InClear(file) =>
      if file.Clear? && file.entries != [] && Restore(cs, file.entries).Some? {
        assert file.entries[|file.entries| - 1].0 in Restore(cs, file.entries).value;
      }
    case InCipher(bytes, passphrase) =>
      SplitsAlike(bytes);
  }

  /** And then the first key that is saved replaces them: what the file held is gone for good. */
  method FirstPutReplacesContents(cs: Codecs, config: StoreConfig, freshSalt: seq<Byte>, otherSalt: seq<Byte>,
                                  key: string, info: KeyInfo, nonce: Nonce) returns (r: Opening)
    requires cs.Faithful() && |freshSalt| == SALT_LEN && |otherSalt| == SALT_LEN
    requires DropsContents(cs, config, freshSalt)
    ensures r.OpenStore? && r.store.keyInfo == map[key := info]
  {
    var first := KeyStore.New(cs, config, freshSalt);
    var put := first.store.Put(key, info, Completes(nonce));
    r := first.store.Reopen(otherSalt);
  }
}
