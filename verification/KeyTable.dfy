/**
 The table of keys: what the statements of core/keys_db.cpp do, seen as operations on a
 map from (module, type, name) to a value and an active flag, and the setup transaction
 of core/module.cpp on that map.
 */
module KeyTable {
  import opened Prelude
  import IpcMessage

  type Blob = seq<IpcMessage.Byte>

  /** Unlisted stands for any enum value without a name in key_type_to_string. */
  datatype KeyType = CURVE25519 | ED25519 | AES | RSA | API_KEY | Unlisted

  datatype Key = Key(moduleName: string, keyType: KeyType, keyName: string)
  datatype Entry = Entry(value: Blob, active: bool)
  type Table = map<Key, Entry>

  /** A new key is refused if it exists already, even deactivated, or if its type or value is missing. */
  predicate CanStore(t: Table, k: Key, value: Blob) {
    k !in t && k.keyType != Unlisted && value != []
  }

  function Store(t: Table, k: Key, value: Blob): Table {
    if CanStore(t, k, value) then t[k := Entry(value, true)] else t
  }

  /** An update reaches deactivated keys too, but does not reactivate them. */
  predicate CanUpdate(t: Table, k: Key, value: Blob) {
    k !in t || value != []
  }

  function Update(t: Table, k: Key, value: Blob): Table {
    if k in t && value != [] then t[k := Entry(value, t[k].active)] else t
  }

  function Remove(t: Table, k: Key): Table {
    if k in t then t[k := Entry(t[k].value, false)] else t
  }

  function Read(t: Table, k: Key): Option<Blob> {
    if k in t && t[k].active then Some(t[k].value) else None
  }

  // ---- Key setup ----

  datatype Client = MANAGER | PEER | UI | ROUTER

  function ClientName(c: Client): string {
    match c
    case MANAGER => "manager"
    case PEER => "peerxxx"
    case UI => "uixxxxx"
    case ROUTER => "ipcrout"
  }

  function PublicKey(c: Client): Key {
    Key(ClientName(c), CURVE25519, "public_key")
  }

  function PrivateKey(c: Client): Key {
    Key(ClientName(c), CURVE25519, "private_key")
  }

  datatype KeyPair = KeyPair(pub: Blob, prv: Blob)

  /** A generated pair: 40 printable characters each. */
  type CurvePair = p: KeyPair | |p.pub| == 40 && |p.prv| == 40
    witness KeyPair(seq(40, _ => 48), seq(40, _ => 48))

  /** How the environment answers one setup: key generation, BEGIN and COMMIT. */
  datatype Answers = Answers(generated: Option<CurvePair>, beginOk: bool, commitOk: bool)

  predicate BothReadable(t: Table, c: Client) {
    Read(t, PublicKey(c)).Some? && Read(t, PrivateKey(c)).Some?
  }

  /** A setup writes iff it finds no pair, gets through, and no private key row stands in its way. */
  predicate SetupWrites(t: Table, c: Client, w: Answers) {
    && !BothReadable(t, c)
    && w.generated.Some? && w.beginOk && w.commitOk
    && PrivateKey(c) !in t
  }

  function Setup(t: Table, c: Client, w: Answers): Table {
    if SetupWrites(t, c, w) then
      Store(Store(t, PublicKey(c), w.generated.value.pub), PrivateKey(c), w.generated.value.prv)
    else t
  }

  /** The pair a setup leaves in the caller's key buffers. */
  function SetupKeys(t: Table, c: Client, w: Answers): Option<KeyPair> {
    if BothReadable(t, c) then Some(KeyPair(Read(t, PublicKey(c)).value, Read(t, PrivateKey(c)).value))
    else match w.generated
      case Some(pair) => Some(pair)
      case None => None
  }

  lemma ClientKeysDiffer(c: Client, d: Client)
    ensures PublicKey(c) != PrivateKey(d)
    ensures c != d ==> PublicKey(c) != PublicKey(d) && PrivateKey(c) != PrivateKey(d)
  {
    assert "public_key"[1] != "private_key"[1];
    assert ClientName(MANAGER)[0] == 'm' && ClientName(PEER)[0] == 'p' && ClientName(UI)[0] == 'u' && ClientName(ROUTER)[0] == 'i';
  }
}
