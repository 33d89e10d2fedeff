/**
 Whole runs of the key table: any sequence of store, update, remove, get and setup by
 any callers, starting from the fresh schema.
 */
module KeyHistory {
  import opened Prelude
  import opened KeyTable

  datatype Command =
    | StoreKey(key: Key, value: Blob)
    | UpdateKey(key: Key, value: Blob)
    | RemoveKey(key: Key)
    | GetKey(key: Key)
    | SetupKeysOf(client: Client, answers: Answers)

  function Step(t: Table, cmd: Command): Table {
    match cmd
    case StoreKey(k, v) => Store(t, k, v)
    case UpdateKey(k, v) => Update(t, k, v)
    case RemoveKey(k) => Remove(t, k)
    case GetKey(_) => t
    case SetupKeysOf(c, w) => Setup(t, c, w)
  }

  function Run(t: Table, cmds: seq<Command>): Table
    decreases |cmds|
  {
    if cmds == [] then t else Run(Step(t, cmds[0]), cmds[1..])
  }

  // ---- One key over a run ----

  predicate Changes(cmd: Command, k: Key) {
    (cmd.UpdateKey? || cmd.RemoveKey?) && cmd.key == k
  }

  /** Rows are never deleted, and only update and remove of a key change its row. */
  lemma {:induction false} KeysKeepTheirEntry(t: Table, cmds: seq<Command>, k: Key)
    requires k in t
    requires forall i :: 0 <= i < |cmds| ==> !Changes(cmds[i], k)
    ensures k in Run(t, cmds) && Run(t, cmds)[k] == t[k]
    decreases |cmds|
  {
    if cmds != [] { KeysKeepTheirEntry(Step(t, cmds[0]), cmds[1..], k); }
  }

  /** What a command may touch: its own key, or the client's two keys. */
  predicate Concerns(cmd: Command, k: Key) {
    match cmd
    case SetupKeysOf(c, _) => k == PublicKey(c) || k == PrivateKey(c)
    case _ => cmd.key == k
  }

  /** Operations on other keys never affect a key. */
  lemma {:induction false} OthersUntouched(t: Table, cmds: seq<Command>, k: Key)
    requires forall i :: 0 <= i < |cmds| ==> !Concerns(cmds[i], k)
    ensures k in Run(t, cmds) <==> k in t
    ensures k in t ==> Run(t, cmds)[k] == t[k]
    decreases |cmds|
  {
    if cmds != [] { OthersUntouched(Step(t, cmds[0]), cmds[1..], k); }
  }

  /**
   Read your write: after a successful store, or a successful update of an active key,
   the key reads back that value until it is updated or removed, whatever else happens.
   */
  lemma LastWriteIsRead(t: Table, write: Command, cmds: seq<Command>)
    requires write.StoreKey? || write.UpdateKey?
    requires write.StoreKey? ==> CanStore(t, write.key, write.value)
    requires write.UpdateKey? ==> CanUpdate(t, write.key, write.value) && Read(t, write.key).Some?
    requires forall i :: 0 <= i < |cmds| ==> !Changes(cmds[i], write.key)
    ensures Read(Run(Step(t, write), cmds), write.key) == Some(write.value)
  {
    KeysKeepTheirEntry(Step(t, write), cmds, write.key);
  }

  /** A deactivated row stays, and stays deactivated. */
  lemma {:induction false} InactiveForever(t: Table, cmds: seq<Command>, k: Key)
    requires k in t && !t[k].active
    ensures k in Run(t, cmds) && !Run(t, cmds)[k].active
    decreases |cmds|
  {
    if cmds != [] { InactiveForever(Step(t, cmds[0]), cmds[1..], k); }
  }

  /**
   Removal is permanent: once remove_key has met an existing row, no sequence of
   commands makes the key readable again, and no store of it ever succeeds.
   */
  lemma RemovalIsPermanent(t: Table, k: Key, cmds: seq<Command>, value: Blob)
    requires k in t
    ensures Read(Run(Step(t, RemoveKey(k)), cmds), k) == None
    ensures !CanStore(Run(Step(t, RemoveKey(k)), cmds), k, value)
  {
    InactiveForever(Step(t, RemoveKey(k)), cmds, k);
  }

  // ---- The whole table, read off the commands alone ----

  lemma {:induction false} RunLast(t: Table, cmds: seq<Command>)
    requires cmds != []
    ensures Run(t, cmds) == Step(Run(t, cmds[..|cmds| - 1]), cmds[|cmds| - 1])
    decreases |cmds|
  {
    var rest := cmds[1..];
    if rest != [] {
      RunLast(Step(t, cmds[0]), rest);
      assert rest[..|rest| - 1] == cmds[..|cmds| - 1][1..];
    }
  }

  /** Key generation, BEGIN and COMMIT all succeed. */
  predicate GoesThrough(w: Answers) {
    w.generated.Some? && w.beginOk && w.commitOk
  }

  /**
   The value last written for a key: by its first acceptable store, by an update after
   that, or by the first setup of its client that goes through while the client has no
   private key.
   */
  function Written(cmds: seq<Command>, k: Key): Option<Blob>
    decreases |cmds|
  {
    if cmds == [] then None
    else
      var before := cmds[..|cmds| - 1];
      var was := Written(before, k);
      match cmds[|cmds| - 1]
      case StoreKey(key, v) => if key == k && was == None && k.keyType != Unlisted && v != [] then Some(v) else was
      case UpdateKey(key, v) => if key == k && was.Some? && v != [] then Some(v) else was
      case SetupKeysOf(c, w) =>
        if GoesThrough(w) && was == None && Written(before, PrivateKey(c)) == None then
          if k == PublicKey(c) then Some(w.generated.value.pub)
          else if k == PrivateKey(c) then Some(w.generated.value.prv)
          else None
        else was
      case _ => was
  }

  /** The key was removed at a moment when it had been written. */
  predicate Gone(cmds: seq<Command>, k: Key)
    decreases |cmds|
  {
    cmds != [] &&
    (var before := cmds[..|cmds| - 1];
     Gone(before, k) || (cmds[|cmds| - 1] == RemoveKey(k) && Written(before, k).Some?))
  }

  /** The entry the commands alone give a key. */
  function EntryFrom(cmds: seq<Command>, k: Key): Option<Entry> {
    match Written(cmds, k)
    case Some(v) => Some(Entry(v, !Gone(cmds, k)))
    case None => None
  }

  function EntryIn(t: Table, k: Key): Option<Entry> {
    if k in t then Some(t[k]) else None
  }

  lemma {:induction false} GoneWasWritten(cmds: seq<Command>, k: Key)
    ensures Gone(cmds, k) ==> Written(cmds, k).Some?
    decreases |cmds|
  {
    if cmds != [] { GoneWasWritten(cmds[..|cmds| - 1], k); }
  }

  lemma SetupEntry(t: Table, c: Client, w: Answers, k: Key)
    ensures EntryIn(Setup(t, c, w), k)
         == if GoesThrough(w) && k !in t && PrivateKey(c) !in t && k == PublicKey(c) then
              Some(Entry(w.generated.value.pub, true))
            else if GoesThrough(w) && k !in t && k == PrivateKey(c) then
              Some(Entry(w.generated.value.prv, true))
            else EntryIn(t, k)
  {
    ClientKeysDiffer(c, c);
  }

  /**
   The law of the table: after any run from the fresh schema each key has exactly the
   entry its history gives it, so it reads back the value last written, unless it was
   removed after it had been written.
   */
  lemma {:induction false} TableIsHistory(cmds: seq<Command>, k: Key)
    ensures EntryIn(Run(map[], cmds), k) == EntryFrom(cmds, k)
    ensures Read(Run(map[], cmds), k) == if Gone(cmds, k) then None else Written(cmds, k)
    decreases |cmds|
  {
    GoneWasWritten(cmds, k);
    if cmds != [] {
      var before, last := cmds[..|cmds| - 1], cmds[|cmds| - 1];
      RunLast(map[], cmds);
      TableIsHistory(before, k);
      GoneWasWritten(before, k);
      if last.SetupKeysOf? {
        TableIsHistory(before, PrivateKey(last.client));
        SetupEntry(Run(map[], before), last.client, last.answers, k);
      }
    }
  }

  /** When a store or an update must succeed. */
  lemma WritesSucceedWhen(cmds: seq<Command>, k: Key, v: Blob)
    ensures CanStore(Run(map[], cmds), k, v) <==> Written(cmds, k) == None && k.keyType != Unlisted && v != []
    ensures CanUpdate(Run(map[], cmds), k, v) <==> Written(cmds, k) == None || v != []
  {
    TableIsHistory(cmds, k);
  }

  // ---- Key setup ----

  /** In a table made without bare stores, a client's two rows come together. */
  ghost predicate Paired(t: Table) {
    forall c :: PublicKey(c) in t <==> PrivateKey(c) in t
  }

  lemma SetupKeepsPairing(t: Table, c: Client, w: Answers)
    requires Paired(t)
    ensures Paired(Setup(t, c, w))
  {
    var t' := Setup(t, c, w);
    forall d ensures PublicKey(d) in t' <==> PrivateKey(d) in t' {
      ClientKeysDiffer(c, d);
      ClientKeysDiffer(d, c);
      assert PublicKey(d) in t <==> PrivateKey(d) in t;
      assert PublicKey(c) in t <==> PrivateKey(c) in t;
    }
  }

  /**
   Pairing: in every run from the fresh schema made of setup, update, remove and get, a
   client has a public_key row iff it has a private_key row.
   */
  lemma {:induction false} KeysComeInPairs(t: Table, cmds: seq<Command>)
    requires Paired(t)
    requires forall i :: 0 <= i < |cmds| ==> !cmds[i].StoreKey?
    ensures Paired(Run(t, cmds))
    decreases |cmds|
  {
    if cmds != [] {
      var t' := Step(t, cmds[0]);
      if cmds[0].SetupKeysOf? {
        SetupKeepsPairing(t, cmds[0].client, cmds[0].answers);
      } else {
        assert t'.Keys == t.Keys;
        assert forall k :: k in t' <==> k in t;
        forall c ensures PublicKey(c) in t' <==> PrivateKey(c) in t' {
          assert PublicKey(c) in t <==> PrivateKey(c) in t;
        }
      }
      KeysComeInPairs(t', cmds[1..]);
    }
  }

  /** A setup either leaves the table alone or adds both new rows of the generated pair. */
  predicate AllOrNothing(t: Table, c: Client, w: Answers) {
    || Setup(t, c, w) == t
    || (&& w.generated.Some?
        && PublicKey(c) !in t && PrivateKey(c) !in t
        && Setup(t, c, w) == t[PublicKey(c) := Entry(w.generated.value.pub, true)]
                             [PrivateKey(c) := Entry(w.generated.value.prv, true)])
  }

  /**
   A first setup stores its pair: with neither row there and nothing failing, both new rows
   are added, every other key stays as it was, and the caller gets the generated pair.
   */
  lemma FirstSetupStores(t: Table, c: Client, w: Answers)
    requires PublicKey(c) !in t && PrivateKey(c) !in t && GoesThrough(w)
    ensures var t' := Setup(t, c, w);
            && Read(t', PublicKey(c)) == Some(w.generated.value.pub)
            && Read(t', PrivateKey(c)) == Some(w.generated.value.prv)
            && SetupKeys(t, c, w) == Some(w.generated.value)
    ensures forall k :: k != PublicKey(c) && k != PrivateKey(c) ==> EntryIn(Setup(t, c, w), k) == EntryIn(t, k)
  {
    ClientKeysDiffer(c, c);
    forall k ensures k != PublicKey(c) && k != PrivateKey(c) ==> EntryIn(Setup(t, c, w), k) == EntryIn(t, k) {
      SetupEntry(t, c, w, k);
    }
  }

  /** The rows a first setup leaves, by the names other modules look them up under. */
  lemma FirstSetupByName(w: Answers)
    requires GoesThrough(w)
    ensures var pub, prv := Some(w.generated.value.pub), Some(w.generated.value.prv);
            && Read(Setup(map[], MANAGER, w), Key("manager", CURVE25519, "public_key")) == pub
            && Read(Setup(map[], MANAGER, w), Key("manager", CURVE25519, "private_key")) == prv
            && Read(Setup(map[], PEER, w), Key("peerxxx", CURVE25519, "public_key")) == pub
            && Read(Setup(map[], PEER, w), Key("peerxxx", CURVE25519, "private_key")) == prv
            && Read(Setup(map[], UI, w), Key("uixxxxx", CURVE25519, "public_key")) == pub
            && Read(Setup(map[], UI, w), Key("uixxxxx", CURVE25519, "private_key")) == prv
            && Read(Setup(map[], ROUTER, w), Key("ipcrout", CURVE25519, "public_key")) == pub
            && Read(Setup(map[], ROUTER, w), Key("ipcrout", CURVE25519, "private_key")) == prv
  {
    FirstSetupStores(map[], MANAGER, w);
    FirstSetupStores(map[], PEER, w);
    FirstSetupStores(map[], UI, w);
    FirstSetupStores(map[], ROUTER, w);
  }

  /**
   Testing only the private store is enough exactly when the table does not hold the
   public row without the private one (or the setup fails before it writes). A setup that
   goes through adds both rows when it finds neither, and a setup that finds the private
   row, or does not go through, adds none.
   */
  lemma SetupAllOrNothing(t: Table, c: Client, w: Answers)
    ensures AllOrNothing(t, c, w) <==> !(PublicKey(c) in t && PrivateKey(c) !in t && GoesThrough(w))
    ensures PublicKey(c) !in t && PrivateKey(c) !in t && GoesThrough(w) ==>
              Setup(t, c, w) == t[PublicKey(c) := Entry(w.generated.value.pub, true)]
                                [PrivateKey(c) := Entry(w.generated.value.prv, true)]
    ensures PrivateKey(c) in t || !GoesThrough(w) ==> Setup(t, c, w) == t
  {
    ClientKeysDiffer(c, c);
    if PublicKey(c) in t && PrivateKey(c) !in t && GoesThrough(w) {
      assert PrivateKey(c) in Setup(t, c, w);
    }
  }

  /** Runs without bare stores never meet that case. */
  lemma SetupAllOrNothingInRuns(cmds: seq<Command>, c: Client, w: Answers)
    requires forall i :: 0 <= i < |cmds| ==> !cmds[i].StoreKey?
    ensures AllOrNothing(Run(map[], cmds), c, w)
  {
    KeysComeInPairs(map[], cmds);
    assert PublicKey(c) in Run(map[], cmds) <==> PrivateKey(c) in Run(map[], cmds);
    SetupAllOrNothing(Run(map[], cmds), c, w);
  }

  /** A bare store of the public key is enough to meet it: the next setup writes half a pair. */
  lemma HalfAPairIsPossible(c: Client, value: Blob, w: Answers)
    requires value != [] && GoesThrough(w)
    ensures var t := Run(map[], [StoreKey(PublicKey(c), value)]);
            var t' := Run(map[], [StoreKey(PublicKey(c), value), SetupKeysOf(c, w)]);
            && !AllOrNothing(t, c, w)
            && Read(t', PublicKey(c)) == Some(value)
            && Read(t', PrivateKey(c)) == Some(w.generated.value.prv)
  {
    ClientKeysDiffer(c, c);
    var store, setup := StoreKey(PublicKey(c), value), SetupKeysOf(c, w);
    var t := Store(map[], PublicKey(c), value);
    assert [store, setup][1..] == [setup];
    assert Run(t, [setup]) == Run(Setup(t, c, w), []);
    assert Run(map[], [store]) == Run(t, []);
    SetupAllOrNothing(t, c, w);
  }

  /** With a private key row present, active or not, a setup changes nothing. */
  lemma SetupNeedsNoPrivateRow(t: Table, c: Client, w: Answers)
    ensures Setup(t, c, w) != t <==> SetupWrites(t, c, w)
    ensures Setup(t, c, w) != t ==> PrivateKey(c) !in t && PrivateKey(c) in Setup(t, c, w)
  {
    ClientKeysDiffer(c, c);
  }

  lemma {:induction false} RowsAreKept(t: Table, cmds: seq<Command>, k: Key)
    requires k in t
    ensures k in Run(t, cmds)
    decreases |cmds|
  {
    if cmds != [] { RowsAreKept(Step(t, cmds[0]), cmds[1..], k); }
  }

  /**
   Setup writes at most once: after a setup that changed the table, no later setup of
   that client changes it, whatever commands come between, bare stores included.
   */
  lemma SetupWritesOnce(t: Table, c: Client, w: Answers, between: seq<Command>, later: Answers)
    requires Setup(t, c, w) != t
    ensures var t' := Run(Setup(t, c, w), between);
            Setup(t', c, later) == t'
  {
    SetupNeedsNoPrivateRow(t, c, w);
    RowsAreKept(Setup(t, c, w), between, PrivateKey(c));
    SetupNeedsNoPrivateRow(Run(Setup(t, c, w), between), c, later);
  }

  /**
   Later setups read the first pair back: in a run from the fresh schema without bare
   stores, after a setup that changed the table, as long as the client's keys are not
   updated or removed, every setup returns the pair first generated and changes nothing.
   */
  lemma SetupReadsBack(before: seq<Command>, c: Client, w: Answers, between: seq<Command>, later: Answers)
    requires forall i :: 0 <= i < |before| ==> !before[i].StoreKey?
    requires Setup(Run(map[], before), c, w) != Run(map[], before)
    requires forall i :: 0 <= i < |between| ==>
               !Changes(between[i], PublicKey(c)) && !Changes(between[i], PrivateKey(c))
    ensures var t' := Run(Setup(Run(map[], before), c, w), between);
            && w.generated.Some?
            && SetupKeys(t', c, later) == Some(w.generated.value)
            && Setup(t', c, later) == t'
  {
    var t := Run(map[], before);
    KeysComeInPairs(map[], before);
    assert PublicKey(c) in t <==> PrivateKey(c) in t;
    ClientKeysDiffer(c, c);
    SetupNeedsNoPrivateRow(t, c, w);
    SetupStoresPair(t, c, w);
    PairIsReadBack(Setup(t, c, w), c, w.generated.value, between, later);
  }

  lemma SetupStoresPair(t: Table, c: Client, w: Answers)
    requires SetupWrites(t, c, w) && PublicKey(c) !in t
    ensures Read(Setup(t, c, w), PublicKey(c)) == Some(w.generated.value.pub)
    ensures Read(Setup(t, c, w), PrivateKey(c)) == Some(w.generated.value.prv)
  {
    ClientKeysDiffer(c, c);
  }

  /** A readable pair stays the answer of every setup until one of its keys is changed. */
  lemma PairIsReadBack(t: Table, c: Client, pair: KeyPair, between: seq<Command>, later: Answers)
    requires Read(t, PublicKey(c)) == Some(pair.pub) && Read(t, PrivateKey(c)) == Some(pair.prv)
    requires forall i :: 0 <= i < |between| ==>
               !Changes(between[i], PublicKey(c)) && !Changes(between[i], PrivateKey(c))
    ensures SetupKeys(Run(t, between), c, later) == Some(pair)
    ensures Setup(Run(t, between), c, later) == Run(t, between)
  {
    KeysKeepTheirEntry(t, between, PublicKey(c));
    KeysKeepTheirEntry(t, between, PrivateKey(c));
  }

  /** The pair of the first setup of a client that went through. */
  function FirstPair(cmds: seq<Command>, c: Client): Option<KeyPair> {
    if cmds == [] then None
    else
      var was := FirstPair(cmds[..|cmds| - 1], c);
      match cmds[|cmds| - 1]
      case SetupKeysOf(d, w) => if was == None && d == c && GoesThrough(w) then Some(w.generated.value) else was
      case _ => was
  }

  /**
   Without bare stores a client has its two rows iff an earlier setup of it went through,
   and they hold that setup's pair as long as the client's keys are not updated or removed.
   */
  lemma {:induction false} RowsAreFirstPair(cmds: seq<Command>, c: Client)
    requires forall i :: 0 <= i < |cmds| ==> !cmds[i].StoreKey?
    ensures var t := Run(map[], cmds);
            (PublicKey(c) in t <==> FirstPair(cmds, c).Some?) && (PrivateKey(c) in t <==> FirstPair(cmds, c).Some?)
    ensures (forall i :: 0 <= i < |cmds| ==> !Changes(cmds[i], PublicKey(c)) && !Changes(cmds[i], PrivateKey(c))) ==>
              var t := Run(map[], cmds);
              FirstPair(cmds, c) == if BothReadable(t, c)
                                    then Some(KeyPair(Read(t, PublicKey(c)).value, Read(t, PrivateKey(c)).value))
                                    else None
    decreases |cmds|
  {
    if cmds != [] {
      var before, last := cmds[..|cmds| - 1], cmds[|cmds| - 1];
      RunLast(map[], cmds);
      RowsAreFirstPair(before, c);
      ClientKeysDiffer(c, c);
      if last.SetupKeysOf? {
        ClientKeysDiffer(c, last.client);
        ClientKeysDiffer(last.client, c);
        SetupEntry(Run(map[], before), last.client, last.answers, PublicKey(c));
        SetupEntry(Run(map[], before), last.client, last.answers, PrivateKey(c));
      }
    }
  }

  /**
   What a setup answers: in a run without bare stores, updates and removals of the
   client's keys, the pair of the first setup that went through; before there is one, the
   pair just generated.
   */
  lemma SetupAnswersFirstPair(cmds: seq<Command>, c: Client, w: Answers)
    requires forall i :: 0 <= i < |cmds| ==> !cmds[i].StoreKey?
    requires forall i :: 0 <= i < |cmds| ==> !Changes(cmds[i], PublicKey(c)) && !Changes(cmds[i], PrivateKey(c))
    ensures SetupKeys(Run(map[], cmds), c, w)
         == if FirstPair(cmds, c).Some? then FirstPair(cmds, c)
            else if w.generated.Some? then Some(w.generated.value) else None
  {
    RowsAreFirstPair(cmds, c);
  }

  /**
   After one of a client's existing keys has been removed, setup never helps again when
   the private row is there: it hands out a freshly generated pair and stores nothing.
   */
  lemma SetupAfterRemoval(t: Table, c: Client, k: Key, cmds: seq<Command>, w: Answers)
    requires PublicKey(c) in t && PrivateKey(c) in t
    requires k == PublicKey(c) || k == PrivateKey(c)
    ensures var t' := Run(Remove(t, k), cmds);
            && Setup(t', c, w) == t'
            && SetupKeys(t', c, w) == if w.generated.Some? then Some(w.generated.value) else None
  {
    InactiveForever(Remove(t, k), cmds, k);
    RowsAreKept(Remove(t, k), cmds, PrivateKey(c));
    SetupNeedsNoPrivateRow(Run(Remove(t, k), cmds), c, w);
  }
}
