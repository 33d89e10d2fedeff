/**
 The database behind core/keys_db.cpp: rows of module_keys, the seeded key_types
 (db_scripts/table_keys.sql) and one open transaction. Each operation is proved to act
 on the rows as KeyTable says it acts on the map they stand for.
 */
module KeyStore {
  import opened Prelude
  import opened KeyTable

  datatype Row = Row(moduleName: string, typeId: nat, keyName: string, value: Blob, active: bool)

  /** key_type_to_string. */
  function TypeName(t: KeyType): string {
    match t
    case CURVE25519 => "CURVE25519"
    case ED25519 => "ED25519"
    case AES => "AES"
    case RSA => "RSA"
    case API_KEY => "API_KEY"
    case Unlisted => "UNKNOWN"
  }

  /** The rows the schema script inserts into key_types; ids count from 1. */
  const KEY_TYPES: seq<string> := ["CURVE25519", "ED25519", "AES", "RSA", "API_KEY"]

  /** SELECT id FROM key_types WHERE type_name = ?, or NULL. */
  function TypeId(name: string): Option<nat> {
    if name == KEY_TYPES[0] then Some(1)
    else if name == KEY_TYPES[1] then Some(2)
    else if name == KEY_TYPES[2] then Some(3)
    else if name == KEY_TYPES[3] then Some(4)
    else if name == KEY_TYPES[4] then Some(5)
    else None
  }

  function TypeOf(id: nat): KeyType {
    if id == 1 then CURVE25519
    else if id == 2 then ED25519
    else if id == 3 then AES
    else if id == 4 then RSA
    else if id == 5 then API_KEY
    else Unlisted
  }

  /** Every listed type is seeded under its own id, and no other type has one. */
  lemma TypeIdsAreDistinct(t: KeyType, id: nat)
    ensures TypeId(TypeName(t)) == Some(id) <==> t != Unlisted && 1 <= id <= 5 && TypeOf(id) == t
    ensures t == Unlisted <==> TypeId(TypeName(t)) == None
  {
    assert |"AES"| == 3 && |"RSA"| == 3 && "AES"[0] == 'A' && "RSA"[0] == 'R';
    assert |"CURVE25519"| == 10 && |"ED25519"| == 7 && |"API_KEY"| == 7 && |"UNKNOWN"| == 7;
    assert "ED25519"[0] == 'E' && "API_KEY"[0] == 'A' && "UNKNOWN"[0] == 'U';
  }

  /** The ids AUTOINCREMENT gives the five names in the order of the script. */
  lemma SeededIds()
    ensures TypeId(TypeName(CURVE25519)) == Some(1) && TypeId(TypeName(ED25519)) == Some(2)
    ensures TypeId(TypeName(AES)) == Some(3) && TypeId(TypeName(RSA)) == Some(4)
    ensures TypeId(TypeName(API_KEY)) == Some(5)
  {
    TypeIdsAreDistinct(CURVE25519, 1);
    TypeIdsAreDistinct(ED25519, 2);
    TypeIdsAreDistinct(AES, 3);
    TypeIdsAreDistinct(RSA, 4);
    TypeIdsAreDistinct(API_KEY, 5);
  }

  /** The WHERE clause shared by the select and the two updates. */
  predicate Matches(r: Row, k: Key) {
    r.moduleName == k.moduleName && TypeId(TypeName(k.keyType)) == Some(r.typeId) && r.keyName == k.keyName
  }

  function KeyOf(r: Row): Key {
    Key(r.moduleName, TypeOf(r.typeId), r.keyName)
  }

  function EntryOf(r: Row): Entry {
    Entry(r.value, r.active)
  }

  lemma MatchesIsKeyOf(r: Row, k: Key)
    requires 1 <= r.typeId <= 5
    ensures Matches(r, k) <==> KeyOf(r) == k
  {
    TypeIdsAreDistinct(k.keyType, r.typeId);
  }

  /** UNIQUE(module_name, key_type_id, key_name), and type ids that exist. */
  ghost predicate Consistent(rows: seq<Row>) {
    && (forall i :: 0 <= i < |rows| ==> 1 <= rows[i].typeId <= 5)
    && (forall i, j :: 0 <= i < j < |rows| ==> KeyOf(rows[i]) != KeyOf(rows[j]))
  }

  ghost function TableOf(rows: seq<Row>): Table {
    if rows == [] then map[]
    else
      var last := rows[|rows| - 1];
      TableOf(rows[..|rows| - 1])[KeyOf(last) := EntryOf(last)]
  }

  /** UPDATE ... SET key_value = ?. */
  function SetValue(rows: seq<Row>, k: Key, value: Blob): seq<Row> {
    seq(|rows|, i requires 0 <= i < |rows| => if Matches(rows[i], k) then rows[i].(value := value) else rows[i])
  }

  /** UPDATE ... SET is_active = 0. */
  function Deactivate(rows: seq<Row>, k: Key): seq<Row> {
    seq(|rows|, i requires 0 <= i < |rows| => if Matches(rows[i], k) then rows[i].(active := false) else rows[i])
  }

  /** SELECT key_value ... AND is_active = 1. */
  function Select(rows: seq<Row>, k: Key): seq<Blob> {
    if rows == [] then []
    else
      var last := rows[|rows| - 1];
      Select(rows[..|rows| - 1], k) + (if Matches(last, k) && last.active then [last.value] else [])
  }

  /** The table has an entry for a key iff a row matches it, and that row is its entry. */
  lemma {:induction false} TableIsRows(rows: seq<Row>, k: Key)
    requires Consistent(rows)
    ensures k in TableOf(rows) <==> exists i :: 0 <= i < |rows| && Matches(rows[i], k)
    ensures forall i :: 0 <= i < |rows| && Matches(rows[i], k) ==> k in TableOf(rows) && TableOf(rows)[k] == EntryOf(rows[i])
  {
    if rows != [] {
      var before, last := rows[..|rows| - 1], rows[|rows| - 1];
      TableIsRows(before, k);
      MatchesIsKeyOf(last, k);
      forall i | 0 <= i < |before| ensures Matches(rows[i], k) ==> KeyOf(last) != k {
        MatchesIsKeyOf(rows[i], k);
      }
      if k in TableOf(before) {
        var i :| 0 <= i < |before| && Matches(before[i], k);
        assert Matches(rows[i], k);
      }
    }
  }

  /** Rewriting the rows of a key rewrites that key's entry and no other. */
  lemma {:induction false} RewriteRows(rows: seq<Row>, rows': seq<Row>, k: Key, e: Entry)
    requires Consistent(rows) && |rows'| == |rows|
    requires forall i :: 0 <= i < |rows| ==> KeyOf(rows'[i]) == KeyOf(rows[i])
    requires forall i :: 0 <= i < |rows| ==>
               EntryOf(rows'[i]) == if Matches(rows[i], k) then e else EntryOf(rows[i])
    ensures TableOf(rows') == if k in TableOf(rows) then TableOf(rows)[k := e] else TableOf(rows)
  {
    if rows != [] {
      var n := |rows| - 1;
      var before, before' := rows[..n], rows'[..n];
      assert Consistent(before);
      RewriteRows(before, before', k, e);
      MatchesIsKeyOf(rows[n], k);
      assert TableOf(rows) == TableOf(before)[KeyOf(rows[n]) := EntryOf(rows[n])];
      assert TableOf(rows') == TableOf(before')[KeyOf(rows[n]) := EntryOf(rows'[n])];
      if KeyOf(rows[n]) != k {
        assert TableOf(before)[k := e][KeyOf(rows[n]) := EntryOf(rows[n])]
            == TableOf(before)[KeyOf(rows[n]) := EntryOf(rows[n])][k := e];
      } else {
        assert TableOf(before)[k := e][k := e] == TableOf(before)[k := EntryOf(rows[n])][k := e];
      }
    }
  }

  lemma AppendRow(rows: seq<Row>, r: Row)
    requires Consistent(rows) && 1 <= r.typeId <= 5 && KeyOf(r) !in TableOf(rows)
    ensures Consistent(rows + [r]) && TableOf(rows + [r]) == TableOf(rows)[KeyOf(r) := EntryOf(r)]
  {
    TableIsRows(rows, KeyOf(r));
    forall i | 0 <= i < |rows| ensures KeyOf(rows[i]) != KeyOf(r) {
      MatchesIsKeyOf(rows[i], KeyOf(r));
    }
    assert (rows + [r])[..|rows|] == rows;
  }

  /** A select finds at most one row, so its first row is its only answer. */
  lemma {:induction false} SelectIsRead(rows: seq<Row>, k: Key)
    requires Consistent(rows)
    ensures Select(rows, k) == match Read(TableOf(rows), k)
                               case Some(v) => [v]
                               case None => []
  {
    if rows != [] {
      var before, last := rows[..|rows| - 1], rows[|rows| - 1];
      SelectIsRead(before, k);
      MatchesIsKeyOf(last, k);
      TableIsRows(before, KeyOf(last));
      forall i | 0 <= i < |before| ensures !Matches(before[i], KeyOf(last)) {
        MatchesIsKeyOf(before[i], KeyOf(last));
      }
    }
  }

  class KeyStore {
    var rows: seq<Row>
    var saved: Option<seq<Row>>    // what ROLLBACK, or closing the database, goes back to

    ghost predicate Valid()
      reads this
    {
      Consistent(rows) && (saved.Some? ==> Consistent(saved.value))
    }

    ghost function Content(): Table
      reads this
    {
      TableOf(rows)
    }

    constructor ()
      ensures Valid() && Content() == map[] && saved == None
    {
      rows, saved := [], None;
    }

    method StoreKey(k: Key, value: Blob) returns (ok: bool)
      requires Valid()
      modifies this`rows
      ensures Valid()
      ensures ok <==> CanStore(old(Content()), k, value)
      ensures Content() == Store(old(Content()), k, value)
    {
      var typeId := TypeId(TypeName(k.keyType));
      TypeIdsAreDistinct(k.keyType, if typeId.Some? then typeId.value else 0);
      // NOT NULL on key_type_id and key_value; an empty blob is bound as NULL.
      if typeId == None || value == [] {
        return false;
      }
      TableIsRows(rows, k);
      if exists i :: 0 <= i < |rows| && Matches(rows[i], k) {
        return false;
      }
      var row := Row(k.moduleName, typeId.value, k.keyName, value, true);
      AppendRow(rows, row);
      rows := rows + [row];
      return true;
    }

    method UpdateKey(k: Key, value: Blob) returns (ok: bool)
      requires Valid()
      modifies this`rows
      ensures Valid()
      ensures ok <==> CanUpdate(old(Content()), k, value)
      ensures Content() == Update(old(Content()), k, value)
    {
      TableIsRows(rows, k);
      // NOT NULL on key_value stops the statement as soon as a row matches.
      if value == [] && exists i :: 0 <= i < |rows| && Matches(rows[i], k) {
        return false;
      }
      ghost var active := k in Content() && Content()[k].active;
      RewriteRows(rows, SetValue(rows, k, value), k, Entry(value, active));
      rows := SetValue(rows, k, value);
      return true;
    }

    method RemoveKey(k: Key) returns (ok: bool)
      requires Valid()
      modifies this`rows
      ensures Valid() && ok
      ensures Content() == Remove(old(Content()), k)
    {
      TableIsRows(rows, k);
      ghost var value := if k in Content() then Content()[k].value else [];
      RewriteRows(rows, Deactivate(rows, k), k, Entry(value, false));
      rows := Deactivate(rows, k);
      return true;
    }

    method GetKey(k: Key) returns (value: Option<Blob>)
      requires Valid()
      ensures value == Read(Content(), k)
    {
      SelectIsRead(rows, k);
      var found := Select(rows, k);
      if found == [] {
        return None;
      }
      return Some(found[0]);
    }

    method Begin()
      requires saved == None
      modifies this`saved
      ensures saved == Some(rows)
    {
      saved := Some(rows);
    }

    method Commit()
      modifies this`saved
      ensures saved == None
    {
      saved := None;
    }

    /** ROLLBACK; closing the database does the same to an open transaction. */
    method Rollback()
      modifies this
      ensures saved == None && rows == if old(saved).Some? then old(saved).value else old(rows)
    {
      if saved.Some? {
        rows, saved := saved.value, None;
      }
    }

    /**
     The setup of a client's keys, _handle_keys in core/module.cpp. It tests the result
     of the private store only. keys is what ends up in the caller's buffers.
     */
    method HandleKeys(c: Client, keyType: KeyType, w: Answers) returns (keys: Option<KeyPair>)
      requires Valid() && saved == None
      modifies this
      ensures Valid() && saved == None
      ensures keyType != CURVE25519 ==> keys == None && Content() == old(Content())
      ensures keyType == CURVE25519 ==>
                keys == SetupKeys(old(Content()), c, w) && Content() == Setup(old(Content()), c, w)
    {
      if keyType != CURVE25519 {
        return None;
      }
      ClientKeysDiffer(c, c);
      var pub := GetKey(PublicKey(c));
      var prv := GetKey(PrivateKey(c));
      if pub.Some? && prv.Some? {
        return Some(KeyPair(pub.value, prv.value));
      }
      if w.generated == None {
        return None;
      }
      keys := Some(w.generated.value);
      if w.beginOk {
        Begin();
        var writePub := StoreKey(PublicKey(c), w.generated.value.pub);
        var writePrv := StoreKey(PrivateKey(c), w.generated.value.prv);
        if !writePrv {
          Rollback();
        } else if w.commitOk {
          Commit();
        }
      }
      Rollback();
    }
  }
}
