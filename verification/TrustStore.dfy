/** The directory of authorised client keys: one file per key, named after an id in
    which path characters are replaced. */
module TrustStore {
  import opened Options
  import opened UnifiedPolicy

  /** What a file parses as: a key, or nothing usable. */
  type Files = map<string, Option<Key>>

  const EXTENSION: string := ".pub"

  predicate IsReplaced(c: char) {
    c == '/' || c == '\\' || c == '.' || c == ':'
  }

  function SafeId(id: string): (r: string)
    ensures |r| == |id|
    ensures forall i | 0 <= i < |id| :: r[i] == if IsReplaced(id[i]) then '_' else id[i]
  {
    if id == "" then "" else [if IsReplaced(id[0]) then '_' else id[0]] + SafeId(id[1..])
  }

  function ClientKeyPath(id: string): string {
    SafeId(id) + EXTENSION
  }

  /** The id a listing reports for a file, if it reports one. */
  function StemOf(name: string): (r: Option<string>)
    ensures r.Some? ==> name == r.value + EXTENSION && r.value != ""
  {
    if |name| > 4 && name[|name| - 4..] == EXTENSION then Some(name[..|name| - 4]) else None
  }

  // ---- The store -----------------------------------------------------------------------

  class TrustDir {
    var clients: Files

    constructor ()
      ensures clients == map[]
    {
      clients := map[];
    }

    /** Atomic: a failed write leaves the directory as it was. */
    method WriteAuthorizedClient(id: string, key: Key, writeOk: bool) returns (ok: bool)
      modifies this
      ensures ok == writeOk
      ensures clients == if ok then old(clients)[ClientKeyPath(id) := Some(key)] else old(clients)
    {
      if writeOk {
        clients := clients[ClientKeyPath(id) := Some(key)];
      }
      return writeOk;
    }

    /** Tells whether there was a record; `None` is a removal that fails, which leaves
        the directory as it was. */
    method ResetAuthorizedClient(id: string, removeOk: bool) returns (removed: Option<bool>)
      modifies this
      ensures removed == if removeOk then Some(ClientKeyPath(id) in old(clients)) else None
      ensures clients == if removed.Some? then old(clients) - {ClientKeyPath(id)} else old(clients)
    {
      if !removeOk {
        return None;
      }
      removed := Some(ClientKeyPath(id) in clients);
      clients := clients - {ClientKeyPath(id)};
    }

    /** `None` is a missing record; a record that does not parse is an error. */
    method LoadAuthorizedClient(id: string) returns (key: Option<Key>, error: bool)
      ensures error <==> ClientKeyPath(id) in clients && clients[ClientKeyPath(id)] == None
      ensures !error ==> key == Lookup(clients, id)
    {
      var path := ClientKeyPath(id);
      if path !in clients {
        return None, false;
      }
      return clients[path], clients[path] == None;
    }

    /** Lists the directory in whatever order it yields its files; a missing directory
        yields none. `None` is a directory, or an entry of it, that cannot be read; it
        is an error whatever else was listed. */
    method LoadAllAuthorizedClients(entries: Option<seq<Option<string>>>) returns (keys: Option<seq<(string, Key)>>)
      requires entries.Some? ==>
                 forall i | 0 <= i < |entries.value| && entries.value[i].Some? :: entries.value[i].value in clients
      ensures keys.Some? <==> entries.Some? && Readable(entries.value)
      ensures keys.Some? ==> keys.value == Listing(Names(entries.value), clients)
    {
      if entries.None? {
        return None;
      }
      var listed, names := [], [];
      for i := 0 to |entries.value|
        invariant Readable(entries.value[..i]) && names == Names(entries.value[..i])
        invariant forall k | 0 <= k < |names| :: names[k] in clients
        invariant listed == Listing(names, clients)
      {
        if entries.value[i].None? {
          return None;
        }
        var name := entries.value[i].value;
        assert (names + [name])[..i] == names;
        names := names + [name];
        var stem := StemOf(name);
        if stem.Some? {
          if clients[name].Some? {
            listed := listed + [(stem.value, clients[name].value)];
          }
        }
      }
      assert entries.value[..|entries.value|] == entries.value;
      return Some(listed);
    }
  }

  predicate Readable(entries: seq<Option<string>>) {
    forall i | 0 <= i < |entries| :: entries[i].Some?
  }

  function Names(entries: seq<Option<string>>): seq<string>
    requires Readable(entries)
  {
    seq(|entries|, i requires 0 <= i < |entries| => entries[i].value)
  }

  function Lookup(files: Files, id: string): Option<Key> {
    if ClientKeyPath(id) in files then files[ClientKeyPath(id)] else None
  }

  function Listing(order: seq<string>, files: Files): seq<(string, Key)>
    requires forall i | 0 <= i < |order| :: order[i] in files
  {
    if order == [] then []
    else
      var name := order[|order| - 1];
      var stem := StemOf(name);
      Listing(order[..|order| - 1], files)
      + if stem.Some? && files[name].Some? then [(stem.value, files[name].value)] else []
  }

  // ---- Names ------------------------------------------------------------------------------

  /** A key's file lies in the directory itself, whatever the id holds: `/`, `\`, `.` and
      `:` become underscores, the other characters stay, and `.pub` follows. */
  lemma FileNamesAreFlat(id: string)
    ensures var name := ClientKeyPath(id);
            && |name| == |id| + 4 && name[|id|..] == ".pub"
            && '/' !in name && '\\' !in name && ':' !in name && '.' !in name[..|id|]
            && forall i | 0 <= i < |id| ::
                 if id[i] == '/' || id[i] == '\\' || id[i] == '.' || id[i] == ':' then name[i] == '_'
                 else name[i] == id[i]
  {
    var name := ClientKeyPath(id);
    assert name[..|id|] == SafeId(id);
    assert forall c | c in SafeId(id) :: !IsReplaced(c);
  }

  predicate IsBase64(c: char) {
    'A' <= c <= 'Z' || 'a' <= c <= 'z' || '0' <= c <= '9' || c == '+' || c == '/'
  }

  /** `SHA256:` and the unpadded base64 of a digest. */
  predicate IsFingerprint(id: string) {
    |id| >= 7 && id[..7] == "SHA256:" && forall i | 7 <= i < |id| :: IsBase64(id[i])
  }

  /** Distinct fingerprints have distinct files, although `/` is replaced: neither `_`
      nor any other replaced character occurs in base64. */
  lemma FingerprintsHaveOwnFiles(f: string, g: string)
    requires IsFingerprint(f) && IsFingerprint(g)
    ensures ClientKeyPath(f) == ClientKeyPath(g) <==> f == g
  {
    if ClientKeyPath(f) == ClientKeyPath(g) {
      assert ClientKeyPath(f)[..|f|] == SafeId(f) && ClientKeyPath(g)[..|g|] == SafeId(g);
      forall i | 0 <= i < |f|
        ensures f[i] == g[i]
      {
        if i < 7 {
          assert f[i] == f[..7][i] == g[..7][i] == g[i];
        } else {
          assert SafeId(f)[i] == SafeId(g)[i];
        }
      }
    }
  }

  /** The directory refines a map from fingerprints to keys: authorising changes the
      answer for that fingerprint and for no other. */
  lemma AuthorisingIsMapUpdate(files: Files, f: string, key: Key, g: string)
    requires IsFingerprint(f) && IsFingerprint(g)
    ensures Lookup(files[ClientKeyPath(f) := Some(key)], g) == if f == g then Some(key) else Lookup(files, g)
    ensures Lookup(files - {ClientKeyPath(f)}, g) == if f == g then None else Lookup(files, g)
  {
    FingerprintsHaveOwnFiles(f, g);
  }

  /** A listing follows the directory's order, file by file. */
  lemma {:induction false} ListingFollowsOrder(a: seq<string>, b: seq<string>, files: Files)
    requires forall i | 0 <= i < |a| :: a[i] in files
    requires forall i | 0 <= i < |b| :: b[i] in files
    ensures Listing(a + b, files) == Listing(a, files) + Listing(b, files)
    decreases |b|
  {
    if b == [] {
      assert a + b == a;
    } else {
      assert (a + b)[..|a + b| - 1] == a + b[..|b| - 1];
      ListingFollowsOrder(a, b[..|b| - 1], files);
    }
  }

  lemma {:induction false} ListedExactly(order: seq<string>, files: Files, id: string, key: Key)
    requires forall i | 0 <= i < |order| :: order[i] in files
    ensures (id, key) in Listing(order, files) <==>
              id != "" && id + ".pub" in order && files[id + ".pub"] == Some(key)
  {
    if order != [] {
      var init, name := order[..|order| - 1], order[|order| - 1];
      ListedExactly(init, files, id, key);
      assert order == init + [name];
      if name == id + EXTENSION {
        assert name[..|name| - 4] == id && name[|name| - 4..] == EXTENSION;
      }
    }
  }

  /** A listed id revokes its own record, and only that, exactly when it is free of
      replaced characters; otherwise the record stays. */
  lemma RevokingListedId(files: Files, id: string)
    requires id != "" && id + EXTENSION in files
    ensures (forall i | 0 <= i < |id| :: !IsReplaced(id[i])) <==> id + EXTENSION !in files - {ClientKeyPath(id)}
    ensures (forall i | 0 <= i < |id| :: !IsReplaced(id[i])) ==> ClientKeyPath(id) == id + EXTENSION
  {
    if forall i | 0 <= i < |id| :: !IsReplaced(id[i]) {
      assert SafeId(id) == id;
    } else {
      var i :| 0 <= i < |id| && IsReplaced(id[i]);
      assert (id + EXTENSION)[i] == id[i] && ClientKeyPath(id)[i] == '_';
    }
  }

  // ---- The vault ------------------------------------------------------------------------------

  /** Only records written for fingerprints, as the authenticators write them. */
  ghost predicate IsVault(files: Files) {
    forall name | name in files ::
      files[name].Some? && IsFingerprint(files[name].value.fingerprint)
      && name == ClientKeyPath(files[name].value.fingerprint)
  }

  ghost function Keys(files: Files): set<Key> {
    set name | name in files && files[name].Some? :: files[name].value
  }

  /** Admitting a key adds it to the set of keys, touches no other record, and needs a
      new file just when the key is new. */
  lemma AdmittingAddsKey(files: Files, key: Key)
    requires IsVault(files) && IsFingerprint(key.fingerprint)
    ensures var files' := files[ClientKeyPath(key.fingerprint) := Some(key)];
            && IsVault(files') && Keys(files') == Keys(files) + {key}
            && (forall name | name in files :: name in files' && files'[name] == files[name])
            && (key in Keys(files) <==> files' == files)
  {
    var path := ClientKeyPath(key.fingerprint);
    var files' := files[path := Some(key)];
    if path in files {
      FingerprintsHaveOwnFiles(key.fingerprint, files[path].value.fingerprint);
      assert files[path].value == key;
    }
    forall k | k in Keys(files) + {key}
      ensures k in Keys(files')
    {
      if k == key {
        assert files'[path] == Some(key);
      } else {
        var name :| name in files && files[name] == Some(k);
        assert files'[name] == Some(k);
      }
    }
  }

  /** Dropping a record of the vault drops its key and no other. */
  lemma DroppingRecordDropsKey(files: Files, name: string)
    requires IsVault(files) && name in files
    ensures IsVault(files - {name}) && |files - {name}| == |files| - 1
    ensures Keys(files - {name}) == Keys(files) - {files[name].value}
  {
    var files' := files - {name};
    assert files'.Keys == files.Keys - {name};
    forall k | k in Keys(files) && k != files[name].value
      ensures k in Keys(files')
    {
      var n :| n in files && files[n] == Some(k);
      assert n in files' && files'[n] == Some(k);
    }
    assert files[name].value !in Keys(files');
  }

  /** Revoking by an id taken from a listing removes exactly the key listed with it. */
  lemma RevokingRemovesListedKey(files: Files, order: seq<string>, id: string, key: Key)
    requires IsVault(files) && forall i | 0 <= i < |order| :: order[i] in files
    requires (id, key) in Listing(order, files)
    ensures var files' := files - {ClientKeyPath(id)};
            IsVault(files') && Keys(files') == Keys(files) - {key} && |files'| == |files| - 1
  {
    ListedExactly(order, files, id, key);
    var name := id + EXTENSION;
    assert name in files && files[name] == Some(key);
    assert ClientKeyPath(key.fingerprint)[..|id|] == id == SafeId(key.fingerprint);
    assert forall i | 0 <= i < |id| :: !IsReplaced(id[i]);
    RevokingListedId(files, id);
    DroppingRecordDropsKey(files, name);
  }
}
