/** The panel's SSH keys and an instance's authorized_keys: internal/sshkeys/store.go and
    internal/api/handler/sshkeys.go. */
module SshKeys {
  import opened Wrappers
  import opened Text
  import Collections
  import opened Incus

  datatype Key = Key(id: string, name: string, publicKey: string, createdAt: int)

  // ---------- the store ----------

  /** The keys whose id is asked for, in store order. */
  function Selected(keys: seq<Key>, ids: set<string>): seq<Key> {
    if keys == [] then [] else IfSelected(keys[0], ids) + Selected(keys[1..], ids)
  }

  /** The keys without the first of the given id. */
  function Removed(keys: seq<Key>, id: string): seq<Key> {
    if keys == [] then [] else if keys[0].id == id then keys[1..] else [keys[0]] + Removed(keys[1..], id)
  }

  predicate HaveDistinctIds(keys: seq<Key>) {
    forall i, j | 0 <= i < j < |keys| :: keys[i].id != keys[j].id
  }

  class Store {
    var keys: seq<Key>

    /** `randomId` is the random id, if the source of randomness works; `saved` tells whether the file could be
        written. A key that could not be saved is in memory all the same. */
    method Add(randomId: Option<string>, name: string, publicKey: string, now: int, saved: bool)
      returns (k: Option<Key>, ok: bool)
      modifies this
      ensures k == (if randomId.Some? then Some(Key(randomId.value, name, publicKey, now)) else None)
      ensures keys == if k.Some? then old(keys) + [k.value] else old(keys)
      ensures ok <==> randomId.Some? && saved
    {
      if randomId == None {
        return None, false;
      }
      k, ok := Some(Key(randomId.value, name, publicKey, now)), saved;
      keys := keys + [k.value];
    }

    method Delete(id: string, saved: bool) returns (ok: bool)
      modifies this
      ensures keys == Removed(old(keys), id)
      ensures ok <==> saved || forall k | k in old(keys) :: k.id != id
    {
      for i := 0 to |keys|
        invariant keys == old(keys)
        invariant forall k | k in keys[..i] :: k.id != id
      {
        if keys[i].id == id {
          RemovedFirst(keys, i, id);
          keys := keys[..i] + keys[i + 1..];
          return saved;
        }
        assert keys[..i + 1] == keys[..i] + [keys[i]];
      }
      assert keys[..|keys|] == keys;
      NothingRemoved(keys, id);
      return true;
    }

    method GetByIDs(ids: seq<string>) returns (out: seq<Key>)
      ensures out == Selected(keys, set id | id in ids)
    {
      var wanted: set<string> := {};
      for i := 0 to |ids|
        invariant wanted == set id | id in ids[..i]
      {
        wanted := wanted + {ids[i]};
        assert ids[..i + 1] == ids[..i] + [ids[i]];
      }
      assert ids[..|ids|] == ids;
      out := [];
      for i := 0 to |keys|
        invariant Selected(keys, wanted) == out + Selected(keys[i..], wanted)
      {
        assert keys[i..][0] == keys[i] && keys[i..][1..] == keys[i + 1..];
        if keys[i].id in wanted {
          out := out + [keys[i]];
        }
      }
    }
  }

  lemma {:induction false} RemovedFirst(keys: seq<Key>, i: nat, id: string)
    requires i < |keys| && keys[i].id == id && forall k | k in keys[..i] :: k.id != id
    ensures Removed(keys, id) == keys[..i] + keys[i + 1..]
    decreases i
  {
    if i > 0 {
      assert keys[..i] == [keys[0]] + keys[1..][..i - 1];
      assert keys[0] in keys[..i];
      RemovedFirst(keys[1..], i - 1, id);
      assert keys[1..][i..] == keys[i + 1..];
    }
  }

  lemma {:induction false} NothingRemoved(keys: seq<Key>, id: string)
    requires forall k | k in keys :: k.id != id
    ensures Removed(keys, id) == keys
  {
    if keys != [] {
      assert keys[0] in keys;
      NothingRemoved(keys[1..], id);
    }
  }

  function IfSelected(k: Key, ids: set<string>): seq<Key> {
    if k.id in ids then [k] else []
  }

  /** A key is in the answer exactly when it is stored and its id is asked for. */
  lemma {:induction false} SelectedIff(keys: seq<Key>, ids: set<string>, k: Key)
    ensures k in Selected(keys, ids) <==> k in keys && k.id in ids
    ensures multiset(Selected(keys, ids))[k] == if k.id in ids then multiset(keys)[k] else 0
  {
    if keys != [] {
      SelectedIff(keys[1..], ids, k);
      assert keys == [keys[0]] + keys[1..];
    }
  }

  /** An added key comes last, if its id is asked for; so the answer keeps the store's order. */
  lemma {:induction false} SelectionAfterAdd(keys: seq<Key>, ids: set<string>, k: Key)
    ensures Selected([], ids) == []
    ensures Selected(keys + [k], ids) == if k.id in ids then Selected(keys, ids) + [k] else Selected(keys, ids)
  {
    if keys == [] {
      assert keys + [k] == [k];
    } else {
      assert (keys + [k])[1..] == keys[1..] + [k];
      SelectionAfterAdd(keys[1..], ids, k);
      Collections.ConcatAssociates(IfSelected(keys[0], ids), Selected(keys[1..], ids), IfSelected(k, ids));
    }
  }

  /** Deleting a key is the same as never asking for it. */
  lemma {:induction false} SelectionAfterDelete(keys: seq<Key>, ids: set<string>, id: string)
    requires HaveDistinctIds(keys)
    ensures Selected(Removed(keys, id), ids) == Selected(keys, ids - {id})
  {
    if keys != [] {
      SelectionAfterDelete(keys[1..], ids, id);
      if keys[0].id == id {
        NeverSelected(keys[1..], ids, id);
      }
    }
  }

  lemma {:induction false} NeverSelected(keys: seq<Key>, ids: set<string>, id: string)
    requires forall k | k in keys :: k.id != id
    ensures Selected(keys, ids - {id}) == Selected(keys, ids)
  {
    if keys != [] {
      assert keys[0] in keys;
      NeverSelected(keys[1..], ids, id);
    }
  }

  // ---------- authorized_keys ----------

  function Line(k: Key): string {
    Trim(k.publicKey) + "\n"
  }

  function Content(keys: seq<Key>): string {
    if keys == [] then "" else Line(keys[0]) + Content(keys[1..])
  }

  /** The file of no keys is empty; each key adds its trimmed text and a line feed. */
  lemma {:induction false} ContentByLine(keys: seq<Key>, k: Key)
    ensures Content([]) == "" && Content(keys + [k]) == Content(keys) + Trim(k.publicKey) + ['\n']
  {
    if keys == [] {
      assert keys + [k] == [k] && Content([k]) == Line(k) + Content([]);
    } else {
      assert (keys + [k])[0] == keys[0] && (keys + [k])[1..] == keys[1..] + [k];
      ContentByLine(keys[1..], k);
      Collections.ConcatAssociates(Line(keys[0]), Content(keys[1..]), Trim(k.publicKey) + ['\n']);
      Collections.ConcatAssociates(Content(keys[1..]), Trim(k.publicKey), ['\n']);
      Collections.ConcatAssociates(Content(keys), Trim(k.publicKey), ['\n']);
    }
  }

  predicate IsKeyLine(line: string) {
    line != "" && line[0] != '#'
  }

  function KeyLines(lines: seq<string>): seq<string> {
    if lines == [] then [] else KeyOf(lines[0]) + KeyLines(lines[1..])
  }

  /** The key that a line holds, if it holds one. */
  function KeyOf(line: string): seq<string> {
    var key := Trim(line);
    if IsKeyLine(key) then [key] else []
  }

  function ReadKeys(content: string): seq<string> {
    KeyLines(Split(content, '\n'))
  }

  /** The keys read are the trimmed lines that are neither empty nor comments. */
  lemma ReadKeysIff(content: string, key: string)
    ensures key in ReadKeys(content) <==>
            key != "" && key[0] != '#' && exists line | line in Split(content, '\n') :: Trim(line) == key
  {
    KeyLinesIff(Split(content, '\n'), key);
  }

  lemma {:induction false} KeyLinesIff(lines: seq<string>, key: string)
    ensures key in KeyLines(lines) <==>
            key != "" && key[0] != '#' && exists line | line in lines :: Trim(line) == key
  {
    if lines != [] {
      KeyLinesIff(lines[1..], key);
      assert lines == [lines[0]] + lines[1..];
    }
  }

  /** The authorized_keys file of an instance, if there is one and it can be opened. */
  class KeyFile {
    var content: Option<string>
  }

  method AddSSHKey(store: Store, randomId: Option<string>, name: string, publicKey: string, now: int, saved: bool)
    returns (status: Status)
    modifies store
    ensures var valid := Trim(name) != "" && Trim(publicKey) != "";
            && status == (if !valid then BadRequest else if randomId.Some? && saved then Ok else ServerError)
            && store.keys == if valid && randomId.Some?
                             then old(store.keys) + [Key(randomId.value, Trim(name), Trim(publicKey), now)]
                             else old(store.keys)
  {
    var trimmedName, trimmedKey := Trim(name), Trim(publicKey);
    if trimmedName == "" || trimmedKey == "" {
      return BadRequest;
    }
    var _, ok := store.Add(randomId, trimmedName, trimmedKey, now, saved);
    return if ok then Ok else ServerError;
  }

  lemma ContentGrows(keys: seq<Key>, i: nat, written: string)
    requires i < |keys| && Content(keys) == written + Content(keys[i..])
    ensures Content(keys) == written + Line(keys[i]) + Content(keys[i + 1..])
  {
    assert keys[i..][1..] == keys[i + 1..];
    Collections.ConcatAssociates(written, Line(keys[i]), Content(keys[i + 1..]));
  }

  method BuildContent(selected: seq<Key>) returns (content: string)
    ensures content == Content(selected)
  {
    content := "";
    for i := 0 to |selected|
      invariant Content(selected) == content + Content(selected[i..])
    {
      ContentGrows(selected, i, content);
      Collections.ConcatAssociates(content, Trim(selected[i].publicKey), "\n");
      content := content + Trim(selected[i].publicKey);
      content := content + "\n";
    }
  }

  method PutInstanceSSHKeys(store: Store, ids: seq<string>, file: KeyFile, accepted: bool) returns (status: Status)
    modifies file
    ensures status == if accepted then Ok else ServerError
    ensures file.content ==
            if accepted then Some(Content(Selected(store.keys, set id | id in ids))) else old(file.content)
  {
    var selected := [];
    if |ids| > 0 {
      selected := store.GetByIDs(ids);
    } else {
      NothingSelected(store.keys);
      assert (set id | id in ids) == {};
    }
    var content := BuildContent(selected);
    if !accepted {
      return ServerError;
    }
    file.content := Some(content);
    return Ok;
  }

  lemma {:induction false} NothingSelected(keys: seq<Key>)
    ensures Selected(keys, {}) == []
  {
    if keys != [] {
      NothingSelected(keys[1..]);
    }
  }

  lemma KeyLinesGrow(lines: seq<string>, i: nat, found: seq<string>)
    requires i < |lines| && KeyLines(lines) == found + KeyLines(lines[i..])
    ensures var line := Trim(lines[i]);
            KeyLines(lines) == (if IsKeyLine(line) then found + [line] else found) + KeyLines(lines[i + 1..])
  {
    var rest := KeyLines(lines[i + 1..]);
    assert lines[i..][1..] == lines[i + 1..];
    Collections.ConcatAssociates(found, KeyOf(lines[i]), rest);
    assert found + [] == found;
  }

  method CollectKeys(lines: seq<string>) returns (keys: seq<string>)
    ensures keys == KeyLines(lines)
  {
    keys := [];
    for i := 0 to |lines|
      invariant KeyLines(lines) == keys + KeyLines(lines[i..])
    {
      KeyLinesGrow(lines, i, keys);
      var line := Trim(lines[i]);
      if line != "" && line[0] != '#' {
        keys := keys + [line];
      }
    }
  }

  /** `readable` tells whether an opened file could be read to its end. */
  method GetInstanceSSHKeys(file: KeyFile, readable: bool) returns (status: Status, keys: seq<string>)
    ensures status == if file.content == None || readable then Ok else ServerError
    ensures keys == if file.content.Some? && readable then ReadKeys(file.content.value) else []
  {
    if file.content == None {
      return Ok, [];
    }
    if !readable {
      return ServerError, [];
    }
    keys := CollectKeys(Split(file.content.value, '\n'));
    return Ok, keys;
  }

  // ---------- writing and reading back ----------

  /** A key that reads back as the one line it was written as. */
  predicate IsPlain(key: string) {
    IsKeyLine(key) && '\n' !in key
  }

  /** Of the keys that AddSSHKey lets in, the plain ones are those without a line break inside and without a '#' in
      front. */
  lemma StoredKeyIsPlainIff(publicKey: string)
    requires Trim(publicKey) != ""
    ensures var stored := Trim(publicKey);
            Trim(stored) == stored && (IsPlain(Trim(stored)) <==> '\n' !in stored && stored[0] != '#')
  {
    var stored := Trim(publicKey);
    assert TrimLeft(stored) == stored && TrimRight(stored) == stored;
  }

  function TrimmedKeys(keys: seq<Key>): seq<string> {
    seq(|keys|, i requires 0 <= i < |keys| => Trim(keys[i].publicKey))
  }

  lemma {:induction false} KeyLinesConcat(a: seq<string>, b: seq<string>)
    ensures KeyLines(a + b) == KeyLines(a) + KeyLines(b)
  {
    if a == [] {
      assert a + b == b;
    } else {
      KeyLinesConcat(a[1..], b);
      assert (a + b)[1..] == a[1..] + b;
      Collections.ConcatAssociates(KeyOf(a[0]), KeyLines(a[1..]), KeyLines(b));
    }
  }

  lemma {:induction false} TrimKeepsCharacters(s: string)
    ensures forall c | c in Trim(s) :: c in s
  {
    TrimLeftIsSuffix(s);
    assert TrimRight(TrimLeft(s)) <= TrimLeft(s);
  }

  lemma {:induction false} TrimLeftIsSuffix(s: string)
    ensures forall c | c in TrimLeft(s) :: c in s
  {
    if s != "" && IsSpace(s[0]) {
      TrimLeftIsSuffix(s[1..]);
    }
  }

  lemma {:induction false} KeyLinesArePlain(lines: seq<string>)
    requires forall line | line in lines :: '\n' !in line
    ensures forall key | key in KeyLines(lines) :: IsPlain(key)
  {
    if lines != [] {
      assert lines[0] in lines;
      TrimKeepsCharacters(lines[0]);
      KeyLinesArePlain(lines[1..]);
    }
  }

  /** One written line gives back exactly the key it holds, if that is plain. */
  lemma PlainKeyReadsBack(k: Key)
    requires IsPlain(Trim(k.publicKey))
    ensures ReadKeys(Trim(k.publicKey)) == [Trim(k.publicKey)]
  {
    var key := Trim(k.publicKey);
    SplitWhole(key, '\n');
    assert TrimLeft(key) == key && TrimRight(key) == key;
    assert KeyOf(key) == [key] && KeyLines([key]) == [key] + KeyLines([]);
  }

  /** A line break separates what is read on either side of it. */
  lemma ReadKeysConcat(a: string, b: string)
    ensures ReadKeys(a + "\n" + b) == ReadKeys(a) + ReadKeys(b)
  {
    SplitConcat(a, '\n', b);
    KeyLinesConcat(Split(a, '\n'), Split(b, '\n'));
  }

  lemma NothingReadsBackAsNothing()
    ensures ReadKeys("") == []
  {
    assert KeyOf("") == [] && KeyLines([""]) == KeyOf("") + KeyLines([]);
  }

  lemma TrimmedKeysOfFirst(keys: seq<Key>)
    requires keys != []
    ensures TrimmedKeys(keys) == [Trim(keys[0].publicKey)] + TrimmedKeys(keys[1..])
  {
  }

  lemma {:induction false} PlainKeysReadBack(keys: seq<Key>)
    requires forall k | k in keys :: IsPlain(Trim(k.publicKey))
    ensures ReadKeys(Content(keys)) == TrimmedKeys(keys)
  {
    if keys == [] {
      NothingReadsBackAsNothing();
    } else {
      assert keys[0] in keys;
      PlainKeysReadBack(keys[1..]);
      PlainKeyReadsBack(keys[0]);
      TrimmedKeysOfFirst(keys);
      ReadKeysConcat(Trim(keys[0].publicKey), Content(keys[1..]));
    }
  }

  /** Reading back the written file yields the trimmed keys, one for one and in order, exactly when every one of
      them is a single line that is not empty and not a comment. */
  lemma ReadAfterWriteIff(keys: seq<Key>)
    ensures ReadKeys(Content(keys)) == TrimmedKeys(keys) <==> forall k | k in keys :: IsPlain(Trim(k.publicKey))
  {
    if forall k | k in keys :: IsPlain(Trim(k.publicKey)) {
      PlainKeysReadBack(keys);
    }
    if ReadKeys(Content(keys)) == TrimmedKeys(keys) {
      PiecesHoldNoSeparator(Content(keys), '\n');
      KeyLinesArePlain(Split(Content(keys), '\n'));
      forall k | k in keys ensures IsPlain(Trim(k.publicKey)) {
        var i :| 0 <= i < |keys| && keys[i] == k;
        assert TrimmedKeys(keys)[i] in TrimmedKeys(keys);
      }
    }
  }
}
