/** The key register of src/keychain.py: rows of register.csv as `Entry`
    values, the ID allocator, the directory sync, deletion, alias binding and
    the command tokens of the keychain prompt. The CSV file itself, the
    directory listings and the file removal are not modelled: listings are
    parameters and a deletion reports which file it would remove. */
module Keychain {
  import opened Wrappers
  import opened Seqs
  import opened Text
  import opened Decimal

  const PrivateType: string := "private"
  const PublicType: string := "public"
  const PrivateSuffix: string := ".bin"
  const PublicSuffix: string := ".asc"

  /** One row of the register: ID, Type, Filename, Alias. */
  datatype Entry = Entry(id: string, kind: string, filename: string, alias: string)

  /** Within one type no ID occurs twice. */
  ghost predicate IdsUnique(entries: seq<Entry>) {
    forall i, j :: 0 <= i < j < |entries| && entries[i].kind == entries[j].kind ==> entries[i].id != entries[j].id
  }

  /** A non-empty alias names at most one key of each type. */
  ghost predicate AliasUnique(entries: seq<Entry>) {
    forall i, j :: 0 <= i < j < |entries| && entries[i].alias != "" && entries[i].alias == entries[j].alias
      ==> entries[i].kind != entries[j].kind
  }

  ghost predicate Invariant(entries: seq<Entry>) {
    IdsUnique(entries) && AliasUnique(entries)
  }

  /** Every ID of this type is a decimal numeral, so `int()` accepts it. */
  predicate IdsNumeric(entries: seq<Entry>, kind: string) {
    forall i :: 0 <= i < |entries| && entries[i].kind == kind ==> Parse(entries[i].id).Some?
  }

  predicate HasKind(entries: seq<Entry>, kind: string) {
    exists i :: 0 <= i < |entries| && entries[i].kind == kind
  }

  /** The largest ID of this type, if there is an entry of this type. */
  function MaxId(entries: seq<Entry>, kind: string): (m: Option<nat>)
    requires IdsNumeric(entries, kind)
    ensures m.Some? <==> HasKind(entries, kind)
    ensures m.Some? ==> forall i :: 0 <= i < |entries| && entries[i].kind == kind ==> Parse(entries[i].id).value <= m.value
    ensures m.Some? ==> exists i :: 0 <= i < |entries| && entries[i].kind == kind && Parse(entries[i].id).value == m.value
    decreases |entries|
  {
    if |entries| == 0 then None
    else
      var init := entries[..|entries| - 1];
      var last := entries[|entries| - 1];
      assert forall i :: 0 <= i < |init| ==> init[i] == entries[i];
      var rest := MaxId(init, kind);
      if last.kind != kind then rest
      else
        var v := Parse(last.id).value;
        match rest
        case None => Some(v)
        case Some(m) => Some(if v > m then v else m)
  }

  /** `next_id`: 1001 for the first private key, 2001 for the first key of any
      other type, otherwise one more than the largest ID of that type. `None`
      is the `ValueError` raised when an ID of that type is not a number. */
  function NextId(entries: seq<Entry>, kind: string): (r: Option<nat>)
    ensures r.Some? <==> IdsNumeric(entries, kind)
    ensures r.Some? ==> forall i :: 0 <= i < |entries| && entries[i].kind == kind ==> Parse(entries[i].id).value < r.value
    ensures r.Some? && !HasKind(entries, kind) ==> r.value == (if kind == PrivateType then 1001 else 2001)
    ensures r.Some? && HasKind(entries, kind) ==>
              exists i :: 0 <= i < |entries| && entries[i].kind == kind && Parse(entries[i].id).value + 1 == r.value
  {
    if !IdsNumeric(entries, kind) then None
    else
      match MaxId(entries, kind)
      case None => Some(if kind == PrivateType then 1001 else 2001)
      case Some(m) => Some(m + 1)
  }

  /** A freshly allocated ID, written out, is new among the IDs of its type. */
  lemma NextIdFresh(entries: seq<Entry>, kind: string)
    requires NextId(entries, kind).Some?
    ensures forall i :: 0 <= i < |entries| && entries[i].kind == kind ==> entries[i].id != Render(NextId(entries, kind).value)
  {
    var n := NextId(entries, kind).value;
    ParseRender(n);
  }

  predicate Registered(entries: seq<Entry>, name: string) {
    exists i :: 0 <= i < |entries| && entries[i].filename == name
  }

  /** A listed file that `sync_keys_with_files` must register. */
  predicate Needs(entries: seq<Entry>, file: string, suffix: string) {
    EndsWith(file, suffix) && !Registered(entries, file)
  }

  /** The row added for a newly found key file: fresh ID, no alias. */
  function NewEntry(n: nat, kind: string, file: string): Entry {
    Entry(Render(n), kind, file, "")
  }

  /** One pass of `sync_keys_with_files` over one directory listing, in
      listing order. `None` when the ID allocator raises. */
  function RegisterFiles(entries: seq<Entry>, files: seq<string>, kind: string, suffix: string): (r: Option<seq<Entry>>)
    ensures r.Some? ==> |entries| <= |r.value| && r.value[..|entries|] == entries
    decreases |files|
  {
    if |files| == 0 then Some(entries)
    else if !Needs(entries, files[0], suffix) then RegisterFiles(entries, files[1..], kind, suffix)
    else
      match NextId(entries, kind)
      case None => None
      case Some(n) =>
        var grown := entries + [NewEntry(n, kind, files[0])];
        var r := RegisterFiles(grown, files[1..], kind, suffix);
        assert r.Some? ==> r.value[..|entries|] == entries by {
          if r.Some? { assert r.value[..|entries|] == r.value[..|grown|][..|entries|]; }
        }
        r
  }

  /** Growing the register by a new row keeps every registration and adds
      the new file. */
  lemma GrowRegistered(entries: seq<Entry>, e: Entry)
    ensures Registered(entries + [e], e.filename)
    ensures forall name :: Registered(entries, name) ==> Registered(entries + [e], name)
  {
    var grown := entries + [e];
    assert grown[|entries|] == e;
    forall name | Registered(entries, name) ensures Registered(grown, name) {
      var i :| 0 <= i < |entries| && entries[i].filename == name;
      assert grown[i] == entries[i];
    }
  }

  /** A pass fails exactly when a file needs an ID and the IDs of its type are
      not all numbers. */
  lemma {:induction false} RegisterFilesFailure(entries: seq<Entry>, files: seq<string>, kind: string, suffix: string)
    ensures RegisterFiles(entries, files, kind, suffix).None? <==>
              !IdsNumeric(entries, kind) && exists k :: 0 <= k < |files| && Needs(entries, files[k], suffix)
    decreases |files|
  {
    if |files| > 0 {
      assert forall k :: 1 <= k < |files| ==> files[k] == files[1..][k - 1];
      if !Needs(entries, files[0], suffix) {
        RegisterFilesFailure(entries, files[1..], kind, suffix);
        if exists k :: 0 <= k < |files| && Needs(entries, files[k], suffix) {
          var k :| 0 <= k < |files| && Needs(entries, files[k], suffix);
          assert Needs(entries, files[1..][k - 1], suffix);
        }
      } else if NextId(entries, kind).Some? {
        var n := NextId(entries, kind).value;
        ParseRender(n);
        var grown := entries + [NewEntry(n, kind, files[0])];
        assert grown[|entries|] == NewEntry(n, kind, files[0]);
        assert IdsNumeric(grown, kind);
        RegisterFilesFailure(grown, files[1..], kind, suffix);
      }
    }
  }

  /** A pass over a listing whose files are all registered changes nothing. */
  lemma {:induction false} RegisterFilesNoop(entries: seq<Entry>, files: seq<string>, kind: string, suffix: string)
    requires forall k :: 0 <= k < |files| ==> !Needs(entries, files[k], suffix)
    ensures RegisterFiles(entries, files, kind, suffix) == Some(entries)
    decreases |files|
  {
    if |files| > 0 {
      assert forall k :: 1 <= k < |files| ==> files[k] == files[1..][k - 1];
      RegisterFilesNoop(entries, files[1..], kind, suffix);
    }
  }

  /** After a pass every listed file with the suffix is registered. */
  lemma {:induction false} RegisterFilesCovers(entries: seq<Entry>, files: seq<string>, kind: string, suffix: string)
    requires RegisterFiles(entries, files, kind, suffix).Some?
    ensures forall k :: 0 <= k < |files| && EndsWith(files[k], suffix) ==>
              Registered(RegisterFiles(entries, files, kind, suffix).value, files[k])
    decreases |files|
  {
    if |files| > 0 {
      var r := RegisterFiles(entries, files, kind, suffix).value;
      assert forall k :: 1 <= k < |files| ==> files[k] == files[1..][k - 1];
      if !Needs(entries, files[0], suffix) {
        RegisterFilesCovers(entries, files[1..], kind, suffix);
        if EndsWith(files[0], suffix) {
          RegisteredInExtension(entries, r, files[0]);
        }
      } else {
        var n := NextId(entries, kind).value;
        var grown := entries + [NewEntry(n, kind, files[0])];
        GrowRegistered(entries, NewEntry(n, kind, files[0]));
        RegisterFilesCovers(grown, files[1..], kind, suffix);
        RegisteredInExtension(grown, r, files[0]);
      }
    }
  }

  /** The rows a pass adds: of its type, without alias, for a listed file
      with the suffix that no earlier row names. */
  lemma {:induction false} RegisterFilesNew(entries: seq<Entry>, files: seq<string>, kind: string, suffix: string)
    requires RegisterFiles(entries, files, kind, suffix).Some?
    ensures var r := RegisterFiles(entries, files, kind, suffix).value;
            forall i :: |entries| <= i < |r| ==>
              && r[i].kind == kind && r[i].alias == ""
              && r[i].filename in files && EndsWith(r[i].filename, suffix)
              && !Registered(r[..i], r[i].filename)
    decreases |files|
  {
    if |files| > 0 {
      var r := RegisterFiles(entries, files, kind, suffix).value;
      assert forall x :: x in files[1..] ==> x in files;
      if !Needs(entries, files[0], suffix) {
        RegisterFilesNew(entries, files[1..], kind, suffix);
      } else {
        var n := NextId(entries, kind).value;
        var grown := entries + [NewEntry(n, kind, files[0])];
        RegisterFilesNew(grown, files[1..], kind, suffix);
        assert r[|entries|] == r[..|grown|][|entries|] == NewEntry(n, kind, files[0]);
        assert r[..|entries|] == entries;
      }
    }
  }

  /** A pass keeps the register invariants: new IDs are fresh for their type
      and new rows carry no alias. */
  lemma {:induction false} RegisterFilesInvariant(entries: seq<Entry>, files: seq<string>, kind: string, suffix: string)
    requires RegisterFiles(entries, files, kind, suffix).Some?
    requires Invariant(entries)
    ensures Invariant(RegisterFiles(entries, files, kind, suffix).value)
    decreases |files|
  {
    if |files| > 0 {
      if !Needs(entries, files[0], suffix) {
        RegisterFilesInvariant(entries, files[1..], kind, suffix);
      } else {
        var n := NextId(entries, kind).value;
        NextIdFresh(entries, kind);
        var e := NewEntry(n, kind, files[0]);
        var grown := entries + [e];
        assert forall k :: 0 <= k < |entries| ==> grown[k] == entries[k];
        assert grown[|entries|] == e;
        assert Invariant(grown);
        RegisterFilesInvariant(grown, files[1..], kind, suffix);
      }
    }
  }

  /** A prefix's registrations survive in the longer register. */
  lemma RegisteredInExtension(a: seq<Entry>, b: seq<Entry>, name: string)
    requires |a| <= |b| && b[..|a|] == a
    requires Registered(a, name)
    ensures Registered(b, name)
  {
    var i :| 0 <= i < |a| && a[i].filename == name;
    assert b[i] == a[i];
  }

  /** `sync_keys_with_files`: the private listing (`.bin` files) first, then
      the public listing (`.asc` files). */
  function Sync(entries: seq<Entry>, privateFiles: seq<string>, publicFiles: seq<string>): (r: Option<seq<Entry>>)
    ensures r.Some? ==> |entries| <= |r.value| && r.value[..|entries|] == entries
  {
    match RegisterFiles(entries, privateFiles, PrivateType, PrivateSuffix)
    case None => None
    case Some(mid) =>
      var r := RegisterFiles(mid, publicFiles, PublicType, PublicSuffix);
      assert r.Some? ==> r.value[..|entries|] == entries by {
        if r.Some? { assert r.value[..|entries|] == r.value[..|mid|][..|entries|]; }
      }
      r
  }

  /** After a sync every `.bin` file of the private listing and every `.asc`
      file of the public listing is registered, and the register invariants
      still hold. */
  lemma SyncCovers(entries: seq<Entry>, privateFiles: seq<string>, publicFiles: seq<string>)
    requires Sync(entries, privateFiles, publicFiles).Some?
    ensures var r := Sync(entries, privateFiles, publicFiles).value;
            && (forall k :: 0 <= k < |privateFiles| && EndsWith(privateFiles[k], PrivateSuffix) ==> Registered(r, privateFiles[k]))
            && (forall k :: 0 <= k < |publicFiles| && EndsWith(publicFiles[k], PublicSuffix) ==> Registered(r, publicFiles[k]))
            && (Invariant(entries) ==> Invariant(r))
  {
    var mid := RegisterFiles(entries, privateFiles, PrivateType, PrivateSuffix).value;
    var r := Sync(entries, privateFiles, publicFiles).value;
    RegisterFilesCovers(entries, privateFiles, PrivateType, PrivateSuffix);
    RegisterFilesCovers(mid, publicFiles, PublicType, PublicSuffix);
    forall k | 0 <= k < |privateFiles| && EndsWith(privateFiles[k], PrivateSuffix)
      ensures Registered(r, privateFiles[k])
    {
      RegisteredInExtension(mid, r, privateFiles[k]);
    }
    if Invariant(entries) {
      RegisterFilesInvariant(entries, privateFiles, PrivateType, PrivateSuffix);
      RegisterFilesInvariant(mid, publicFiles, PublicType, PublicSuffix);
    }
  }

  /** Syncing again against the same listings adds nothing. */
  lemma SyncIdempotent(entries: seq<Entry>, privateFiles: seq<string>, publicFiles: seq<string>)
    requires Sync(entries, privateFiles, publicFiles).Some?
    ensures Sync(Sync(entries, privateFiles, publicFiles).value, privateFiles, publicFiles)
            == Sync(entries, privateFiles, publicFiles)
  {
    var s := Sync(entries, privateFiles, publicFiles).value;
    SyncCovers(entries, privateFiles, publicFiles);
    RegisterFilesNoop(s, privateFiles, PrivateType, PrivateSuffix);
    RegisterFilesNoop(s, publicFiles, PublicType, PublicSuffix);
  }

  // ---------------------------------------------------------------------
  // delete_key

  /** `i` is the first entry carrying `id`. */
  predicate FirstWithId(entries: seq<Entry>, id: string, i: int) {
    0 <= i < |entries| && entries[i].id == id && forall k :: 0 <= k < i ==> entries[k].id != id
  }

  function FindId(entries: seq<Entry>, id: string): (r: Option<nat>)
    ensures r.Some? ==> FirstWithId(entries, id, r.value)
    ensures r.None? ==> forall k :: 0 <= k < |entries| ==> entries[k].id != id
    decreases |entries|
  {
    if |entries| == 0 then None
    else if entries[0].id == id then Some(0)
    else
      match FindId(entries[1..], id)
      case None => None
      case Some(i) => Some(i + 1)
  }

  datatype KeyDir = PrivateDir | PublicDir
  datatype KeyFile = KeyFile(dir: KeyDir, name: string)

  /** Private keys live in the private directory; every other type in the
      public one. */
  function DirOf(kind: string): KeyDir {
    if kind == PrivateType then PrivateDir else PublicDir
  }

  /** The register after a deletion, and the key file to remove if it exists. */
  datatype Deletion = Deletion(entries: seq<Entry>, unlink: Option<KeyFile>)

  /** `delete_key`: drop the first entry with this ID and, for `d`, its file. */
  function DeleteKey(entries: seq<Entry>, id: string, removeFile: bool): (d: Deletion)
    ensures (forall k :: 0 <= k < |entries| ==> entries[k].id != id) ==> d == Deletion(entries, None)
    ensures (exists k :: 0 <= k < |entries| && entries[k].id == id) ==>
              exists i :: FirstWithId(entries, id, i)
                && d.entries == entries[..i] + entries[i + 1..]
                && d.unlink == (if removeFile then Some(KeyFile(DirOf(entries[i].kind), entries[i].filename)) else None)
  {
    match FindId(entries, id)
    case None => Deletion(entries, None)
    case Some(i) =>
      Deletion(entries[..i] + entries[i + 1..],
               if removeFile then Some(KeyFile(DirOf(entries[i].kind), entries[i].filename)) else None)
  }

  /** Removing one entry keeps both register invariants. */
  lemma RemovePreservesInvariant(entries: seq<Entry>, i: nat)
    requires i < |entries| && Invariant(entries)
    ensures Invariant(entries[..i] + entries[i + 1..])
  {
    var r := entries[..i] + entries[i + 1..];
    assert forall k :: 0 <= k < |r| ==> r[k] == entries[if k < i then k else k + 1];
  }

  lemma DeletePreservesInvariant(entries: seq<Entry>, id: string, removeFile: bool)
    requires Invariant(entries)
    ensures Invariant(DeleteKey(entries, id, removeFile).entries)
  {
    match FindId(entries, id)
    case None =>
    case Some(i) => RemovePreservesInvariant(entries, i);
  }

  // ---------------------------------------------------------------------
  // bind_alias

  datatype BindResult = Bound | AliasTaken | UnknownId
  datatype Binding = Binding(entries: seq<Entry>, result: BindResult)

  /** Some entry already carries `alias` with this type. */
  predicate AliasUsed(entries: seq<Entry>, alias: string, kind: string) {
    exists j :: 0 <= j < |entries| && entries[j].alias == alias && entries[j].kind == kind
  }

  /** `bind_alias`: set the alias of the first entry with this ID, unless an
      entry of the same type (that entry included) already carries it. */
  function BindAlias(entries: seq<Entry>, id: string, alias: string): (b: Binding)
    ensures b.result == UnknownId <==> forall k :: 0 <= k < |entries| ==> entries[k].id != id
    ensures b.result != Bound ==> b.entries == entries
    ensures b.result == AliasTaken ==>
              exists i :: FirstWithId(entries, id, i) && AliasUsed(entries, alias, entries[i].kind)
    ensures b.result == Bound ==>
              exists i :: FirstWithId(entries, id, i) && !AliasUsed(entries, alias, entries[i].kind)
                && b.entries == entries[i := entries[i].(alias := alias)]
  {
    match FindId(entries, id)
    case None => Binding(entries, UnknownId)
    case Some(i) =>
      if AliasUsed(entries, alias, entries[i].kind) then Binding(entries, AliasTaken)
      else Binding(entries[i := entries[i].(alias := alias)], Bound)
  }

  /** Binding keeps both register invariants. */
  lemma BindPreservesInvariant(entries: seq<Entry>, id: string, alias: string)
    requires Invariant(entries)
    ensures Invariant(BindAlias(entries, id, alias).entries)
  {
    var b := BindAlias(entries, id, alias);
    if b.result == Bound {
      var i :| FirstWithId(entries, id, i) && !AliasUsed(entries, alias, entries[i].kind)
                && b.entries == entries[i := entries[i].(alias := alias)];
      forall j | 0 <= j < |entries| && j != i && entries[j].kind == entries[i].kind
        ensures entries[j].alias != alias
      {
      }
    }
  }

  /** Binding a key to the alias it already has is refused. */
  lemma RebindIsRefused(entries: seq<Entry>, id: string, i: nat)
    requires FirstWithId(entries, id, i)
    ensures BindAlias(entries, id, entries[i].alias).result == AliasTaken
  {
    assert AliasUsed(entries, entries[i].alias, entries[i].kind);
  }

  // ---------------------------------------------------------------------
  // the keychain prompt

  datatype KeyCommand =
    | Blank
    | Leave
    | Delete(id: string, removeFile: bool)
    | BindTo(id: string, alias: string)
    | Unknown

  const QuitWords: seq<string> := ["exit", "quit", "q"]

  /** The token dispatch of `cli_keychain`: `d` and `r` need exactly two
      tokens, `b` at least three, the rest of which, joined by single spaces,
      form the alias. */
  function Dispatch(t: seq<string>): (c: KeyCommand)
    ensures c == Blank <==> t == []
    ensures c == Leave <==> |t| > 0 && t[0] in QuitWords
    ensures c.Delete? <==> |t| == 2 && (t[0] == "d" || t[0] == "r")
    ensures c.Delete? ==> c.id == t[1] && (c.removeFile <==> t[0] == "d")
    ensures c.BindTo? <==> |t| >= 3 && t[0] == "b"
    ensures c.BindTo? ==> c.id == t[1] && c.alias == JoinWith(t[2..], ' ')
  {
    if |t| == 0 then Blank
    else if t[0] in QuitWords then Leave
    else if t[0] == "d" && |t| == 2 then Delete(t[1], true)
    else if t[0] == "r" && |t| == 2 then Delete(t[1], false)
    else if t[0] == "b" && |t| >= 3 then BindTo(t[1], JoinWith(t[2..], ' '))
    else Unknown
  }

  /** A line of the prompt: `input().strip().split()`, then the dispatch. */
  function ParseKeyCommand(line: string): KeyCommand {
    Dispatch(Words(line, CharSpaces))
  }

  predicate IsWord(w: string) {
    |w| > 0 && forall j :: 0 <= j < |w| ==> w[j] !in CharSpaces
  }

  lemma LetterIsWord(c: char)
    requires 'a' <= c <= 'z'
    ensures IsWord([c])
  {
    assert forall x :: x in CharSpaces ==> x <= ' ' || x >= '\U{85}';
  }

  /** Words joined by single spaces split back into the same words. */
  lemma SplitJoinedWords(words: seq<string>)
    requires forall k :: 0 <= k < |words| ==> IsWord(words[k])
    ensures Words(JoinWith(words, ' '), CharSpaces) == words
  {
    assert ' ' in CharSpaces;
    WordsJoin(words, ' ', CharSpaces);
  }

  /** The tokens of a `b` line are all words. */
  lemma BindLineWords(id: string, aliasWords: seq<string>)
    requires IsWord(id)
    requires forall k :: 0 <= k < |aliasWords| ==> IsWord(aliasWords[k])
    ensures forall k :: 0 <= k < |["b", id] + aliasWords| ==> IsWord((["b", id] + aliasWords)[k])
  {
    var words := ["b", id] + aliasWords;
    LetterIsWord('b');
    assert words[0] == ['b'];
    forall k | 2 <= k < |words| ensures IsWord(words[k]) {
      assert words[k] == aliasWords[k - 2];
    }
  }

  /** A `b` line made of the ID and the alias words binds exactly those words,
      joined by single spaces, however they were spaced on the line. */
  lemma ParseBindLine(id: string, aliasWords: seq<string>)
    requires IsWord(id) && |aliasWords| > 0
    requires forall k :: 0 <= k < |aliasWords| ==> IsWord(aliasWords[k])
    ensures ParseKeyCommand(JoinWith(["b", id] + aliasWords, ' ')) == BindTo(id, JoinWith(aliasWords, ' '))
  {
    var words := ["b", id] + aliasWords;
    BindLineWords(id, aliasWords);
    SplitJoinedWords(words);
    assert words[2..] == aliasWords;
  }

  /** `d` and `r` with anything after the ID are not commands. */
  lemma ParseDeleteExtraToken(verb: string, id: string, extra: string)
    requires verb == "d" || verb == "r"
    requires IsWord(id) && IsWord(extra)
    ensures ParseKeyCommand(JoinWith([verb, id, extra], ' ')) == Unknown
  {
    assert IsWord(verb);
    SplitJoinedWords([verb, id, extra]);
  }

  /** One command of the prompt applied to the register; a command the
      register does not accept leaves it as it is. */
  function Execute(entries: seq<Entry>, c: KeyCommand): (r: seq<Entry>)
    ensures Invariant(entries) ==> Invariant(r)
    ensures !c.Delete? && !c.BindTo? ==> r == entries
  {
    match c
    case Delete(id, removeFile) =>
      assert Invariant(entries) ==> Invariant(DeleteKey(entries, id, removeFile).entries) by {
        if Invariant(entries) { DeletePreservesInvariant(entries, id, removeFile); }
      }
      DeleteKey(entries, id, removeFile).entries
    case BindTo(id, alias) =>
      assert Invariant(entries) ==> Invariant(BindAlias(entries, id, alias).entries) by {
        if Invariant(entries) { BindPreservesInvariant(entries, id, alias); }
      }
      BindAlias(entries, id, alias).entries
    case _ => entries
  }
}
