/** The two decisions of src/helpers.py that the rest of the client relies
    on: whether I2P traffic is to be encrypted, and which key files an alias
    names. (`argon_protect` of the same file writes the `Vault.Protect`
    layout.) */
module Helpers {
  import opened Wrappers
  import opened Text
  import opened Seqs
  import opened Settings
  import opened Keychain

  /** `is_i2p_encryption_enabled`: `None` is a settings file that could not
      be read. Only an existing option decides, by being `true` in any letter
      case; otherwise encryption stays on. */
  function IsEncryptionEnabled(read: Option<Config>): (on: bool)
    ensures read.None? ==> on
    ensures read.Some? && !(NetworkSection in read.value && EncryptOption in read.value[NetworkSection]) ==> on
    ensures read.Some? && NetworkSection in read.value && EncryptOption in read.value[NetworkSection] ==>
              (on <==> Lower(read.value[NetworkSection][EncryptOption]) == "true")
  {
    match read
    case None => true
    case Some(config) =>
      if NetworkSection in config && EncryptOption in config[NetworkSection] then
        Lower(config[NetworkSection][EncryptOption]) == "true"
      else true
  }

  lemma DefaultHasEncryptOption()
    ensures NetworkSection in DefaultConfig && EncryptOption in DefaultConfig[NetworkSection]
    ensures DefaultConfig[NetworkSection][EncryptOption] == "true"
  {
  }

  /** A freshly written settings file has encryption on. */
  lemma DefaultEncrypts()
    ensures IsEncryptionEnabled(Some(DefaultConfig))
  {
    DefaultHasEncryptOption();
    assert Lower("true") == "true";
  }

  /** The settings line that switches encryption off:
      `I2P Network.encrypt_i2p_comm false`. */
  const DisableLine: string := NetworkSection + "." + EncryptOption + " " + "false"

  /** The line has no surrounding whitespace and is none of the keywords. */
  lemma DisableLineShape()
    ensures Strip(DisableLine, CharSpaces) == DisableLine
    ensures Lower(DisableLine) !in LeaveWords && Lower(DisableLine) != "health" && Lower(DisableLine) != "i"
    ensures '.' in DisableLine
  {
    DisableLineStrip();
    DisableLineNotKeyword();
    DisableLineDot();
  }

  lemma DisableLineDot()
    ensures '.' in DisableLine
  {
    assert DisableLine[11] == '.';
  }

  lemma DisableLineStrip()
    ensures Strip(DisableLine, CharSpaces) == DisableLine
  {
    assert DisableLine[0] == 'I' && DisableLine[|DisableLine| - 1] == 'e';
    PrintableNotSpace("Ie");
    StripClean(DisableLine, CharSpaces);
  }

  lemma DisableLineNotKeyword()
    ensures Lower(DisableLine) !in LeaveWords && Lower(DisableLine) != "health" && Lower(DisableLine) != "i"
  {
    assert |Lower(DisableLine)| == 34;
  }

  /** The option name holds no whitespace. */
  lemma EncryptOptionIsWord()
    ensures |EncryptOption| > 0 && forall j :: 0 <= j < |EncryptOption| ==> EncryptOption[j] !in CharSpaces
  {
    PrintableNotSpace(EncryptOption);
  }

  /** The update part of the line names the section, the option and the value. */
  lemma DisableLineUpdate()
    ensures ParseUpdate(DisableLine) == Update(NetworkSection, EncryptOption, "false")
  {
    EncryptOptionIsWord();
    assert '.' !in NetworkSection;
    assert ' ' in CharSpaces;
    assert "false"[0] !in CharSpaces by { PrintableNotSpace("f"); }
    ParseUpdateOf(NetworkSection, EncryptOption, " ", "false");
  }

  /** With the corrected parsing the prompt reads that line as the update it
      describes. */
  lemma DisableLineParses()
    ensures ParseSettingsLine(DisableLine, Corrected) == Update(NetworkSection, EncryptOption, "false")
  {
    DisableLineShape();
    DisableLineUpdate();
  }

  /** The documented way to switch encryption off works with the corrected
      parsing of the settings prompt ... */
  lemma SettingsCanDisableEncryption()
    ensures !IsEncryptionEnabled(Some(SettingsStep(DefaultConfig, DisableLine, Corrected).0))
  {
    DisableLineParses();
    DefaultHasEncryptOption();
    var c := SettingsStep(DefaultConfig, DisableLine, Corrected).0;
    assert c == ApplyUpdate(DefaultConfig, NetworkSection, EncryptOption, "false");
    assert c[NetworkSection][EncryptOption] == "false";
    assert |Lower("false")| == 5;
  }

  /** ... and is rejected by the parsing as written, which leaves it on. */
  lemma SettingsAsWrittenKeepsEncryption()
    ensures ParseSettingsLine(DisableLine, AsWritten) == BadFormat
    ensures SettingsStep(DefaultConfig, DisableLine, AsWritten) == (DefaultConfig, true)
    ensures IsEncryptionEnabled(Some(SettingsStep(DefaultConfig, DisableLine, AsWritten).0))
  {
    DisableLineShape();
    DefaultEncrypts();
    DisableLineAsWritten();
  }

  /** The update part of the line, read as written, has `I2P` for its key. */
  lemma DisableLineAsWritten()
    ensures ParseUpdateAsWritten(DisableLine) == BadFormat
  {
    PrintableNotSpace("I2PN");
    assert ' ' in CharSpaces;
    var rest := "Network" + "." + EncryptOption + " " + "false";
    assert NetworkSection == "I2P" + " " + "Network";
    assert DisableLine == "I2P" + " " + rest;
    assert rest[0] == 'N';
    FirstWordWithoutDotRejected("I2P", " ", rest);
  }

  // ---------------------------------------------------------------------
  // find_keys_by_alias

  /** The row loop of `find_keys_by_alias`: every row with the alias
      overwrites the filename of its type. */
  function ScanAlias(rows: seq<Entry>, alias: string, priv: Option<string>, pub: Option<string>)
    : (Option<string>, Option<string>)
    decreases |rows|
  {
    if |rows| == 0 then (priv, pub)
    else
      var row := rows[0];
      if row.alias == alias && row.kind == PrivateType then ScanAlias(rows[1..], alias, Some(row.filename), pub)
      else if row.alias == alias && row.kind == PublicType then ScanAlias(rows[1..], alias, priv, Some(row.filename))
      else ScanAlias(rows[1..], alias, priv, pub)
  }

  /** Reference reading: the filename of the LAST row with this alias and type. */
  function LastWithAlias(rows: seq<Entry>, alias: string, kind: string): (r: Option<string>)
    ensures r.Some? ==> exists i :: 0 <= i < |rows| && rows[i].alias == alias && rows[i].kind == kind
                                    && rows[i].filename == r.value
    ensures r.None? ==> forall i :: 0 <= i < |rows| ==> !(rows[i].alias == alias && rows[i].kind == kind)
    decreases |rows|
  {
    if |rows| == 0 then None
    else
      var last := rows[|rows| - 1];
      var init := rows[..|rows| - 1];
      assert forall i :: 0 <= i < |init| ==> init[i] == rows[i];
      if last.alias == alias && last.kind == kind then Some(last.filename)
      else LastWithAlias(init, alias, kind)
  }

  /** `LastWithAlias` of a register with one more row in front. */
  lemma {:induction false} LastWithAliasCons(row: Entry, tail: seq<Entry>, alias: string, kind: string)
    ensures LastWithAlias([row] + tail, alias, kind)
         == OrElse(LastWithAlias(tail, alias, kind),
                   if row.alias == alias && row.kind == kind then Some(row.filename) else None)
    decreases |tail|
  {
    var all := [row] + tail;
    if |tail| > 0 {
      assert all[|all| - 1] == tail[|tail| - 1];
      assert all[..|all| - 1] == [row] + tail[..|tail| - 1];
      LastWithAliasCons(row, tail[..|tail| - 1], alias, kind);
    } else {
      assert all[..|all| - 1] == [];
    }
  }

  /** The loop ends with, for each type, the last matching row's filename,
      or what it started with. */
  lemma {:induction false} ScanIsLastWithAlias(rows: seq<Entry>, alias: string, priv: Option<string>, pub: Option<string>)
    ensures ScanAlias(rows, alias, priv, pub)
         == (OrElse(LastWithAlias(rows, alias, PrivateType), priv), OrElse(LastWithAlias(rows, alias, PublicType), pub))
    decreases |rows|
  {
    if |rows| > 0 {
      var row := rows[0];
      var tail := rows[1..];
      assert rows == [row] + tail;
      var priv' := if row.alias == alias && row.kind == PrivateType then Some(row.filename) else priv;
      var pub' := if row.alias == alias && row.kind == PublicType then Some(row.filename) else pub;
      assert ScanAlias(rows, alias, priv, pub) == ScanAlias(tail, alias, priv', pub');
      ScanIsLastWithAlias(tail, alias, priv', pub');
      LastWithAliasCons(row, tail, alias, PrivateType);
      LastWithAliasCons(row, tail, alias, PublicType);
    }
  }

  /** The private and the public key filename an alias names. */
  datatype KeyPair = KeyPair(priv: Option<string>, pub: Option<string>)

  /** `find_keys_by_alias`: `None` is a register that could not be read. */
  function FindKeysByAlias(register: Option<seq<Entry>>, alias: string): (r: KeyPair)
    ensures register.None? ==> r == KeyPair(None, None)
    ensures register.Some? ==> r == KeyPair(LastWithAlias(register.value, alias, PrivateType),
                                            LastWithAlias(register.value, alias, PublicType))
  {
    match register
    case None => KeyPair(None, None)
    case Some(rows) =>
      var found := ScanAlias(rows, alias, None, None);
      ScanIsLastWithAlias(rows, alias, None, None);
      KeyPair(found.0, found.1)
  }

  /** In a register that keeps one key per alias and type, the lookup finds
      the one key bound to the alias. */
  lemma FindUniqueKey(rows: seq<Entry>, alias: string, i: nat)
    requires AliasUnique(rows) && alias != ""
    requires i < |rows| && rows[i].alias == alias
    ensures rows[i].kind == PrivateType ==> FindKeysByAlias(Some(rows), alias).priv == Some(rows[i].filename)
    ensures rows[i].kind == PublicType ==> FindKeysByAlias(Some(rows), alias).pub == Some(rows[i].filename)
  {
    var kind := rows[i].kind;
    var r := LastWithAlias(rows, alias, kind);
    assert r.Some?;
    var k :| 0 <= k < |rows| && rows[k].alias == alias && rows[k].kind == kind && rows[k].filename == r.value;
    assert forall m :: 0 <= m < |rows| && rows[m].alias == alias && rows[m].kind == kind ==> m == i;
    assert k == i;
  }

  /** A successful `b` binding is what the lookup then finds for that alias. */
  lemma BindThenFind(rows: seq<Entry>, id: string, alias: string)
    requires Invariant(rows) && alias != ""
    requires BindAlias(rows, id, alias).result == Bound
    ensures var b := BindAlias(rows, id, alias).entries;
            exists i :: 0 <= i < |b| && b[i].id == id && b[i].alias == alias
              && (b[i].kind == PrivateType ==> FindKeysByAlias(Some(b), alias).priv == Some(b[i].filename))
              && (b[i].kind == PublicType ==> FindKeysByAlias(Some(b), alias).pub == Some(b[i].filename))
  {
    var b := BindAlias(rows, id, alias).entries;
    BindPreservesInvariant(rows, id, alias);
    var i :| FirstWithId(rows, id, i) && !AliasUsed(rows, alias, rows[i].kind)
              && b == rows[i := rows[i].(alias := alias)];
    FindUniqueKey(b, alias, i);
  }
}
