/** The decisions of Argon_Messenger.py: where a key file found at start-up
    goes, how the `private/public` ID pair typed at the prompt is read, and
    how an ID and a type are looked up in the register. The menu loop, the
    console output and the file moves themselves are not modelled. */
module Messenger {
  import opened Wrappers
  import opened Seqs
  import opened Text
  import opened Keychain

  // ---------------------------------------------------------------------
  // get_key_filename

  /** A row of this ID and this type. */
  function IsIdAndType(id: string, kind: string): Entry -> bool {
    (e: Entry) => e.id == id && e.kind == kind
  }

  /** `get_key_filename`: `None` is a register that could not be read. */
  function GetKeyFilename(register: Option<seq<Entry>>, id: string, kind: string): (r: Option<string>)
    ensures register.None? ==> r.None?
    ensures register.Some? ==>
              (r.Some? <==> exists k :: 0 <= k < |register.value| && register.value[k].id == id && register.value[k].kind == kind)
    ensures r.Some? ==> exists k :: && 0 <= k < |register.value|
                                    && register.value[k].id == id && register.value[k].kind == kind
                                    && register.value[k].filename == r.value
                                    && forall m :: 0 <= m < k ==>
                                         !(register.value[m].id == id && register.value[m].kind == kind)
  {
    match register
    case None => None
    case Some(rows) =>
      match FirstIndex(rows, IsIdAndType(id, kind))
      case None => None
      case Some(i) => Some(rows[i].filename)
  }

  /** In a register whose IDs are unique per type, the lookup finds the one
      row with that ID and type. */
  lemma GetKeyFilenameUnique(rows: seq<Entry>, i: nat)
    requires IdsUnique(rows) && i < |rows|
    ensures GetKeyFilename(Some(rows), rows[i].id, rows[i].kind) == Some(rows[i].filename)
  {
    FirstIndexOnly(rows, IsIdAndType(rows[i].id, rows[i].kind), i);
  }

  // ---------------------------------------------------------------------
  // the key selection prompt

  /** `choice.split("/")` must give exactly two parts; each is stripped. */
  function ParseIdPair(choice: string): (r: Option<(string, string)>)
    ensures r.Some? <==> |SplitOn(choice, '/')| == 2
    ensures r.Some? ==> choice == SplitOn(choice, '/')[0] + "/" + SplitOn(choice, '/')[1]
    ensures r.Some? ==> r.value == (Strip(SplitOn(choice, '/')[0], CharSpaces), Strip(SplitOn(choice, '/')[1], CharSpaces))
  {
    var ids := SplitOn(choice, '/');
    if |ids| != 2 then None
    else
      assert JoinWith(ids, '/') == ids[0] + ['/'] + JoinWith(ids[1..], '/');
      assert ids[1..] == [ids[1]];
      Some((Strip(ids[0], CharSpaces), Strip(ids[1], CharSpaces)))
  }

  /** Two slash-free parts around one `/` come back stripped. */
  lemma ParseIdPairOf(a: string, b: string)
    requires '/' !in a && '/' !in b
    ensures ParseIdPair(a + "/" + b) == Some((Strip(a, CharSpaces), Strip(b, CharSpaces)))
  {
    assert JoinWith([a, b], '/') == a + "/" + b by {
      assert JoinWith([a, b], '/') == a + ['/'] + JoinWith([b], '/');
    }
    SplitJoin([a, b], '/');
  }

  /** A choice with a second `/`, or with none, is refused. */
  lemma ParseIdPairRefuses(a: string, b: string, c: string)
    requires '/' !in a && '/' !in b && '/' !in c
    ensures ParseIdPair(a) == None
    ensures ParseIdPair(a + "/" + b + "/" + c) == None
  {
    SplitJoin([a], '/');
    assert JoinWith([a, b, c], '/') == a + "/" + b + "/" + c by {
      assert JoinWith([a, b, c], '/') == a + ['/'] + JoinWith([b, c], '/');
      assert JoinWith([b, c], '/') == b + ['/'] + JoinWith([c], '/');
    }
    SplitJoin([a, b, c], '/');
  }

  datatype SelectError = NotTwoIds | PrivateKeyNotFound(id: string) | PublicKeyNotFound(id: string)

  /** The key files the chat is started with. */
  datatype Selection = Selection(privateFile: string, publicFile: string)

  /** A lookup that finds nothing or an empty filename counts as not found. */
  predicate Found(f: Option<string>) {
    f.Some? && f.value != ""
  }

  /** Key selection by ID: the private ID is looked up, then the public one,
      and the first one missing is reported. */
  function SelectKeys(register: Option<seq<Entry>>, choice: string): (r: Result<Selection, SelectError>)
    ensures ParseIdPair(choice).None? ==> r == Err(NotTwoIds)
    ensures ParseIdPair(choice).Some? ==>
              var (privId, pubId) := ParseIdPair(choice).value;
              && (!Found(GetKeyFilename(register, privId, PrivateType)) ==> r == Err(PrivateKeyNotFound(privId)))
              && ((Found(GetKeyFilename(register, privId, PrivateType)) && !Found(GetKeyFilename(register, pubId, PublicType)))
                    ==> r == Err(PublicKeyNotFound(pubId)))
              && (r.Ok? <==> Found(GetKeyFilename(register, privId, PrivateType)) && Found(GetKeyFilename(register, pubId, PublicType)))
    ensures r.Ok? ==> r.value.privateFile != "" && r.value.publicFile != ""
  {
    match ParseIdPair(choice)
    case None => Err(NotTwoIds)
    case Some((privId, pubId)) =>
      var privFile := GetKeyFilename(register, privId, PrivateType);
      var pubFile := GetKeyFilename(register, pubId, PublicType);
      if !Found(privFile) then Err(PrivateKeyNotFound(privId))
      else if !Found(pubFile) then Err(PublicKeyNotFound(pubId))
      else Ok(Selection(privFile.value, pubFile.value))
  }

  // ---------------------------------------------------------------------
  // key files found at start-up

  /** What start-up does with one directory entry. */
  datatype KeyFileAction =
    | Skip
    | MoveToPublic
    | ProtectToPrivate(dest: string)
    | MoveToPrivate
    | Unsupported

  /** `any(file.lower().endswith(ext) for ext in KEY_EXTENSIONS)` */
  predicate HasKeyExtension(lower: string) {
    EndsWith(lower, ".asc") || EndsWith(lower, ".gpg") || EndsWith(lower, ".bin") || EndsWith(lower, ".key")
  }

  /** The start-up scan, for one entry of the working directory: an armored
      public key moves to the public key directory; an armored secret or
      private key is protected into the private key directory as
      `<name>.bin`; a `.bin` file moves to the private key directory;
      `.gpg` and `.key` files are refused. */
  function ClassifyKeyFile(name: string, isFile: bool): (a: KeyFileAction)
    ensures a != Skip ==> isFile && HasKeyExtension(Lower(name))
    ensures a == MoveToPublic <==> isFile && EndsWith(Lower(name), ".asc") && Contains(Lower(name), "public")
    ensures a.ProtectToPrivate? <==>
              isFile && EndsWith(Lower(name), ".asc") && !Contains(Lower(name), "public")
              && (Contains(Lower(name), "secret") || Contains(Lower(name), "private"))
    ensures a.ProtectToPrivate? ==> a.dest == name + ".bin"
    ensures a == MoveToPrivate <==> isFile && EndsWith(Lower(name), ".bin")
    ensures a == Unsupported <==> isFile && (EndsWith(Lower(name), ".gpg") || EndsWith(Lower(name), ".key"))
  {
    var lower := Lower(name);
    if !isFile || !HasKeyExtension(lower) then Skip
    else if EndsWith(lower, ".asc") then
      if Contains(lower, "public") then MoveToPublic
      else if Contains(lower, "secret") || Contains(lower, "private") then ProtectToPrivate(name + ".bin")
      else Skip
    else if EndsWith(lower, ".bin") then MoveToPrivate
    else Unsupported
  }

  /** A key the scan protects lands in the private key directory under a name
      the keychain's directory sync registers. */
  lemma ProtectedKeyIsSynced(name: string, isFile: bool)
    requires ClassifyKeyFile(name, isFile).ProtectToPrivate?
    ensures EndsWith(ClassifyKeyFile(name, isFile).dest, PrivateSuffix)
  {
    var dest := name + ".bin";
    assert dest[|dest| - 4..] == ".bin";
  }

  /** "public" wins over "private": an armored file whose name says both is
      moved as a public key and never protected. */
  lemma PublicTakesPrecedence()
    ensures ClassifyKeyFile("public_private.asc", true) == MoveToPublic
  {
    var name := "public_private.asc";
    assert Lower(name) == name;
    assert StartsWith(name, "public");
    assert name[|name| - 4..] == ".asc";
  }
}
