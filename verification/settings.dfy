/** The settings of src/settings.py: the default settings file, the colour
    rules of the health report, and the command line of the settings prompt.
    The configuration is a map from section to option to value; reading and
    writing the INI file is not modelled. */
module Settings {
  import opened Wrappers
  import opened Seqs
  import opened Text

  type Options = map<string, string>
  type Config = map<string, Options>

  const CryptoSection: string := "CRYPTOGRAPHY & OPSEC"
  /** "I2P Network", spelt as its two words around the space. */
  const NetworkSection: string := "I2P" + " " + "Network"
  const EncryptOption: string := "encrypt_i2p_comm"

  /** `ensure_settings_exists`, with the option names in the lower case in
      which the INI writer stores them. */
  const DefaultConfig: Config := map[
    CryptoSection := map["disable_argon2" := "false"],
    NetworkSection := map["persistence" := "false", "random_i2p_id" := "true", EncryptOption := "true"]
  ]

  // ---------------------------------------------------------------------
  // color_line

  datatype Color = Green | Yellow | Red

  function Rank(c: Color): nat {
    match c
    case Red => 0
    case Yellow => 1
    case Green => 2
  }

  /** The thresholded branch of `color_line`: at least `good` is green, at
      least `warn` is yellow, anything lower red. */
  function ThresholdColor(val: real, good: real, warn: real): (c: Color)
    ensures c == Green <==> val >= good
    ensures c == Yellow <==> warn <= val < good
    ensures c == Red <==> val < good && val < warn
  {
    if val >= good then Green
    else if val >= warn then Yellow
    else Red
  }

  /** A larger reading never gets a worse colour when the yellow threshold
      lies below the green one. */
  lemma ThresholdMonotone(v: real, w: real, good: real, warn: real)
    requires v <= w
    ensures Rank(ThresholdColor(v, good, warn)) <= Rank(ThresholdColor(w, good, warn))
  {
  }

  /** The tunnel success rate thresholds. */
  const SuccessGood: real := 70.0
  const SuccessWarn: real := 50.0
  /** The tunnel count thresholds: both the same. */
  const TunnelGood: real := 1.0
  const TunnelWarn: real := 1.0

  /** With equal thresholds there is no yellow: a tunnel count is green from
      one tunnel on and red below. */
  lemma TunnelCountNeverYellow(count: real)
    ensures ThresholdColor(count, TunnelGood, TunnelWarn) != Yellow
    ensures ThresholdColor(count, TunnelGood, TunnelWarn) == Green <==> count >= 1.0
  {
  }

  const GreenStatuses: seq<string> := ["ok", "enabled"]
  const YellowStatuses: seq<string> := ["firewalled", "warning", "warn"]

  /** The status-string branch of `color_line`, compared in lower case. */
  function StatusColor(value: string): (c: Color)
    ensures c == Green <==> Lower(value) in GreenStatuses
    ensures c == Yellow <==> Lower(value) !in GreenStatuses && Lower(value) in YellowStatuses
    ensures c == Red <==> Lower(value) !in GreenStatuses && Lower(value) !in YellowStatuses
  {
    var v := Lower(value);
    if v in GreenStatuses then Green
    else if v in YellowStatuses then Yellow
    else Red
  }

  /** The status colour does not depend on letter case. */
  lemma StatusColorIgnoresCase(value: string)
    ensures StatusColor(Lower(value)) == StatusColor(value)
  {
    LowerIdempotent(value);
  }

  /** A few readings of the router console. */
  lemma StatusColorExamples()
    ensures StatusColor("OK") == Green
    ensures StatusColor("Firewalled") == Yellow
    ensures StatusColor("N/A") == Red
  {
    assert Lower("OK") == "ok";
    assert Lower("Firewalled") == "firewalled";
    assert Lower("N/A") == "n/a";
  }

  // ---------------------------------------------------------------------
  // the settings prompt

  datatype SettingsCommand =
    | Leave
    | Health
    | Info
    | Update(section: string, setting: string, value: string)
    | BadFormat
    | Unknown

  const LeaveWords: seq<string> := ["q", "quit", "exit"]

  /** The update parsing as src/settings.py writes it: the key is everything
      up to the first whitespace, the value the rest; the key splits at its
      first `.` into section and option. A missing part is the `ValueError`
      reported as an invalid format. */
  function ParseUpdateAsWritten(choice: string): (c: SettingsCommand)
    ensures c.Update? || c == BadFormat
    ensures c.Update? ==> forall j :: 0 <= j < |c.section| ==> c.section[j] !in CharSpaces
  {
    var parts := SplitFirstWord(choice, CharSpaces);
    if |parts| != 2 then BadFormat
    else
      match SplitOnce(parts[0], '.')
      case None => BadFormat
      case Some((section, setting)) =>
        SplitOnceKeepsOut(parts[0], '.', CharSpaces);
        Update(section, setting, parts[1])
  }

  /** A line whose first word holds no `.` is rejected, however the rest
      goes on: this is what happens to every section name with whitespace in
      it. */
  lemma FirstWordWithoutDotRejected(w: string, gap: string, rest: string)
    requires |w| > 0 && '.' !in w && forall j :: 0 <= j < |w| ==> w[j] !in CharSpaces
    requires |gap| > 0 && forall j :: 0 <= j < |gap| ==> gap[j] in CharSpaces
    requires |rest| > 0 && rest[0] !in CharSpaces
    ensures ParseUpdateAsWritten(w + gap + rest) == BadFormat
  {
    SplitFirstWordOf(w, gap, rest, CharSpaces);
  }

  /** The example of the settings header, `I2P Network.PERSISTENCE true`,
      has a space in its section name, so the parsing above takes `I2P` as
      the whole key and rejects the line. */
  lemma SpacedSectionRejected()
    ensures ParseUpdateAsWritten(NetworkSection + ".PERSISTENCE true") == BadFormat
  {
    var rest := "Network" + ".PERSISTENCE true";
    assert NetworkSection + ".PERSISTENCE true" == "I2P" + " " + rest;
    PrintableNotSpace("I2P");
    assert ' ' in CharSpaces;
    assert rest[0] == 'N';
    PrintableNotSpace("N");
    FirstWordWithoutDotRejected("I2P", " ", rest);
  }

  /** The update parsing the prompt's `[SECTION.KEY] [NEW VALUE]` describes:
      the section is everything before the first `.`, spaces included, the
      option the word after it, the value the rest. */
  function ParseUpdate(choice: string): (c: SettingsCommand)
    ensures c.Update? || c == BadFormat
    ensures c.Update? ==> '.' !in c.section
    ensures c.Update? ==> |c.value| > 0 && c.value[0] !in CharSpaces
  {
    match SplitOnce(choice, '.')
    case None => BadFormat
    case Some((section, tail)) =>
      var parts := SplitFirstWord(tail, CharSpaces);
      if |parts| != 2 || (|tail| > 0 && tail[0] in CharSpaces) then BadFormat
      else Update(section, parts[0], parts[1])
  }

  /** Every section, however spaced, can be addressed: a line made of the
      section, a `.`, the option, whitespace and the value parses back into
      exactly those three parts. */
  lemma ParseUpdateOf(section: string, setting: string, gap: string, value: string)
    requires '.' !in section
    requires |setting| > 0 && forall j :: 0 <= j < |setting| ==> setting[j] !in CharSpaces
    requires |gap| > 0 && forall j :: 0 <= j < |gap| ==> gap[j] in CharSpaces
    requires |value| > 0 && value[0] !in CharSpaces
    ensures ParseUpdate(section + "." + setting + gap + value) == Update(section, setting, value)
  {
    var tail := setting + gap + value;
    assert section + "." + setting + gap + value == section + ['.'] + tail;
    SplitOnceOf(section, '.', tail);
    SplitFirstWordOf(setting, gap, value, CharSpaces);
    assert tail[0] == setting[0];
  }

  /** A key glued from a section and an option free of whitespace is free
      of whitespace. */
  lemma KeyIsWord(section: string, setting: string)
    requires forall j :: 0 <= j < |section| ==> section[j] !in CharSpaces
    requires forall j :: 0 <= j < |setting| ==> setting[j] !in CharSpaces
    ensures forall j :: 0 <= j < |section + "." + setting| ==> (section + "." + setting)[j] !in CharSpaces
  {
    var key := section + "." + setting;
    PrintableNotSpace(".");
    forall j | 0 <= j < |key| ensures key[j] !in CharSpaces {
      if j < |section| { assert key[j] == section[j]; }
      else if j > |section| { assert key[j] == setting[j - |section| - 1]; }
    }
  }

  /** The parsing as written reads a line whose section holds no whitespace
      as intended. */
  lemma ParseUpdateAsWrittenOf(section: string, setting: string, gap: string, value: string)
    requires '.' !in section && forall j :: 0 <= j < |section| ==> section[j] !in CharSpaces
    requires |setting| > 0 && forall j :: 0 <= j < |setting| ==> setting[j] !in CharSpaces
    requires |gap| > 0 && forall j :: 0 <= j < |gap| ==> gap[j] in CharSpaces
    requires |value| > 0 && value[0] !in CharSpaces
    ensures ParseUpdateAsWritten(section + "." + setting + gap + value) == Update(section, setting, value)
  {
    var key := section + "." + setting;
    KeyIsWord(section, setting);
    assert section + "." + setting + gap + value == key + gap + value;
    SplitFirstWordOf(key, gap, value, CharSpaces);
    assert key == section + ['.'] + setting;
    SplitOnceOf(section, '.', setting);
  }

  /** Where the section holds no whitespace the two parsings agree, so the
      correction only changes lines that were rejected before. */
  lemma ParseUpdateAgrees(section: string, setting: string, gap: string, value: string)
    requires '.' !in section && forall j :: 0 <= j < |section| ==> section[j] !in CharSpaces
    requires |setting| > 0 && forall j :: 0 <= j < |setting| ==> setting[j] !in CharSpaces
    requires |gap| > 0 && forall j :: 0 <= j < |gap| ==> gap[j] in CharSpaces
    requires |value| > 0 && value[0] !in CharSpaces
    ensures ParseUpdateAsWritten(section + "." + setting + gap + value)
         == ParseUpdate(section + "." + setting + gap + value)
  {
    ParseUpdateOf(section, setting, gap, value);
    ParseUpdateAsWrittenOf(section, setting, gap, value);
  }

  /** Which update parsing the prompt uses: the one src/settings.py has, or
      the corrected one (see `ParseUpdate`). */
  datatype Parsing = AsWritten | Corrected

  function ReadUpdate(choice: string, parsing: Parsing): (c: SettingsCommand)
    ensures c.Update? || c == BadFormat
  {
    match parsing
    case AsWritten => ParseUpdateAsWritten(choice)
    case Corrected => ParseUpdate(choice)
  }

  /** One line of `cli_settings`, after `strip()`, with update lines read by
      the chosen parsing. */
  function ParseSettingsLine(line: string, parsing: Parsing): (c: SettingsCommand)
    ensures c == Leave <==> Lower(Strip(line, CharSpaces)) in LeaveWords
    ensures (c.Update? || c == BadFormat) ==> '.' in Strip(line, CharSpaces)
  {
    var choice := Strip(line, CharSpaces);
    var key := Lower(choice);
    if key in LeaveWords then Leave
    else if key == "health" then Health
    else if key == "i" then Info
    else if '.' in choice then ReadUpdate(choice, parsing)
    else Unknown
  }

  /** Set one option, provided its section and the option already exist. */
  function ApplyUpdate(config: Config, section: string, setting: string, value: string): (r: Config)
    ensures r.Keys == config.Keys
    ensures forall s :: s in config ==> r[s].Keys == config[s].Keys
    ensures section in config && setting in config[section] ==> r[section][setting] == value
    ensures forall s, o :: s in config && o in config[s] && (s, o) != (section, setting) ==> r[s][o] == config[s][o]
  {
    if section in config && setting in config[section] then
      config[section := config[section][setting := value]]
    else config
  }

  /** An update of a missing section or option changes nothing. */
  lemma ApplyUpdateMissing(config: Config, section: string, setting: string, value: string)
    requires section !in config || setting !in config[section]
    ensures ApplyUpdate(config, section, setting, value) == config
  {
    var r := ApplyUpdate(config, section, setting, value);
    forall s | s in config ensures r[s] == config[s] {
      assert forall o :: o in config[s] ==> r[s][o] == config[s][o];
    }
  }

  /** One turn of the prompt: the configuration afterwards, and whether the
      prompt goes on. */
  function SettingsStep(config: Config, line: string, parsing: Parsing): (r: (Config, bool))
    ensures !r.1 <==> ParseSettingsLine(line, parsing) == Leave
    ensures !ParseSettingsLine(line, parsing).Update? ==> r.0 == config
    ensures ParseSettingsLine(line, parsing).Update? ==>
              var u := ParseSettingsLine(line, parsing);
              r.0 == ApplyUpdate(config, u.section, u.setting, u.value)
  {
    match ParseSettingsLine(line, parsing)
    case Leave => (config, false)
    case Update(section, setting, value) => (ApplyUpdate(config, section, setting, value), true)
    case _ => (config, true)
  }
}
