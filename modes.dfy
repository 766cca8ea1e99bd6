/**
 * Mode resolution: the client's `mode` form field, the preset a single-attempt
 * mode uses, and the choice between the two attempts of the `max-1mb` mode.
 */
module Modes {

  import opened Wrappers
  import opened Ghostscript

  /** The size target of the `max-1mb` mode: one mebibyte. */
  const MaxTargetBytes: nat := 1 * 1024 * 1024

  const Max1mbMode := "max-1mb"
  const DefaultMode := "quality-ebook"

  /** The modes that name a preset directly. */
  const ModeSettings: map<string, string> :=
    map["quality-screen" := Screen, "quality-ebook" := Ebook, "quality-printer" := Printer]

  predicate IsPreset(setting: string)
  {
    setting == Screen || setting == Ebook || setting == Printer
  }

  function Min(a: int, b: int): int
  {
    if a <= b then a else b
  }

  /**
   * The mode of a request: the form field when it is present and not empty,
   * otherwise `quality-ebook`.
   */
  function ResolveMode(field: Option<string>): (mode: string)
    ensures mode != ""
    ensures field.Some? && field.value != "" ==> mode == field.value
    ensures field.None? || field.value == "" ==> mode == DefaultMode
  {
    if field.Some? && field.value != "" then field.value else DefaultMode
  }

  /**
   * The preset of a single-attempt mode, looked up among the table's own
   * entries only; every mode the table does not name falls back to `/ebook`.
   */
  function SettingFor(mode: string): (setting: string)
    ensures IsPreset(setting)
    ensures setting == Screen <==> mode == "quality-screen"
    ensures setting == Printer <==> mode == "quality-printer"
    ensures setting == Ebook <==> mode != "quality-screen" && mode != "quality-printer"
  {
    if mode in ModeSettings then ModeSettings[mode] else Ebook
  }

  /** A mode the table does not name behaves exactly like `quality-ebook`. */
  lemma UnknownModeIsEbook(mode: string)
    requires mode !in ModeSettings
    ensures SettingFor(mode) == SettingFor(DefaultMode) == Ebook
  {
  }

  // ----- The lookup as the server writes it -----------------------------------

  /** The methods every plain JavaScript object inherits from Object.prototype. */
  const InheritedMethods: set<string> :=
    { "__defineGetter__", "__defineSetter__", "__lookupGetter__", "__lookupSetter__",
      "hasOwnProperty", "isPrototypeOf", "propertyIsEnumerable",
      "toLocaleString", "toString", "valueOf" }

  /**
   * The text a template literal makes of `table[key]` when `key` is not one
   * of the table's own entries but is inherited from Object.prototype:
   * a native function prints as its source stub, the prototype itself as
   * "[object Object]". None when the lookup gives `undefined`.
   */
  function InheritedValueText(key: string): Option<string>
  {
    if key == "constructor" then Some("function Object() { [native code] }")
    else if key == "__proto__" then Some("[object Object]")
    else if key in InheritedMethods then Some("function " + key + "() { [native code] }")
    else None
  }

  /**
   * `modeToSetting[mode] || "/ebook"` as written: a lookup on a plain object,
   * which also finds the inherited entries, each of them truthy.
   */
  function SettingAsWritten(mode: string): (setting: string)
    ensures mode in ModeSettings ==> setting == SettingFor(mode)
    ensures IsPreset(setting) <==> InheritedValueText(mode).None?
  {
    if mode in ModeSettings then ModeSettings[mode]
    else match InheritedValueText(mode)
      case Some(text) =>
        assert text[0] != '/';
        text
      case None => Ebook
  }

  /** Outside the inherited names, the lookup as written and SettingFor agree. */
  lemma AsWrittenAgreesOffPrototype(mode: string)
    requires InheritedValueText(mode).None?
    ensures SettingAsWritten(mode) == SettingFor(mode)
  {
  }

  /**
   * The mode `constructor` is not a preset, yet the lookup as written does not
   * fall back to `/ebook`: Ghostscript is handed the text of a function as its
   * -dPDFSETTINGS value.
   */
  lemma ConstructorModeEscapesFallback(inputPath: string, outputPath: string)
    ensures "constructor" !in ModeSettings
    ensures SettingFor("constructor") == Ebook
    ensures !IsPreset(SettingAsWritten("constructor"))
    ensures BuildArgs(inputPath, outputPath, SettingAsWritten("constructor"))[2]
            == SettingsPrefix + "function Object() { [native code] }"
  {
    assert "constructor" != "quality-screen" && "constructor" != "quality-ebook"
        && "constructor" != "quality-printer";
    assert InheritedValueText("constructor") == Some("function Object() { [native code] }");
  }

  // ----- The max-1mb fallback ---------------------------------------------------

  /**
   * The choice made after the `/screen` retry: the screen result when it meets
   * the target or is strictly smaller than the ebook result, else the ebook one.
   */
  function ChooseResult(ebook: Bytes, screen: Bytes): (chosen: Bytes)
    ensures chosen == ebook || chosen == screen
    ensures |screen| <= MaxTargetBytes || |screen| < |ebook| ==> chosen == screen
    ensures |screen| > MaxTargetBytes && |screen| >= |ebook| ==> chosen == ebook
    ensures |chosen| <= |ebook| || |chosen| <= MaxTargetBytes
  {
    if |screen| <= MaxTargetBytes || |screen| < |ebook| then screen else ebook
  }

  /**
   * When the retry happens (the ebook result is over the target), the choice
   * is the smaller of the two results, and the ebook result on a tie: the
   * fallback never returns a larger file than the first attempt.
   */
  lemma ChoiceIsSmaller(ebook: Bytes, screen: Bytes)
    requires |ebook| > MaxTargetBytes
    ensures |ChooseResult(ebook, screen)| == Min(|ebook|, |screen|)
    ensures |ChooseResult(ebook, screen)| <= |ebook|
    ensures |screen| >= |ebook| ==> ChooseResult(ebook, screen) == ebook
    ensures |screen| < |ebook| ==> ChooseResult(ebook, screen) == screen
    ensures |ChooseResult(ebook, screen)| > MaxTargetBytes <==> |screen| > MaxTargetBytes
  {
  }
}
