/** The checks that decide whether a validation runs at all: the settings
    merge of `apply_settings`, the syntax test `is_glsl_or_essl`, the
    file-name test `is_valid_file_ending`, and the order in which the
    worker's constructor applies them. */
module Settings {
  import opened Options
  import opened Text

  /** A settings value as the editor stores it (JSON). */
  datatype Value = Number(n: int) | Flag(b: bool) | Str(s: string)

  /** A settings object; a key that is absent reads as `None`. */
  type Store = map<string, Value>

  const EnabledKey := "glsv_enabled"
  const SpecKey := "glsv_spec"
  const ConfiguredKey := "glsv_configured"

  /** `DEFAULT_SETTINGS`. */
  const Defaults: Store := map[EnabledKey := Number(1), SpecKey := Number(0)]

  /** The order the merge loop visits the defaults in; both keys are
      distinct, so any order gives the same result. */
  const DefaultOrder: seq<string> := [EnabledKey, SpecKey]

  /** The value a default key ends up with: the user's, when the user's
      settings have one, otherwise the default. */
  function Chosen(key: string, user: Store): Value
    requires key in Defaults
  {
    if key in user then user[key] else Defaults[key]
  }

  /** The merge loop over `keys`, writing each chosen value into the view's
      settings. */
  function SetDefaults(keys: seq<string>, view: Store, user: Store): (r: Store)
    requires forall k :: k in keys ==> k in Defaults
    ensures forall k :: k in r <==> k in view || k in keys
    ensures forall k :: k in keys ==> r[k] == Chosen(k, user)
    ensures forall k :: k in view && k !in keys ==> r[k] == view[k]
    decreases |keys|
  {
    if |keys| == 0 then view
    else
      var setting := keys[0];
      assert forall k :: k in keys <==> k == setting || k in keys[1..];
      SetDefaults(keys[1..], view[setting := Chosen(setting, user)], user)
  }

  /** `apply_settings`: a view is configured once; after that its settings
      are left alone. On the first call every default key gets the user's
      value or the default, the view is marked configured, and no other
      key changes. */
  function ApplySettings(view: Store, user: Store): (r: Store)
    ensures ConfiguredKey in view ==> r == view
    ensures ConfiguredKey in r
    ensures ConfiguredKey !in view ==>
      && r.Keys == view.Keys + Defaults.Keys + {ConfiguredKey}
      && r[ConfiguredKey] == Flag(true)
      && (forall k :: k in Defaults ==> r[k] == Chosen(k, user))
      && (forall k :: k in view && k !in Defaults && k != ConfiguredKey ==> r[k] == view[k])
  {
    if ConfiguredKey in view then view
    else
      assert forall k :: k in DefaultOrder <==> k in Defaults;
      SetDefaults(DefaultOrder, view[ConfiguredKey := Flag(true)], user)
  }

  /** The user's settings are read once per view: later changes to them
      have no effect on a configured view until the settings' change
      callback clears the mark (`clear_settings`, not part of this model). */
  lemma SettingsFrozenOnceApplied(view: Store, user: Store, later: Store)
    ensures ApplySettings(ApplySettings(view, user), later) == ApplySettings(view, user)
  {
  }

  /** The two syntax names the shader test looks for, lower-cased. */
  const GlslName := "glsl"
  const EsslName := "essl"

  /** `glsl` or `essl` occurs somewhere in a syntax name, in any case. */
  ghost predicate NamesShaderSyntax(syntax: string) {
    exists i: nat :: MatchesFoldedAt(syntax, i, GlslName) || MatchesFoldedAt(syntax, i, EsslName)
  }

  /** `re.search('GLSL|ESSL', syntax, flags=re.IGNORECASE)` on the syntax
      setting, which may be missing. */
  function IsGlslOrEssl(syntax: Option<string>): (r: bool)
    ensures r <==> syntax.Some? && NamesShaderSyntax(syntax.value)
  {
    syntax.Some? && (ContainsFolded(syntax.value, GlslName) || ContainsFolded(syntax.value, EsslName))
  }

  /** The alternatives of the file-name pattern. */
  const Endings: seq<string> := ["frag", "vert", "tess", "eval", "geo", "shader"]

  /** Python's `$` holds at `i`: the end of the text, or just before a line
      break that ends it. */
  predicate DollarAt(s: string, i: nat) {
    i == |s| || (i + 1 == |s| && s[i] == '\n')
  }

  /** The alternative `e` occurs at `i` and `$` holds right after it. */
  predicate EndingMatchesAt(name: string, i: nat, e: string) {
    i + |e| <= |name| && name[i..i + |e|] == e && DollarAt(name, i + |e|)
  }

  /** `re.search('(frag|vert|tess|eval|geo|shader)$', name) is not None`. */
  predicate SearchEnding(name: string) {
    exists i: nat, e | i <= |name| && e in Endings :: EndingMatchesAt(name, i, e)
  }

  /** `name` ends in `e`, possibly followed by one final line break. */
  predicate HasEnding(name: string, e: string) {
    EndsWith(name, e) || EndsWith(name, e + "\n")
  }

  /** `is_valid_file_ending`: an unsaved view (no file name) passes; a named
      one passes exactly when the name ends in one of the six endings, or in
      one of them followed by a single line break (`$` allows that). No dot
      is required. */
  function IsValidFileEnding(fileName: Option<string>): (r: bool)
    ensures fileName.None? ==> r
    ensures fileName.Some? ==> (r <==> exists e :: e in Endings && HasEnding(fileName.value, e))
  {
    if fileName.None? then true
    else
      SearchEndingIsSuffix(fileName.value);
      SearchEnding(fileName.value)
  }

  /** Where the search finds an alternative, the name ends with it. */
  lemma EndingMatchIsSuffix(name: string, i: nat, e: string)
    requires EndingMatchesAt(name, i, e)
    ensures HasEnding(name, e)
  {
    if i + |e| == |name| {
      assert name[|name| - |e|..] == name[i..i + |e|];
    } else {
      assert name[|name| - |e + "\n"|..] == name[i..i + |e|] + [name[|name| - 1]];
    }
  }

  /** A name that ends with an alternative is found by the search, at the
      start of that ending. */
  lemma SuffixIsEndingMatch(name: string, e: string)
    requires HasEnding(name, e)
    ensures EndsWith(name, e) ==> EndingMatchesAt(name, |name| - |e|, e)
    ensures !EndsWith(name, e) ==> |e| + 1 <= |name| && EndingMatchesAt(name, |name| - |e| - 1, e)
  {
    if !EndsWith(name, e) {
      var i := |name| - |e| - 1;
      var tail := name[|name| - |e + "\n"|..];
      assert tail == e + "\n";
      assert name[i..i + |e|] == tail[..|e|];
      assert name[|name| - 1] == tail[|e|];
    }
  }

  /** The search with `$` anchors the alternative at the end of the name. */
  lemma SearchEndingIsSuffix(name: string)
    ensures SearchEnding(name) <==> exists e :: e in Endings && HasEnding(name, e)
  {
    if SearchEnding(name) {
      var i: nat, e :| i <= |name| && e in Endings && EndingMatchesAt(name, i, e);
      EndingMatchIsSuffix(name, i, e);
    }
    if exists e :: e in Endings && HasEnding(name, e) {
      var e :| e in Endings && HasEnding(name, e);
      SuffixIsEndingMatch(name, e);
    }
  }

  /** Python's `value == 0`, which also holds for `False`. */
  predicate EqualsZero(v: Value) {
    v == Number(0) || v == Flag(false)
  }

  /** How the worker's constructor ends. */
  datatype Gate =
    | Disabled                       // the validator is switched off
    | NotShader                      // the syntax is neither GLSL nor ESSL
    | BadFileEnding(status: string)  // the status bar explains the naming rule
    | Proceed                        // the compiler will be run

  const FileEndingStatus := "File name must end in .frag or .vert or .shader"

  /** The checks of the worker's constructor, in its order. */
  function GateRun(view: Store, syntax: Option<string>, fileName: Option<string>): (r: Gate)
    ensures r == Disabled <==> EnabledKey in view && EqualsZero(view[EnabledKey])
    ensures r == NotShader <==>
      && !(EnabledKey in view && EqualsZero(view[EnabledKey]))
      && !(syntax.Some? && NamesShaderSyntax(syntax.value))
    ensures r.BadFileEnding? ==> r.status == FileEndingStatus
    ensures r == Proceed <==>
      && !(EnabledKey in view && EqualsZero(view[EnabledKey]))
      && syntax.Some?
      && NamesShaderSyntax(syntax.value)
      && (fileName.None? || exists e :: e in Endings && HasEnding(fileName.value, e))
  {
    if EnabledKey in view && EqualsZero(view[EnabledKey]) then Disabled
    else if !IsGlslOrEssl(syntax) then NotShader
    else if !IsValidFileEnding(fileName) then BadFileEnding(FileEndingStatus)
    else Proceed
  }

  /** After the merge, the run is switched off exactly when the user's
      settings give `glsv_enabled` as `0` or `false`; without a user value
      the default `1` keeps it on. A view configured earlier keeps what it
      had. */
  lemma DisabledOnlyByUser(view: Store, user: Store, syntax: Option<string>, fileName: Option<string>)
    requires ConfiguredKey !in view
    ensures GateRun(ApplySettings(view, user), syntax, fileName) == Disabled <==>
      EnabledKey in user && EqualsZero(user[EnabledKey])
  {
    var r := ApplySettings(view, user);
    assert EnabledKey in Defaults;
    assert r[EnabledKey] == Chosen(EnabledKey, user);
  }
}
