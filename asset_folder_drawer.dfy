/** The inspector drawer for string fields tagged with `AssetFolderAttribute`:
    resolving a stored folder value against the project's asset root, turning a
    picked or typed path back into an asset-root-relative value, and the per-draw
    decisions of `OnGUI` (warning suffix, folder dialog request, value written
    back, and whether the host is asked to resynchronise).

    The host environment enters as parameters: `dataPath` is
    `Application.dataPath`, `dirExists` is `Directory.Exists`, `typed` is what
    the text field reports and `dialogResult` is what the native folder panel
    returns (the empty string when the user cancels). */
module AssetFolderAttributeDrawer {
  import opened Text
  import opened SystemPath

  datatype Option<T> = None | Some(value: T)

  // ---------------------------------------------------------------------------
  // Path helpers
  // ---------------------------------------------------------------------------

  /** `getFullPath`: a rooted folder value is already absolute; any other value
      is placed under the asset root. */
  function GetFullPath(folderName: string, assetRootPath: string): (r: string)
    ensures IsPathRooted(folderName) ==> r == folderName
    ensures !IsPathRooted(folderName) ==>
              StartsWith(r, assetRootPath) &&
              |assetRootPath| + |folderName| <= |r| <= |assetRootPath| + |folderName| + 1 &&
              r[|r| - |folderName|..] == folderName
    ensures !IsPathRooted(folderName) ==>
              (|r| == |assetRootPath| + |folderName| + 1 <==>
                 |assetRootPath| > 0 && |folderName| > 0 && !EndsWithSeparator(assetRootPath))
    ensures !IsPathRooted(folderName) && |r| == |assetRootPath| + |folderName| + 1 ==>
              r[|assetRootPath|] == DirectorySeparatorChar
    ensures !IsPathRooted(folderName) && folderName == [] ==> r == assetRootPath
  {
    if IsPathRooted(folderName) then folderName
    else Combine(assetRootPath, folderName)
  }

  /** `getAssetRelativePath`: when the lowered input starts with the (lower-case)
      asset root, the root's length is cut from the original-case input and then
      at most one leading separator; any other input is returned as it is.
      The result is always a suffix of the input. */
  function GetAssetRelativePath(folderName: string, assetRootPath: string): (r: string)
    ensures |r| <= |folderName| && r == folderName[|folderName| - |r|..]
    ensures !StartsWith(ToLower(folderName), assetRootPath) ==> r == folderName
    ensures StartsWith(ToLower(folderName), assetRootPath) ==>
              |r| == |folderName| - |assetRootPath| || |r| == |folderName| - |assetRootPath| - 1
    ensures StartsWith(ToLower(folderName), assetRootPath) ==>
              (|r| == |folderName| - |assetRootPath| - 1 <==>
                 |folderName| > |assetRootPath| && IsSeparator(folderName[|assetRootPath|]))
  {
    if StartsWith(ToLower(folderName), assetRootPath) then
      var rest := folderName[|assetRootPath|..];
      if |rest| > 0 && IsSeparator(rest[0]) then rest[1..] else rest
    else
      folderName
  }

  /** The conversion leaves a value alone exactly when the value does not start
      with the root, or the root is empty and the value has no leading separator. */
  lemma RelativePathFixpoint(folderName: string, assetRootPath: string)
    ensures GetAssetRelativePath(folderName, assetRootPath) == folderName <==>
              !StartsWith(ToLower(folderName), assetRootPath) ||
              (assetRootPath == [] && !(|folderName| > 0 && IsSeparator(folderName[0])))
  {
    var r := GetAssetRelativePath(folderName, assetRootPath);
    if StartsWith(ToLower(folderName), assetRootPath) && assetRootPath == [] {
      if |folderName| > 0 && IsSeparator(folderName[0]) {
        assert |r| == |folderName| - 1;
      } else {
        assert folderName[|folderName| - |r|..] == folderName;
      }
    }
  }

  /** A value whose first characters lower to the root, followed by one separator,
      comes back as exactly what follows that separator, whatever it is: only
      one separator is ever removed. With `rest == []` this is the value that
      names the asset root itself, which becomes the empty string. */
  lemma {:induction false} RelativePathStripsOneSeparator(prefix: string, sep: char, rest: string, assetRootPath: string)
    requires ToLower(prefix) == assetRootPath
    requires IsSeparator(sep)
    ensures GetAssetRelativePath(prefix + [sep] + rest, assetRootPath) == rest
  {
    var p := prefix + [sep] + rest;
    assert p[..|prefix|] == prefix;
    ToLowerPrefix(p, |prefix|);
    assert p[|prefix|..] == [sep] + rest;
  }

  /** A value that lowers to the root with nothing after it is the root folder
      itself and becomes the empty relative value. */
  lemma {:induction false} RelativePathOfRoot(prefix: string, assetRootPath: string)
    requires ToLower(prefix) == assetRootPath
    ensures GetAssetRelativePath(prefix, assetRootPath) == []
  {
    assert prefix[..|prefix|] == prefix;
  }

  /** The prefix test is a plain string-prefix test, not a path-component test:
      a sibling folder whose name merely extends the root's last component (the
      root `/proj/assets` against `/proj/Assets2/Models`) is treated as lying
      under the root, and loses the root's length. */
  lemma {:induction false} RelativePathOfSiblingFolder(prefix: string, rest: string, assetRootPath: string)
    requires ToLower(prefix) == assetRootPath
    requires |rest| > 0 && !IsSeparator(rest[0])
    ensures GetAssetRelativePath(prefix + rest, assetRootPath) == rest
  {
    var p := prefix + rest;
    ToLowerAppend(prefix, rest);
    assert ToLower(p)[..|prefix|] == assetRootPath;
    assert p[|prefix|..] == rest;
  }

  /** The conversion is not idempotent on its own output: a value in which a
      second copy of the root follows the first separator (under the root `/a`,
      the value `/a//a`) is cut to that second copy (`/a`), which is itself
      root-prefixed and is cut again (to the empty value). */
  lemma {:induction false} RelativePathNotIdempotent(prefix: string, sep: char, rest: string, assetRootPath: string)
    requires ToLower(prefix) == assetRootPath && |assetRootPath| > 0
    requires IsSeparator(sep)
    ensures var once := GetAssetRelativePath(prefix + [sep] + prefix + rest, assetRootPath);
            once == prefix + rest && GetAssetRelativePath(once, assetRootPath) != once
  {
    assert prefix + [sep] + prefix + rest == prefix + [sep] + (prefix + rest);
    RelativePathStripsOneSeparator(prefix, sep, prefix + rest, assetRootPath);
    var once := prefix + rest;
    assert once[..|prefix|] == prefix;
    StartsWithLowered(once, assetRootPath);
    RelativePathFixpoint(once, assetRootPath);
  }

  /** Round trip from an absolute path: for `p = prefix + "/" + rest`, where the
      prefix lowers to the root and `rest` is a non-empty name with no leading
      separator, the relative value is `rest` and resolving it again gives the
      root joined with `rest` (`p` itself when `prefix` is the lower-case root). */
  lemma {:induction false} RoundTripFromFullPath(prefix: string, rest: string, assetRootPath: string)
    requires ToLower(prefix) == assetRootPath
    requires |assetRootPath| > 0 && !EndsWithSeparator(assetRootPath)
    requires |rest| > 0 && !IsSeparator(rest[0])
    ensures GetAssetRelativePath(prefix + [DirectorySeparatorChar] + rest, assetRootPath) == rest
    ensures GetFullPath(rest, assetRootPath) == assetRootPath + [DirectorySeparatorChar] + rest
  {
    RelativePathStripsOneSeparator(prefix, DirectorySeparatorChar, rest, assetRootPath);
  }

  /** Round trip from a relative value: resolving a non-rooted value against a
      lower-case root and converting the result back gives the value again,
      provided the join does not leave two separators side by side. */
  lemma {:induction false} RoundTripFromRelativePath(folderName: string, assetRootPath: string)
    requires IsLower(assetRootPath) && |assetRootPath| > 0
    requires !IsPathRooted(folderName)
    requires EndsWithSeparator(assetRootPath) ==> !(|folderName| > 0 && IsSeparator(folderName[0]))
    ensures GetAssetRelativePath(GetFullPath(folderName, assetRootPath), assetRootPath) == folderName
  {
    if folderName == [] {
      RelativePathOfRoot(assetRootPath, assetRootPath);
    } else if EndsWithSeparator(assetRootPath) {
      var p := assetRootPath + folderName;
      assert GetFullPath(folderName, assetRootPath) == p;
      assert p[..|assetRootPath|] == assetRootPath;
      ToLowerPrefix(p, |assetRootPath|);
      assert p[|assetRootPath|..] == folderName;
    } else {
      RelativePathStripsOneSeparator(assetRootPath, DirectorySeparatorChar, folderName, assetRootPath);
    }
  }

  /** Every value that is not rooted resolves, against a lower-case root, to a
      path whose lowered form starts with that root. */
  lemma {:induction false} UnrootedValueIsUnderRoot(folderName: string, assetRootPath: string)
    requires IsLower(assetRootPath)
    requires !IsPathRooted(folderName)
    ensures StartsWith(ToLower(GetFullPath(folderName, assetRootPath)), assetRootPath)
  {
    var p := GetFullPath(folderName, assetRootPath);
    assert p[..|assetRootPath|] == assetRootPath;
    StartsWithLowered(p, assetRootPath);
  }

  // ---------------------------------------------------------------------------
  // OnGUI decisions
  // ---------------------------------------------------------------------------

  /** Why a stored value is flagged in red. */
  datatype Warning = NotAnAssetPath | PathNotFound

  /** The text appended to the label for a warning, or nothing. */
  function Suffix(w: Option<Warning>): string {
    match w
    case None => ""
    case Some(NotAnAssetPath) => "(not an asset path)"
    case Some(PathNotFound) => "(path not found)"
  }

  /** The validation of `OnGUI`: the asset-root test comes first, the directory
      test only for a path under the root. */
  function Validate(fullPath: string, assetRootPathLower: string, dirExists: string -> bool): (w: Option<Warning>)
    ensures w == Some(NotAnAssetPath) <==> !StartsWith(ToLower(fullPath), assetRootPathLower)
    ensures w == Some(PathNotFound) <==> StartsWith(ToLower(fullPath), assetRootPathLower) && !dirExists(fullPath)
    ensures w == None <==> StartsWith(ToLower(fullPath), assetRootPathLower) && dirExists(fullPath)
  {
    if !StartsWith(ToLower(fullPath), assetRootPathLower) then Some(NotAnAssetPath)
    else if !dirExists(fullPath) then Some(PathNotFound)
    else None
  }

  /** The arguments `OnGUI` opens the native folder panel with. */
  datatype DialogRequest = DialogRequest(title: string, startPath: string)

  /** Everything one call of `OnGUI` decides. `warning` is also whether the field
      is tinted red; `changed` is whether the host's apply/update/refresh calls
      are made before the value is written. */
  datatype Frame = Frame(warning: Option<Warning>, shownLabel: string,
                         dialog: Option<DialogRequest>, value: string, changed: bool)

  /** One call of `OnGUI` as a function of the stored value, the label text, the
      environment and the user's actions. */
  function Draw(stored: string, labelText: string, dataPath: string, dirExists: string -> bool,
                typed: string, pressed: bool, dialogResult: string): (f: Frame)
    ensures f.shownLabel == labelText + Suffix(f.warning)
    ensures f.dialog.Some? <==> pressed
    ensures f.dialog.Some? ==> f.dialog.value.title == "Select " + f.shownLabel
    ensures pressed && |dialogResult| > 0 ==>
              f.value == GetAssetRelativePath(dialogResult, ToLower(dataPath))
    ensures !(pressed && |dialogResult| > 0) ==>
              f.value == GetAssetRelativePath(typed, ToLower(dataPath))
    ensures f.changed <==> f.value != stored
  {
    var root := ToLower(dataPath);
    var warning := Validate(GetFullPath(stored, root), root, dirExists);
    var shownLabel := labelText + Suffix(warning);
    var edited := GetAssetRelativePath(typed, root);
    var dialog := if pressed then Some(DialogRequest("Select " + shownLabel, GetFullPath(edited, root))) else None;
    var value := if pressed && |dialogResult| > 0 then GetAssetRelativePath(dialogResult, root) else edited;
    Frame(warning, shownLabel, dialog, value, value != stored)
  }

  /** Validation order for a rooted stored value: it is "not an asset path"
      exactly when its lowered form misses the root, whatever `dirExists` says;
      a value that passes the root test is "path not found" exactly when its
      directory is missing, and otherwise carries no warning. */
  lemma {:induction false} ValidationOfRootedValue(stored: string, labelText: string, dataPath: string,
                                                   dirExists: string -> bool, typed: string, pressed: bool,
                                                   dialogResult: string)
    requires IsPathRooted(stored)
    ensures var w := Draw(stored, labelText, dataPath, dirExists, typed, pressed, dialogResult).warning;
            var underRoot := StartsWith(ToLower(stored), ToLower(dataPath));
            (w == Some(NotAnAssetPath) <==> !underRoot) &&
            (w == Some(PathNotFound) <==> underRoot && !dirExists(stored)) &&
            (w == None <==> underRoot && dirExists(stored))
  {
  }

  /** Validation for a stored value that is not rooted: it always passes the
      asset-root test, so it is "path not found" exactly when the root joined
      with the value is a missing directory, and otherwise carries no warning. */
  lemma {:induction false} ValidationOfUnrootedValue(stored: string, labelText: string, dataPath: string,
                                                     dirExists: string -> bool, typed: string, pressed: bool,
                                                     dialogResult: string)
    requires !IsPathRooted(stored)
    ensures var w := Draw(stored, labelText, dataPath, dirExists, typed, pressed, dialogResult).warning;
            var fullPath := Combine(ToLower(dataPath), stored);
            w != Some(NotAnAssetPath) &&
            (w == Some(PathNotFound) <==> !dirExists(fullPath)) &&
            (w == None <==> dirExists(fullPath))
  {
    ToLowerIsLower(dataPath);
    UnrootedValueIsUnderRoot(stored, ToLower(dataPath));
  }

  /** Validation never changes what is written: the value depends only on the
      asset root, the text field, the button and the dialog, not on the stored
      value, the label or which directories exist. */
  lemma ValueIgnoresValidation(stored1: string, stored2: string, labelText1: string, labelText2: string,
                               dataPath: string, dirExists1: string -> bool, dirExists2: string -> bool,
                               typed: string, pressed: bool, dialogResult: string)
    ensures Draw(stored1, labelText1, dataPath, dirExists1, typed, pressed, dialogResult).value ==
            Draw(stored2, labelText2, dataPath, dirExists2, typed, pressed, dialogResult).value
  {
  }

  /** The dialog is opened at the resolved form of the value as it stands after
      the text field, so an edit typed in the same frame is where it starts:
      when that value is not rooted, the folder the panel starts at converts
      back to exactly that value. */
  lemma DialogStartsAtEditedValue(stored: string, labelText: string, dataPath: string, dirExists: string -> bool,
                                  typed: string, dialogResult: string)
    ensures var f := Draw(stored, labelText, dataPath, dirExists, typed, true, dialogResult);
            var root := ToLower(dataPath);
            var edited := GetAssetRelativePath(typed, root);
            f.dialog == Some(DialogRequest("Select " + f.shownLabel, GetFullPath(edited, root))) &&
            (|root| > 0 && !IsPathRooted(edited) &&
             (EndsWithSeparator(root) ==> !(|edited| > 0 && IsSeparator(edited[0]))) ==>
               GetAssetRelativePath(f.dialog.value.startPath, root) == edited)
  {
    var root := ToLower(dataPath);
    var edited := GetAssetRelativePath(typed, root);
    if |root| > 0 && !IsPathRooted(edited) &&
       (EndsWithSeparator(root) ==> !(|edited| > 0 && IsSeparator(edited[0]))) {
      ToLowerIsLower(dataPath);
      RoundTripFromRelativePath(edited, root);
    }
  }

  /** Cancelling the dialog keeps what the text field produced: when the field
      reports the stored value unchanged and that value is already in relative
      form, nothing changes and no resynchronisation is requested. */
  lemma {:induction false} CancelKeepsStoredValue(stored: string, labelText: string, dataPath: string,
                                                  dirExists: string -> bool)
    requires !StartsWith(ToLower(stored), ToLower(dataPath))
    ensures var f := Draw(stored, labelText, dataPath, dirExists, stored, true, "");
            f.value == stored && !f.changed
  {
    RelativePathFixpoint(stored, ToLower(dataPath));
  }

  /** A stored absolute path under the asset root is rewritten to its relative
      form on a draw where the user touches nothing, and the change is reported. */
  lemma {:induction false} UntouchedDrawRelativises(prefix: string, rest: string, labelText: string, dataPath: string,
                                                    dirExists: string -> bool)
    requires ToLower(prefix) == ToLower(dataPath)
    requires |rest| > 0 && !IsSeparator(rest[0])
    ensures var stored := prefix + [DirectorySeparatorChar] + rest;
            var f := Draw(stored, labelText, dataPath, dirExists, stored, false, "");
            f.value == rest && f.changed
  {
    RelativePathStripsOneSeparator(prefix, DirectorySeparatorChar, rest, ToLower(dataPath));
  }

  /** Because the conversion is not idempotent, a value can change on two
      successive draws in which the user touches nothing: the second draw cuts
      the root again from what the first one wrote. */
  lemma {:induction false} UntouchedDrawsChangeTwice(prefix: string, sep: char, rest: string, labelText: string,
                                                     dataPath: string, dirExists: string -> bool)
    requires ToLower(prefix) == ToLower(dataPath) && |dataPath| > 0
    requires IsSeparator(sep)
    ensures var stored := prefix + [sep] + prefix + rest;
            var f := Draw(stored, labelText, dataPath, dirExists, stored, false, "");
            var g := Draw(f.value, f.shownLabel, dataPath, dirExists, f.value, false, "");
            f.value == prefix + rest && f.changed && g.changed
  {
    RelativePathNotIdempotent(prefix, sep, rest, ToLower(dataPath));
  }

  /** With the asset root `/proj/Assets`, the stored value `/proj/Assets/Models`
      of an existing folder draws without a warning and is written back as
      `Models`. */
  lemma {:induction false} ScenarioFolderUnderRoot(stored: string, dataPath: string, labelText: string,
                                                   dirExists: string -> bool)
    requires dataPath == "/proj/Assets" && stored == dataPath + "/Models"
    requires dirExists(stored)
    ensures var f := Draw(stored, labelText, dataPath, dirExists, stored, false, "");
            f.warning == None && f.shownLabel == labelText && f.value == "Models" && f.changed
  {
    var rest := "Models";
    assert stored == dataPath + [DirectorySeparatorChar] + rest;
    UntouchedDrawRelativises(dataPath, rest, labelText, dataPath, dirExists);
    assert stored[..|dataPath|] == dataPath;
    ToLowerPrefix(stored, |dataPath|);
    ValidationOfRootedValue(stored, labelText, dataPath, dirExists, stored, false, "");
  }

  /** With the asset root `/proj/Assets`, the stored value `/other/Models` draws
      with the label extended by `(not an asset path)` and is left as it is. */
  lemma {:induction false} ScenarioFolderOutsideRoot(stored: string, dataPath: string, labelText: string,
                                                    dirExists: string -> bool)
    requires stored == "/other/Models" && dataPath == "/proj/Assets"
    ensures var f := Draw(stored, labelText, dataPath, dirExists, stored, false, "");
            f.warning == Some(NotAnAssetPath) && f.shownLabel == labelText + "(not an asset path)" &&
            f.value == stored && !f.changed
  {
    var root := ToLower(dataPath);
    assert ToLower(stored)[1] == 'o' && root[1] == 'p';
    assert !StartsWith(ToLower(stored), root);
    ValidationOfRootedValue(stored, labelText, dataPath, dirExists, stored, false, "");
    RelativePathFixpoint(stored, root);
  }

  /** The label text is extended, not replaced: when the same label object is
      drawn again and the value did not change, the warning is appended a
      second time. */
  lemma {:induction false} WarningSuffixAccumulates(stored: string, labelText: string, dataPath: string,
                                                    dirExists: string -> bool, typed: string, pressed: bool,
                                                    dialogResult: string, typed2: string)
    ensures var f := Draw(stored, labelText, dataPath, dirExists, typed, pressed, dialogResult);
            var g := Draw(f.value, f.shownLabel, dataPath, dirExists, typed2, false, "");
            !f.changed ==> g.shownLabel == labelText + Suffix(f.warning) + Suffix(f.warning)
  {
  }

  // ---------------------------------------------------------------------------
  // OnGUI as the host runs it
  // ---------------------------------------------------------------------------

  /** The host's handle on the serialized string field being edited. */
  class SerializedProperty {
    var stringValue: string
  }

  /** The label object the host passes in; `OnGUI` appends the warning to its
      text in place, so the suffix is not removed afterwards. */
  class GuiContent {
    var text: string
  }

  /** `OnGUI`, step by step: it appends the warning to `content.text`, writes
      the final value to `property.stringValue`, and returns the folder-panel
      request (when the button was pressed) and whether the host's
      apply/update/refresh calls were made. */
  method OnGUI(property: SerializedProperty, content: GuiContent, dataPath: string,
               dirExists: string -> bool, typed: string, pressed: bool, dialogResult: string)
    returns (dialog: Option<DialogRequest>, refreshed: bool)
    modifies property, content
    ensures var f := Draw(old(property.stringValue), old(content.text), dataPath, dirExists,
                          typed, pressed, dialogResult);
            property.stringValue == f.value && content.text == f.shownLabel &&
            dialog == f.dialog && refreshed == f.changed
  {
    var folderName := property.stringValue;
    var assetRootPathLower := ToLower(dataPath);
    var fullPath := GetFullPath(folderName, assetRootPathLower);

    var labelText := content.text;
    if !StartsWith(ToLower(fullPath), assetRootPathLower) {
      labelText := labelText + "(not an asset path)";
    } else if !dirExists(fullPath) {
      labelText := labelText + "(path not found)";
    }
    ghost var warning := Validate(fullPath, assetRootPathLower, dirExists);
    assert labelText == old(content.text) + Suffix(warning);
    content.text := labelText;
    folderName := GetAssetRelativePath(typed, assetRootPathLower);

    dialog := None;
    if pressed {
      fullPath := GetFullPath(folderName, assetRootPathLower);
      dialog := Some(DialogRequest("Select " + content.text, fullPath));
      if |dialogResult| > 0 {
        folderName := GetAssetRelativePath(dialogResult, assetRootPathLower);
      }
    }

    refreshed := folderName != property.stringValue;
    property.stringValue := folderName;
  }
}
