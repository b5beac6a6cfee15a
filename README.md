# AssetFolderAttribute drawer — a Dafny model

The model covers the Unity inspector drawer `AssetFolderAttributeDrawer`, which
edits a string field tagged with `AssetFolderAttribute` as a folder path
relative to the project's asset root (`Application.dataPath`). On every draw the
drawer does four things:

- It resolves the stored value to a full path (`getFullPath`).
- It flags the field when that path is not under the asset root, or when the
  directory does not exist.
- It turns whatever the text field or the folder dialog produced back into a
  root-relative value (`getAssetRelativePath`).
- It writes that value back. When the value changed, it first asks the host to
  resynchronise.

Files:

- `text.dfy`, module `Text`: `String.ToLower` as ASCII lower-casing and
  `String.StartsWith` as an ordinal prefix test.
- `system_path.dfy`, module `SystemPath`: `Path.IsPathRooted` and
  `Path.Combine` under a POSIX-style path model. `/` is the separator and `\`
  the alternate one. A path is rooted when it starts with `/`. `Combine`
  returns the other side when one side is empty. It adds no separator when the
  first side already ends with one.
- `asset_folder_drawer.dfy`, module `AssetFolderAttributeDrawer`:
  - `GetFullPath` and `GetAssetRelativePath`, with the lemmas about them.
  - `Draw`: the decisions of one `OnGUI` call, as a pure function. Its inputs
    are the stored value, the label text, `dataPath`, the `dirExists` predicate
    (`Directory.Exists`), the text-field result, whether the `...` button was
    pressed, and the folder panel's result (empty means cancelled). It returns
    the warning, the displayed label, the folder-panel request, the value
    written and the changed flag.
  - `OnGUI`: the same call written imperatively over the host objects
    `SerializedProperty.stringValue` and `GuiContent.text`. It reassigns
    `folderName` step by step as the source does. Its postcondition ties the
    new state to `Draw`.

The asset root is lowered inside `Draw` and `OnGUI`, as the source does. So the
lemmas that take the root directly ask for a lower-case root (`IsLower`).

Three behaviours of the code that a reader may not expect:

- Cancelling the folder dialog does not always leave the stored value alone.
  The value written is the relative form of the text-field result. So an
  absolute path under the root still gets rewritten. `CancelKeepsStoredValue`
  states when the value is left alone.
- The warning is appended to the host's label object in place and is never
  removed. `OnGUI` does exactly that, and `WarningSuffixAccumulates` shows the
  consequence.
- Converting to the relative form is not idempotent. A value with a second copy
  of the root after the first separator is cut once per draw.
  `RelativePathNotIdempotent` and `UntouchedDrawsChangeTwice` show this.

## Model

| member | source | states |
|---|---|---|
| `Text.LowerChar` | AssetFolderAttribute/Assets/editor/AssetFolderAttributeDrawer.cs:34 | The lowered character is never an ASCII capital. It is the input itself or the input's capital shifted to lower case. |
| `Text.ToLower` | AssetFolderAttribute/Assets/editor/AssetFolderAttributeDrawer.cs:57 | Lowering keeps the length and lowers every character in its position. |
| `Text.ToLowerIsLower` | AssetFolderAttribute/Assets/editor/AssetFolderAttributeDrawer.cs:57 | The lowered asset root is itself lower-case, so lowering is idempotent. |
| `Text.ToLowerAppend` | AssetFolderAttribute/Assets/editor/AssetFolderAttributeDrawer.cs:64 | Lowering distributes over concatenation. |
| `Text.ToLowerPrefix` | AssetFolderAttribute/Assets/editor/AssetFolderAttributeDrawer.cs:34 | Lowering a prefix gives the prefix of the lowered string. |
| `Text.StartsWithLowered` | AssetFolderAttribute/Assets/editor/AssetFolderAttributeDrawer.cs:34 | The case-insensitive prefix test holds exactly when the input's first root-length characters lower to the root. |
| `SystemPath.Combine` | AssetFolderAttribute/Assets/editor/AssetFolderAttributeDrawer.cs:26 | The join starts with the root and ends with the name. At most one character is added between them, a `/`. It is added exactly when both sides are non-empty and the root has no trailing separator. |
| `AssetFolderAttributeDrawer.GetFullPath` | AssetFolderAttribute/Assets/editor/AssetFolderAttributeDrawer.cs:17-29 | A rooted value is returned verbatim. A non-rooted value becomes the root followed by the value. A single `/` is inserted between them exactly when both are non-empty and the root has no trailing separator; otherwise nothing is inserted. An empty value yields the root itself. |
| `AssetFolderAttributeDrawer.GetAssetRelativePath` | AssetFolderAttribute/Assets/editor/AssetFolderAttributeDrawer.cs:31-47 | The result is always a suffix of the input and never longer. An input whose lowered form does not start with the root is returned unchanged. A root-prefixed input loses as many characters as the root has, plus one more exactly when the next character is `/` or `\`. |
| `AssetFolderAttributeDrawer.RelativePathFixpoint` | AssetFolderAttribute/Assets/editor/AssetFolderAttributeDrawer.cs:31-47 | The conversion is a no-op exactly when the input is not root-prefixed, or when the root is empty and the input has no leading separator (both directions). |
| `AssetFolderAttributeDrawer.RelativePathStripsOneSeparator` | AssetFolderAttribute/Assets/editor/AssetFolderAttributeDrawer.cs:36-43 | A root-prefixed input followed by one `/` or `\` yields exactly the text after that separator, with the original case kept. A second leading separator is kept. |
| `AssetFolderAttributeDrawer.RelativePathOfRoot` | AssetFolderAttribute/Assets/editor/AssetFolderAttributeDrawer.cs:34-36 | An input that lowers to the root itself becomes the empty relative value. |
| `AssetFolderAttributeDrawer.RelativePathOfSiblingFolder` | AssetFolderAttribute/Assets/editor/AssetFolderAttributeDrawer.cs:33-36 | The prefix test is not a path-component test. A sibling such as `/proj/Assets2/x` under the root `/proj/assets` is accepted, and only the root's length is cut, which leaves `2/x`. |
| `AssetFolderAttributeDrawer.RelativePathNotIdempotent` | AssetFolderAttribute/Assets/editor/AssetFolderAttributeDrawer.cs:34-46 | A value with a second copy of the root after the first separator is cut to that copy. Converting the result again changes it once more, so the conversion is not idempotent. |
| `AssetFolderAttributeDrawer.RoundTripFromFullPath` | AssetFolderAttribute/Assets/editor/AssetFolderAttributeDrawer.cs:17-47 | For a non-empty root without a trailing separator, take `p = prefix + "/" + rest`, where the prefix lowers to the root and `rest` is a non-empty name without a leading separator. Then the relative form of `p` is `rest`, and resolving `rest` gives `root + "/" + rest`. |
| `AssetFolderAttributeDrawer.RoundTripFromRelativePath` | AssetFolderAttribute/Assets/editor/AssetFolderAttributeDrawer.cs:17-47 | For a non-empty lower-case root, resolving a non-rooted value and converting it back returns the value. The only exception is a join that would put two separators side by side. |
| `AssetFolderAttributeDrawer.UnrootedValueIsUnderRoot` | AssetFolderAttribute/Assets/editor/AssetFolderAttributeDrawer.cs:60-64 | Any non-rooted stored value resolves to a path that passes the asset-root test. |
| `AssetFolderAttributeDrawer.Validate` | AssetFolderAttribute/Assets/editor/AssetFolderAttributeDrawer.cs:64-73 | The root test comes first. "(not an asset path)" is given exactly when the lowered full path misses the root, whatever `dirExists` says. "(path not found)" is given exactly when the path passes the root test and the directory is missing. Otherwise there is no warning. `ValidationOfRootedValue` and `ValidationOfUnrootedValue` restate these three outcomes for the stored value. |
| `AssetFolderAttributeDrawer.Draw` | AssetFolderAttribute/Assets/editor/AssetFolderAttributeDrawer.cs:50-107 | The label is the input label plus the warning suffix. A dialog is requested exactly when the button was pressed, with the title "Select " plus the displayed label. A non-empty dialog result decides the value. Otherwise the relative form of the text-field result does. The changed flag holds exactly when the value differs from the stored one. |
| `AssetFolderAttributeDrawer.ValidationOfRootedValue` | AssetFolderAttribute/Assets/editor/AssetFolderAttributeDrawer.cs:60-73 | A rooted stored value gets "(not an asset path)" exactly when its lowered form misses the root, whatever `dirExists` says. If it passes the root test, it gets "(path not found)" exactly when its directory is missing, and no suffix otherwise. |
| `AssetFolderAttributeDrawer.ValidationOfUnrootedValue` | AssetFolderAttribute/Assets/editor/AssetFolderAttributeDrawer.cs:60-73 | A non-rooted stored value never gets "(not an asset path)". It gets "(path not found)" exactly when the root joined with it is a missing directory, and no suffix otherwise. |
| `AssetFolderAttributeDrawer.ValueIgnoresValidation` | AssetFolderAttribute/Assets/editor/AssetFolderAttributeDrawer.cs:64-104 | The written value does not depend on validation. Changing the stored value, the label or `dirExists` leaves it the same. |
| `AssetFolderAttributeDrawer.DialogStartsAtEditedValue` | AssetFolderAttribute/Assets/editor/AssetFolderAttributeDrawer.cs:82-87 | A pressed button opens the panel at the resolved form of the value produced by the text field in the same draw. For a non-empty root, when that value is not rooted and the join does not put two separators side by side, the start folder converts back to exactly that value. |
| `AssetFolderAttributeDrawer.CancelKeepsStoredValue` | AssetFolderAttribute/Assets/editor/AssetFolderAttributeDrawer.cs:76-104 | A cancelled dialog, with an unedited field holding a value that is not root-prefixed, writes the stored value back and reports no change. |
| `AssetFolderAttributeDrawer.UntouchedDrawRelativises` | AssetFolderAttribute/Assets/editor/AssetFolderAttributeDrawer.cs:52-104 | A stored absolute path `prefix + "/" + rest` under the root is written back as `rest`, and a change is reported, even when the user does nothing. |
| `AssetFolderAttributeDrawer.UntouchedDrawsChangeTwice` | AssetFolderAttribute/Assets/editor/AssetFolderAttributeDrawer.cs:52-104 | Two successive draws without user action can both change the value. The second draw cuts the root again from what the first one wrote. |
| `AssetFolderAttributeDrawer.ScenarioFolderUnderRoot` | AssetFolderAttribute/Assets/editor/AssetFolderAttributeDrawer.cs:52-104 | With the root `/proj/Assets`, an existing `/proj/Assets/Models` draws without a warning and is written back as `Models`. |
| `AssetFolderAttributeDrawer.ScenarioFolderOutsideRoot` | AssetFolderAttribute/Assets/editor/AssetFolderAttributeDrawer.cs:60-75 | With the root `/proj/Assets`, `/other/Models` draws with the label plus "(not an asset path)" and is left unchanged. |
| `AssetFolderAttributeDrawer.WarningSuffixAccumulates` | AssetFolderAttribute/Assets/editor/AssetFolderAttributeDrawer.cs:63-75 | The label is extended in place. Drawing the same label object again with an unchanged value appends the warning a second time. |
| `AssetFolderAttributeDrawer.OnGUI` | AssetFolderAttribute/Assets/editor/AssetFolderAttributeDrawer.cs:50-107 | After the call, `property.stringValue` holds the decided value and `label.text` the extended label. The returned panel request and resynchronisation flag are those `Draw` gives for the old state. |

## Left out

- `GetPropertyHeight` (lines 12-15): it only delegates to `EditorGUI.GetPropertyHeight`, a Unity library call not visible here.
- Rendering is not modelled: `GUILayout`/`EditorGUILayout` layout, `CalcSize` (its result is unused), the 30-unit button width, and the focus calls `SetNextControlName`/`FocusControl`. The red `GUI.backgroundColor` tint is represented only by the warning being present.
- Only the guard of `ApplyModifiedProperties`, `serializedObject.Update` and `EditorApplication.update.Invoke` is modelled, as `refreshed`/`changed`. Their effects belong to the host.
- `EditorUtility.OpenFolderPanel`, `Directory.Exists`, `Application.dataPath` and the text field's result come in as parameters. The panel is a blocking native dialog, and the others are filesystem and host state. Only the arguments the panel is opened with are produced by the model.
- `Path.IsPathRooted` and `Path.Combine` follow a POSIX-style model. Drive letters, UNC paths and the separator choices of each platform are not modelled. On Unix, .NET's alternate separator is also `/`, while the model uses `\`.
- `String.ToLower` is ASCII lower-casing and `String.StartsWith` an ordinal comparison. Culture-sensitive casing and comparison are not modelled.
- For a value that is not rooted, `Directory.Exists` is called with the lowered root joined to the value. A rooted value is checked as stored. Whether a case-sensitive filesystem then finds the folder is a property of the filesystem, which the model does not describe.
- Exceptions are not modelled, and the model assumes none is thrown. `Path.IsPathRooted` and `Path.Combine` throw `ArgumentException` on characters that are invalid in paths, such as `'\0'`, and on Windows also `<`, `>`, `|`, `"` and control characters. `EditorApplication.update.Invoke()` throws `NullReferenceException` when no handler is registered. Either exception would end `OnGUI` before the value is written, whereas the model's `GetFullPath` resolves every string and `OnGUI` always writes.
