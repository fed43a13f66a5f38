# Karavan "create file" dialog: file-name sanitising and naming

This project models how Karavan's web UI names a new project file. The model covers the
"Create" dialog (`CreateFileModal`). The user picks a file type and types a title. The dialog
derives the file's name from the title:

- **`fileNameCheck`** is `title.replace(/[^0-9a-zA-Z.]+/gi, "-").toLowerCase()`. Each maximal run of
  characters other than ASCII digits, ASCII letters and `.` becomes a single `-`. A `-` in the
  title counts as one of those other characters. The result is then lower-cased. The regular
  expression has no `u` flag, so its `i` flag never makes a non-ASCII character match an ASCII
  class member. The kept characters are therefore exactly `[0-9A-Za-z.]` (`FileNames.IsAllowed`).
- The file type is looked up in the project-file-type table. The lookup takes the first entry
  with that name and reads its extension. If no entry matches, the expression throws.
- The stem is the sanitised title, unless the extension is `java`. In that case the Java
  class-name derivation decides the stem.
- "Save" creates the file only when both the stem and the extension are non-empty. The file is
  named `stem + "." + extension`. The same text is shown under the input as a preview.

Module `FileNames` (`file_name_check.dfy`) models the sanitiser. It gives the regular
expression's replacement in two forms:

- `RegexReplace` works as the regex engine does. At each position the greedy `+` either matches
  nothing, and the allowed character is copied, or it takes the whole run (`RunLength`).
- `ScanReplace` is a left-to-right scan with an "inside a run" flag.

The two are proved equal. `FileNameCheck` is `ToLowerCase(RegexReplace(title))`.

Module `CreateFileModal` (`create_file_modal.dfy`) models the type lookup (`ExtensionOf`), the
stem (`FileNameFor`), the content (`FileCode`), the Save handler (`Confirm`), the preview text
(`Preview`) and the initial file type (`DefaultFileType`). The handler returns one of three
outcomes: `UnknownType` (the lookup throws), `NotCreated` (the guard fails), or `Created` with
the file and whether the dialog selects it afterwards.

These are passed in as parameters:

- the project-file-type table (`ProjectFileTypes`)
- the Java class-name derivation (`CamelUi.javaNameFromTitle`)
- the YAML of a new integration (`CamelDefinitionYaml.integrationToYaml(Integration.createNew(name, 'plain'))`)
- the project id
- the clock (`Date.now()`)

## Model

| member | source | states |
|---|---|---|
| `FileNames.LowerChar` | karavan-web/karavan-app/src/main/webui/src/project/files/CreateFileModal.tsx:76 | lower-casing leaves no ASCII upper-case letter, maps `A`-`Z` onto `a`-`z`, fixes every other character and keeps class membership |
| `FileNames.ToLowerCase` | karavan-web/karavan-app/src/main/webui/src/project/files/CreateFileModal.tsx:76 | `toLowerCase` keeps the length and lower-cases each position independently |
| `FileNames.RunLength` | karavan-web/karavan-app/src/main/webui/src/project/files/CreateFileModal.tsx:76 | the greedy `[^0-9a-zA-Z.]+` match at the start of a string is its longest prefix of disallowed characters: all characters before it are disallowed and the next one, if any, is allowed |
| `FileNames.RegexReplace` | karavan-web/karavan-app/src/main/webui/src/project/files/CreateFileModal.tsx:76 | the global replacement is never longer than the title and is empty exactly when the title is; its meaning is given by `ScanMatchesRegex`, `ReplaceNoDoubleDash`, `ReplaceKeepsAllowed` and `ReplaceFixesSanitized` |
| `FileNames.ScanMatchesRegex` | karavan-web/karavan-app/src/main/webui/src/project/files/CreateFileModal.tsx:76 | the regex-engine replacement equals the scan that emits one `-` on entering a run of disallowed characters and copies allowed ones |
| `FileNames.ReplaceNoDoubleDash` | karavan-web/karavan-app/src/main/webui/src/project/files/CreateFileModal.tsx:76 | the replacement never produces two adjacent `-`, even when the title has `--` or a `-` beside other disallowed characters |
| `FileNames.FileNameCheck` | karavan-web/karavan-app/src/main/webui/src/project/files/CreateFileModal.tsx:75-77 | every character of the result is an ASCII digit, a lower-case ASCII letter, `.` or `-`; the lemmas `FileNameCheck*` below give its other properties |
| `FileNames.FileNameCheckSanitized` | karavan-web/karavan-app/src/main/webui/src/project/files/CreateFileModal.tsx:75-77 | every character of `fileNameCheck(t)` is an ASCII digit, a lower-case ASCII letter, `.` or `-`, and no two `-` are adjacent |
| `FileNames.FileNameCheckKeepsAllowed` | karavan-web/karavan-app/src/main/webui/src/project/files/CreateFileModal.tsx:75-77 | removing the `-` from `fileNameCheck(t)` gives the digits, letters and dots of `t`, lower-cased, in their original order: nothing allowed is dropped, added or reordered |
| `FileNames.FileNameCheckLength` | karavan-web/karavan-app/src/main/webui/src/project/files/CreateFileModal.tsx:75-77 | `fileNameCheck(t)` is no longer than `t` and is empty exactly when `t` is empty |
| `FileNames.FileNameCheckLeadingDash` | karavan-web/karavan-app/src/main/webui/src/project/files/CreateFileModal.tsx:75-77 | the result starts with `-` exactly when the title starts with a disallowed character |
| `FileNames.FileNameCheckTrailingDash` | karavan-web/karavan-app/src/main/webui/src/project/files/CreateFileModal.tsx:75-77 | the result ends with `-` exactly when the title ends with a disallowed character |
| `FileNames.FileNameCheckFixedPoints` | karavan-web/karavan-app/src/main/webui/src/project/files/CreateFileModal.tsx:75-77 | `fileNameCheck(s) == s` exactly when `s` uses only digits, lower-case letters, `.` and `-`, with no two `-` adjacent |
| `FileNames.FileNameCheckKeepsCleanName` | karavan-web/karavan-app/src/main/webui/src/project/files/CreateFileModal.tsx:75-77 | a name made only of digits, lower-case letters and `.` is returned unchanged |
| `FileNames.FileNameCheckIdempotent` | karavan-web/karavan-app/src/main/webui/src/project/files/CreateFileModal.tsx:75-77 | sanitising an already sanitised name changes nothing |
| `CreateFileModal.DefaultFileType` | karavan-web/karavan-app/src/main/webui/src/project/files/CreateFileModal.tsx:45-49 | the initial file type is never empty: it is the first offered type when that one is non-empty, `INTEGRATION` otherwise |
| `CreateFileModal.ExtensionOf` | karavan-web/karavan-app/src/main/webui/src/project/files/CreateFileModal.tsx:58 | the lookup fails exactly when no table entry has the chosen name; otherwise it gives the extension of the first entry with that name |
| `CreateFileModal.FileNameFor` | karavan-web/karavan-app/src/main/webui/src/project/files/CreateFileModal.tsx:80-82 | for an extension other than `java` the stem is a sanitised name, empty exactly when the title is; for `java` it is the Java class-name derivation of the title |
| `CreateFileModal.ConfirmSelectsIntegration` | karavan-web/karavan-app/src/main/webui/src/project/files/CreateFileModal.tsx:60-71 | a created file is selected exactly when its type is `INTEGRATION` and the new-integration YAML is non-empty; a file of any other type is created with empty content and the dialog closes (`FileCode` gives the content) |
| `CreateFileModal.Confirm` | karavan-web/karavan-app/src/main/webui/src/project/files/CreateFileModal.tsx:57-72 | Save throws exactly when the type lookup fails. A created file has a non-empty stem and extension and is named `stem.extension`. It carries the project id, the current time and the type's content. The dialog selects it exactly when that content is non-empty. When nothing is created, the stem or the extension is empty |
| `CreateFileModal.Preview` | karavan-web/karavan-app/src/main/webui/src/project/files/CreateFileModal.tsx:112 | the helper text exists exactly when the type lookup succeeds, and it ends with `.` followed by the extension |
| `CreateFileModal.ConfirmNonJava` | karavan-web/karavan-app/src/main/webui/src/project/files/CreateFileModal.tsx:59-64 | for a non-`java` extension, a file is created exactly when the title and the extension are non-empty, and it is named `fileNameCheck(title) + "." + extension` |
| `CreateFileModal.CreatedNonJavaNameSanitized` | karavan-web/karavan-app/src/main/webui/src/project/files/CreateFileModal.tsx:59-64 | a created non-`java` file is named by a non-empty sanitised stem (digits, lower-case letters, dots, single dashes), a dot and the extension |
| `CreateFileModal.PreviewMatchesCreated` | karavan-web/karavan-app/src/main/webui/src/project/files/CreateFileModal.tsx:79-82 | the previewed text is the name of the file Save creates for the same title and type, and the preview fails exactly when Save would throw |

## Left out

- The React and zustand state (`useState`, the store setters, `cleanValues`, `closeModal`, the
  modal's `isOpen` and the toggle list, lines 42-55, 66-71, 83-118) is not modelled as state.
  The values these handlers compute are modelled: `DefaultFileType` is the initial and reset file
  type `props.types.at(0) || 'INTEGRATION'` (lines 45 and 49), and `Confirm`'s `selectFile`
  records which `setFile` call follows a creation.
- `ProjectService.createFile` is out of the model because it does I/O. `Confirm` returns the file
  it would be given.
- These calls are not part of this model. They enter as parameters with no assumed behaviour:
  `Date.now()`, the project id, `CamelUi.javaNameFromTitle`, `integrationToYaml` /
  `Integration.createNew`, and the contents of `ProjectFileTypes`.
- `FileNames.LowerChar`: models `toLowerCase` only on ASCII letters. `ToLowerCase` is only applied
  to the output of the replacement, which has just ASCII digits, ASCII letters, `.` and `-`, so
  full Unicode lower-casing gives the same result there.
- JavaScript strings are UTF-16 code units; the model's `char` is a Unicode scalar value. Both
  halves of a surrogate pair are outside the class and fall in the same run. The sanitised output
  is therefore the same under both readings. The length bound holds under both.
- The topology files are not part of this model. `TopologyDefinition.ts` only holds data: its
  constructors copy their arguments and validate nothing (`TopologyDefinition.ts`, lines 29-36,
  47-54, 65-72, 83-90). `TopologyUtils` is not modelled. `topology.spec.ts` reads fixtures from
  disk and asserts nothing.
- `TopologyTab.tsx` is React and graph-library wiring (layout, zoom, listeners) with no logic of
  its own to state.
