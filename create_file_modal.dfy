/**
 The part of the "create file" dialog that decides the new file's name:
 the extension looked up from the chosen file type, the name derived from
 the title the user typed, the guard that creates the file only when both
 are non-empty, and the `name.extension` text previewed under the input.

 The project-file-type table, the Java class-name derivation, the YAML
 template of a new integration, the project id and the clock are not part
 of this model and enter as parameters.
 */
module CreateFileModal {
  import opened FileNames

  datatype Option<T> = None | Some(value: T)

  /** One entry of the project-file-type table. */
  datatype ProjectFileType = ProjectFileType(name: string, title: string, extension: string)

  /** The file handed to the project service. */
  datatype ProjectFile = ProjectFile(name: string, projectId: string, code: string, lastUpdate: int)

  /** What pressing "Save" does: the type lookup throws (no entry has the
      chosen name), nothing is created (empty name or extension), or a file
      is created, after which the dialog either selects it (it has code) or
      closes. */
  datatype ConfirmOutcome =
    | UnknownType
    | NotCreated
    | Created(file: ProjectFile, selectFile: bool)

  /** The file type selected when the dialog opens or is reset:
      `props.types.at(0) || 'INTEGRATION'`. */
  function DefaultFileType(types: seq<string>): (r: string)
    ensures r != ""
    ensures r == "INTEGRATION" || (|types| > 0 && r == types[0])
    ensures |types| > 0 && types[0] != "" ==> r == types[0]
  {
    if |types| > 0 && types[0] != "" then types[0] else "INTEGRATION"
  }

  /** `ProjectFileTypes.filter(value => value.name === fileType)[0].extension`:
      the extension of the first entry with that name; None where the
      expression would throw because no entry matches. */
  function ExtensionOf(fileTypes: seq<ProjectFileType>, fileType: string): (r: Option<string>)
    ensures r.None? <==> forall i :: 0 <= i < |fileTypes| ==> fileTypes[i].name != fileType
    ensures r.Some? ==>
              exists i :: 0 <= i < |fileTypes| && fileTypes[i].name == fileType
                          && r.value == fileTypes[i].extension
                          && forall j :: 0 <= j < i ==> fileTypes[j].name != fileType
  {
    if fileTypes == [] then None
    else if fileTypes[0].name == fileType then Some(fileTypes[0].extension)
    else
      var r := ExtensionOf(fileTypes[1..], fileType);
      if r.Some? then
        assert exists i :: 0 < i < |fileTypes| && fileTypes[i].name == fileType
                          && r.value == fileTypes[i].extension
                          && forall j :: 0 <= j < i ==> fileTypes[j].name != fileType by {
          var i :| 0 <= i < |fileTypes[1..]| && fileTypes[1..][i].name == fileType
                   && r.value == fileTypes[1..][i].extension
                   && forall j :: 0 <= j < i ==> fileTypes[1..][j].name != fileType;
          assert fileTypes[i + 1] == fileTypes[1..][i];
          assert forall j :: 1 <= j < i + 1 ==> fileTypes[j] == fileTypes[1..][j - 1];
        }
        r
      else
        r
  }

  /** The name part of the new file: the sanitised title unless the
      extension is `java`, in which case the Java class-name derivation
      (passed in as `javaName`) decides it. */
  function FileNameFor(extension: string, title: string, javaName: string -> string): (r: string)
    ensures extension != "java" ==> IsSanitized(r) && (r == "" <==> title == "")
    ensures extension == "java" ==> r == javaName(title)
  {
    FileNameCheckSanitized(title);
    FileNameCheckLength(title);
    if extension != "java" then FileNameCheck(title) else javaName(title)
  }

  /** The content of the new file: the YAML of a new integration named by
      the raw title (passed in as `integrationYaml`) for the INTEGRATION
      type, empty otherwise. */
  function FileCode(fileType: string, title: string, integrationYaml: string -> string): string
  {
    if fileType == "INTEGRATION" then integrationYaml(title) else ""
  }

  /** `confirmAndCloseModal` without its state setters. */
  function Confirm(fileTypes: seq<ProjectFileType>, fileType: string, title: string,
                   projectId: string, now: int,
                   javaName: string -> string, integrationYaml: string -> string): (r: ConfirmOutcome)
    ensures r.UnknownType? <==> ExtensionOf(fileTypes, fileType).None?
    ensures r.Created? ==>
              var extension := ExtensionOf(fileTypes, fileType).value;
              && extension != ""
              && FileNameFor(extension, title, javaName) != ""
              && r.file.name == FileNameFor(extension, title, javaName) + "." + extension
              && r.file.projectId == projectId
              && r.file.lastUpdate == now
              && r.file.code == FileCode(fileType, title, integrationYaml)
              && (r.selectFile <==> r.file.code != "")
    ensures r.NotCreated? ==>
              var extension := ExtensionOf(fileTypes, fileType).value;
              extension == "" || FileNameFor(extension, title, javaName) == ""
  {
    match ExtensionOf(fileTypes, fileType)
    case None => UnknownType
    case Some(extension) =>
      var filename := FileNameFor(extension, title, javaName);
      var code := FileCode(fileType, title, integrationYaml);
      if filename != "" && extension != "" then
        Created(ProjectFile(filename + "." + extension, projectId, code, now), code != "")
      else
        NotCreated
  }

  /** The helper text under the name input, `filename + '.' + extension`;
      None where rendering throws because no file type matches. */
  function Preview(fileTypes: seq<ProjectFileType>, fileType: string, title: string,
                   javaName: string -> string): (r: Option<string>)
    ensures r.None? <==> ExtensionOf(fileTypes, fileType).None?
    ensures r.Some? ==>
              var extension := ExtensionOf(fileTypes, fileType).value;
              && |r.value| > |extension|
              && r.value[|r.value| - |extension| - 1..] == "." + extension
  {
    match ExtensionOf(fileTypes, fileType)
    case None => None
    case Some(extension) => Some(FileNameFor(extension, title, javaName) + "." + extension)
  }

  // ---------------------------------------------------------------------
  // Properties of the dialog
  // ---------------------------------------------------------------------

  /** For a type whose extension is not `java`, a file is created exactly
      when the title and the extension are non-empty, and it is named by
      the sanitised title, a dot and the extension. */
  lemma ConfirmNonJava(fileTypes: seq<ProjectFileType>, fileType: string, title: string,
                       projectId: string, now: int,
                       javaName: string -> string, integrationYaml: string -> string)
    requires ExtensionOf(fileTypes, fileType).Some?
    requires ExtensionOf(fileTypes, fileType).value != "java"
    ensures var extension := ExtensionOf(fileTypes, fileType).value;
            var r := Confirm(fileTypes, fileType, title, projectId, now, javaName, integrationYaml);
            && (r.Created? <==> title != "" && extension != "")
            && (r.Created? ==> r.file.name == FileNameCheck(title) + "." + extension)
  {
    FileNameCheckLength(title);
  }

  /** After a file is created the dialog selects it exactly when it is an
      integration whose YAML is non-empty; a file of any other type is
      created empty and the dialog just closes. */
  lemma ConfirmSelectsIntegration(fileTypes: seq<ProjectFileType>, fileType: string, title: string,
                                  projectId: string, now: int,
                                  javaName: string -> string, integrationYaml: string -> string)
    ensures var r := Confirm(fileTypes, fileType, title, projectId, now, javaName, integrationYaml);
            r.Created? ==>
              && (r.selectFile <==> fileType == "INTEGRATION" && integrationYaml(title) != "")
              && (fileType != "INTEGRATION" ==> r.file.code == "")
  {
  }

  /** The stem of a created non-Java file is a sanitised name: ASCII digits,
      lower-case letters, dots and single dashes. */
  lemma CreatedNonJavaNameSanitized(fileTypes: seq<ProjectFileType>, fileType: string, title: string,
                                    projectId: string, now: int,
                                    javaName: string -> string, integrationYaml: string -> string)
    requires ExtensionOf(fileTypes, fileType).Some?
    requires ExtensionOf(fileTypes, fileType).value != "java"
    requires Confirm(fileTypes, fileType, title, projectId, now, javaName, integrationYaml).Created?
    ensures var extension := ExtensionOf(fileTypes, fileType).value;
            var name := Confirm(fileTypes, fileType, title, projectId, now, javaName, integrationYaml).file.name;
            exists stem :: IsSanitized(stem) && stem != "" && name == stem + "." + extension
  {
    FileNameCheckSanitized(title);
    var extension := ExtensionOf(fileTypes, fileType).value;
    var stem := FileNameCheck(title);
    assert Confirm(fileTypes, fileType, title, projectId, now, javaName, integrationYaml).file.name
      == stem + "." + extension;
  }

  /** The text previewed under the input is the name of the file that
      "Save" creates for the same title and type. */
  lemma PreviewMatchesCreated(fileTypes: seq<ProjectFileType>, fileType: string, title: string,
                              projectId: string, now: int,
                              javaName: string -> string, integrationYaml: string -> string)
    ensures var r := Confirm(fileTypes, fileType, title, projectId, now, javaName, integrationYaml);
            r.Created? ==> Preview(fileTypes, fileType, title, javaName) == Some(r.file.name)
    ensures Preview(fileTypes, fileType, title, javaName).None? <==>
            Confirm(fileTypes, fileType, title, projectId, now, javaName, integrationYaml).UnknownType?
  {
  }
}
