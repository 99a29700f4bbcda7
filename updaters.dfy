/** The form's state updates other than the upload settle events, and the
    two values the form derives from its state: the submission gate and the
    number on the submit button. */
module Updaters {
  import opened Types
  import opened Fields
  import Libraries

  /** setFieldValue's update. */
  function WithFieldValue(s: State, internalName: string, value: Value): State {
    s.(fields := AssignValue(s.fields, internalName, value))
  }

  /** Assigning a field twice keeps only the second value. */
  lemma AssignLastWins(s: State, internalName: string, v: Value, w: Value)
    ensures WithFieldValue(WithFieldValue(s, internalName, v), internalName, w) == WithFieldValue(s, internalName, w)
  {
    var once := AssignValue(s.fields, internalName, v);
    var twice := AssignValue(once, internalName, w);
    var direct := AssignValue(s.fields, internalName, w);
    forall i | 0 <= i < |s.fields|
      ensures twice[i] == direct[i]
    {
    }
  }

  /** setDocumentLibrary's update: the first configured library with the
      picked title, or none. */
  function WithLibrary(s: State, libraries: seq<Library>, name: string): State {
    s.(selectedLibrary := Libraries.FindLibrary(libraries, name))
  }

  /** setFiles's update: the dropped files replace the list. */
  function WithFiles(s: State, files: seq<FileInfo>): State {
    s.(filesToUpload := files)
  }

  /** clearForm's update. */
  function ClearForm(s: State): (r: State)
    ensures r.filesToUpload == [] && r.messages == []
    ensures r.selectedLibrary == s.selectedLibrary && r.uploading == s.uploading
    ensures |r.fields| == |s.fields|
    ensures forall i :: 0 <= i < |s.fields| ==>
      r.fields[i].internalName == s.fields[i].internalName && r.fields[i].sortOrder == s.fields[i].sortOrder && r.fields[i].value == Null
  {
    s.(filesToUpload := [], messages := [], fields := ClearValues(s.fields))
  }

  /** Resetting twice is the same as resetting once. */
  lemma ClearFormIdempotent(s: State)
    ensures ClearForm(ClearForm(s)) == ClearForm(s)
  {
    ClearValuesIdempotent(s.fields);
  }

  /** componentDidUpdate's update: the configured fields replace the form's
      fields when they differ from the previous configuration. */
  function WithConfiguredFields(s: State, previous: seq<Field>, configured: seq<Field>): (r: State)
    ensures r.fields == (if previous != configured then configured else s.fields)
    ensures r.(fields := s.fields) == s
  {
    if previous != configured then s.(fields := configured) else s
  }

  /** validForm: at least one file, every field holding a truthy value, and a
      library selected. */
  function ValidForm(s: State): (ok: bool)
    ensures ok <==>
      && |s.filesToUpload| > 0
      && (forall i :: 0 <= i < |s.fields| ==> Truthy(s.fields[i].value))
      && s.selectedLibrary.Some?
  {
    |s.filesToUpload| > 0 && CountFilled(s.fields) == |s.fields| && s.selectedLibrary.Some?
  }

  /** `undefined`, `null`, `false`, `0` and `""` all leave a field unfilled. */
  lemma FalsyValueBlocksSubmit(s: State, i: nat)
    requires i < |s.fields|
    requires s.fields[i].value in {Undefined, Null, Bool(false), Num(0), Str("")}
    ensures !ValidForm(s)
  {
  }

  /** A reset form cannot be submitted: it has no files. */
  lemma ClearedFormInvalid(s: State)
    ensures !ValidForm(ClearForm(s))
  {
  }

  /** The number on the submit button, `filter(file => !file.success).length`:
      the files not yet uploaded successfully, failed and unsettled alike. */
  function SubmitCount(files: seq<FileInfo>): (n: nat)
    ensures n <= |files|
    ensures n == 0 <==> forall i :: 0 <= i < |files| ==> files[i].success == Succeeded
    decreases |files|
  {
    if files == [] then 0
    else SubmitCount(files[..|files| - 1]) + (if files[|files| - 1].success != Succeeded then 1 else 0)
  }

  /** The indices of the files not yet uploaded successfully. */
  function Pending(files: seq<FileInfo>): set<nat> {
    set i: nat | i < |files| && files[i].success != Succeeded
  }

  /** The button shows exactly the number of files not yet uploaded
      successfully. */
  lemma {:induction false} SubmitCountIsPending(files: seq<FileInfo>)
    ensures SubmitCount(files) == |Pending(files)|
    decreases |files|
  {
    if files != [] {
      var n := |files| - 1;
      var init := files[..n];
      SubmitCountIsPending(init);
      var last: set<nat> := if files[n].success != Succeeded then {n} else {};
      assert Pending(files) == Pending(init) + last;
      assert n !in Pending(init);
    }
  }
}
