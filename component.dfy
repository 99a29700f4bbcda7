/** The DocumentUpload component as an object whose methods update its state
    in place. Each method performs one state update and is proved to agree
    with the pure update of the same name in Updaters or Settling. */
module Component {
  import opened Types
  import opened Fields
  import Libraries
  import Updaters
  import Settling

  class DocumentUpload {
    var filesToUpload: seq<FileInfo>
    var selectedLibrary: Option<Library>
    var fields: seq<Field>
    var uploading: bool
    var messages: seq<Activity>

    /** The state record the component renders from. */
    function Snapshot(): State
      reads this
    {
      State(filesToUpload, selectedLibrary, fields, uploading, messages)
    }

    /** No files, no library, the configured fields, not uploading, an empty log. */
    constructor (configured: seq<Field>)
      ensures Snapshot() == State([], None, configured, false, [])
    {
      filesToUpload := [];
      selectedLibrary := None;
      fields := configured;
      uploading := false;
      messages := [];
    }

    /** setFieldValue: each field with the given internal name has its value
        overwritten in place. */
    method SetFieldValue(internalName: string, value: Value)
      modifies this`fields
      ensures Snapshot() == Updaters.WithFieldValue(old(Snapshot()), internalName, value)
    {
      var i := 0;
      while i < |fields|
        invariant 0 <= i <= |fields| == |old(fields)|
        invariant forall j :: 0 <= j < i ==>
          fields[j] == if old(fields)[j].internalName == internalName then old(fields)[j].(value := value) else old(fields)[j]
        invariant forall j :: i <= j < |fields| ==> fields[j] == old(fields)[j]
      {
        if fields[i].internalName == internalName {
          fields := fields[i := fields[i].(value := value)];
        }
        i := i + 1;
      }
    }

    /** setDocumentLibrary: select the configured library with this title. */
    method SetDocumentLibrary(libraries: seq<Library>, name: string)
      modifies this`selectedLibrary
      ensures Snapshot() == Updaters.WithLibrary(old(Snapshot()), libraries, name)
    {
      selectedLibrary := Libraries.FindLibrary(libraries, name);
    }

    /** setFiles: the files accepted by the drop zone become the work list. */
    method SetFiles(accepted: seq<FileInfo>)
      modifies this`filesToUpload
      ensures Snapshot() == Updaters.WithFiles(old(Snapshot()), accepted)
    {
      filesToUpload := accepted;
    }

    /** clearForm: drop the files and the log, and null every field value in
        place. */
    method ClearForm()
      modifies this`filesToUpload, this`messages, this`fields
      ensures Snapshot() == Updaters.ClearForm(old(Snapshot()))
    {
      filesToUpload := [];
      messages := [];
      var i := 0;
      while i < |fields|
        invariant 0 <= i <= |fields| == |old(fields)|
        invariant forall j :: 0 <= j < i ==> fields[j] == old(fields)[j].(value := Null)
        invariant forall j :: i <= j < |fields| ==> fields[j] == old(fields)[j]
        modifies this`fields
      {
        fields := fields[i := fields[i].(value := Null)];
        i := i + 1;
      }
    }

    /** componentDidUpdate: take over the configured fields when they changed. */
    method ComponentDidUpdate(previous: seq<Field>, configured: seq<Field>)
      modifies this`fields
      ensures Snapshot() == Updaters.WithConfiguredFields(old(Snapshot()), previous, configured)
    {
      if previous != configured {
        fields := configured;
      }
    }

    /** uploadDocuments: mark the form as uploading, then start one chain per
        given file, in the given order. Returns the names the chains upload
        under and the metadata payload each chain sends. */
    method UploadDocuments(files: seq<FileInfo>) returns (chains: seq<string>, update: map<string, Value>)
      modifies this`uploading
      ensures Snapshot() == Settling.BeginUpload(old(Snapshot()))
      ensures |chains| == |files| && forall i :: 0 <= i < |files| ==> chains[i] == files[i].name
      ensures update == Payload(fields)
    {
      uploading := true;
      chains := [];
      var i := 0;
      while i < |files|
        invariant 0 <= i <= |files|
        invariant |chains| == i && forall j :: 0 <= j < i ==> chains[j] == files[j].name
      {
        chains := chains + [files[i].name];
        i := i + 1;
      }
      update := BuildPayload(fields);
    }

    /** The `filesToUpload.map(...)` of a settle update: every file with that
        name gets the outcome, in place. */
    method MarkFilesInPlace(name: string, o: Outcome)
      modifies this`filesToUpload
      ensures filesToUpload == Settling.MarkFiles(old(filesToUpload), name, o)
    {
      var i := 0;
      while i < |filesToUpload|
        invariant 0 <= i <= |filesToUpload| == |old(filesToUpload)|
        invariant forall j :: 0 <= j < i ==>
          filesToUpload[j] == old(filesToUpload)[j].(success := if old(filesToUpload)[j].name == name then o else old(filesToUpload)[j].success)
        invariant forall j :: i <= j < |filesToUpload| ==> filesToUpload[j] == old(filesToUpload)[j]
      {
        if filesToUpload[i].name == name {
          filesToUpload := filesToUpload[i := filesToUpload[i].(success := o)];
        }
        i := i + 1;
      }
    }

    /** The number of files with an outcome; it equals the number of files
        exactly when none is unsettled. */
    method CountSettledFiles() returns (settled: nat)
      ensures settled == Settling.CountSettled(filesToUpload)
      ensures settled == |filesToUpload| <==> !Settling.AnyUnsettled(filesToUpload)
    {
      settled := 0;
      var k := 0;
      while k < |filesToUpload|
        invariant 0 <= k <= |filesToUpload|
        invariant settled == Settling.CountSettled(filesToUpload[..k])
      {
        assert filesToUpload[..k + 1][..k] == filesToUpload[..k];
        if filesToUpload[k].success != Unsettled {
          settled := settled + 1;
        }
        k := k + 1;
      }
      assert filesToUpload[..k] == filesToUpload;
    }

    /** The settle update of the chain for file `name`: mark every file with
        that name in place, recompute `uploading` from the marked list and
        append the chain's log entries. */
    method SettleChain(name: string, result: Settling.ChainResult)
      modifies this`filesToUpload, this`uploading, this`messages
      ensures Snapshot() == Settling.Settle(old(Snapshot()), name, result)
    {
      var written := Settling.Written(result);
      if written.Some? {
        ghost var s := Snapshot();
        ghost var marked := Settling.MarkFiles(filesToUpload, name, written.value);
        assert Settling.Settle(s, name, result) ==
          s.(filesToUpload := marked,
             uploading := Settling.CountSettled(marked) != |marked|,
             messages := s.messages + Settling.LogOf(name, result));
        MarkFilesInPlace(name, written.value);
        var settled := CountSettledFiles();
        uploading := settled != |filesToUpload|;
        messages := messages + Settling.LogOf(name, result);
      }
    }
  }
}
