/** The upload workflow of uploadDocuments as state transitions. Each file's
    chain (add, then getItem, then update) ends in at most one state update,
    and those updates run one at a time in whatever order the chains finish,
    so a submission is a sequence of settle events applied to the state. */
module Settling {
  import opened Types
  import ErrorText

  /** How one file's chain ends, as far as the component can see. */
  datatype ChainResult =
    | Stored                               // add, getItem and update all resolved
    | PatchFailed                          // add resolved, then getItem or update rejected
    | AddFailed(message: Option<string>)   // add rejected with this `error.message`

  /** The chain of the file called `name` ended with `result`. */
  datatype Event = Event(name: string, result: ChainResult)

  /** The outcome the chain's state update writes, or `None` when no update
      runs: a rejected getItem or update is not returned to the outer catch,
      and a missing error message makes the catch handler throw before its
      update. */
  function Written(result: ChainResult): (r: Option<Outcome>)
    ensures r != Some(Unsettled)
    ensures r == Some(Succeeded) <==> result == Stored
    ensures r == Some(Failed) <==> result.AddFailed? && result.message.Some?
  {
    match result
    case Stored => Some(Succeeded)
    case PatchFailed => None
    case AddFailed(message) => if message.Some? then Some(Failed) else None
  }

  /** The entries the chain appends to the activity log. */
  function LogOf(name: string, result: ChainResult): (r: seq<Activity>)
    ensures forall a :: a in r ==> a.file == name
    ensures result == Stored ==> r == [Uploaded(name), UpdatedMetadata(name)]
    ensures result != Stored ==> |r| <= 1 && (r != [] <==> result.AddFailed? && ErrorText.IsAlreadyExists(result.message) == Some(true))
    ensures r != [] && result != Stored ==> Written(result) == Some(Failed)
    ensures result != Stored ==> forall a :: a in r ==> a == AlreadyExists(name)
  {
    match result
    case Stored => [Uploaded(name), UpdatedMetadata(name)]
    case PatchFailed => []
    case AddFailed(message) => if ErrorText.IsAlreadyExists(message) == Some(true) then [AlreadyExists(name)] else []
  }

  /** The `filesToUpload.map(...)` of a settle update: every file called
      `name` gets outcome `o`; every other file is left as it was. */
  function MarkFiles(files: seq<FileInfo>, name: string, o: Outcome): (r: seq<FileInfo>)
    ensures |r| == |files|
    ensures forall i :: 0 <= i < |files| ==>
      r[i] == files[i].(success := if files[i].name == name then o else files[i].success)
  {
    if files == [] then []
    else
      var head := if files[0].name == name then files[0].(success := o) else files[0];
      [head] + MarkFiles(files[1..], name, o)
  }

  /** The length of `filter(file => file.success === true || file.success === false)`. */
  function CountSettled(files: seq<FileInfo>): (n: nat)
    ensures n <= |files|
    ensures n == |files| <==> forall i :: 0 <= i < |files| ==> files[i].success != Unsettled
    decreases |files|
  {
    if files == [] then 0
    else CountSettled(files[..|files| - 1]) + (if files[|files| - 1].success != Unsettled then 1 else 0)
  }

  predicate AnyUnsettled(files: seq<FileInfo>) {
    exists i :: 0 <= i < |files| && files[i].success == Unsettled
  }

  /** The first update of uploadDocuments: `uploading` becomes true before
      any chain is started. */
  function BeginUpload(s: State): (r: State)
    ensures r.uploading
    ensures r.(uploading := s.uploading) == s
  {
    s.(uploading := true)
  }

  /** The settle update run when the chain of file `name` ends with `result`.
      The `uploading` flag is read off the file list after the marking (the
      source marks the very file objects it then filters), so it is true
      exactly when some file is still unsettled. */
  function Settle(s: State, name: string, result: ChainResult): (r: State)
    ensures r.selectedLibrary == s.selectedLibrary && r.fields == s.fields
    ensures Written(result).None? ==> r == s
    ensures Written(result).Some? ==>
      && |r.filesToUpload| == |s.filesToUpload|
      && (forall i :: 0 <= i < |s.filesToUpload| ==>
            r.filesToUpload[i] == s.filesToUpload[i].(success := if s.filesToUpload[i].name == name then Written(result).value else s.filesToUpload[i].success))
      && (r.uploading <==> AnyUnsettled(r.filesToUpload))
    ensures result == Stored ==> r.messages == s.messages + [Uploaded(name), UpdatedMetadata(name)]
    ensures result.AddFailed? ==>
      r.messages == s.messages + (if ErrorText.IsAlreadyExists(result.message) == Some(true) then [AlreadyExists(name)] else [])
  {
    match Written(result)
    case None => s
    case Some(o) =>
      var files := MarkFiles(s.filesToUpload, name, o);
      s.(filesToUpload := files,
         uploading := CountSettled(files) != |files|,
         messages := s.messages + LogOf(name, result))
  }

  /** The state after the given chains have ended, in this order. */
  function Run(s: State, events: seq<Event>): State
    decreases |events|
  {
    if events == [] then s else Run(Settle(s, events[0].name, events[0].result), events[1..])
  }

  /** The outcome of a file called `name` that started with outcome `o`,
      after the given events: that of the last event for it that runs an
      update, or `o` if there is none. */
  function FinalOutcome(o: Outcome, name: string, events: seq<Event>): Outcome
    decreases |events|
  {
    if events == [] then o
    else
      var e := events[0];
      var next := if e.name == name && Written(e.result).Some? then Written(e.result).value else o;
      FinalOutcome(next, name, events[1..])
  }

  /** The log entries the given events append, in order. */
  function Logs(events: seq<Event>): seq<Activity>
    decreases |events|
  {
    if events == [] then [] else LogOf(events[0].name, events[0].result) + Logs(events[1..])
  }

  /** Every settle event touches only the `success` of files: each file ends
      with the outcome its own events give it, whatever the interleaving with
      other files' events; the library and the fields are untouched. */
  lemma {:induction false} RunFiles(s: State, events: seq<Event>)
    ensures Run(s, events).selectedLibrary == s.selectedLibrary && Run(s, events).fields == s.fields
    ensures |Run(s, events).filesToUpload| == |s.filesToUpload|
    ensures forall i :: 0 <= i < |s.filesToUpload| ==>
      Run(s, events).filesToUpload[i] == s.filesToUpload[i].(success := FinalOutcome(s.filesToUpload[i].success, s.filesToUpload[i].name, events))
    decreases |events|
  {
    if events != [] {
      var e := events[0];
      var s1 := Settle(s, e.name, e.result);
      RunFiles(s1, events[1..]);
      forall i | 0 <= i < |s.filesToUpload|
        ensures Run(s, events).filesToUpload[i] ==
          s.filesToUpload[i].(success := FinalOutcome(s.filesToUpload[i].success, s.filesToUpload[i].name, events))
      {
        var f := s.filesToUpload[i];
        assert s1.filesToUpload[i].name == f.name;
        assert s1.filesToUpload[i].success == if e.name == f.name && Written(e.result).Some? then Written(e.result).value else f.success;
      }
    }
  }

  /** The log grows by exactly the entries of the events, in event order:
      two for a stored file ("uploaded", then "updated metadata"), one for a
      file that already exists, none otherwise. */
  lemma {:induction false} RunMessages(s: State, events: seq<Event>)
    ensures Run(s, events).messages == s.messages + Logs(events)
    decreases |events|
  {
    if events != [] {
      var e := events[0];
      var s1 := Settle(s, e.name, e.result);
      assert s1.messages == s.messages + LogOf(e.name, e.result);
      RunMessages(s1, events[1..]);
    }
  }

  /** Chains that end without a state update change nothing. */
  lemma {:induction false} RunQuiet(s: State, events: seq<Event>)
    requires forall k :: 0 <= k < |events| ==> Written(events[k].result).None?
    ensures Run(s, events) == s
    decreases |events|
  {
    if events != [] {
      RunQuiet(s, events[1..]);
    }
  }

  /** After any sequence of events of which at least one runs an update,
      `uploading` is true exactly when some file is still unsettled. */
  lemma {:induction false} RunUploading(s: State, events: seq<Event>)
    requires exists k :: 0 <= k < |events| && Written(events[k].result).Some?
    ensures Run(s, events).uploading <==> AnyUnsettled(Run(s, events).filesToUpload)
    decreases |events|
  {
    var e := events[0];
    var s1 := Settle(s, e.name, e.result);
    var rest := events[1..];
    if exists k :: 0 <= k < |rest| && Written(rest[k].result).Some? {
      RunUploading(s1, rest);
    } else {
      RunQuiet(s1, rest);
    }
  }

  /** Once an update has written an outcome for a name, the file keeps some
      outcome: it never becomes unsettled again. */
  lemma {:induction false} FinalOutcomeSettled(o: Outcome, name: string, events: seq<Event>)
    requires o != Unsettled || exists k :: 0 <= k < |events| && events[k].name == name && Written(events[k].result).Some?
    ensures FinalOutcome(o, name, events) != Unsettled
    decreases |events|
  {
    if events != [] {
      var e := events[0];
      var next := if e.name == name && Written(e.result).Some? then Written(e.result).value else o;
      if next == Unsettled {
        var k :| 0 <= k < |events| && events[k].name == name && Written(events[k].result).Some?;
        assert k > 0;
        assert events[1..][k - 1] == events[k];
      }
      FinalOutcomeSettled(next, name, events[1..]);
    }
  }

  /** A file none of whose events runs an update keeps its outcome. */
  lemma {:induction false} FinalOutcomeUntouched(o: Outcome, name: string, events: seq<Event>)
    requires forall k :: 0 <= k < |events| && events[k].name == name ==> Written(events[k].result).None?
    ensures FinalOutcome(o, name, events) == o
    decreases |events|
  {
    if events != [] {
      FinalOutcomeUntouched(o, name, events[1..]);
    }
  }

  /** A file is marked as a success only by the chain in which the upload and
      the metadata update both resolved. */
  lemma {:induction false} SucceededOnlyAfterStored(o: Outcome, name: string, events: seq<Event>)
    requires o != Succeeded && FinalOutcome(o, name, events) == Succeeded
    ensures exists k :: 0 <= k < |events| && events[k] == Event(name, Stored)
    decreases |events|
  {
    var e := events[0];
    var next := if e.name == name && Written(e.result).Some? then Written(e.result).value else o;
    if next == Succeeded {
      assert e == Event(name, Stored);
    } else {
      SucceededOnlyAfterStored(next, name, events[1..]);
      var k :| 0 <= k < |events[1..]| && events[1..][k] == Event(name, Stored);
      assert events[k + 1] == Event(name, Stored);
    }
  }

  /** A submission settles: when every file has an event that runs an update,
      no file is left unsettled and `uploading` ends false. */
  lemma BatchSettles(s: State, events: seq<Event>)
    requires |s.filesToUpload| > 0
    requires forall i :: 0 <= i < |s.filesToUpload| ==>
      exists k :: 0 <= k < |events| && events[k].name == s.filesToUpload[i].name && Written(events[k].result).Some?
    ensures !AnyUnsettled(Run(s, events).filesToUpload)
    ensures !Run(s, events).uploading
  {
    RunFiles(s, events);
    var f := s.filesToUpload[0];
    var k0 :| 0 <= k0 < |events| && events[k0].name == f.name && Written(events[k0].result).Some?;
    RunUploading(s, events);
    forall i | 0 <= i < |s.filesToUpload|
      ensures Run(s, events).filesToUpload[i].success != Unsettled
    {
      FinalOutcomeSettled(s.filesToUpload[i].success, s.filesToUpload[i].name, events);
    }
  }

  /** A submission is still uploading while some unsettled file's chain has
      not run an update (it is in flight, or its getItem or update failed),
      once any update has run at all. */
  lemma BatchStillUploading(s: State, events: seq<Event>, i: nat)
    requires i < |s.filesToUpload| && s.filesToUpload[i].success == Unsettled
    requires forall k :: 0 <= k < |events| && events[k].name == s.filesToUpload[i].name ==> Written(events[k].result).None?
    requires exists k :: 0 <= k < |events| && Written(events[k].result).Some?
    ensures i < |Run(s, events).filesToUpload| && Run(s, events).filesToUpload[i].success == Unsettled
    ensures Run(s, events).uploading
  {
    RunFiles(s, events);
    FinalOutcomeUntouched(Unsettled, s.filesToUpload[i].name, events);
    RunUploading(s, events);
  }

  /** The success flags are never reset before a new submission, so when
      files that failed earlier are submitted again, the first chain to
      settle sets `uploading` to false while the other file's chain is still
      in flight. */
  lemma ResubmitEndsUploadingEarly(a: string, b: string)
    requires a != b
    ensures var s := State([FileInfo(a, 1, Failed), FileInfo(b, 1, Failed)], None, [], false, []);
      !Settle(BeginUpload(s), a, Stored).uploading
  {
    var s := BeginUpload(State([FileInfo(a, 1, Failed), FileInfo(b, 1, Failed)], None, [], false, []));
    var r := Settle(s, a, Stored);
    assert r.filesToUpload[0].success == Succeeded && r.filesToUpload[1].success == Failed;
  }
}
