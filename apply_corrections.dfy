/** apply_corrections.py: rewrite every image named in the corrections file
    turned by its angle, copy or skip the others, and count what happened.
    Reading, turning and writing an image is an oracle `attempt` on its name. */
module ApplyCorrections {
  import opened Optional
  import opened PyJson
  import opened Orientation
  import opened Listing

  /** What happens when the script tries to rewrite an image: cv2.imread
      returns None, something in the try block raises, or the turned image
      is written. */
  datatype Attempt = Unreadable | Raised | Rewritten

  /** The `stats` dictionary. */
  datatype Stats = Stats(rotated: nat, copied: nat, skipped: nat, errors: nat)

  const NoStats := Stats(0, 0, 0, 0)

  /** What ends up in the output directory under an image's name. */
  datatype Content = TurnedBy(turn: Turn) | CopiedAsIs
  datatype Output = Output(name: string, content: Content)

  /** What the loop does with one image. */
  datatype Action = Rotate(turn: Turn) | Fail | Copy | Skip

  /** How a run ends: the corrections file is missing, an exception escapes
      (the files written before it stay in the output directory), or every
      image is handled. */
  datatype Outcome =
    | MissingFile
    | Crashed(error: Error, outputs: seq<Output>)
    | Completed(stats: Stats, outputs: seq<Output>)

  /** The branch taken for one image (apply_corrections.py:63-88). Indexing
      a list or a string by a file name raises outside the try block. */
  function Classify(corrections: Value, name: string, copyUnchanged: bool, attempt: string -> Attempt): Result<Action>
    requires Sized(corrections)
  {
    if Contains(corrections, name) then
      if corrections.Obj? then
        if attempt(name) == Rewritten then Ok(Rotate(FromAngle(corrections.fields[name]))) else Ok(Fail)
      else Err(BadIndex)
    else if copyUnchanged then Ok(Copy)
    else Ok(Skip)
  }

  /** The counter an action increments. */
  function Tally(s: Stats, a: Action): Stats {
    match a
    case Rotate(_) => s.(rotated := s.rotated + 1)
    case Fail => s.(errors := s.errors + 1)
    case Copy => s.(copied := s.copied + 1)
    case Skip => s.(skipped := s.skipped + 1)
  }

  /** The file an action writes. */
  function Emit(name: string, a: Action): seq<Output> {
    match a
    case Rotate(t) => [Output(name, TurnedBy(t))]
    case Copy => [Output(name, CopiedAsIs)]
    case _ => []
  }

  /** The counters and the files after the loop has handled `images`, or the
      exception raised by the first image that raises. */
  function Process(corrections: Value, images: seq<string>, copyUnchanged: bool, attempt: string -> Attempt): (r: Result<(Stats, seq<Output>)>)
    requires Sized(corrections)
    // The only exception the loop raises is the bad index, and an object of
    // corrections never raises it.
    ensures r.Err? ==> r.error == BadIndex
    ensures corrections.Obj? ==> r.Ok?
    decreases |images|
  {
    if images == [] then Ok((NoStats, []))
    else
      var name := images[|images| - 1];
      var done :- Process(corrections, images[..|images| - 1], copyUnchanged, attempt);
      var action :- Classify(corrections, name, copyUnchanged, attempt);
      Ok((Tally(done.0, action), done.1 + Emit(name, action)))
  }

  /** The files the loop has written when it has handled `images` or, if an
      image raises, when it stops at the first one that does. */
  function Written(corrections: Value, images: seq<string>, copyUnchanged: bool, attempt: string -> Attempt): (outs: seq<Output>)
    requires Sized(corrections)
    ensures Process(corrections, images, copyUnchanged, attempt).Ok? ==>
      outs == Process(corrections, images, copyUnchanged, attempt).value.1
    decreases |images|
  {
    if images == [] then []
    else
      var init := images[..|images| - 1];
      var last := images[|images| - 1];
      match Process(corrections, init, copyUnchanged, attempt)
      case Err(_) => Written(corrections, init, copyUnchanged, attempt)
      case Ok(done) =>
        match Classify(corrections, last, copyUnchanged, attempt)
        case Err(_) => done.1
        case Ok(action) => done.1 + Emit(last, action)
  }

  /** A whole run: `file` is the decoded corrections file, None when it does not exist. */
  function Apply(file: Option<Value>, images: seq<string>, copyUnchanged: bool, attempt: string -> Attempt): (r: Outcome)
    ensures r.MissingFile? <==> file.None?
    // len() of a scalar file raises before the loop; the loop raises only on a bad index.
    ensures file.Some? && !Sized(file.value) ==> r == Crashed(NotSized, [])
    ensures r.Crashed? ==> r.error == NotSized || r.error == BadIndex
    ensures file.Some? && file.value.Obj? ==> r.Completed?
  {
    match file
    case None => MissingFile
    case Some(corrections) =>
      if !Sized(corrections) then Crashed(NotSized, [])
      else match Process(corrections, images, copyUnchanged, attempt)
        case Err(e) => Crashed(e, Written(corrections, images, copyUnchanged, attempt))
        case Ok(done) => Completed(done.0, done.1)
  }

  /** main (apply_corrections.py:24-99). */
  method ApplyCorrections(file: Option<Value>, images: seq<string>, copyUnchanged: bool, attempt: string -> Attempt)
    returns (outcome: Outcome)
    ensures outcome == Apply(file, images, copyUnchanged, attempt)
  {
    if file.None? {
      return MissingFile;
    }
    var corrections := file.value;
    if !Sized(corrections) {
      return Crashed(NotSized, []);
    }
    var stats := NoStats;
    var outputs: seq<Output> := [];
    for i := 0 to |images|
      invariant Process(corrections, images[..i], copyUnchanged, attempt) == Ok((stats, outputs))
    {
      var filename := images[i];
      ProcessStep(corrections, images, i, copyUnchanged, attempt);
      if Contains(corrections, filename) {
        if !corrections.Obj? {
          CrashAt(corrections, images, i, copyUnchanged, attempt);
          return Crashed(BadIndex, outputs);
        }
        var angle := corrections.fields[filename];
        var tried := attempt(filename);
        if tried == Unreadable {
          assert outputs + Emit(filename, Fail) == outputs;
          stats := stats.(errors := stats.errors + 1);
          continue;
        }
        if tried == Raised {
          assert outputs + Emit(filename, Fail) == outputs;
          stats := stats.(errors := stats.errors + 1);
        } else {
          outputs := outputs + [Output(filename, TurnedBy(FromAngle(angle)))];
          stats := stats.(rotated := stats.rotated + 1);
        }
      } else if copyUnchanged {
        outputs := outputs + [Output(filename, CopiedAsIs)];
        stats := stats.(copied := stats.copied + 1);
      } else {
        assert outputs + Emit(filename, Skip) == outputs;
        stats := stats.(skipped := stats.skipped + 1);
      }
    }
    assert images[..|images|] == images;
    outcome := Completed(stats, outputs);
  }

  /** One more image: the run so far goes on with that image's action. */
  lemma ProcessStep(corrections: Value, images: seq<string>, k: nat, copyUnchanged: bool, attempt: string -> Attempt)
    requires Sized(corrections)
    requires k < |images|
    ensures var before := Process(corrections, images[..k], copyUnchanged, attempt);
      var step := Classify(corrections, images[k], copyUnchanged, attempt);
      before.Ok? && step.Ok? ==>
        Process(corrections, images[..k + 1], copyUnchanged, attempt) ==
        Ok((Tally(before.value.0, step.value), before.value.1 + Emit(images[k], step.value)))
    ensures var before := Process(corrections, images[..k], copyUnchanged, attempt);
      var step := Classify(corrections, images[k], copyUnchanged, attempt);
      before.Ok? && step.Err? ==> Process(corrections, images[..k + 1], copyUnchanged, attempt) == Err(step.error)
  {
    assert images[..k + 1][..k] == images[..k];
    assert images[..k + 1][k] == images[k];
  }

  /** Once an image raises, the run ends with that exception. */
  lemma {:induction false} ProcessCrashPersists(corrections: Value, images: seq<string>, k: nat, copyUnchanged: bool, attempt: string -> Attempt)
    requires Sized(corrections)
    requires k <= |images|
    requires Process(corrections, images[..k], copyUnchanged, attempt).Err?
    ensures Process(corrections, images, copyUnchanged, attempt) == Process(corrections, images[..k], copyUnchanged, attempt)
    decreases |images| - k
  {
    if k == |images| {
      assert images[..k] == images;
    } else {
      var init := images[..|images| - 1];
      assert init[..k] == images[..k];
      ProcessCrashPersists(corrections, init, k, copyUnchanged, attempt);
    }
  }

  /** The image at k raising leaves what was written before it. */
  lemma WrittenAtCrash(corrections: Value, images: seq<string>, k: nat, copyUnchanged: bool, attempt: string -> Attempt)
    requires Sized(corrections)
    requires k < |images|
    requires Process(corrections, images[..k], copyUnchanged, attempt).Ok?
    requires Classify(corrections, images[k], copyUnchanged, attempt).Err?
    ensures Written(corrections, images[..k + 1], copyUnchanged, attempt) ==
      Process(corrections, images[..k], copyUnchanged, attempt).value.1
  {
    assert images[..k + 1][..k] == images[..k];
    assert images[..k + 1][k] == images[k];
  }

  /** Nothing is written after the first image that raises. */
  lemma {:induction false} WrittenPersists(corrections: Value, images: seq<string>, k: nat, copyUnchanged: bool, attempt: string -> Attempt)
    requires Sized(corrections)
    requires k <= |images|
    requires Process(corrections, images[..k], copyUnchanged, attempt).Err?
    ensures Written(corrections, images, copyUnchanged, attempt) == Written(corrections, images[..k], copyUnchanged, attempt)
    decreases |images| - k
  {
    if k == |images| {
      assert images[..k] == images;
    } else {
      var init := images[..|images| - 1];
      assert init[..k] == images[..k];
      ProcessCrashPersists(corrections, init, k, copyUnchanged, attempt);
      WrittenPersists(corrections, init, k, copyUnchanged, attempt);
    }
  }

  /** The run stops at the first image that raises, with that exception and
      the files written before it. */
  lemma CrashAt(corrections: Value, images: seq<string>, k: nat, copyUnchanged: bool, attempt: string -> Attempt)
    requires Sized(corrections)
    requires k < |images|
    requires Process(corrections, images[..k], copyUnchanged, attempt).Ok?
    requires Classify(corrections, images[k], copyUnchanged, attempt).Err?
    ensures Process(corrections, images, copyUnchanged, attempt) == Err(Classify(corrections, images[k], copyUnchanged, attempt).error)
    ensures Written(corrections, images, copyUnchanged, attempt) == Process(corrections, images[..k], copyUnchanged, attempt).value.1
  {
    ProcessStep(corrections, images, k, copyUnchanged, attempt);
    ProcessCrashPersists(corrections, images, k + 1, copyUnchanged, attempt);
    WrittenAtCrash(corrections, images, k, copyUnchanged, attempt);
    WrittenPersists(corrections, images, k + 1, copyUnchanged, attempt);
  }

  /** Copies of `names`, one each, in order, when the flag is set; nothing otherwise. */
  function Copies(names: seq<string>, copyUnchanged: bool): seq<Output> {
    if copyUnchanged then seq(|names|, i requires 0 <= i < |names| => Output(names[i], CopiedAsIs)) else []
  }

  /** While no image is listed, the loop raises nothing and writes exactly
      the copies of the images seen. */
  lemma {:induction false} UnlistedAreCopied(corrections: Value, images: seq<string>, copyUnchanged: bool, attempt: string -> Attempt)
    requires Sized(corrections)
    requires forall j :: 0 <= j < |images| ==> !Contains(corrections, images[j])
    ensures Process(corrections, images, copyUnchanged, attempt).Ok?
    ensures Process(corrections, images, copyUnchanged, attempt).value.1 == Copies(images, copyUnchanged)
  {
    if images != [] {
      var init := images[..|images| - 1];
      var last := images[|images| - 1];
      UnlistedAreCopied(corrections, init, copyUnchanged, attempt);
      assert !Contains(corrections, last);
      if copyUnchanged {
        assert Copies(images, copyUnchanged) == Copies(init, copyUnchanged) + [Output(last, CopiedAsIs)];
      }
    }
  }

  /** With a list or a string of corrections the run raises at the first
      listed image, and the output directory is left holding the copies of
      the unlisted images before it (none without the copy flag). */
  lemma CrashKeepsCopies(corrections: Value, images: seq<string>, k: nat, copyUnchanged: bool, attempt: string -> Attempt)
    requires Sized(corrections) && !corrections.Obj?
    requires k < |images| && Contains(corrections, images[k])
    requires forall j :: 0 <= j < k ==> !Contains(corrections, images[j])
    ensures Apply(Some(corrections), images, copyUnchanged, attempt) == Crashed(BadIndex, Copies(images[..k], copyUnchanged))
  {
    UnlistedAreCopied(corrections, images[..k], copyUnchanged, attempt);
    CrashAt(corrections, images, k, copyUnchanged, attempt);
  }

  /** A missing corrections file ends the run before any image is looked at. */
  lemma MissingFileDoesNothing(images: seq<string>, copyUnchanged: bool, attempt: string -> Attempt)
    ensures Apply(None, images, copyUnchanged, attempt) == MissingFile
  {
  }

  /** The run raises exactly when the corrections are a list or a string
      (len() accepts them) and some image name is found in them. */
  lemma {:induction false} ProcessCrashes(corrections: Value, images: seq<string>, copyUnchanged: bool, attempt: string -> Attempt)
    requires Sized(corrections)
    ensures Process(corrections, images, copyUnchanged, attempt).Err? <==>
      !corrections.Obj? && exists i :: 0 <= i < |images| && Contains(corrections, images[i])
  {
    if images != [] {
      var n := |images| - 1;
      var init := images[..n];
      ProcessCrashes(corrections, init, copyUnchanged, attempt);
      if exists i :: 0 <= i < |init| && Contains(corrections, init[i]) {
        var i :| 0 <= i < |init| && Contains(corrections, init[i]);
        assert images[i] == init[i];
      }
      if exists i :: 0 <= i < |images| && Contains(corrections, images[i]) {
        var i :| 0 <= i < |images| && Contains(corrections, images[i]);
        if i < n {
          assert init[i] == images[i];
        }
      }
    }
  }

  /** How many of the images are named in the corrections. */
  function CountListed(corrections: Value, images: seq<string>): nat
    requires Sized(corrections)
  {
    if images == [] then 0
    else CountListed(corrections, images[..|images| - 1]) + (if Contains(corrections, images[|images| - 1]) then 1 else 0)
  }

  /** How many of the images are named in the corrections and not rewritten. */
  function CountFailed(corrections: Value, images: seq<string>, attempt: string -> Attempt): nat
    requires Sized(corrections)
  {
    if images == [] then 0
    else
      var name := images[|images| - 1];
      CountFailed(corrections, images[..|images| - 1], attempt) +
      (if Contains(corrections, name) && attempt(name) != Rewritten then 1 else 0)
  }

  /** The counters of a completed run: every image increments exactly one of
      them; rotated and errors together count the listed images, whatever
      their angle, and errors the listed images that were not rewritten; an
      unlisted image is copied when the flag is set and skipped otherwise.
      Exactly the rotated and the copied images are written. */
  lemma {:induction false} ProcessCounts(corrections: Value, images: seq<string>, copyUnchanged: bool, attempt: string -> Attempt)
    requires Sized(corrections)
    requires Process(corrections, images, copyUnchanged, attempt).Ok?
    ensures var (s, outs) := Process(corrections, images, copyUnchanged, attempt).value;
      s.rotated + s.copied + s.skipped + s.errors == |images| &&
      s.rotated + s.errors == CountListed(corrections, images) &&
      s.errors == CountFailed(corrections, images, attempt) &&
      s.copied + s.skipped == |images| - CountListed(corrections, images) &&
      (copyUnchanged ==> s.skipped == 0) &&
      (!copyUnchanged ==> s.copied == 0) &&
      |outs| == s.rotated + s.copied
  {
    if images != [] {
      ProcessCounts(corrections, images[..|images| - 1], copyUnchanged, attempt);
    }
  }

  /** Output files keep the input names, in input order: image `name` gets
      an output exactly when it is listed and rewritten (then turned by its
      angle) or unlisted with the copy flag set (then copied as it is). */
  lemma ProcessOutputs(corrections: Value, images: seq<string>, copyUnchanged: bool, attempt: string -> Attempt, name: string)
    requires Sized(corrections)
    requires Process(corrections, images, copyUnchanged, attempt).Ok?
    ensures var outs := Process(corrections, images, copyUnchanged, attempt).value.1;
      (forall o :: o in outs ==> o.name in images) &&
      (name in images && corrections.Obj? && Contains(corrections, name) && attempt(name) == Rewritten ==>
        Output(name, TurnedBy(FromAngle(corrections.fields[name]))) in outs) &&
      (name in images && !Contains(corrections, name) && copyUnchanged ==> Output(name, CopiedAsIs) in outs) &&
      (forall o :: o in outs && o.name == name ==>
        (Contains(corrections, name) && attempt(name) == Rewritten) || (!Contains(corrections, name) && copyUnchanged))
  {
    OutputsOnlyFrom(corrections, images, copyUnchanged, attempt, name);
    OutputsWritten(corrections, images, copyUnchanged, attempt, name);
  }

  /** Every output is named after an input image, and only an image that is
      listed and rewritten, or unlisted and copied, gets one. */
  lemma OutputsOnlyFrom(corrections: Value, images: seq<string>, copyUnchanged: bool, attempt: string -> Attempt, name: string)
    requires Sized(corrections)
    requires Process(corrections, images, copyUnchanged, attempt).Ok?
    ensures var outs := Process(corrections, images, copyUnchanged, attempt).value.1;
      (forall o :: o in outs ==> o.name in images) &&
      (forall o :: o in outs && o.name == name ==>
        (Contains(corrections, name) && attempt(name) == Rewritten) || (!Contains(corrections, name) && copyUnchanged))
  {
    OutputNamesFromImages(corrections, images, copyUnchanged, attempt);
    OutputsOnlyWhen(corrections, images, copyUnchanged, attempt, name);
  }

  /** One step of the loop appends what the last image emits. */
  lemma ProcessLast(corrections: Value, images: seq<string>, copyUnchanged: bool, attempt: string -> Attempt)
    requires Sized(corrections)
    requires images != []
    requires Process(corrections, images, copyUnchanged, attempt).Ok?
    ensures var init := images[..|images| - 1];
      var last := images[|images| - 1];
      Process(corrections, init, copyUnchanged, attempt).Ok? &&
      Classify(corrections, last, copyUnchanged, attempt).Ok? &&
      Process(corrections, images, copyUnchanged, attempt).value.1 ==
        Process(corrections, init, copyUnchanged, attempt).value.1 +
        Emit(last, Classify(corrections, last, copyUnchanged, attempt).value)
  {
  }

  lemma {:induction false} OutputNamesFromImages(corrections: Value, images: seq<string>, copyUnchanged: bool, attempt: string -> Attempt)
    requires Sized(corrections)
    requires Process(corrections, images, copyUnchanged, attempt).Ok?
    ensures forall o :: o in Process(corrections, images, copyUnchanged, attempt).value.1 ==> o.name in images
  {
    if images != [] {
      var init := images[..|images| - 1];
      var last := images[|images| - 1];
      ProcessLast(corrections, images, copyUnchanged, attempt);
      OutputNamesFromImages(corrections, init, copyUnchanged, attempt);
      var before := Process(corrections, init, copyUnchanged, attempt).value.1;
      var action := Classify(corrections, last, copyUnchanged, attempt).value;
      forall o | o in before + Emit(last, action) ensures o.name in images {
        if o in before {
          assert o.name in init;
          assert forall x :: x in init ==> x in images;
        } else {
          assert o.name == last;
        }
      }
    }
  }

  lemma {:induction false} OutputsOnlyWhen(corrections: Value, images: seq<string>, copyUnchanged: bool, attempt: string -> Attempt, name: string)
    requires Sized(corrections)
    requires Process(corrections, images, copyUnchanged, attempt).Ok?
    ensures forall o :: o in Process(corrections, images, copyUnchanged, attempt).value.1 && o.name == name ==>
      (Contains(corrections, name) && attempt(name) == Rewritten) || (!Contains(corrections, name) && copyUnchanged)
  {
    if images != [] {
      var init := images[..|images| - 1];
      var last := images[|images| - 1];
      ProcessLast(corrections, images, copyUnchanged, attempt);
      OutputsOnlyWhen(corrections, init, copyUnchanged, attempt, name);
      var before := Process(corrections, init, copyUnchanged, attempt).value.1;
      var action := Classify(corrections, last, copyUnchanged, attempt).value;
      forall o | o in before + Emit(last, action) && o.name == name
        ensures (Contains(corrections, name) && attempt(name) == Rewritten) || (!Contains(corrections, name) && copyUnchanged)
      {
        if o !in before {
          assert o in Emit(last, action) && last == name;
        }
      }
    }
  }

  /** A listed image that is rewritten is written turned by its angle; an
      unlisted one is copied as it is when the flag is set. */
  lemma {:induction false} OutputsWritten(corrections: Value, images: seq<string>, copyUnchanged: bool, attempt: string -> Attempt, name: string)
    requires Sized(corrections)
    requires Process(corrections, images, copyUnchanged, attempt).Ok?
    ensures var outs := Process(corrections, images, copyUnchanged, attempt).value.1;
      (name in images && corrections.Obj? && Contains(corrections, name) && attempt(name) == Rewritten ==>
        Output(name, TurnedBy(FromAngle(corrections.fields[name]))) in outs) &&
      (name in images && !Contains(corrections, name) && copyUnchanged ==> Output(name, CopiedAsIs) in outs)
  {
    if images != [] {
      var init := images[..|images| - 1];
      var last := images[|images| - 1];
      ProcessLast(corrections, images, copyUnchanged, attempt);
      OutputsWritten(corrections, init, copyUnchanged, attempt, name);
      var before := Process(corrections, init, copyUnchanged, attempt).value.1;
      var action := Classify(corrections, last, copyUnchanged, attempt).value;
      if name in images && name != last {
        assert images == init + [last];
        assert name in init;
      }
    }
  }

  /** The names of the outputs. */
  function OutputNames(outs: seq<Output>): seq<string> {
    seq(|outs|, i requires 0 <= i < |outs| => outs[i].name)
  }

  /** Since the images are handled in sorted order, the outputs are written
      in sorted order too, so no output file is written twice. */
  lemma {:induction false} ProcessSorted(corrections: Value, images: seq<string>, copyUnchanged: bool, attempt: string -> Attempt)
    requires Sized(corrections)
    requires Sorted(images)
    requires Process(corrections, images, copyUnchanged, attempt).Ok?
    ensures Sorted(OutputNames(Process(corrections, images, copyUnchanged, attempt).value.1))
  {
    if images != [] {
      var n := |images| - 1;
      var init := images[..n];
      assert Sorted(init) by {
        forall i, j | 0 <= i < j < |init| ensures StrLess(init[i], init[j]) {
          assert StrLess(images[i], images[j]);
        }
      }
      ProcessSorted(corrections, init, copyUnchanged, attempt);
      var outs := Process(corrections, init, copyUnchanged, attempt).value.1;
      var all := Process(corrections, images, copyUnchanged, attempt).value.1;
      var action := Classify(corrections, images[n], copyUnchanged, attempt).value;
      assert all == outs + Emit(images[n], action);
      ProcessOutputs(corrections, init, copyUnchanged, attempt, images[n]);
      var names := OutputNames(all);
      forall i, j | 0 <= i < j < |names| ensures StrLess(names[i], names[j]) {
        if j < |outs| {
          assert names[i] == OutputNames(outs)[i] && names[j] == OutputNames(outs)[j];
        } else {
          assert outs[i] in outs;
          var p :| 0 <= p < |init| && init[p] == outs[i].name;
          assert names[j] == images[n];
          assert StrLess(images[p], images[n]);
        }
      }
    }
  }

  /** An object none of whose top-level keys is an image name, such as a file
      in the shape create_pdfs.py reads, matches no image: nothing is rotated
      and every image is copied or skipped. */
  lemma {:induction false} CurrentShapeMatchesNothing(root: Value, images: seq<string>, copyUnchanged: bool, attempt: string -> Attempt)
    requires root.Obj?
    requires forall i :: 0 <= i < |images| ==> images[i] !in root.fields
    ensures Process(root, images, copyUnchanged, attempt).Ok?
    ensures var s := Process(root, images, copyUnchanged, attempt).value.0;
      s.rotated == 0 && s.errors == 0
  {
    if images != [] {
      CurrentShapeMatchesNothing(root, images[..|images| - 1], copyUnchanged, attempt);
    }
  }
}
