/**
 The batch controller of `transcribe_files`: walk the sorted work list, skip
 every file whose subtitle file already exists, otherwise ask the recognizer
 and write the subtitle file, counting each file as successful, skipped or
 failed. A recognizer error is confined to its file; a user interrupt ends the
 run. The directory is a finite map from entry names to contents, and the
 recognizer is an oracle from names to outcomes.

 The reference semantics (`Sweep` and the lemmas about it) take the naming of
 subtitle files as a parameter alongside the recognizer, so the properties
 below hold whatever that naming is; the program itself (`ProcessAll`)
 uses `with_suffix('.srt')`.
 */
module Pipeline {
  import Srt
  import Paths
  import Discovery

  /** The working directory: entry names and their contents. */
  type FileSystem = map<string, string>

  /** What transcribing one media file comes to. */
  datatype Recognition =
    | Transcript(segments: seq<Srt.Segment>)  // `result['segments']`, written out with `create_srt`
    | RecognitionError                        // any `Exception` while transcribing or writing
    | UserInterrupt                           // `KeyboardInterrupt`, which is re-raised

  /** The speech model: `model.transcribe(...)` on one file, as an oracle. */
  type Recognizer = string -> Recognition

  /** What the controller consults besides the directory: the recognizer and the subtitle name of a media file. */
  datatype Env = Env(recognize: Recognizer, output: string -> string)

  /** The program's environment: subtitle names come from `with_suffix('.srt')`. */
  function Standard(recognize: Recognizer): Env {
    Env(recognize, Paths.OutputName)
  }

  /** The counter a processed file increments. */
  datatype Status = Success | Skip | Failure

  /** The `successful`, `skipped` and `failed` counters. */
  datatype Summary = Summary(successful: nat, skipped: nat, failed: nat)

  /** One file's handling: its status and the directory afterwards, or the interrupt. */
  datatype Step = Done(status: Status, fs: FileSystem) | Aborted

  /**
   The state of a run: the statuses of the files handled so far (in work-list
   order), the work-list positions the recognizer was invoked on, the
   directory, and whether a user interrupt has ended the run.
   */
  datatype Run = Run(statuses: seq<Status>, invoked: seq<nat>, fs: FileSystem, interrupted: bool)

  /** `fs2` holds every entry of `fs`, with the same contents. */
  ghost predicate Extends(fs: FileSystem, fs2: FileSystem) {
    fs.Keys <= fs2.Keys && forall k :: k in fs ==> fs2[k] == fs[k]
  }

  /**
   One file: skip it if its subtitle file exists, otherwise transcribe it; a
   transcript is written and counted a success, an error is counted a
   failure and leaves the directory as it was, an interrupt aborts.
   */
  function ProcessFile(fs: FileSystem, name: string, env: Env): Step {
    var out := env.output(name);
    if out in fs then Done(Skip, fs)
    else match env.recognize(name)
      case Transcript(segments) => Done(Success, fs[out := Srt.CreateSrt(segments)])
      case RecognitionError => Done(Failure, fs)
      case UserInterrupt => Aborted
  }

  /**
   A file is skipped exactly when its subtitle file exists; otherwise an
   interrupt aborts, an error is a failure, and a transcript is a success.
   Only a success changes the directory, and only by adding the subtitle
   file with the transcript as SRT.
   */
  lemma ProcessFileSpec(fs: FileSystem, name: string, env: Env)
    ensures var step, out := ProcessFile(fs, name, env), env.output(name);
      && (step == Done(Skip, fs) <==> out in fs)
      && (step.Aborted? <==> out !in fs && env.recognize(name) == UserInterrupt)
      && (step.Done? && step.status == Failure <==> out !in fs && env.recognize(name) == RecognitionError)
      && (step.Done? && step.status != Success ==> step.fs == fs)
    ensures var step, out := ProcessFile(fs, name, env), env.output(name);
      step.Done? && step.status == Success ==>
        && env.recognize(name).Transcript?
        && Extends(fs, step.fs)
        && step.fs.Keys == fs.Keys + {out}
        && step.fs[out] == Srt.CreateSrt(env.recognize(name).segments)
  {
  }

  /** Handles the next file of a run that has not been interrupted. */
  function Advance(r: Run, name: string, env: Env): Run
    requires !r.interrupted
  {
    var position := |r.statuses|;
    match ProcessFile(r.fs, name, env)
    case Aborted => r.(invoked := r.invoked + [position], interrupted := true)
    case Done(status, fs) =>
      Run(r.statuses + [status], if status == Skip then r.invoked else r.invoked + [position], fs, false)
  }

  /** The reference run over the first `n` files of a work list: each file in order until an interrupt. */
  function Sweep(files: seq<string>, n: nat, fs: FileSystem, env: Env): Run
    requires n <= |files|
  {
    if n == 0 then Run([], [], fs, false)
    else
      var prev := Sweep(files, n - 1, fs, env);
      if prev.interrupted then prev else Advance(prev, files[n - 1], env)
  }

  /** The last step of a run over `n > 0` files. */
  lemma SweepLast(files: seq<string>, n: nat, fs: FileSystem, env: Env)
    requires 0 < n <= |files|
    ensures var prev := Sweep(files, n - 1, fs, env);
      Sweep(files, n, fs, env) == if prev.interrupted then prev else Advance(prev, files[n - 1], env)
  {
  }

  /** How many of `statuses` are `s`. */
  function Count(statuses: seq<Status>, s: Status): nat {
    if statuses == [] then 0
    else Count(statuses[..|statuses| - 1], s) + (if statuses[|statuses| - 1] == s then 1 else 0)
  }

  /** The three counters for a list of statuses; every status is counted exactly once. */
  function Tally(statuses: seq<Status>): (t: Summary)
    ensures t.successful + t.skipped + t.failed == |statuses|
    ensures t.successful == Count(statuses, Success) && t.skipped == Count(statuses, Skip)
      && t.failed == Count(statuses, Failure)
  {
    CountsAddUp(statuses);
    Summary(Count(statuses, Success), Count(statuses, Skip), Count(statuses, Failure))
  }

  lemma {:induction false} CountsAddUp(statuses: seq<Status>)
    ensures Count(statuses, Success) + Count(statuses, Skip) + Count(statuses, Failure) == |statuses|
  {
    if statuses != [] {
      CountsAddUp(statuses[..|statuses| - 1]);
    }
  }

  /** A status occurs in the list exactly when its count is positive. */
  lemma {:induction false} CountPositive(statuses: seq<Status>, s: Status)
    ensures Count(statuses, s) > 0 <==> exists i :: 0 <= i < |statuses| && statuses[i] == s
  {
    if statuses != [] {
      var init := statuses[..|statuses| - 1];
      CountPositive(init, s);
      if exists i :: 0 <= i < |init| && init[i] == s {
        var i :| 0 <= i < |init| && init[i] == s;
        assert statuses[i] == s;
      }
      if exists i :: 0 <= i < |statuses| && statuses[i] == s {
        var i :| 0 <= i < |statuses| && statuses[i] == s;
        if i < |init| {
          assert init[i] == s;
        }
      }
    }
  }

  /** Counting the last status separately. */
  lemma CountAppend(statuses: seq<Status>)
    requires statuses != []
    ensures forall s :: Count(statuses, s) == Count(statuses[..|statuses| - 1], s) + (if statuses[|statuses| - 1] == s then 1 else 0)
  {
  }

  /**
   The loop over the work list, with the three counters. It computes the
   reference run; the counters count each handled file exactly once; an
   interrupt stops the loop at a file whose subtitle file does not exist,
   without counting that file.
   */
  method ProcessAll(files: seq<string>, fs: FileSystem, recognize: Recognizer) returns (summary: Summary, run: Run)
    ensures run == Sweep(files, |files|, fs, Standard(recognize))
    ensures summary == Tally(run.statuses)
    ensures !run.interrupted ==> |run.statuses| == |files|
    ensures run.interrupted ==> |run.statuses| < |files| && recognize(files[|run.statuses|]) == UserInterrupt
  {
    var env := Standard(recognize);
    var successful, skipped, failed := 0, 0, 0;
    run := Run([], [], fs, false);
    for i := 0 to |files|
      invariant !run.interrupted && |run.statuses| == i
      invariant run == Sweep(files, i, fs, env)
      invariant successful == Count(run.statuses, Success)
      invariant skipped == Count(run.statuses, Skip)
      invariant failed == Count(run.statuses, Failure)
    {
      ghost var prev := run;
      run := HandleFile(run, files[i], recognize);
      LoopStep(files, fs, env, i, prev, run);
      if run.interrupted {
        summary := Summary(successful, skipped, failed);
        return;
      }
      match run.statuses[i]
      case Success => successful := successful + 1;
      case Skip => skipped := skipped + 1;
      case Failure => failed := failed + 1;
    }
    summary := Summary(successful, skipped, failed);
  }

  /** What one pass of the loop of `ProcessAll` does to the run and its counts. */
  lemma LoopStep(files: seq<string>, fs: FileSystem, env: Env, i: nat, run: Run, next: Run)
    requires i < |files|
    requires run == Sweep(files, i, fs, env) && !run.interrupted && |run.statuses| == i
    requires next == Advance(run, files[i], env)
    ensures next == Sweep(files, i + 1, fs, env)
    ensures next.interrupted ==>
      && next == Sweep(files, |files|, fs, env) && next.statuses == run.statuses
      && env.recognize(files[i]) == UserInterrupt
    ensures !next.interrupted ==>
      && |next.statuses| == i + 1
      && forall s :: Count(next.statuses, s) == Count(run.statuses, s) + (if next.statuses[i] == s then 1 else 0)
  {
    AdvanceShape(run, files[i], env);
    SweepPrefix(files, i + 1, |files|, fs, env);
    if !next.interrupted {
      CountAppend(next.statuses);
    }
  }

  /**
   The body of the loop for one file: skip it when its subtitle file exists,
   otherwise transcribe it and write the subtitle file, catching a
   recognizer error; an interrupt marks the run as ended. It takes the step
   of the reference run.
   */
  method HandleFile(run: Run, name: string, recognize: Recognizer) returns (next: Run)
    requires !run.interrupted
    ensures next == Advance(run, name, Standard(recognize))
    ensures Paths.OutputName(name) in run.fs ==>
      next == Run(run.statuses + [Skip], run.invoked, run.fs, false)
    ensures Paths.OutputName(name) !in run.fs ==> next.invoked == run.invoked + [|run.statuses|]
    ensures Paths.OutputName(name) !in run.fs && recognize(name).Transcript? ==>
      && !next.interrupted && next.statuses == run.statuses + [Success]
      && next.fs == run.fs[Paths.OutputName(name) := Srt.CreateSrt(recognize(name).segments)]
    ensures Paths.OutputName(name) !in run.fs && recognize(name) == RecognitionError ==>
      !next.interrupted && next.statuses == run.statuses + [Failure] && next.fs == run.fs
    ensures Paths.OutputName(name) !in run.fs && recognize(name) == UserInterrupt ==>
      next.interrupted && next.statuses == run.statuses && next.fs == run.fs
  {
    var output := Paths.OutputName(name);
    var position := |run.statuses|;
    if output in run.fs {
      return Run(run.statuses + [Skip], run.invoked, run.fs, false);
    }
    match recognize(name)
    case Transcript(segments) =>
      next := Run(run.statuses + [Success], run.invoked + [position], run.fs[output := Srt.CreateSrt(segments)], false);
    case RecognitionError =>
      next := Run(run.statuses + [Failure], run.invoked + [position], run.fs, false);
    case UserInterrupt =>
      next := run.(invoked := run.invoked + [position], interrupted := true);
  }

  /**
   One step of a run: it ends the run exactly at an interrupt, leaving the
   statuses and the directory as they were; otherwise it appends the file's
   status and takes the directory the file's handling leaves. Either way the
   directory only grows.
   */
  lemma AdvanceShape(r: Run, name: string, env: Env)
    requires !r.interrupted
    ensures var next := Advance(r, name, env);
      && (next.interrupted <==> env.output(name) !in r.fs && env.recognize(name) == UserInterrupt)
      && (next.interrupted ==> next.statuses == r.statuses && next.fs == r.fs)
      && Extends(r.fs, next.fs)
    ensures var next := Advance(r, name, env);
      !next.interrupted ==>
        && |next.statuses| == |r.statuses| + 1 && next.statuses[..|r.statuses|] == r.statuses
        && ProcessFile(r.fs, name, env) == Done(next.statuses[|r.statuses|], next.fs)
  {
    ProcessFileSpec(r.fs, name, env);
  }

  /**
   `b` continues `a`: an interrupted `a` is final; otherwise `b` keeps the
   statuses of `a` as a prefix and its directory extends that of `a`.
   */
  ghost predicate Continues(a: Run, b: Run) {
    && (a.interrupted ==> b == a)
    && |a.statuses| <= |b.statuses| && b.statuses[..|a.statuses|] == a.statuses
    && Extends(a.fs, b.fs)
  }

  lemma ContinuesStep(a: Run, r: Run, name: string, env: Env)
    requires !r.interrupted && Continues(a, r)
    ensures Continues(a, Advance(r, name, env))
  {
    var next := Advance(r, name, env);
    AdvanceShape(r, name, env);
    assert !a.interrupted;
    if !next.interrupted {
      assert next.statuses[..|a.statuses|] == r.statuses[..|a.statuses|];
    }
  }

  /** A run over a longer part of the work list continues the run over a shorter one. */
  lemma {:induction false} SweepPrefix(files: seq<string>, m: nat, n: nat, fs: FileSystem, env: Env)
    requires m <= n <= |files|
    ensures Continues(Sweep(files, m, fs, env), Sweep(files, n, fs, env))
    decreases n
  {
    if m == n {
      var a := Sweep(files, m, fs, env);
      assert a.statuses[..|a.statuses|] == a.statuses;
    } else {
      SweepLast(files, n, fs, env);
      SweepPrefix(files, m, n - 1, fs, env);
      var prev := Sweep(files, n - 1, fs, env);
      if !prev.interrupted {
        ContinuesStep(Sweep(files, m, fs, env), prev, files[n - 1], env);
      }
    }
  }

  /** A run only ever adds entries to the directory; nothing is removed or overwritten. */
  lemma SweepExtends(files: seq<string>, n: nat, fs: FileSystem, env: Env)
    requires n <= |files|
    ensures Extends(fs, Sweep(files, n, fs, env).fs)
  {
    SweepPrefix(files, 0, n, fs, env);
  }

  /**
   The shape of a run over `n` files: without an interrupt every file got a
   status; an interrupt leaves the files from the interrupted one on without
   one, and happened at a file whose subtitle file did not exist.
   */
  ghost predicate Shaped(files: seq<string>, n: nat, env: Env, r: Run)
    requires n <= |files|
  {
    && (!r.interrupted ==> |r.statuses| == n)
    && (r.interrupted ==>
          && |r.statuses| < n
          && env.output(files[|r.statuses|]) !in r.fs && env.recognize(files[|r.statuses|]) == UserInterrupt)
  }

  lemma {:induction false} SweepShape(files: seq<string>, n: nat, fs: FileSystem, env: Env)
    requires n <= |files|
    ensures Shaped(files, n, env, Sweep(files, n, fs, env))
  {
    if n > 0 {
      SweepLast(files, n, fs, env);
      SweepShape(files, n - 1, fs, env);
      var prev := Sweep(files, n - 1, fs, env);
      if !prev.interrupted {
        ShapeStep(files, n - 1, env, prev);
      }
    }
  }

  lemma ShapeStep(files: seq<string>, k: nat, env: Env, r: Run)
    requires k < |files|
    requires Shaped(files, k, env, r) && !r.interrupted
    ensures Shaped(files, k + 1, env, Advance(r, files[k], env))
  {
    AdvanceShape(r, files[k], env);
  }

  /**
   The recognizer was invoked on exactly the files that were not skipped,
   plus the interrupted one, each once and in work-list order.
   */
  ghost predicate InvokedExactly(r: Run) {
    && (forall p: nat :: p in r.invoked <==>
          (p < |r.statuses| && r.statuses[p] != Skip) || (r.interrupted && p == |r.statuses|))
    && (forall i, j :: 0 <= i < j < |r.invoked| ==> r.invoked[i] < r.invoked[j])
  }

  /** Every run invokes the recognizer on exactly the files it did not skip, once each, in order. */
  lemma {:induction false} SweepInvoked(files: seq<string>, n: nat, fs: FileSystem, env: Env)
    requires n <= |files|
    ensures InvokedExactly(Sweep(files, n, fs, env))
  {
    if n > 0 {
      SweepLast(files, n, fs, env);
      SweepInvoked(files, n - 1, fs, env);
      var prev := Sweep(files, n - 1, fs, env);
      if !prev.interrupted {
        InvokedStep(prev, files[n - 1], env);
      }
    }
  }

  lemma InvokedStep(r: Run, name: string, env: Env)
    requires !r.interrupted && InvokedExactly(r)
    ensures InvokedExactly(Advance(r, name, env))
  {
    var next := Advance(r, name, env);
    var k := |r.statuses|;
    AdvanceShape(r, name, env);
    forall i | 0 <= i < |r.invoked| ensures r.invoked[i] < k {
      assert r.invoked[i] in r.invoked;
    }
    if next.interrupted || next.statuses[k] != Skip {
      assert next.invoked == r.invoked + [k];
    } else {
      assert next.invoked == r.invoked;
    }
    forall p: nat ensures p in next.invoked <==>
      (p < |next.statuses| && next.statuses[p] != Skip) || (next.interrupted && p == |next.statuses|)
    {
      if p < k && !next.interrupted {
        assert next.statuses[p] == r.statuses[p];
      }
    }
  }

  /** A file that got a status was reached, and handled, by a run that had not been interrupted. */
  lemma Reached(files: seq<string>, n: nat, fs: FileSystem, env: Env, p: nat)
    requires n <= |files|
    requires p < |Sweep(files, n, fs, env).statuses|
    ensures p < n
    ensures !Sweep(files, p, fs, env).interrupted && !Sweep(files, p + 1, fs, env).interrupted
  {
    var r := Sweep(files, n, fs, env);
    SweepShape(files, n, fs, env);
    assert p < n;
    var after := Sweep(files, p + 1, fs, env);
    SweepShape(files, p + 1, fs, env);
    SweepPrefix(files, p + 1, n, fs, env);
    assert after.interrupted ==> |r.statuses| <= p;
    SweepLast(files, p + 1, fs, env);
  }

  /**
   A file's status is what handling it in the directory of that moment
   gives; that directory extends the initial one, and the final directory
   extends the one right after the file was handled.
   */
  lemma AtPosition(files: seq<string>, n: nat, fs: FileSystem, env: Env, p: nat)
    requires n <= |files|
    requires p < |Sweep(files, n, fs, env).statuses|
    ensures p < n
    ensures var before := Sweep(files, p, fs, env);
      && !before.interrupted
      && Extends(fs, before.fs)
      && ProcessFile(before.fs, files[p], env)
         == Done(Sweep(files, n, fs, env).statuses[p], Sweep(files, p + 1, fs, env).fs)
      && Extends(Sweep(files, p + 1, fs, env).fs, Sweep(files, n, fs, env).fs)
  {
    Reached(files, n, fs, env, p);
    StepAt(files, fs, env, p);
    SweepExtends(files, p, fs, env);
    StatusKept(files, fs, env, p + 1, n, p);
  }

  /** A later run keeps an earlier run's statuses, and its directory extends the earlier one's. */
  lemma StatusKept(files: seq<string>, fs: FileSystem, env: Env, m: nat, n: nat, p: nat)
    requires m <= n <= |files| && p < |Sweep(files, m, fs, env).statuses|
    ensures p < |Sweep(files, n, fs, env).statuses|
    ensures Sweep(files, n, fs, env).statuses[p] == Sweep(files, m, fs, env).statuses[p]
    ensures Extends(Sweep(files, m, fs, env).fs, Sweep(files, n, fs, env).fs)
  {
    var a, b := Sweep(files, m, fs, env), Sweep(files, n, fs, env);
    SweepPrefix(files, m, n, fs, env);
    assert b.statuses[..|a.statuses|][p] == b.statuses[p];
  }

  /** A step that does not interrupt the run handles file `p` in the directory the run had reached. */
  lemma StepAt(files: seq<string>, fs: FileSystem, env: Env, p: nat)
    requires p < |files| && !Sweep(files, p + 1, fs, env).interrupted
    ensures !Sweep(files, p, fs, env).interrupted && |Sweep(files, p + 1, fs, env).statuses| == p + 1
    ensures ProcessFile(Sweep(files, p, fs, env).fs, files[p], env)
      == Done(Sweep(files, p + 1, fs, env).statuses[p], Sweep(files, p + 1, fs, env).fs)
  {
    var before := Sweep(files, p, fs, env);
    SweepLast(files, p + 1, fs, env);
    SweepLength(files, p, fs, env);
    AdvanceShape(before, files[p], env);
  }

  /**
   A file whose subtitle file existed before the run is skipped, and the
   recognizer is never invoked on it.
   */
  lemma SkipWhereOutputExists(files: seq<string>, n: nat, fs: FileSystem, env: Env, p: nat)
    requires n <= |files| && p < n
    requires p < |Sweep(files, n, fs, env).statuses| && env.output(files[p]) in fs
    ensures Sweep(files, n, fs, env).statuses[p] == Skip
    ensures p !in Sweep(files, n, fs, env).invoked
  {
    AtPosition(files, n, fs, env, p);
    ProcessFileSpec(Sweep(files, p, fs, env).fs, files[p], env);
    SweepInvoked(files, n, fs, env);
  }

  /**
   What each status means. A success had no subtitle file before the run,
   got a transcript, and its subtitle file now holds that transcript as SRT;
   a failure had no subtitle file before the run and got a recognizer error;
   after a success or a skip the subtitle file exists.
   */
  lemma StatusMeaning(files: seq<string>, n: nat, fs: FileSystem, env: Env, p: nat)
    requires n <= |files| && p < n
    requires p < |Sweep(files, n, fs, env).statuses|
    ensures var r, name := Sweep(files, n, fs, env), files[p];
      r.statuses[p] == Success ==>
        && env.output(name) !in fs && env.recognize(name).Transcript?
        && env.output(name) in r.fs && r.fs[env.output(name)] == Srt.CreateSrt(env.recognize(name).segments)
    ensures var r, name := Sweep(files, n, fs, env), files[p];
      r.statuses[p] == Failure ==> env.output(name) !in fs && env.recognize(name) == RecognitionError
    ensures var r, name := Sweep(files, n, fs, env), files[p];
      r.statuses[p] != Failure ==> env.output(name) in r.fs
  {
    AtPosition(files, n, fs, env, p);
    ProcessFileSpec(Sweep(files, p, fs, env).fs, files[p], env);
  }

  /** A run without an interrupt from the recognizer handles every file: errors stay with their file. */
  lemma ErrorsDoNotStopTheRun(files: seq<string>, n: nat, fs: FileSystem, env: Env)
    requires n <= |files|
    requires forall p :: 0 <= p < n ==> env.recognize(files[p]) != UserInterrupt
    ensures !Sweep(files, n, fs, env).interrupted
    ensures |Sweep(files, n, fs, env).statuses| == n
  {
    SweepShape(files, n, fs, env);
  }

  /**
   Running again over the directory a run left behind skips every file the
   first run did not fail, without invoking the recognizer on it: the
   recognizer is only invoked again on failed files and on files the first
   run never reached. The second run may see a different recognizer.
   */
  lemma Resume(files: seq<string>, fs: FileSystem, env: Env, again: Recognizer)
    ensures var r1 := Sweep(files, |files|, fs, env);
      var r2 := Sweep(files, |files|, r1.fs, env.(recognize := again));
      forall p :: 0 <= p < |r1.statuses| && p < |r2.statuses| && r1.statuses[p] != Failure ==>
        r2.statuses[p] == Skip
    ensures var r1 := Sweep(files, |files|, fs, env);
      var r2 := Sweep(files, |files|, r1.fs, env.(recognize := again));
      forall p: nat :: p < |r1.statuses| && r1.statuses[p] != Failure ==> p !in r2.invoked
  {
    var env2 := env.(recognize := again);
    var r1 := Sweep(files, |files|, fs, env);
    var r2 := Sweep(files, |files|, r1.fs, env2);
    SweepShape(files, |files|, fs, env);
    SweepShape(files, |files|, r1.fs, env2);
    SweepInvoked(files, |files|, r1.fs, env2);
    forall p | 0 <= p < |r1.statuses| && p < |r2.statuses| && r1.statuses[p] != Failure
      ensures r2.statuses[p] == Skip
    {
      StatusMeaning(files, |files|, fs, env, p);
      SkipWhereOutputExists(files, |files|, r1.fs, env2, p);
    }
    forall p: nat | p < |r1.statuses| && r1.statuses[p] != Failure
      ensures p !in r2.invoked
    {
      StatusMeaning(files, |files|, fs, env, p);
      if p < |r2.statuses| {
        SkipWhereOutputExists(files, |files|, r1.fs, env2, p);
      } else {
        SweepExtends(files, |files|, r1.fs, env2);
      }
    }
  }

  /** The subtitle names of the files a run wrote: those of its successes. */
  function Written(files: seq<string>, statuses: seq<Status>, env: Env): set<string>
    requires |statuses| <= |files|
  {
    if statuses == [] then {}
    else
      var k := |statuses| - 1;
      Written(files, statuses[..k], env) + (if statuses[k] == Success then {env.output(files[k])} else {})
  }

  /** A name was written exactly when it is the subtitle name of a successful file. */
  lemma {:induction false} WrittenMembers(files: seq<string>, statuses: seq<Status>, env: Env, o: string)
    requires |statuses| <= |files|
    ensures o in Written(files, statuses, env) <==>
      exists p :: 0 <= p < |statuses| && statuses[p] == Success && env.output(files[p]) == o
  {
    if statuses != [] {
      var k := |statuses| - 1;
      var init := statuses[..k];
      WrittenMembers(files, init, env, o);
      if exists p :: 0 <= p < k && init[p] == Success && env.output(files[p]) == o {
        var p :| 0 <= p < k && init[p] == Success && env.output(files[p]) == o;
        assert statuses[p] == Success;
      }
      if exists p :: 0 <= p < |statuses| && statuses[p] == Success && env.output(files[p]) == o {
        var p :| 0 <= p < |statuses| && statuses[p] == Success && env.output(files[p]) == o;
        if p < k {
          assert init[p] == Success;
        }
      }
    }
  }

  /** Nothing is written without a success. */
  lemma {:induction false} WrittenNothing(files: seq<string>, statuses: seq<Status>, env: Env)
    requires |statuses| <= |files|
    requires Count(statuses, Success) == 0
    ensures Written(files, statuses, env) == {}
  {
    if statuses != [] {
      WrittenNothing(files, statuses[..|statuses| - 1], env);
    }
  }

  /**
   The directory after a run is the initial one plus exactly the subtitle
   files of the successful files (and, by `SweepExtends`, the initial entries
   keep their contents).
   */
  lemma {:induction false} SweepWritten(files: seq<string>, n: nat, fs: FileSystem, env: Env)
    requires n <= |files|
    ensures var r := Sweep(files, n, fs, env);
      |r.statuses| <= n && (forall o :: o in r.fs <==> o in fs || o in Written(files, r.statuses, env))
  {
    if n > 0 {
      SweepLast(files, n, fs, env);
      SweepWritten(files, n - 1, fs, env);
      SweepLength(files, n - 1, fs, env);
      var prev := Sweep(files, n - 1, fs, env);
      if !prev.interrupted {
        WrittenStep(files, fs, env, prev, n - 1);
      }
    }
  }

  /** A run over `n` files has at most `n` statuses, and exactly `n` unless it was interrupted. */
  lemma SweepLength(files: seq<string>, n: nat, fs: FileSystem, env: Env)
    requires n <= |files|
    ensures var r := Sweep(files, n, fs, env);
      |r.statuses| <= n && (!r.interrupted ==> |r.statuses| == n)
  {
    SweepShape(files, n, fs, env);
  }

  lemma WrittenStep(files: seq<string>, fs: FileSystem, env: Env, r: Run, k: nat)
    requires !r.interrupted && |r.statuses| == k < |files|
    requires (forall o :: o in r.fs <==> o in fs || o in Written(files, r.statuses, env))
    ensures var next := Advance(r, files[k], env);
      |next.statuses| <= k + 1 && (forall o :: o in next.fs <==> o in fs || o in Written(files, next.statuses, env))
  {
    var next := Advance(r, files[k], env);
    AdvanceShape(r, files[k], env);
    ProcessFileSpec(r.fs, files[k], env);
    if !next.interrupted {
      assert next.statuses[..k] == r.statuses;
    }
  }

  /** A run with no success leaves the directory exactly as it found it. */
  lemma UnchangedWithoutSuccess(files: seq<string>, n: nat, fs: FileSystem, env: Env)
    requires n <= |files|
    requires Count(Sweep(files, n, fs, env).statuses, Success) == 0
    ensures Sweep(files, n, fs, env).fs == fs
  {
    var r := Sweep(files, n, fs, env);
    SweepWritten(files, n, fs, env);
    SweepExtends(files, n, fs, env);
    WrittenNothing(files, r.statuses, env);
  }

  /**
   Running again over the directory a complete run without failures left
   behind skips every file and is not interrupted, whatever the recognizer.
   */
  lemma RerunSkipsAll(files: seq<string>, fs: FileSystem, env: Env, again: Recognizer)
    requires !Sweep(files, |files|, fs, env).interrupted
    requires Count(Sweep(files, |files|, fs, env).statuses, Failure) == 0
    ensures var r1 := Sweep(files, |files|, fs, env);
      var r2 := Sweep(files, |files|, r1.fs, env.(recognize := again));
      && !r2.interrupted && |r2.statuses| == |files|
      && forall p :: 0 <= p < |r2.statuses| ==> r2.statuses[p] == Skip
  {
    var env2 := env.(recognize := again);
    var r1 := Sweep(files, |files|, fs, env);
    var r2 := Sweep(files, |files|, r1.fs, env2);
    SweepShape(files, |files|, fs, env);
    SweepShape(files, |files|, r1.fs, env2);
    SweepInvoked(files, |files|, r1.fs, env2);
    CountPositive(r1.statuses, Failure);
    Resume(files, fs, env, again);
    assert forall p: nat :: p < |files| ==> p !in r2.invoked;
    InterruptInvokes(r2);
  }

  /** An interrupted run invoked the recognizer on the file it stopped at. */
  lemma InterruptInvokes(r: Run)
    requires InvokedExactly(r)
    ensures r.interrupted ==> |r.statuses| in r.invoked
  {
  }

  /** A complete run that skipped every file never invoked the recognizer. */
  lemma NothingInvoked(r: Run)
    requires InvokedExactly(r) && !r.interrupted
    requires forall p :: 0 <= p < |r.statuses| ==> r.statuses[p] == Skip
    ensures r.invoked == []
  {
    NoMembersEmpty(r.invoked);
  }

  lemma NoMembersEmpty(s: seq<nat>)
    ensures (forall p: nat :: p !in s) ==> s == []
  {
    assert s != [] ==> s[0] in s;
  }

  /** A list of skips counts as all skipped, with no success and no failure. */
  lemma AllSkipped(statuses: seq<Status>)
    requires forall p :: 0 <= p < |statuses| ==> statuses[p] == Skip
    ensures Tally(statuses) == Summary(0, |statuses|, 0)
  {
    CountPositive(statuses, Success);
    CountPositive(statuses, Failure);
  }

  /**
   Running again over the directory a complete run without failures left
   behind changes nothing: every file is skipped, the recognizer is never
   invoked, the directory stays as it is, and the counters read zero
   successes, all files skipped and zero failures.
   */
  lemma Idempotent(files: seq<string>, fs: FileSystem, env: Env, again: Recognizer)
    requires !Sweep(files, |files|, fs, env).interrupted
    requires Count(Sweep(files, |files|, fs, env).statuses, Failure) == 0
    ensures var r1 := Sweep(files, |files|, fs, env);
      var r2 := Sweep(files, |files|, r1.fs, env.(recognize := again));
      && !r2.interrupted && r2.invoked == [] && r2.fs == r1.fs
      && Tally(r2.statuses) == Summary(0, |files|, 0)
  {
    var env2 := env.(recognize := again);
    var r1 := Sweep(files, |files|, fs, env);
    var r2 := Sweep(files, |files|, r1.fs, env2);
    RerunSkipsAll(files, fs, env, again);
    AllSkipped(r2.statuses);
    SweepInvoked(files, |files|, r1.fs, env2);
    NothingInvoked(r2);
    UnchangedWithoutSuccess(files, |files|, r1.fs, env2);
  }

  /** Distinct files of the work list get distinct subtitle names. */
  ghost predicate DistinctOutputs(files: seq<string>, env: Env) {
    forall p, q :: 0 <= p < q < |files| ==> env.output(files[p]) != env.output(files[q])
  }

  /** The file `name` ends a run that reaches it: it had no subtitle file before the run, and the user interrupts it. */
  ghost predicate Halts(fs: FileSystem, name: string, env: Env) {
    env.output(name) !in fs && env.recognize(name) == UserInterrupt
  }

  /**
   With distinct subtitle names, a file's status does not depend on the
   files before it: it is what handling the file in the initial directory
   gives, and the file does not halt the run.
   */
  lemma ClosedForm(files: seq<string>, n: nat, fs: FileSystem, env: Env, p: nat)
    requires n <= |files| && DistinctOutputs(files, env)
    requires p < |Sweep(files, n, fs, env).statuses|
    ensures p < n
    ensures ProcessFile(fs, files[p], env).Done?
    ensures ProcessFile(fs, files[p], env).status == Sweep(files, n, fs, env).statuses[p]
    ensures !Halts(fs, files[p], env)
  {
    AtPosition(files, n, fs, env, p);
    var before := Sweep(files, p, fs, env);
    SweepWritten(files, p, fs, env);
    SweepShape(files, p, fs, env);
    var out := env.output(files[p]);
    WrittenMembers(files, before.statuses, env, out);
    assert out in before.fs <==> out in fs;
    ProcessFileSpec(fs, files[p], env);
    ProcessFileSpec(before.fs, files[p], env);
  }

  /**
   With distinct subtitle names, a run stops exactly at the first file that
   halts it, and handles every file when none does.
   */
  lemma StopsAtFirstHalt(files: seq<string>, n: nat, fs: FileSystem, env: Env)
    requires n <= |files| && DistinctOutputs(files, env)
    ensures var r := Sweep(files, n, fs, env);
      && |r.statuses| <= n
      && (forall p :: 0 <= p < |r.statuses| ==> !Halts(fs, files[p], env))
      && (r.interrupted ==> |r.statuses| < n && Halts(fs, files[|r.statuses|], env))
      && (!r.interrupted ==> |r.statuses| == n)
  {
    var r := Sweep(files, n, fs, env);
    SweepShape(files, n, fs, env);
    SweepExtends(files, n, fs, env);
    forall p | 0 <= p < |r.statuses| ensures !Halts(fs, files[p], env) {
      ClosedForm(files, n, fs, env, p);
    }
  }

  /**
   Fault isolation: when the recognizer fails on one file instead of
   succeeding (or failing) there, the run is otherwise the same: it stops at
   the same place, and every other file gets the same status; the file
   itself is a failure, or skipped if its subtitle file existed.
   */
  lemma Isolation(files: seq<string>, fs: FileSystem, env: Env, f: nat, other: Recognizer)
    requires DistinctOutputs(files, env) && f < |files|
    requires env.recognize(files[f]) != UserInterrupt && other(files[f]) == RecognitionError
    requires forall name :: name != files[f] ==> other(name) == env.recognize(name)
    ensures var r1, r2 := Sweep(files, |files|, fs, env), Sweep(files, |files|, fs, env.(recognize := other));
      && r1.interrupted == r2.interrupted && |r1.statuses| == |r2.statuses|
      && (forall p :: 0 <= p < |r1.statuses| && p != f ==> r1.statuses[p] == r2.statuses[p])
    ensures var r2 := Sweep(files, |files|, fs, env.(recognize := other));
      f < |r2.statuses| ==> r2.statuses[f] == if env.output(files[f]) in fs then Skip else Failure
  {
    var env2 := env.(recognize := other);
    var n := |files|;
    var r1, r2 := Sweep(files, n, fs, env), Sweep(files, n, fs, env2);
    forall p | 0 <= p < n ensures Halts(fs, files[p], env) <==> Halts(fs, files[p], env2) {
      if p != f {
        assert files[p] != files[f];
      }
    }
    SameStop(files, fs, env, env2);
    forall p | 0 <= p < |r1.statuses| && p < |r2.statuses| && p != f ensures r1.statuses[p] == r2.statuses[p] {
      ClosedForm(files, n, fs, env, p);
      ClosedForm(files, n, fs, env2, p);
      assert files[p] != files[f];
    }
    if f < |r2.statuses| {
      ClosedForm(files, n, fs, env2, f);
    }
  }

  /** With distinct subtitle names, two runs whose files halt at the same places stop at the same place. */
  lemma SameStop(files: seq<string>, fs: FileSystem, env1: Env, env2: Env)
    requires DistinctOutputs(files, env1) && DistinctOutputs(files, env2)
    requires forall p :: 0 <= p < |files| ==> (Halts(fs, files[p], env1) <==> Halts(fs, files[p], env2))
    ensures Sweep(files, |files|, fs, env1).interrupted == Sweep(files, |files|, fs, env2).interrupted
    ensures |Sweep(files, |files|, fs, env1).statuses| == |Sweep(files, |files|, fs, env2).statuses|
  {
    StopsAtFirstHalt(files, |files|, fs, env1);
    StopsAtFirstHalt(files, |files|, fs, env2);
  }

  /** What a call of `transcribe_files` reports. */
  datatype Report =
    | NoMediaFound        // the early return when discovery finds nothing
    | Completed(summary: Summary)
    | Interrupted         // the interrupt propagates, and no summary is printed

  /**
   `transcribe_files` after the model is loaded: discover the work list;
   with none, report it and touch nothing; otherwise run the loop over it,
   which either completes with its counters or is interrupted.
   */
  method TranscribeFiles(fs: FileSystem, recognize: Recognizer) returns (report: Report, files: seq<string>, run: Run)
    ensures Discovery.StrictlyIncreasing(files)
    ensures forall name :: name in files <==> name in fs && Discovery.IsMedia(name)
    ensures files == [] <==> report == NoMediaFound
    ensures files == [] ==> run == Run([], [], fs, false)
    ensures files != [] ==> run == Sweep(files, |files|, fs, Standard(recognize))
    ensures report == Interrupted <==> run.interrupted
    ensures report.Completed? ==> report.summary == Tally(run.statuses) && |run.statuses| == |files|
  {
    files := Discovery.Discover(fs.Keys);
    if files == [] {
      return NoMediaFound, files, Run([], [], fs, false);
    }
    var summary;
    summary, run := ProcessAll(files, fs, recognize);
    report := if run.interrupted then Interrupted else Completed(summary);
  }

  /** A run adds no media file to the directory and removes none: only subtitle files are written. */
  lemma MediaUnchanged(files: seq<string>, fs: FileSystem, recognize: Recognizer)
    ensures var r := Sweep(files, |files|, fs, Standard(recognize));
      forall name :: name in r.fs && Discovery.IsMedia(name) <==> name in fs && Discovery.IsMedia(name)
  {
    var env := Standard(recognize);
    var r := Sweep(files, |files|, fs, env);
    SweepWritten(files, |files|, fs, env);
    forall name | name in r.fs && name !in fs ensures !Discovery.IsMedia(name) {
      WrittenMembers(files, r.statuses, env, name);
      var p :| 0 <= p < |r.statuses| && r.statuses[p] == Success && env.output(files[p]) == name;
      Discovery.OutputNotMedia(files[p]);
    }
  }

  /**
   Discovering again after a run, complete or interrupted, gives the same
   work list, which is what makes rerunning resume where the last run
   stopped.
   */
  lemma RediscoverSame(files: seq<string>, fs: FileSystem, recognize: Recognizer, again: seq<string>)
    requires Discovery.StrictlyIncreasing(files)
    requires forall name :: name in files <==> name in fs && Discovery.IsMedia(name)
    requires Discovery.StrictlyIncreasing(again)
    requires forall name :: name in again <==> name in Sweep(files, |files|, fs, Standard(recognize)).fs && Discovery.IsMedia(name)
    ensures again == files
  {
    MediaUnchanged(files, fs, recognize);
    Discovery.SortedUnique(again, files);
  }

  /**
   Two files sharing a subtitle name: the first is transcribed, and the
   second is then skipped without invoking the recognizer.
   */
  lemma SharedOutput(a: string, b: string, fs: FileSystem, env: Env)
    requires env.output(a) == env.output(b) && env.output(a) !in fs
    requires env.recognize(a).Transcript?
    ensures var r := Sweep([a, b], 2, fs, env);
      r.statuses == [Success, Skip] && r.invoked == [0] && !r.interrupted
  {
    SweepLast([a, b], 2, fs, env);
    SweepLast([a, b], 1, fs, env);
  }

  /** `a.mp3` and `a.mp4` both name `a.srt`: only `a.mp3`, the first in order, is transcribed. */
  lemma CollisionExample(recognize: Recognizer)
    requires recognize("a.mp3").Transcript?
    ensures var r := Sweep(["a.mp3", "a.mp4"], 2, map[], Standard(recognize));
      r.statuses == [Success, Skip] && r.invoked == [0] && !r.interrupted
  {
    Paths.SameStemExample();
    SharedOutput("a.mp3", "a.mp4", map[], Standard(recognize));
  }
}
