/**
 * The two public entry points of the secure audio utilities: the blocking
 * form, which runs the resolved command and waits for it, and the
 * fire-and-forget form, which only starts it.
 *
 * Starting a process is an oracle: `launch(cmd)` says what the operating
 * system does with the argument vector `cmd` — it either fails to start it,
 * or starts it and the process eventually exits with some status. The
 * blocking form reads the status; the fire-and-forget form never does.
 */
module Playback {
  import opened Resolution

  /** What the operating system does with one argument vector. */
  datatype LaunchResult =
    | Exited(status: int)  // the process started and exited with this status
    | LaunchError          // the process could not be started (missing program, permission, ...)

  /** The outcome of one call: success, or the kind of diagnostic printed. */
  datatype Outcome = Success | Failure(error: Error)

  /** The command handed to the operating system, if resolution succeeded. */
  function Launched(resolved: Result<Command, Error>): (c: Option<Command>)
    ensures c.Some? <==> resolved.Ok?
    ensures c.Some? ==> c.value == resolved.value
  {
    match resolved
    case Ok(cmd) => Some(cmd)
    case Err(_) => None
  }

  /**
   * The blocking form's mapping to an outcome: a resolution error is
   * reported as is; a process that cannot be started is a launch failure; a
   * nonzero exit status is a process failure; only a zero status succeeds.
   */
  function BlockingOutcome(resolved: Result<Command, Error>, launch: Command -> LaunchResult): (o: Outcome)
    ensures o == Success <==> resolved.Ok? && launch(resolved.value) == Exited(0)
    ensures resolved.Err? ==> o == Failure(resolved.error)
    ensures resolved.Ok? && launch(resolved.value).LaunchError? ==> o == Failure(LaunchFailure)
    ensures resolved.Ok? && launch(resolved.value).Exited? && launch(resolved.value).status != 0 ==>
              o == Failure(ProcessFailure)
  {
    match resolved
    case Err(e) => Failure(e)
    case Ok(cmd) =>
      match launch(cmd)
      case LaunchError => Failure(LaunchFailure)
      case Exited(status) => if status == 0 then Success else Failure(ProcessFailure)
  }

  /**
   * The fire-and-forget form's mapping: success as soon as the process has
   * been started, whatever its exit status will be.
   */
  function BackgroundOutcome(resolved: Result<Command, Error>, launch: Command -> LaunchResult): (o: Outcome)
    ensures o == Success <==> resolved.Ok? && !launch(resolved.value).LaunchError?
    ensures resolved.Err? ==> o == Failure(resolved.error)
    ensures resolved.Ok? && launch(resolved.value).LaunchError? ==> o == Failure(LaunchFailure)
    // the exit status is never read, so the mapping itself never reports a process failure
    ensures o == Failure(ProcessFailure) ==> resolved == Err(ProcessFailure)
  {
    match resolved
    case Err(e) => Failure(e)
    case Ok(cmd) => if launch(cmd).LaunchError? then Failure(LaunchFailure) else Success
  }

  /**
   * play_audio_file: resolve, run the command to completion with its output
   * captured, and report whether it exited with status zero.
   * Returns the boolean result, the outcome behind it, the `which` probes made
   * and the command launched (None when nothing was launched).
   */
  method PlayAudioFile(platform: string, path: string, fileExists: bool,
                       available: string -> bool, launch: Command -> LaunchResult)
    returns (ok: bool, outcome: Outcome, probes: seq<string>, launched: Option<Command>)
    ensures outcome == BlockingOutcome(Resolve(platform, path, fileExists, available), launch)
    ensures ok <==> outcome == Success
    ensures ok <==> var r := Resolve(platform, path, fileExists, available);
                    r.Ok? && launch(r.value) == Exited(0)
    ensures !fileExists ==> !ok && outcome == Failure(FileNotFound) && probes == [] && launched == None
    ensures probes == ResolutionProbes(platform, fileExists, available)
    ensures launched == Launched(Resolve(platform, path, fileExists, available))
  {
    var resolved;
    resolved, probes := ResolveCommand(platform, path, fileExists, available);
    if resolved.Err? {
      return false, Failure(resolved.error), probes, None;
    }
    var cmd := resolved.value;
    launched := Some(cmd);
    var result := launch(cmd);
    if result.LaunchError? {
      outcome := Failure(LaunchFailure);
    } else if result.status != 0 {
      outcome := Failure(ProcessFailure);
    } else {
      outcome := Success;
    }
    ok := outcome == Success;
  }

  /**
   * play_audio_file_async: resolve, start the command with its output
   * discarded, and report whether it started. The exit status is never read.
   */
  method PlayAudioFileAsync(platform: string, path: string, fileExists: bool,
                            available: string -> bool, launch: Command -> LaunchResult)
    returns (ok: bool, outcome: Outcome, probes: seq<string>, launched: Option<Command>)
    ensures outcome == BackgroundOutcome(Resolve(platform, path, fileExists, available), launch)
    ensures ok <==> outcome == Success
    ensures ok <==> var r := Resolve(platform, path, fileExists, available);
                    r.Ok? && !launch(r.value).LaunchError?
    ensures outcome != Failure(ProcessFailure)
    ensures !fileExists ==> !ok && outcome == Failure(FileNotFound) && probes == [] && launched == None
    ensures probes == ResolutionProbes(platform, fileExists, available)
    ensures launched == Launched(Resolve(platform, path, fileExists, available))
  {
    var resolved;
    resolved, probes := ResolveCommand(platform, path, fileExists, available);
    if resolved.Err? {
      return false, Failure(resolved.error), probes, None;
    }
    var cmd := resolved.value;
    launched := Some(cmd);
    if launch(cmd).LaunchError? {
      outcome := Failure(LaunchFailure);
    } else {
      outcome := Success;
    }
    ok := outcome == Success;
  }

  // ---------------------------------------------------------------------------
  // Properties of the outcome mapping

  /** A nonzero exit status is reported by the blocking form as a process failure. */
  lemma NonzeroExitFails(resolved: Result<Command, Error>, launch: Command -> LaunchResult)
    requires resolved.Ok? && launch(resolved.value).Exited? && launch(resolved.value).status != 0
    ensures BlockingOutcome(resolved, launch) == Failure(ProcessFailure)
    ensures BackgroundOutcome(resolved, launch) == Success
  {
  }

  /**
   * The fire-and-forget form never consults the exit status: two launchers
   * that agree on which commands start give it the same outcome.
   */
  lemma BackgroundIgnoresStatus(resolved: Result<Command, Error>,
                                l1: Command -> LaunchResult, l2: Command -> LaunchResult)
    requires forall c :: l1(c).LaunchError? == l2(c).LaunchError?
    ensures BackgroundOutcome(resolved, l1) == BackgroundOutcome(resolved, l2)
  {
  }

  /**
   * The two forms resolve the same command and report the same failure for
   * the same inputs up to the launch; the blocking form succeeds only where
   * the fire-and-forget form does.
   */
  lemma FormsAgree(platform: string, path: string, fileExists: bool,
                   available: string -> bool, launch: Command -> LaunchResult)
    ensures var r := Resolve(platform, path, fileExists, available);
            r.Err? ==> BlockingOutcome(r, launch) == BackgroundOutcome(r, launch) == Failure(r.error)
    ensures var r := Resolve(platform, path, fileExists, available);
            BlockingOutcome(r, launch) == Success ==> BackgroundOutcome(r, launch) == Success
    ensures var r := Resolve(platform, path, fileExists, available);
            BackgroundOutcome(r, launch) == Failure(LaunchFailure) <==> BlockingOutcome(r, launch) == Failure(LaunchFailure)
  {
  }

  /**
   * The failure paths that come before the launch: a missing file, an
   * unrecognised platform, or no Linux player present make both forms fail
   * with that error and launch nothing.
   */
  lemma ResolutionFailureLaunchesNothing(platform: string, path: string, fileExists: bool,
                                         available: string -> bool, launch: Command -> LaunchResult)
    requires !fileExists || platform !in Recognised ||
             (platform == Linux && forall j :: 0 <= j < |Players| ==> !available(Players[j]))
    ensures Launched(Resolve(platform, path, fileExists, available)) == None
    ensures BlockingOutcome(Resolve(platform, path, fileExists, available), launch).Failure?
    ensures BackgroundOutcome(Resolve(platform, path, fileExists, available), launch).Failure?
    ensures !fileExists ==>
              BlockingOutcome(Resolve(platform, path, fileExists, available), launch) == Failure(FileNotFound) &&
              ResolutionProbes(platform, fileExists, available) == []
  {
  }
}
