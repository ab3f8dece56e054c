# Secure audio playback: player resolution and outcome mapping

A Dafny model of `src/secure_utils.py`, the security utility that plays an audio
file by starting an external player with an argument vector instead of a shell
string. The module has two entry points. `play_audio_file` runs the player and
waits for it. `play_audio_file_async` starts the player and returns at once. Both
share one decision procedure:

1. If the file does not exist, fail.
2. Dispatch on the platform string: `"Darwin"` gives `afplay <path>`.
   `"Windows"` gives `cmd /c start "" <path>`. `"Linux"` probes
   `paplay`, `aplay`, `ffplay`, `mpg123`, `mpv` in that order, and the first
   one `which` finds gives `<player> <path>`. Any other string fails.
3. Launch the command and turn the result into a boolean.

The source writes this procedure out twice, once in each entry point
(lines 36-66 and 97-125, identical apart from comments). The model defines it
once.

Files:

- `resolution.dfy` (module `Resolution`) holds the resolution rule.
  `Resolve` is the pure specification of the rule and `ResolutionProbes` lists
  the `which` probes it makes. `ProbeLinuxPlayers` is the Linux `for` loop with
  its early `break`, written as a method with loop invariants.
  `ResolveCommand` is the shared resolution code. It is proved equal to the
  specification functions, and the properties are lemmas about those functions.
- `playback.dfy` (module `Playback`) holds the two entry points as methods
  (`PlayAudioFile`, `PlayAudioFileAsync`). It also holds the outcome mappings
  `BlockingOutcome` and `BackgroundOutcome` and the lemmas about them.

The environment is passed in as parameters:

- `fileExists: bool` stands for `Path.exists()`.
- `platform: string` is what `platform.system()` returns.
- `available: string -> bool` says whether `which <player>` exits with status
  zero. A `which` that is itself missing counts as "absent", just as the source
  catches `FileNotFoundError` and moves on.
- `launch: Command -> LaunchResult` says what the operating system does with
  an argument vector. The result is `Exited(status)` or `LaunchError`.

The blocking form succeeds only on `Exited(0)`. The fire-and-forget form
succeeds on any `Exited(_)` and never reads the status. The
printed diagnostics become an `Outcome`, which is `Success` or
`Failure(kind)`, where the kind is one of `FileNotFound`,
`UnsupportedPlatform`, `NoPlayerFound`, `ProcessFailure` and
`LaunchFailure`. The boolean each entry point returns is
`outcome == Success`. Each entry point also returns the probes it made and
the command it launched (if any), so "nothing is probed" and "nothing is
launched" can be stated.

Platform strings are compared exactly and case-sensitively, as in the source.
So `"linux"` fails as an unsupported platform.

## Model

| member | source | states |
|---|---|---|
| `Resolution.PlayersDistinct` | src/secure_utils.py:50 | the five Linux candidates are pairwise distinct, so an index names one program |
| `Resolution.FirstAvailable` | src/secure_utils.py:50-59 | the result is the index of a candidate the probe reports present, and every earlier candidate was reported absent; None only when every candidate was reported absent |
| `Resolution.FirstAvailableUnique` | src/secure_utils.py:52-57 | any present candidate whose predecessors are all absent is the one chosen (first match wins, ties broken by list order) |
| `Resolution.Probed` | src/secure_utils.py:52-59 | the `which` probes of the loop form a prefix of the preference list; every probe but the last reported absence, and the last reported presence unless the list ran out (in particular whenever some candidate is present) |
| `Resolution.ProbedDecides` | src/secure_utils.py:52-59 | the choice and the probe sequence depend only on the answers for the probed candidates; what candidates after the chosen one would answer has no effect, because the loop stops at the first match |
| `Resolution.LinuxCommand` | src/secure_utils.py:50-63 | the Linux branch builds no command iff every candidate is absent; otherwise it builds `[player, path]` for a present candidate |
| `Resolution.Resolve` | src/secure_utils.py:36-66 | error precedence in both directions: FileNotFound iff the file is missing; UnsupportedPlatform iff the file exists and the platform is unrecognised; NoPlayerFound iff the file exists, the platform is Linux and no candidate is present. Every command has length 2 or 5, ends with the path, starts with a known program from a fixed finite set, and holds only fixed literal tokens before the path |
| `Resolution.ResolutionProbes` | src/secure_utils.py:36-59 | a resolution probes something iff the file exists and the platform is "Linux", and what it probes is a prefix of the preference list |
| `Resolution.ProbeLinuxPlayers` | src/secure_utils.py:50-59 | the loop with early exit builds the first present candidate's command, or none, and probes exactly the candidates up to and including that one |
| `Resolution.ResolveCommand` | src/secure_utils.py:36-66 | the shared resolution code computes the rule's result and makes exactly the rule's probes (none unless the file exists on Linux) |
| `Resolution.MissingFileFailsFirst` | src/secure_utils.py:36-38 | with a missing file, every platform fails with FileNotFound and nothing is probed |
| `Resolution.DarwinCommand` | src/secure_utils.py:43-44 | on "Darwin" an existing file resolves to exactly `["afplay", path]` with no probe |
| `Resolution.WindowsCommand` | src/secure_utils.py:45-47 | on "Windows" an existing file resolves to exactly `["cmd", "/c", "start", "", path]` with no probe |
| `Resolution.UnsupportedPlatformFails` | src/secure_utils.py:64-66 | any platform other than the three recognised strings fails with UnsupportedPlatform with no probe |
| `Resolution.LinuxFirstMatch` | src/secure_utils.py:48-57 | if candidate k is present and all earlier ones absent, the command is `[candidate k, path]` and exactly candidates 0..k are probed |
| `Resolution.LinuxChoiceIsFirst` | src/secure_utils.py:50-57 | conversely, a resolved Linux command names a present candidate whose predecessors were all absent. The last probe is that candidate and no later candidate is probed |
| `Resolution.LinuxNoPlayer` | src/secure_utils.py:61-63 | with no candidate present, Linux resolution fails with NoPlayerFound after probing all five |
| `Resolution.PathIsOpaque` | src/secure_utils.py:40-56 | the path is one opaque token: resolving with a different path changes only the last token, which becomes the new path unchanged |
| `Resolution.PathOccursOnce` | src/secure_utils.py:40-56 | a path that is not one of the fixed literal tokens occurs in the resolved command exactly once |
| `Playback.Launched` | src/secure_utils.py:61-69 | a command is handed to the operating system iff resolution succeeded, and it is the resolved command |
| `Playback.BlockingOutcome` | src/secure_utils.py:68-77 | the blocking mapping succeeds iff the command resolved, started and exited with status 0; a resolution error is reported unchanged, a failed start is a LaunchFailure and a nonzero exit a ProcessFailure |
| `Playback.BackgroundOutcome` | src/secure_utils.py:127-133 | the fire-and-forget mapping succeeds iff the command resolved and started; a resolution error is reported unchanged, a failed start is a LaunchFailure, and the mapping never produces a ProcessFailure of its own |
| `Playback.PlayAudioFile` | src/secure_utils.py:14-77 | the blocking entry point returns true iff the command resolves, starts and exits with status 0, with the outcome given by the blocking mapping. A missing file gives false with no probe and no launch. Its probes are the resolution's probes, and it launches the resolved command or nothing |
| `Playback.PlayAudioFileAsync` | src/secure_utils.py:80-133 | the fire-and-forget entry point returns true iff the command resolves and starts; it never reports a ProcessFailure. A missing file gives false with no probe and no launch. It makes the same probes and launches the same command as the blocking form |
| `Playback.NonzeroExitFails` | src/secure_utils.py:69-74 | a nonzero exit is a ProcessFailure for the blocking form, while the fire-and-forget form still reports success |
| `Playback.BackgroundIgnoresStatus` | src/secure_utils.py:128-129 | two launchers that agree on which commands start give the fire-and-forget form the same outcome, whatever exit statuses they report |
| `Playback.FormsAgree` | src/secure_utils.py:80-133 | for the same inputs both forms report the same resolution failure and the same launch failure, and blocking success implies fire-and-forget success |
| `Playback.ResolutionFailureLaunchesNothing` | src/secure_utils.py:97-125 | a missing file, an unrecognised platform, or Linux with no player makes both forms fail and launch nothing; a missing file fails with FileNotFound and probes nothing |

## Left out

- Process execution (`subprocess.run`, `subprocess.Popen`, output capture, `DEVNULL`) is an operating-system call. It is the `launch` oracle, and the `which` probe is the `available` oracle.
- Host introspection (`platform.system()`, `Path.exists()`) becomes the `platform` and `fileExists` parameters. An exception from `exists()` itself, such as a permission error, would be caught by the generic handler and give false. The model does not represent it.
- `Path(file_path)` and `str(audio_path)` normalisation happens in a library outside the source. `path` is the normalised string, taken as opaque.
- A `which` probe that raises something other than `CalledProcessError` or `FileNotFoundError` escapes the loop and reaches the generic handler (false). The model's probe only answers present or absent.
- The wording of the printed diagnostics is console output. Only their kind is modelled, as the `Error` tag of an `Outcome`.
- For the detached child of the fire-and-forget form, only its start is modelled. Its concurrent lifetime is not. The blocking form has no timeout, and waiting is not modelled either.
- On Windows the no-injection promise of the docstring (src/secure_utils.py:18-19) does not hold beyond the argument vector. The command is `cmd /c start "" <path>`. Python joins an argument vector into one command line and quotes an argument only when it holds a space or a tab or is empty. `cmd.exe` then parses that line again. So an existing file named `C:\m\a&calc.mp3` would be split at `&`, and a `%VAR%` inside a path would be expanded. This comes from reading the code; nothing was executed. The model proves the one-token property for the argument vector handed to the operating system (`PathIsOpaque`, `PathOccursOnce`). The command-line joining and `cmd.exe`'s parsing happen outside the source, so they are not modelled and no corrected form is proposed.
- The `__main__` demonstration block (lines 137-181) is demo output only.
