/**
 * Player resolution for the secure audio utilities: deciding, from the host
 * platform and the file's existence, which argument vector plays the file.
 *
 * The environment is passed in rather than queried:
 *   - `fileExists` stands for `Path.exists()` on the normalised path,
 *   - `platform` is the string `platform.system()` returns,
 *   - `available(p)` is true when `which p` exits with status zero.
 * The path is the normalised path string, treated as an opaque value.
 */
module Resolution {

  datatype Option<T> = None | Some(value: T)

  datatype Result<T, E> = Ok(value: T) | Err(error: E)

  /** The failure kinds, one per diagnostic the module prints. */
  datatype Error =
    | FileNotFound         // the path does not exist
    | UnsupportedPlatform  // the platform string is none of the three recognised ones
    | NoPlayerFound        // Linux: no candidate player is on the search path
    | ProcessFailure       // blocking form: the player exited with a nonzero status
    | LaunchFailure        // the player could not be started at all

  /** An argument vector: the program name followed by its arguments, one token each. */
  type Command = seq<string>

  const Darwin := "Darwin"
  const Windows := "Windows"
  const Linux := "Linux"
  const Recognised: set<string> := {Darwin, Windows, Linux}

  /** The macOS player. */
  const MacPlayer := "afplay"

  /** The Linux candidates, in order of preference. */
  const Players: seq<string> := ["paplay", "aplay", "ffplay", "mpg123", "mpv"]

  /** Every program a resolved command can start. */
  const Programs: set<string> := {MacPlayer, "cmd", "paplay", "aplay", "ffplay", "mpg123", "mpv"}

  /** Every literal token a resolved command can hold besides the path. */
  const FixedTokens: set<string> := Programs + {"/c", "start", ""}

  /** The candidates are pairwise distinct, so "the k-th candidate" names one program. */
  lemma PlayersDistinct()
    ensures forall i, j :: 0 <= i < j < |Players| ==> Players[i] != Players[j]
  {
  }

  /**
   * The index of the first candidate the probe reports as present, or None
   * when every probe fails. Ties are broken by list order.
   */
  function FirstAvailable(players: seq<string>, available: string -> bool): (r: Option<nat>)
    ensures r.Some? ==> r.value < |players| && available(players[r.value])
    ensures r.Some? ==> forall j :: 0 <= j < r.value ==> !available(players[j])
    ensures r.None? ==> forall j :: 0 <= j < |players| ==> !available(players[j])
    decreases |players|
  {
    if players == [] then None
    else if available(players[0]) then Some(0)
    else match FirstAvailable(players[1..], available)
      case None => None
      case Some(k) => Some(k + 1)
  }

  /** An index is the first available one exactly when FirstAvailable returns it. */
  lemma FirstAvailableUnique(players: seq<string>, available: string -> bool, k: nat)
    requires k < |players| && available(players[k])
    requires forall j :: 0 <= j < k ==> !available(players[j])
    ensures FirstAvailable(players, available) == Some(k)
  {
  }

  /**
   * The candidates the Linux loop probes, in order: every candidate up to and
   * including the first present one, or all of them when none is present.
   * The probes form a prefix of the list, every probe but the last reported
   * absence, and the last one reported presence unless the list ran out.
   */
  function Probed(players: seq<string>, available: string -> bool): (p: seq<string>)
    ensures |p| <= |players| && p == players[..|p|]
    ensures forall j :: 0 <= j < |p| - 1 ==> !available(players[j])
    ensures |p| < |players| ==> p != [] && available(p[|p| - 1])
    ensures (exists j :: 0 <= j < |players| && available(players[j])) ==> p != [] && available(p[|p| - 1])
  {
    match FirstAvailable(players, available)
    case Some(k) => players[..k + 1]
    case None => players
  }

  /**
   * The result of the Linux loop depends only on the answers of the probes it
   * makes: two environments that agree on the probed candidates choose the
   * same player and probe the same candidates, whatever they say about the
   * candidates after the chosen one.
   */
  lemma ProbedDecides(players: seq<string>, a1: string -> bool, a2: string -> bool)
    requires forall j :: 0 <= j < |Probed(players, a1)| ==> a1(players[j]) == a2(players[j])
    ensures FirstAvailable(players, a1) == FirstAvailable(players, a2)
    ensures Probed(players, a1) == Probed(players, a2)
  {
  }

  /** The command the Linux branch builds, or None when no candidate is present. */
  function LinuxCommand(path: string, available: string -> bool): (c: Option<Command>)
    ensures c.None? <==> forall j :: 0 <= j < |Players| ==> !available(Players[j])
    ensures c.Some? ==> |c.value| == 2 && c.value[0] in Players && available(c.value[0]) && c.value[1] == path
  {
    match FirstAvailable(Players, available)
    case Some(k) => Some([Players[k], path])
    case None => None
  }

  /**
   * The resolution rule. The existence check comes first, then the exact,
   * case-sensitive comparison of the platform string.
   */
  function Resolve(platform: string, path: string, fileExists: bool, available: string -> bool): (r: Result<Command, Error>)
    // error precedence, both directions
    ensures r == Err(FileNotFound) <==> !fileExists
    ensures r == Err(UnsupportedPlatform) <==> fileExists && platform !in Recognised
    ensures r == Err(NoPlayerFound) <==>
              fileExists && platform == Linux && forall j :: 0 <= j < |Players| ==> !available(Players[j])
    ensures r.Err? ==> r.error in {FileNotFound, UnsupportedPlatform, NoPlayerFound}
    // command shape
    ensures r.Ok? ==> |r.value| == 2 || |r.value| == 5
    ensures r.Ok? ==> r.value[|r.value| - 1] == path
    ensures r.Ok? ==> r.value[0] in Programs
    ensures r.Ok? ==> forall i :: 0 <= i < |r.value| - 1 ==> r.value[i] in FixedTokens
  {
    if !fileExists then Err(FileNotFound)
    else if platform == Darwin then Ok([MacPlayer, path])
    else if platform == Windows then Ok(["cmd", "/c", "start", "", path])
    else if platform == Linux then
      match LinuxCommand(path, available)
      case Some(cmd) => Ok(cmd)
      case None => Err(NoPlayerFound)
    else Err(UnsupportedPlatform)
  }

  /** The `which` probes one resolution makes, in order. */
  function ResolutionProbes(platform: string, fileExists: bool, available: string -> bool): (p: seq<string>)
    ensures p != [] <==> fileExists && platform == Linux
    ensures |p| <= |Players| && p == Players[..|p|]
  {
    if fileExists && platform == Linux then Probed(Players, available) else []
  }

  /**
   * The Linux probe loop: try each candidate in order and stop at the first
   * one `which` finds. Returns the command and the candidates probed.
   */
  method ProbeLinuxPlayers(path: string, available: string -> bool) returns (cmd: Option<Command>, probes: seq<string>)
    ensures cmd == LinuxCommand(path, available)
    ensures probes == Probed(Players, available)
  {
    cmd := None;
    probes := [];
    for i := 0 to |Players|
      invariant probes == Players[..i]
      invariant cmd == None
      invariant forall j :: 0 <= j < i ==> !available(Players[j])
    {
      probes := probes + [Players[i]];
      if available(Players[i]) {
        cmd := Some([Players[i], path]);
        break;
      }
    }
  }

  /**
   * The shared resolution code of both entry points: existence check, then
   * platform dispatch, with the Linux loop when the platform is Linux.
   */
  method ResolveCommand(platform: string, path: string, fileExists: bool, available: string -> bool)
    returns (r: Result<Command, Error>, probes: seq<string>)
    ensures r == Resolve(platform, path, fileExists, available)
    ensures probes == ResolutionProbes(platform, fileExists, available)
  {
    probes := [];
    if !fileExists {
      return Err(FileNotFound), probes;
    }
    if platform == Darwin {
      r := Ok([MacPlayer, path]);
    } else if platform == Windows {
      r := Ok(["cmd", "/c", "start", "", path]);
    } else if platform == Linux {
      var cmd;
      cmd, probes := ProbeLinuxPlayers(path, available);
      if cmd.None? {
        return Err(NoPlayerFound), probes;
      }
      r := Ok(cmd.value);
    } else {
      return Err(UnsupportedPlatform), probes;
    }
  }

  // ---------------------------------------------------------------------------
  // Properties of the resolution rule

  /** A missing file fails first, on every platform, and nothing is probed. */
  lemma MissingFileFailsFirst(platform: string, path: string, available: string -> bool)
    ensures Resolve(platform, path, false, available) == Err(FileNotFound)
    ensures ResolutionProbes(platform, false, available) == []
  {
  }

  /** On macOS an existing file always resolves to `afplay <path>`. */
  lemma DarwinCommand(path: string, available: string -> bool)
    ensures Resolve(Darwin, path, true, available) == Ok(["afplay", path])
    ensures ResolutionProbes(Darwin, true, available) == []
  {
  }

  /** On Windows an existing file always resolves to `cmd /c start "" <path>`. */
  lemma WindowsCommand(path: string, available: string -> bool)
    ensures Resolve(Windows, path, true, available) == Ok(["cmd", "/c", "start", "", path])
    ensures ResolutionProbes(Windows, true, available) == []
  {
  }

  /** An unrecognised platform fails without probing. */
  lemma UnsupportedPlatformFails(platform: string, path: string, available: string -> bool)
    requires platform !in Recognised
    ensures Resolve(platform, path, true, available) == Err(UnsupportedPlatform)
    ensures ResolutionProbes(platform, true, available) == []
  {
  }

  /**
   * First match wins on Linux: when candidate k is present and every earlier
   * one is absent, the command is `[Players[k], path]`, and exactly the
   * candidates up to k are probed.
   */
  lemma LinuxFirstMatch(path: string, available: string -> bool, k: nat)
    requires k < |Players| && available(Players[k])
    requires forall j :: 0 <= j < k ==> !available(Players[j])
    ensures Resolve(Linux, path, true, available) == Ok([Players[k], path])
    ensures ResolutionProbes(Linux, true, available) == Players[..k + 1]
  {
  }

  /**
   * Conversely, a Linux command names the first present candidate: it returns
   * that candidate's index, every earlier candidate was absent, the last probe
   * was the chosen player and no later candidate was probed.
   */
  lemma LinuxChoiceIsFirst(path: string, available: string -> bool) returns (k: nat)
    requires Resolve(Linux, path, true, available).Ok?
    ensures k < |Players| && available(Players[k])
    ensures forall j :: 0 <= j < k ==> !available(Players[j])
    ensures Resolve(Linux, path, true, available).value == [Players[k], path]
    ensures ResolutionProbes(Linux, true, available) == Players[..k + 1]
    ensures forall j :: k < j < |Players| ==> Players[j] !in ResolutionProbes(Linux, true, available)
  {
    k := FirstAvailable(Players, available).value;
    PlayersDistinct();
  }

  /** With no candidate present on Linux, resolution fails after probing all five. */
  lemma LinuxNoPlayer(path: string, available: string -> bool)
    requires forall j :: 0 <= j < |Players| ==> !available(Players[j])
    ensures Resolve(Linux, path, true, available) == Err(NoPlayerFound)
    ensures ResolutionProbes(Linux, true, available) == Players
  {
  }

  /**
   * The path is one opaque token: replacing it leaves every other token of the
   * command as it was and puts the new path, unchanged, in the last place.
   * No token of the command is built from the path.
   */
  lemma PathIsOpaque(platform: string, path: string, other: string, fileExists: bool, available: string -> bool)
    requires Resolve(platform, path, fileExists, available).Ok?
    ensures Resolve(platform, other, fileExists, available).Ok?
    ensures var c := Resolve(platform, path, fileExists, available).value;
            Resolve(platform, other, fileExists, available).value == c[..|c| - 1] + [other]
  {
  }

  /**
   * A path that is not itself one of the fixed tokens occurs in the command
   * exactly once.
   */
  lemma PathOccursOnce(platform: string, path: string, fileExists: bool, available: string -> bool)
    requires path !in FixedTokens
    requires Resolve(platform, path, fileExists, available).Ok?
    ensures multiset(Resolve(platform, path, fileExists, available).value)[path] == 1
  {
  }
}
