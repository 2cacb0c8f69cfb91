/** The pre-flight checks of `src/helpers.rs`: the root-privilege check, the
    Arch-based-distribution check and the classification of the exit status
    of `pacman -T`. The process, file and user-database lookups the source
    performs are taken as inputs, so each check is a total function. */
module Helpers {
  import opened Wrappers
  import opened RustStr

  /** A Unix user id (`uid_t`, an unsigned 32-bit integer). */
  newtype Uid = x: int | 0 <= x < 0x1_0000_0000

  /** The user record `get_user_by_uid` finds; only its presence matters. */
  datatype User = User(name: string)

  /** What `Command::output` gives back for `pacman -T`: the exit code
      (`None` when the process was killed by a signal) and the two output
      streams, already decoded to text. */
  datatype PacmanOutput = PacmanOutput(code: Option<int>, stdout: string, stderr: string)

  /** The errors the helpers return, one per `anyhow!` / `context` site. */
  datatype Error =
    | UnknownUser(uid: Uid)            // no user record for the current uid
    | NotRoot                          // a known user other than root
    | OsReleaseUnreadable(cause: string) // `/etc/os-release` could not be read
    | NotArchBased                     // os-release does not mention "arch"
    | SpawnFailed(cause: string)       // `pacman` could not be started
    | KilledBySignal                   // `pacman -T` has no exit code
    | PacmanFatal(stderr: string)      // any exit code other than 0 and 127

  /** The exit code `pacman -T` uses when some dependencies are unmet. */
  const UnmetCode := 127

  const DistroMessage := "Your distro is probably not an Arch-based distro, rah shouldn't be used on it. If untrue, please file an issue here https://github.com/kStor2poche/rah/issues\nAborting..."

  /** Decimal rendering of a natural number, as `format!` prints it. */
  function Decimal(n: nat): (s: string)
    ensures |s| > 0
    ensures forall i :: 0 <= i < |s| ==> '0' <= s[i] <= '9'
  {
    var digit := ['0' + (n % 10) as char];
    if n < 10 then digit else Decimal(n / 10) + digit
  }

  /** The number a string of decimal digits denotes, most significant
      digit first. */
  function DigitsValue(s: string): nat
  {
    if s == [] then 0
    else
      var d := s[|s| - 1] as int - '0' as int;
      DigitsValue(s[..|s| - 1]) * 10 + (if 0 <= d then d else 0)
  }

  /** `Decimal` renders exactly the number it is given, without a leading
      zero. */
  lemma {:induction false} DecimalValue(n: nat)
    ensures DigitsValue(Decimal(n)) == n
    ensures n > 0 ==> Decimal(n)[0] != '0'
  {
    var digit := ['0' + (n % 10) as char];
    if n >= 10 {
      DecimalValue(n / 10);
      var s := Decimal(n / 10) + digit;
      assert s[..|s| - 1] == Decimal(n / 10);
    }
  }

  /** The text each error displays. */
  function Message(e: Error): (m: string)
  {
    match e
    case UnknownUser(uid) => "Cannot identify current user (uid " + Decimal(uid as nat) + "), aborting..."
    case NotRoot => "Program should be run as root, please launch it again with your favourite privilege escalation method !"
    case OsReleaseUnreadable(_) => DistroMessage
    case NotArchBased => DistroMessage
    case SpawnFailed(cause) => cause
    case KilledBySignal => "Pacman command did not exit or was killed by a signal"
    case PacmanFatal(stderr) => "Pacman returned a fatal error : " + stderr
  }

  /** `require_root`: the current uid must belong to a known user, and that
      user must be root. The user lookup comes first, so an unknown uid is
      reported as such even when it is 0. */
  function RequireRoot(uid: Uid, user: Option<User>): (r: Result<(), Error>)
    ensures r.Ok? <==> user.Some? && uid == 0
    ensures user.None? ==> r == Err(UnknownUser(uid))
    ensures user.Some? && uid != 0 ==> r == Err(NotRoot)
  {
    if user.None? then Err(UnknownUser(uid))
    else if uid != 0 then Err(NotRoot)
    else Ok(())
  }

  /** `check_exec_context`: the run goes on only on a system whose
      `/etc/os-release` can be read and mentions "arch" somewhere. */
  function CheckExecContext(osRelease: Result<string, string>): (r: Result<(), Error>)
    ensures r.Ok? <==> osRelease.Ok? && exists i :: OccursAt(osRelease.value, "arch", i)
    ensures osRelease.Err? ==> r == Err(OsReleaseUnreadable(osRelease.error))
    ensures osRelease.Ok? && r.Err? ==> r.error == NotArchBased
  {
    match osRelease
    case Err(cause) => Err(OsReleaseUnreadable(cause))
    case Ok(data) =>
      ContainsIff(data, "arch");
      if !Contains(data, "arch") then Err(NotArchBased) else Ok(())
  }

  /** `check_deps`: classify the outcome of `pacman -T <deps>`. Exit code 0
      means every dependency is satisfied; exit code 127 means the unmet
      ones are listed on stdout, one per line; anything else is an error. */
  function CheckDeps(run: Result<PacmanOutput, string>): (r: Result<seq<string>, Error>)
    ensures r.Ok? <==> run.Ok? && run.value.code in {Some(0), Some(UnmetCode)}
    ensures run.Ok? && run.value.code == Some(0) ==> r == Ok([])
  {
    match run
    case Err(cause) => Err(SpawnFailed(cause))
    case Ok(out) =>
      match out.code
      case None => Err(KilledBySignal)
      case Some(code) =>
        if code == UnmetCode then Ok(Split(out.stdout, '\n'))
        else if code == 0 then Ok([])
        else Err(PacmanFatal(out.stderr))
  }

  /** With exit code 127 the unmet dependencies are the lines of stdout:
      none holds a newline, there is one more of them than stdout has
      newlines (so a trailing newline gives a trailing empty entry), and
      joining them with newlines gives stdout back. */
  lemma UnmetAreLines(out: PacmanOutput)
    requires out.code == Some(UnmetCode)
    ensures CheckDeps(Ok(out)).Ok?
    ensures var unmet := CheckDeps(Ok(out)).value;
      && |unmet| == Count(out.stdout, '\n') + 1
      && (forall i :: 0 <= i < |unmet| ==> '\n' !in unmet[i])
      && Join(unmet, '\n') == out.stdout
  {
    JoinSplit(out.stdout, '\n');
  }

  /** The three error cases of `check_deps`, each with what it carries. */
  lemma CheckDepsErrors(run: Result<PacmanOutput, string>)
    ensures run.Err? ==> CheckDeps(run) == Err(SpawnFailed(run.error))
    ensures run.Ok? && run.value.code.None? ==> CheckDeps(run) == Err(KilledBySignal)
    ensures run.Ok? && run.value.code.Some? && run.value.code.value !in {0, UnmetCode}
      ==> CheckDeps(run) == Err(PacmanFatal(run.value.stderr))
  {
  }
}
